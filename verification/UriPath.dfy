/**
 From a request path to Uri-Path options and back (iotx_split_path_2_option and the option part of
 IOT_CoAP_SendMessage in coap_cloud/iotx_coap_api.c). A path is a C string without its terminator.
 */
module UriPath {
  import opened Words
  import opened CoapWire
  import opened CoapMessage

  const SLASH: byte := 0x2F
  const URI_MAX_LEN := 135
  const MAX_SEGMENT := 127  // COAP_MSG_MAX_PATH_LEN less the terminator
  const OPTION_URI_PATH: uint16 := 11
  const OPTION_CONTENT_FORMAT: uint16 := 12
  const OPTION_ACCEPT: uint16 := 17
  const OPTION_AUTH_TOKEN: uint16 := 61
  const OPTION_SEQ: uint16 := 2089
  const CT_OCTET_STREAM: uint32 := 42
  const CT_JSON: uint32 := 50
  const CT_CBOR: uint32 := 60

  function NonEmpty(seg: seq<byte>): seq<seq<byte>> {
    if seg == [] then [] else [seg]
  }

  // The non-empty pieces between slashes; `cur` is the piece read so far.
  function SegmentsFrom(cur: seq<byte>, s: seq<byte>): seq<seq<byte>>
    decreases |s|
  {
    if s == [] then NonEmpty(cur)
    else if s[0] == SLASH then NonEmpty(cur) + SegmentsFrom([], s[1..])
    else SegmentsFrom(cur + [s[0]], s[1..])
  }

  function Segments(uri: seq<byte>): seq<seq<byte>> {
    SegmentsFrom([], uri)
  }

  // ---------------------------------------------------------------- what the segments are

  predicate IsSegment(seg: seq<byte>) {
    seg != [] && SLASH !in seg
  }

  predicate AllSegments(segs: seq<seq<byte>>) {
    forall i :: 0 <= i < |segs| ==> IsSegment(segs[i])
  }

  function Join(segs: seq<seq<byte>>): seq<byte> {
    if segs == [] then [] else [SLASH] + segs[0] + Join(segs[1..])
  }

  // The path without the slashes that are followed by another slash or by nothing.
  function Collapse(s: seq<byte>): seq<byte> {
    if s == [] then []
    else if s[0] == SLASH && (|s| == 1 || s[1] == SLASH) then Collapse(s[1..])
    else [s[0]] + Collapse(s[1..])
  }

  lemma {:induction false} CollapsePrefix(cur: seq<byte>, s: seq<byte>)
    requires SLASH !in cur
    ensures Collapse(cur + s) == cur + Collapse(s)
  {
    if cur == [] {
      assert cur + s == s;
    } else {
      assert cur[0] in cur;
      assert (cur + s)[1..] == cur[1..] + s;
      CollapsePrefix(cur[1..], s);
    }
  }

  lemma {:induction false} SegmentsValid(cur: seq<byte>, s: seq<byte>)
    requires SLASH !in cur
    ensures AllSegments(SegmentsFrom(cur, s))
    decreases |s|
  {
    if s != [] {
      if s[0] == SLASH {
        SegmentsValid([], s[1..]);
      } else {
        SegmentsValid(cur + [s[0]], s[1..]);
      }
    }
  }

  lemma CollapseSlash(cur: seq<byte>, s: seq<byte>)
    requires SLASH !in cur
    ensures cur != [] ==> Collapse([SLASH] + (cur + s)) == [SLASH] + cur + Collapse(s)
    ensures cur == [] && (s == [] || s[0] == SLASH) ==> Collapse([SLASH] + (cur + s)) == Collapse(s)
  {
    var t := [SLASH] + (cur + s);
    assert t[1..] == cur + s;
    CollapsePrefix(cur, s);
    if cur != [] {
      assert cur[0] in cur && t[1] == cur[0];
    } else {
      assert cur + s == s;
    }
  }

  lemma {:induction false} JoinSegmentsFrom(cur: seq<byte>, s: seq<byte>)
    requires SLASH !in cur
    ensures Join(SegmentsFrom(cur, s)) == Collapse([SLASH] + (cur + s))
    decreases |s|
  {
    if s == [] {
      CollapseSlash(cur, s);
    } else if s[0] == SLASH {
      hide Collapse;
      CollapseSlash(cur, s);
      JoinSegmentsFrom([], s[1..]);
      assert [SLASH] + ([] + s[1..]) == s;
      var rest := SegmentsFrom([], s[1..]);
      assert cur != [] ==> (NonEmpty(cur) + rest)[1..] == rest;
      assert cur == [] ==> NonEmpty(cur) + rest == rest;
    } else {
      hide Collapse, Join;
      JoinSegmentsFrom(cur + [s[0]], s[1..]);
      assert cur + [s[0]] + s[1..] == cur + s;
    }
  }

  // Joining the segments gives the path with one leading slash and no repeated or trailing ones.
  lemma JoinSegments(uri: seq<byte>)
    ensures forall i :: 0 <= i < |Segments(uri)| ==> Segments(uri)[i] != [] && '/' as int !in Segments(uri)[i]
    ensures Join(Segments(uri)) == Collapse([SLASH] + uri)
  {
    SegmentsValid([], uri);
    assert forall i :: 0 <= i < |Segments(uri)| ==> IsSegment(Segments(uri)[i]);
    JoinSegmentsFrom([], uri);
    assert [] + uri == uri;
  }

  lemma {:induction false} SegmentsStep(cur: seq<byte>, seg: seq<byte>, s: seq<byte>)
    requires SLASH !in seg
    ensures SegmentsFrom(cur, seg + s) == SegmentsFrom(cur + seg, s)
    decreases |seg|
  {
    if seg == [] {
      assert seg + s == s && cur + seg == cur;
    } else {
      assert seg[0] in seg;
      assert (seg + s)[1..] == seg[1..] + s;
      SegmentsStep(cur + [seg[0]], seg[1..], s);
      assert cur + [seg[0]] + seg[1..] == cur + seg;
    }
  }

  // Splitting a joined path gives the segments back.
  lemma {:induction false} SegmentsJoin(cur: seq<byte>, segs: seq<seq<byte>>)
    requires AllSegments(segs)
    ensures SegmentsFrom(cur, Join(segs)) == NonEmpty(cur) + segs
    decreases |segs|
  {
    if segs != [] {
      var rest := Join(segs[1..]);
      assert IsSegment(segs[0]);
      assert Join(segs) == [SLASH] + (segs[0] + rest);
      assert Join(segs)[1..] == segs[0] + rest;
      SegmentsStep([], segs[0], rest);
      assert [] + segs[0] == segs[0];
      SegmentsJoin(segs[0], segs[1..]);
      assert NonEmpty(cur) + ([segs[0]] + segs[1..]) == NonEmpty(cur) + segs;
    }
  }

  // ---------------------------------------------------------------- what the splitter emits

  // A piece that a slash ends is copied whole, so it has to fit the buffer; the last piece is cut.
  predicate PiecesFit(cur: seq<byte>, s: seq<byte>)
    decreases |s|
  {
    if s == [] then true
    else if s[0] == SLASH then |cur| <= MAX_SEGMENT && PiecesFit([], s[1..])
    else PiecesFit(cur + [s[0]], s[1..])
  }

  function EmittedFrom(cur: seq<byte>, s: seq<byte>): seq<seq<byte>>
    decreases |s|
  {
    if s == [] then NonEmpty(cur[..Min(|cur|, MAX_SEGMENT)])
    else if s[0] == SLASH then NonEmpty(cur) + EmittedFrom([], s[1..])
    else EmittedFrom(cur + [s[0]], s[1..])
  }

  predicate Short(segs: seq<seq<byte>>) {
    forall i :: 0 <= i < |segs| ==> |segs[i]| <= MAX_SEGMENT
  }

  // Exactly the segments, exactly when none is longer than the buffer.
  lemma {:induction false} EmittedExact(cur: seq<byte>, s: seq<byte>)
    requires PiecesFit(cur, s)
    ensures EmittedFrom(cur, s) == SegmentsFrom(cur, s) <==> Short(SegmentsFrom(cur, s))
    decreases |s|
  {
    if s == [] {
      if |cur| > MAX_SEGMENT {
        assert NonEmpty(cur)[0] == cur;
        assert NonEmpty(cur[..MAX_SEGMENT])[0] == cur[..MAX_SEGMENT];
      } else {
        assert cur[..Min(|cur|, MAX_SEGMENT)] == cur;
      }
    } else if s[0] == SLASH {
      EmittedExact([], s[1..]);
      var h, a, b := NonEmpty(cur), EmittedFrom([], s[1..]), SegmentsFrom([], s[1..]);
      assert h + a == h + b <==> a == b by {
        assert (h + a)[|h|..] == a && (h + b)[|h|..] == b;
      }
      assert Short(h + b) <==> Short(b) by {
        assert forall i :: 0 <= i < |b| ==> (h + b)[|h| + i] == b[i];
      }
    } else {
      EmittedExact(cur + [s[0]], s[1..]);
    }
  }

  // Each piece emitted is its segment, cut at 127 bytes.
  lemma {:induction false} EmittedCut(cur: seq<byte>, s: seq<byte>, i: nat)
    requires PiecesFit(cur, s) && i < |EmittedFrom(cur, s)|
    ensures i < |SegmentsFrom(cur, s)|
    ensures EmittedFrom(cur, s)[i] == var seg := SegmentsFrom(cur, s)[i]; if |seg| > 127 then seg[..127] else seg
    decreases |s|
  {
    if s == [] {
      assert NonEmpty(cur) == [cur];
    } else if s[0] == SLASH {
      var n := |NonEmpty(cur)|;
      if i >= n {
        EmittedCut([], s[1..], i - n);
      }
    } else {
      EmittedCut(cur + [s[0]], s[1..], i);
    }
  }

  // The inner pieces fit if no segment is too long, and only if none before the last is.
  lemma {:induction false} PiecesFitIf(cur: seq<byte>, s: seq<byte>)
    ensures Short(SegmentsFrom(cur, s)) ==> PiecesFit(cur, s)
    ensures PiecesFit(cur, s) ==> forall i :: 0 <= i < |SegmentsFrom(cur, s)| - 1 ==> |SegmentsFrom(cur, s)[i]| <= 127
    decreases |s|
  {
    if s == [] {
    } else if s[0] == SLASH {
      PiecesFitIf([], s[1..]);
      var h, b := NonEmpty(cur), SegmentsFrom([], s[1..]);
      assert Short(h + b) ==> Short(b) by {
        assert forall i :: 0 <= i < |b| ==> (h + b)[|h| + i] == b[i];
      }
      assert cur != [] ==> (h + b)[0] == cur;
      assert forall i :: |h| <= i < |h + b| ==> (h + b)[i] == b[i - |h|];
    } else {
      PiecesFitIf(cur + [s[0]], s[1..]);
    }
  }

  function UriOpts(segs: seq<seq<byte>>): (os: seq<Opt>)
    ensures |os| == |segs|
    ensures forall i :: 0 <= i < |segs| ==> os[i] == Opt(OPTION_URI_PATH, segs[i])
  {
    seq(|segs|, i requires 0 <= i < |segs| => Opt(OPTION_URI_PATH, segs[i]))
  }

  // What n free places hold of the options someone tries to add.
  function Room(os: seq<Opt>, n: nat): seq<Opt> {
    os[..Min(|os|, n)]
  }

  lemma RoomAppend(os: seq<Opt>, o: Opt, n: nat)
    ensures Room(os + [o], n) == if |os| < n then Room(os, n) + [o] else Room(os, n)
  {
  }

  method AddSegment(message: CoAPMessage, seg: seq<byte>, ghost base: seq<Opt>, ghost done: seq<seq<byte>>)
    requires message.Built() && |seg| <= MAX_SEGMENT
    requires |base| <= MAX_OPTION_NUM && message.added == base + Room(UriOpts(done), MAX_OPTION_NUM - |base|)
    modifies message`optcount, message`optdelta, message`added, message.options
    ensures message.Built()
    ensures message.added == base + Room(UriOpts(done + [seg]), MAX_OPTION_NUM - |base|)
  {
    CountAdded(message);
    assert UriOpts(done + [seg]) == UriOpts(done) + [Opt(OPTION_URI_PATH, seg)];
    RoomAppend(UriOpts(done), Opt(OPTION_URI_PATH, seg), MAX_OPTION_NUM - |base|);
    var _ := message.StrOptionAdd(OPTION_URI_PATH, seg);
  }

  lemma CountAdded(message: CoAPMessage)
    requires message.Built()
    ensures message.optcount as int == |message.added|
  {
    assert |message.options[..message.optcount]| == message.optcount as int;
  }

  // Errors of the add function are ignored: segments that find no free place are dropped.
  method SplitPath2Option(uri: seq<byte>, message: CoAPMessage) returns (r: Status)
    requires message.Built() && PiecesFit([], uri)
    modifies message`optcount, message`optdelta, message`added, message.options
    ensures message.Built()
    ensures r == if |uri| <= 135 then Success else InvalidLength
    ensures message.added == if |uri| <= URI_MAX_LEN
      then old(message.added) + Room(UriOpts(EmittedFrom([], uri)), MAX_OPTION_NUM - |old(message.added)|)
      else old(message.added)
  {
    if URI_MAX_LEN < |uri| {
      return InvalidLength;
    }
    CountAdded(message);
    ghost var base, done: seq<seq<byte>> := message.added, [];
    hide UriOpts, Room, CoAPMessage.Built, Walked, EmittedFrom, PiecesFit, LastPiece;
    WalkStart(uri);
    NoOpts(base, MAX_OPTION_NUM - |base|);
    var ptr: nat, pstr: nat := 0, 0;
    while ptr < |uri|
      invariant pstr <= ptr <= |uri| && Walked(uri, pstr, ptr, done)
      invariant message.Built() && message.added == base + Room(UriOpts(done), MAX_OPTION_NUM - |base|)
    {
      pstr, done := SplitAt(uri, message, pstr, ptr, base, done);
      ptr := ptr + 1;
    }
    WalkEnd(uri, pstr, ptr, done);
    return Success;
  }

  // The body of the walk at character ptr.
  method SplitAt(uri: seq<byte>, message: CoAPMessage, start: nat, ptr: nat,
                 ghost base: seq<Opt>, ghost before: seq<seq<byte>>)
    returns (pstr: nat, ghost done: seq<seq<byte>>)
    requires start <= ptr < |uri| && Walked(uri, start, ptr, before)
    requires |base| <= MAX_OPTION_NUM
    requires message.Built() && message.added == base + Room(UriOpts(before), MAX_OPTION_NUM - |base|)
    modifies message`optcount, message`optdelta, message`added, message.options
    ensures pstr <= ptr + 1 && Walked(uri, pstr, ptr + 1, done)
    ensures message.Built() && message.added == base + Room(UriOpts(done), MAX_OPTION_NUM - |base|)
  {
    hide UriOpts, Room, CoAPMessage.Built, Walked, LastPiece;
    WalkStep(uri, start, ptr, before);
    pstr, done := start, before;
    if SLASH == uri[ptr] {
      if ptr != pstr {
        AddSegment(message, uri[pstr..ptr], base, done);
        done := done + [uri[pstr..ptr]];
      }
      pstr := ptr + 1;
    }
    if ptr + 1 == |uri| && pstr < |uri| {
      var last := LastPiece(uri, pstr);
      AddSegment(message, last, base, done);
      done := done + [last];
    }
  }

  // What strncpy takes of the piece at the end of the path.
  function LastPiece(uri: seq<byte>, pstr: nat): (s: seq<byte>)
    requires pstr <= |uri|
    ensures |s| <= MAX_SEGMENT
  {
    uri[pstr..][..Min(|uri| - pstr, MAX_SEGMENT)]
  }

  // At character ptr, with the current piece starting at pstr and `done` already emitted.
  predicate Walked(uri: seq<byte>, pstr: nat, ptr: nat, done: seq<seq<byte>>)
    requires pstr <= ptr <= |uri|
  {
    && (ptr < |uri| ==> PiecesFit(uri[pstr..ptr], uri[ptr..]))
    && EmittedFrom([], uri) == if ptr < |uri| then done + EmittedFrom(uri[pstr..ptr], uri[ptr..]) else done
  }

  lemma NoOpts(base: seq<Opt>, n: nat)
    ensures base + Room(UriOpts([]), n) == base
  {
  }

  lemma WalkStart(uri: seq<byte>)
    requires PiecesFit([], uri)
    ensures Walked(uri, 0, 0, [])
  {
    assert uri[0..0] == [] && uri[0..] == uri;
  }

  lemma WalkEnd(uri: seq<byte>, pstr: nat, ptr: nat, done: seq<seq<byte>>)
    requires pstr <= ptr == |uri| && Walked(uri, pstr, ptr, done)
    ensures EmittedFrom([], uri) == done
  {
  }

  lemma EmittedStep(cur: seq<byte>, s: seq<byte>)
    ensures s == [] ==> EmittedFrom(cur, s) == NonEmpty(cur[..Min(|cur|, MAX_SEGMENT)])
    ensures s != [] && s[0] == SLASH ==>
      && EmittedFrom(cur, s) == NonEmpty(cur) + EmittedFrom([], s[1..])
      && PiecesFit(cur, s) == (|cur| <= MAX_SEGMENT && PiecesFit([], s[1..]))
    ensures s != [] && s[0] != SLASH ==>
      && EmittedFrom(cur, s) == EmittedFrom(cur + [s[0]], s[1..])
      && PiecesFit(cur, s) == PiecesFit(cur + [s[0]], s[1..])
  {
  }

  // One character of the walk: a slash ends the piece before it, and so does the end of the path.
  lemma WalkStep(uri: seq<byte>, pstr: nat, ptr: nat, done: seq<seq<byte>>)
    requires pstr <= ptr < |uri| && Walked(uri, pstr, ptr, done)
    ensures uri[ptr] == SLASH ==> ptr - pstr <= MAX_SEGMENT
    ensures var done' := if uri[ptr] == SLASH && ptr != pstr then done + [uri[pstr..ptr]] else done;
      var pstr' := if uri[ptr] == SLASH then ptr + 1 else pstr;
      Walked(uri, pstr', ptr + 1, if ptr + 1 == |uri| && pstr' < |uri| then done' + [LastPiece(uri, pstr')] else done')
  {
    hide EmittedFrom, PiecesFit;
    var cur := uri[pstr..ptr];
    assert uri[ptr..][1..] == uri[ptr + 1..];
    EmittedStep(cur, uri[ptr..]);
    if uri[ptr] == SLASH {
      assert uri[ptr + 1..ptr + 1] == [];
      Associative(done, NonEmpty(cur), EmittedFrom([], uri[ptr + 1..]));
      EmittedStep([], []);
    } else {
      assert uri[pstr..ptr + 1] == cur + [uri[ptr]];
      if ptr + 1 == |uri| {
        assert uri[ptr + 1..] == [] && uri[pstr..] == cur + [uri[ptr]];
        EmittedStep(cur + [uri[ptr]], []);
        assert EmittedFrom(cur + [uri[ptr]], []) == [LastPiece(uri, pstr)];
      }
    }
  }

  // ---------------------------------------------------------------- the options of a request

  function RequestTail(cbor: bool, auth: seq<byte>, seqOpt: Option<seq<byte>>): seq<Opt> {
    [Opt(OPTION_CONTENT_FORMAT, UintBytes(if cbor then CT_CBOR else CT_JSON)),
     Opt(OPTION_ACCEPT, UintBytes(CT_OCTET_STREAM)),
     Opt(OPTION_AUTH_TOKEN, auth)]
    + if seqOpt.Some? then [Opt(OPTION_SEQ, seqOpt.value)] else []
  }

  function RequestOpts(uri: seq<byte>, cbor: bool, auth: seq<byte>, seqOpt: Option<seq<byte>>): seq<Opt> {
    UriOpts(EmittedFrom([], uri)) + RequestTail(cbor, auth, seqOpt)
  }

  // The options of a request behind those of its path, in numbers and bytes: content format 60 for CBOR and
  // 50 for JSON, accept 42, the authentication token, and the sequence number if there is one.
  lemma RequestExact(uri: seq<byte>, cbor: bool, auth: seq<byte>, seqOpt: Option<seq<byte>>)
    ensures RequestOpts(uri, cbor, auth, seqOpt) ==
            UriOpts(EmittedFrom([], uri))
            + [Opt(12, [if cbor then 60 else 50]), Opt(17, [42]), Opt(61, auth)]
            + (if seqOpt.Some? then [Opt(2089, seqOpt.value)] else [])
  {
    hide UriOpts, EmittedFrom;
    assert UintBytes(60) == [60] && UintBytes(50) == [50] && UintBytes(42) == [42];
    var a, b := UriOpts(EmittedFrom([], uri)), [Opt(12, [if cbor then 60 else 50]), Opt(17, [42]), Opt(61, auth)];
    Associative(a, b, if seqOpt.Some? then [Opt(2089, seqOpt.value)] else []);
  }

  // A path option has the number 11; the first twelve options find a place.
  lemma RoomExact(os: seq<Opt>, segs: seq<seq<byte>>)
    ensures Room(os, 12) == if |os| <= 12 then os else os[..12]
    ensures |UriOpts(segs)| == |segs| && forall i :: 0 <= i < |segs| ==> UriOpts(segs)[i] == Opt(11, segs[i])
  {
  }

  lemma RoomRoom(a: seq<Opt>, b: seq<Opt>, n: nat)
    ensures Room(Room(a, n) + b, n) == Room(a + b, n)
  {
  }

  // One more option, if there is a place for it.
  method AddStr(message: CoAPMessage, num: uint16, val: seq<byte>)
    requires message.Built() && |val| < 0x1_0000
    modifies message`optcount, message`optdelta, message`added, message.options
    ensures message.Built() && message.added == Room(old(message.added) + [Opt(num, val)], MAX_OPTION_NUM)
  {
    CountAdded(message);
    var _ := message.StrOptionAdd(num, val);
  }

  method AddUint(message: CoAPMessage, num: uint16, v: uint32)
    requires message.Built()
    modifies message`optcount, message`optdelta, message`added, message.options
    ensures message.Built()
    ensures message.added == Room(old(message.added) + [Opt(num, UintBytes(v))], MAX_OPTION_NUM)
  {
    CountAdded(message);
    var _ := message.UintOptionAdd(num, v);
  }

  // The order in which IOT_CoAP_SendMessage adds its options; it does not look at what they return.
  method AddRequestOptions(message: CoAPMessage, uri: seq<byte>, cbor: bool, auth: seq<byte>,
                           seqOpt: Option<seq<byte>>) returns (r: Status)
    requires message.Built() && message.added == [] && PiecesFit([], uri)
    requires |auth| < 0x1_0000 && (seqOpt.Some? ==> |seqOpt.value| < 0x1_0000)
    modifies message`optcount, message`optdelta, message`added, message.options
    ensures message.Built()
    ensures r == if |uri| <= URI_MAX_LEN then Success else InvalidLength
    ensures r == Success ==> message.added == Room(RequestOpts(uri, cbor, auth, seqOpt), MAX_OPTION_NUM)
  {
    hide CoAPMessage.Built, UintBytes, Room, UriOpts, EmittedFrom, PiecesFit;
    r := SplitPath2Option(uri, message);
    if r != Success {
      return r;
    }
    ghost var path := UriOpts(EmittedFrom([], uri));
    assert message.added == Room(path, MAX_OPTION_NUM);
    var ct := if cbor then CT_CBOR else CT_JSON;
    ghost var o1, o2 := Opt(OPTION_CONTENT_FORMAT, UintBytes(ct)), Opt(OPTION_ACCEPT, UintBytes(CT_OCTET_STREAM));
    ghost var o3 := Opt(OPTION_AUTH_TOKEN, auth);
    AddUint(message, OPTION_CONTENT_FORMAT, ct);
    RoomRoom(path, [o1], MAX_OPTION_NUM);
    AddUint(message, OPTION_ACCEPT, CT_OCTET_STREAM);
    RoomRoom(path + [o1], [o2], MAX_OPTION_NUM);
    AddStr(message, OPTION_AUTH_TOKEN, auth);
    RoomRoom(path + [o1] + [o2], [o3], MAX_OPTION_NUM);
    assert path + [o1] + [o2] + [o3] == path + [o1, o2, o3];
    if seqOpt.Some? {
      AddStr(message, OPTION_SEQ, seqOpt.value);
      RoomRoom(path + [o1, o2, o3], [Opt(OPTION_SEQ, seqOpt.value)], MAX_OPTION_NUM);
      assert path + [o1, o2, o3] + [Opt(OPTION_SEQ, seqOpt.value)]
          == RequestOpts(uri, cbor, auth, seqOpt);
    } else {
      assert path + [o1, o2, o3] == RequestOpts(uri, cbor, auth, seqOpt);
    }
    return Success;
  }

  // Only the last option number a request can add is above 255, so every request keeps its numbers.
  lemma RequestNarrow(uri: seq<byte>, cbor: bool, auth: seq<byte>, seqOpt: Option<seq<byte>>, n: nat)
    ensures NarrowButLast(Room(RequestOpts(uri, cbor, auth, seqOpt), n))
  {
    hide UintBytes;
  }

  // ---------------------------------------------------------------- the path the server reads

  // The values of the Uri-Path options, in order.
  function PathSegments(os: seq<Opt>): seq<seq<byte>> {
    if os == [] then []
    else (if os[0].num == OPTION_URI_PATH then [os[0].val] else []) + PathSegments(os[1..])
  }

  lemma {:induction false} PathSegmentsOf(segs: seq<seq<byte>>, rest: seq<Opt>)
    requires forall i :: 0 <= i < |rest| ==> rest[i].num != OPTION_URI_PATH
    ensures PathSegments(UriOpts(segs) + rest) == segs
    decreases |segs| + |rest|
  {
    var os := UriOpts(segs) + rest;
    if segs != [] {
      assert os[1..] == UriOpts(segs[1..]) + rest;
      PathSegmentsOf(segs[1..], rest);
    } else if rest != [] {
      assert os == rest && os[1..] == UriOpts([]) + rest[1..];
      PathSegmentsOf([], rest[1..]);
    }
  }

  lemma {:induction false} EmittedSegments(cur: seq<byte>, s: seq<byte>)
    requires SLASH !in cur
    ensures AllSegments(EmittedFrom(cur, s))
    ensures |EmittedFrom(cur, s)| == |SegmentsFrom(cur, s)|
    decreases |s|
  {
    if s != [] {
      if s[0] == SLASH {
        EmittedSegments([], s[1..]);
      } else {
        EmittedSegments(cur + [s[0]], s[1..]);
      }
    }
  }

  // The path that arrives is the path that was asked for, up to repeated and trailing slashes, exactly
  // when it has at most twelve segments and none is longer than 127 bytes.
  lemma PathOverTheWire(m: Msg, uri: seq<byte>, cbor: bool, auth: seq<byte>, seqOpt: Option<seq<byte>>)
    requires ValidMsg(m) && |MsgBytes(m)| < 0x1_0000 && PiecesFit([], uri)
    requires m.options == Deltas(Room(RequestOpts(uri, cbor, auth, seqOpt), MAX_OPTION_NUM), 0)
    ensures Datagram(MsgBytes(m))
    ensures Join(PathSegments(ParsedMsg(MsgBytes(m)).options)) == Collapse([SLASH] + uri)
       <==> |Segments(uri)| <= MAX_OPTION_NUM && Short(Segments(uri))
  {
    hide MsgBytes, ValidMsg, Datagram, ParsedMsg, Join, Collapse, UintBytes, EmittedFrom, SegmentsFrom;
    var sent, tail := EmittedFrom([], uri), RequestTail(cbor, auth, seqOpt);
    var kept := sent[..Min(|sent|, MAX_OPTION_NUM)];
    var added := Room(UriOpts(sent) + tail, MAX_OPTION_NUM);
    RequestNarrow(uri, cbor, auth, seqOpt, MAX_OPTION_NUM);
    CodecInverse(m, added);
    var rest := added[|kept|..];
    assert added == UriOpts(kept) + rest;
    forall i | 0 <= i < |rest| ensures rest[i].num != OPTION_URI_PATH {
      assert rest[i] == tail[i];
    }
    PathSegmentsOf(kept, rest);
    EmittedSegments([], uri);
    EmittedExact([], uri);
    SegmentsValid([], uri);
    JoinSegments(uri);
    JoinInjective(kept, Segments(uri));
    if |sent| <= MAX_OPTION_NUM {
      assert kept == sent;
    }
  }

  lemma JoinInjective(a: seq<seq<byte>>, b: seq<seq<byte>>)
    requires AllSegments(a) && AllSegments(b)
    ensures Join(a) == Join(b) <==> a == b
  {
    SegmentsJoin([], a);
    SegmentsJoin([], b);
    assert NonEmpty([]) + a == a && NonEmpty([]) + b == b;
  }
}
