/**
 The cache of requests that wait for a reply (dev_model/dm_message_cache.c) and the bounded event queue
 its timeouts go into (dev_model/dm_ipc.c), one task at a time; Interleaving covers several.
 */
module MessageCache {
  import opened Words

  const MAXLEN := 50          // CONFIG_MSGCACHE_QUEUE_MAXLEN
  const TIMEOUT_MS := 10000   // DM_MSG_CACHE_TIMEOUT_MS_DEFAULT

  datatype Status = Success | Failure | InvalidParam

  datatype Entry = Entry(msgid: int, devid: int, kind: int, ctime: nat)

  /** The event that tells the user a request timed out. */
  datatype Timeout = Timeout(msgid: int, devid: int, kind: int)

  // ---------------------------------------------------------------- a tick over values

  // A creation time ahead of the clock is pulled back to it.
  function Clamp(e: Entry, now: nat): Entry {
    if now < e.ctime then e.(ctime := now) else e
  }

  predicate Due(e: Entry, now: nat) {
    now - Clamp(e, now).ctime >= TIMEOUT_MS
  }

  function Remaining(es: seq<Entry>, now: nat): seq<Entry> {
    if es == [] then []
    else
      var e := es[|es| - 1];
      Remaining(es[..|es| - 1], now) + if Due(e, now) then [] else [Clamp(e, now)]
  }

  // The events a tick raises, in list order.
  function Raised(es: seq<Entry>, now: nat): seq<Timeout> {
    if es == [] then []
    else
      var e := es[|es| - 1];
      Raised(es[..|es| - 1], now) + if Due(e, now) then [Timeout(e.msgid, e.devid, e.kind)] else []
  }

  // What a queue with this bound holds after events were offered to it one by one.
  function Offered(q: seq<Timeout>, maxSize: int, evs: seq<Timeout>): seq<Timeout> {
    q + evs[..Min(|evs|, if maxSize > |q| then maxSize - |q| else 0)]
  }

  // After a tick every entry left is between zero and ten seconds old by this clock, whatever the
  // clock did before.
  lemma {:induction false} TickFresh(es: seq<Entry>, now: nat, e: Entry)
    requires e in Remaining(es, now)
    ensures 0 <= now - e.ctime < TIMEOUT_MS
  {
    if e in Remaining(es[..|es| - 1], now) {
      TickFresh(es[..|es| - 1], now, e);
    }
  }

  // Nothing is lost or doubled: each entry either stays or raises one event.
  lemma {:induction false} TickPartition(es: seq<Entry>, now: nat)
    ensures |es| == |Remaining(es, now)| + |Raised(es, now)|
  {
    if es != [] {
      TickPartition(es[..|es| - 1], now);
    }
  }

  // The order is kept: a tick on two lists end to end is the two ticks end to end.
  lemma {:induction false} TickConcat(a: seq<Entry>, b: seq<Entry>, now: nat)
    ensures Remaining(a + b, now) == Remaining(a, now) + Remaining(b, now)
    ensures Raised(a + b, now) == Raised(a, now) + Raised(b, now)
  {
    if b == [] {
      assert a + b == a;
    } else {
      assert (a + b)[..|a + b| - 1] == a + b[..|b| - 1];
      TickConcat(a, b[..|b| - 1], now);
    }
  }

  // Each entry has its own place in one of the two results, after those of the entries before it: one
  // less than ten seconds old stays, its creation time pulled back to the clock if it is ahead; any other
  // raises its event exactly once.
  lemma {:induction false} TickPlaces(es: seq<Entry>, now: nat, k: nat)
    requires k < |es|
    ensures |Remaining(es[..k], now)| + |Raised(es[..k], now)| == k
    ensures now < es[k].ctime + 10000 ==>
      var r := |Remaining(es[..k], now)|;
      r < |Remaining(es, now)| && Remaining(es, now)[r] == es[k].(ctime := Min(es[k].ctime, now))
    ensures now >= es[k].ctime + 10000 ==>
      var d := |Raised(es[..k], now)|;
      d < |Raised(es, now)| && Raised(es, now)[d] == Timeout(es[k].msgid, es[k].devid, es[k].kind)
  {
    PassedOne(es, k, now);
    TickPartition(es[..k], now);
    assert es == es[..k + 1] + es[k + 1..];
    TickConcat(es[..k + 1], es[k + 1..], now);
  }

  // Entries that are all fresh stay as they are.
  lemma {:induction false} TickStays(es: seq<Entry>, now: nat)
    requires forall e :: e in es ==> e.ctime <= now < e.ctime + TIMEOUT_MS
    ensures Remaining(es, now) == es && Raised(es, now) == []
  {
    if es != [] {
      TickStays(es[..|es| - 1], now);
    }
  }

  // A second tick at the same time finds nothing to do.
  lemma TickIdempotent(es: seq<Entry>, now: nat)
    ensures Remaining(Remaining(es, now), now) == Remaining(es, now)
    ensures Raised(Remaining(es, now), now) == []
  {
    forall e | e in Remaining(es, now) ensures e.ctime <= now < e.ctime + TIMEOUT_MS {
      TickFresh(es, now, e);
    }
    TickStays(Remaining(es, now), now);
  }

  // The queue keeps what it has, in front, and takes the events in order as far as there is room.
  lemma OfferedExact(q: seq<Timeout>, maxSize: int, evs: seq<Timeout>)
    ensures var r := Offered(q, maxSize, evs);
      && Taken(q, maxSize, evs, r)
      && (maxSize <= |q| ==> r == q)
      && (|q| + |evs| <= maxSize ==> r == q + evs)
  {
    var room := if maxSize > |q| then maxSize - |q| else 0;
    assert room == 0 ==> q + evs[..Min(|evs|, room)] == q;
    assert |evs| <= room ==> evs[..Min(|evs|, room)] == evs;
  }

  ghost predicate Taken(q: seq<Timeout>, maxSize: int, evs: seq<Timeout>, r: seq<Timeout>) {
    && |r| == |q| + (if |q| >= maxSize then 0 else if |evs| < maxSize - |q| then |evs| else maxSize - |q|)
    && r[..|q|] == q && forall i :: |q| <= i < |r| ==> r[i] == evs[i - |q|]
  }

  lemma OfferedNone(q: seq<Timeout>, maxSize: int)
    ensures Offered(q, maxSize, []) == q
  {
  }

  // Offering events in two batches or in one makes no difference.
  lemma OfferedConcat(q: seq<Timeout>, maxSize: int, a: seq<Timeout>, b: seq<Timeout>)
    ensures Offered(Offered(q, maxSize, a), maxSize, b) == Offered(q, maxSize, a + b)
  {
    var room := if maxSize > |q| then maxSize - |q| else 0;
    if |a| <= room {
      assert a[..Min(|a|, room)] == a;
      assert (a + b)[..Min(|a + b|, room)] == a + b[..Min(|b|, room - |a|)];
    } else {
      assert (a + b)[..room] == a[..room];
    }
  }

  // ---------------------------------------------------------------- runs

  datatype Op = Insert(e: Entry) | Remove(msgid: int) | Tick(now: nat)

  datatype Totals = Totals(list: seq<Entry>, inserted: nat, removed: nat, timedOut: nat)

  function FindEntry(es: seq<Entry>, msgid: int): (k: nat)
    ensures k <= |es|
    ensures k < |es| ==> es[k].msgid == msgid
    ensures forall i :: 0 <= i < k ==> es[i].msgid != msgid
  {
    FirstAt(es, (e: Entry) => e.msgid == msgid)
  }

  function Apply(s: Totals, op: Op): Totals {
    match op
    case Insert(e) =>
      if |s.list| >= MAXLEN then s else s.(list := s.list + [e], inserted := s.inserted + 1)
    case Remove(msgid) =>
      var k := FindEntry(s.list, msgid);
      if k < |s.list| then s.(list := RemoveAt(s.list, k), removed := s.removed + 1) else s
    case Tick(now) =>
      s.(list := Remaining(s.list, now), timedOut := s.timedOut + |Raised(s.list, now)|)
  }

  function Run(s: Totals, ops: seq<Op>): Totals
    decreases |ops|
  {
    if ops == [] then s else Run(Apply(s, ops[0]), ops[1..])
  }

  ghost predicate Conserved(s: Totals) {
    s.inserted == |s.list| + s.removed + s.timedOut && |s.list| <= MAXLEN
  }

  lemma TickConserves(s: Totals, now: nat)
    requires Conserved(s)
    ensures Conserved(Apply(s, Tick(now)))
  {
    TickPartition(s.list, now);
  }

  // Over every run, what was inserted is still listed, was removed, or timed out; the list keeps its bound.
  lemma {:induction false} RunConserves(s: Totals, ops: seq<Op>)
    requires Conserved(s)
    ensures Conserved(Run(s, ops))
    decreases |ops|
  {
    if ops != [] {
      if ops[0].Tick? {
        TickConserves(s, ops[0].now);
      }
      RunConserves(Apply(s, ops[0]), ops[1..]);
    }
  }

  // An entry outlives every tick that comes within ten seconds of the earliest time the clock has shown.
  function Earliest(c: nat, times: seq<nat>): nat {
    if times == [] then c else Earliest(Min(c, times[0]), times[1..])
  }

  predicate Survives(c: nat, times: seq<nat>) {
    times == [] || (times[0] - Min(c, times[0]) < TIMEOUT_MS && Survives(Min(c, times[0]), times[1..]))
  }

  function Ticks(es: seq<Entry>, times: seq<nat>): seq<Entry>
    decreases |times|
  {
    if times == [] then es else Ticks(Remaining(es, times[0]), times[1..])
  }

  lemma {:induction false} EntryLife(e: Entry, times: seq<nat>)
    ensures Ticks([e], times) == if Survives(e.ctime, times) then [e.(ctime := Earliest(e.ctime, times))] else []
    decreases |times|
  {
    if times != [] {
      var t := times[0];
      assert [e][..0] == [];
      assert Remaining([e], t) == (if Due(e, t) then [] else [Clamp(e, t)]);
      assert Clamp(e, t) == e.(ctime := Min(e.ctime, t));
      if Due(e, t) {
        TicksNone(times[1..]);
      } else {
        EntryLife(Clamp(e, t), times[1..]);
      }
    }
  }

  lemma {:induction false} TicksNone(times: seq<nat>)
    ensures Ticks([], times) == []
  {
    if times != [] {
      TicksNone(times[1..]);
    }
  }

  lemma {:induction false} TicksConcat(a: seq<Entry>, b: seq<Entry>, times: seq<nat>)
    ensures Ticks(a + b, times) == Ticks(a, times) + Ticks(b, times)
    decreases |times|
  {
    if times != [] {
      TickConcat(a, b, times[0]);
      TicksConcat(Remaining(a, times[0]), Remaining(b, times[0]), times[1..]);
    }
  }

  // The entries that survive these ticks, in order, with the earliest time they have seen.
  function Survivors(es: seq<Entry>, times: seq<nat>): seq<Entry> {
    if es == [] then []
    else
      var e := es[|es| - 1];
      Survivors(es[..|es| - 1], times)
      + if Survives(e.ctime, times) then [e.(ctime := Earliest(e.ctime, times))] else []
  }

  // Whatever the list and the clock readings: each entry lives or dies by its own creation time alone.
  lemma {:induction false} TicksFilter(es: seq<Entry>, times: seq<nat>)
    ensures Ticks(es, times) == Survivors(es, times)
    decreases |es|
  {
    if es == [] {
      TicksNone(times);
    } else {
      var front, e := es[..|es| - 1], es[|es| - 1];
      assert es == front + [e];
      TicksConcat(front, [e], times);
      TicksFilter(front, times);
      EntryLife(e, times);
    }
  }

  // ---------------------------------------------------------------- the event queue

  class IpcQueue {
    const maxSize: int
    var size: int
    var list: seq<Timeout>

    ghost predicate Valid()
      reads this
    {
      size == |list| && (size <= maxSize || size == 0)
    }

    lemma SizeReal()
      requires Valid()
      ensures size == |list|
    {
    }

    constructor (maxSize: int)
      ensures Valid() && list == [] && this.maxSize == maxSize
    {
      this.maxSize := maxSize;
      size, list := 0, [];
    }

    method MsgInsert(data: Timeout) returns (r: Status)
      requires Valid()
      modifies this
      ensures Valid()
      ensures r == if |old(list)| >= maxSize then Failure else Success
      ensures list == Offered(old(list), maxSize, [data])
      ensures r == Success ==> list == old(list) + [data] && size == old(size) + 1
      ensures r != Success ==> list == old(list) && size == old(size)
    {
      if size >= maxSize {
        return Failure;
      }
      size := size + 1;
      list := list + [data];
      return Success;
    }

    // `data` is what the caller's pointer holds before, `found` after; it has to be null before.
    method MsgNext(data: Option<Timeout>) returns (r: Status, found: Option<Timeout>)
      requires Valid()
      modifies this
      ensures Valid()
      ensures r == if data.Some? then InvalidParam else if old(list) == [] then Failure else Success
      ensures if r == Success then found == Some(old(list)[0]) && list == old(list)[1..]
              else found == data && list == old(list)
    {
      if data != None {
        return InvalidParam, data;
      }
      if list == [] {
        return Failure, data;
      }
      var node := list[0];
      list := list[1..];
      size := size - 1;
      return Success, Some(node);
    }
  }

  // ---------------------------------------------------------------- the cache

  class CacheNode {
    var msgid: int
    var devid: int
    var kind: int
    var ctime: nat

    ghost function View(): Entry
      reads this
    {
      Entry(msgid, devid, kind, ctime)
    }

    constructor (msgid: int, devid: int, kind: int, ctime: nat)
      ensures View() == Entry(msgid, devid, kind, ctime)
    {
      this.msgid, this.devid, this.kind, this.ctime := msgid, devid, kind, ctime;
    }
  }

  ghost predicate Within(list: seq<CacheNode>, nodes: seq<CacheNode>) {
    forall j :: 0 <= j < |list| ==> list[j] in nodes
  }

  class Cache {
    var list: seq<CacheNode>
    var listSize: int
    ghost var entries: seq<Entry>
    ghost var inserted: nat
    ghost var removed: nat
    ghost var timedOut: nat

    ghost predicate Valid()
      reads this, list
    {
      Linked() && Conserved(View())
    }

    ghost predicate Linked()
      reads this, list
    {
      && listSize == |list| == |entries|
      && (forall i, j :: 0 <= i < j < |list| ==> list[i] != list[j])
      && (forall i :: 0 <= i < |list| ==> list[i].View() == entries[i])
    }

    ghost function View(): Totals
      reads this
    {
      Totals(entries, inserted, removed, timedOut)
    }

    constructor ()
      ensures Valid() && View() == Totals([], 0, 0, 0)
    {
      list, listSize := [], 0;
      entries, inserted, removed, timedOut := [], 0, 0, 0;
    }

    // The entries the theorems speak of are the fields of the nodes on the list, and the size counts them.
    lemma EntriesReal(i: nat)
      requires Valid() && i < |entries|
      ensures listSize == |list| == |entries|
      ensures var n, e := list[i], entries[i];
        n.msgid == e.msgid && n.devid == e.devid && n.kind == e.kind && n.ctime == e.ctime
    {
      assert list[i].View() == entries[i];
    }

    method CacheInsert(msgid: int, devid: int, kind: int, now: nat) returns (r: Status)
      requires Valid()
      modifies this
      ensures Valid() && View() == Apply(old(View()), Insert(Entry(msgid, devid, kind, now)))
      ensures r == if |old(entries)| >= 50 then Failure else Success
      ensures r == Success ==> entries == old(entries) + [Entry(msgid, devid, kind, now)]
      ensures r == Success ==> inserted == old(inserted) + 1
      ensures r != Success ==> entries == old(entries)
    {
      if listSize >= MAXLEN {
        return Failure;
      }
      var node := new CacheNode(msgid, devid, kind, now);
      list := list + [node];
      listSize := listSize + 1;
      entries, inserted := entries + [node.View()], inserted + 1;
      return Success;
    }

    // `node` is what the caller's pointer holds before, `found` after; it has to be null before.
    method Search(msgid: int, node: CacheNode?) returns (r: Status, found: CacheNode?)
      requires Valid()
      ensures r == if msgid <= 0 || node != null then InvalidParam
                   else if FindEntry(entries, msgid) < |entries| then Success else Failure
      ensures found == if r == Success then list[FindEntry(entries, msgid)] else node
    {
      if msgid <= 0 || node != null {
        return InvalidParam, node;
      }
      var i := 0;
      while i < |list|
        invariant i <= |list| && forall j :: 0 <= j < i ==> entries[j].msgid != msgid
      {
        if list[i].msgid == msgid {
          assert FindEntry(entries, msgid) == i;
          return Success, list[i];
        }
        i := i + 1;
      }
      assert FindEntry(entries, msgid) == i;
      return Failure, null;
    }

    method TakeOff(i: nat)
      requires i < |list| && Linked()
      modifies this`list, this`listSize, this`entries
      ensures Linked() && Within(list, old(list))
      ensures list == RemoveAt(old(list), i) && entries == RemoveAt(old(entries), i)
    {
      list := RemoveAt(list, i);
      listSize := listSize - 1;
      entries := RemoveAt(entries, i);
    }

    method CacheRemove(msgid: int) returns (r: Status)
      requires Valid()
      modifies this
      ensures Valid() && View() == Apply(old(View()), Remove(msgid))
      ensures r == if FindEntry(old(entries), msgid) < |old(entries)| then Success else Failure
      ensures r == Success ==> var k := FindEntry(old(entries), msgid);
        entries == old(entries)[..k] + old(entries)[k + 1..] && removed == old(removed) + 1
      ensures r != Success ==> entries == old(entries)
    {
      var i := 0;
      while i < |list|
        invariant i <= |list| && forall j :: 0 <= j < i ==> entries[j].msgid != msgid
      {
        if list[i].msgid == msgid {
          assert FindEntry(entries, msgid) == i;
          TakeOff(i);
          removed := removed + 1;
          return Success;
        }
        i := i + 1;
      }
      assert FindEntry(entries, msgid) == i;
      return Failure;
    }

    // One node of the tick: a creation time ahead of the clock is pulled back, then a node that is too
    // old raises its event, whose loss to a full queue is not noticed, and is taken off.
    method TickStep(i: nat, now: nat, queue: IpcQueue) returns (gone: bool)
      requires i < |list| && Linked() && queue.Valid()
      modifies this, list[i], queue
      ensures Linked() && queue.Valid()
      ensures gone == Due(old(entries)[i], now)
      ensures inserted == old(inserted) && removed == old(removed)
      ensures timedOut == old(timedOut) + if gone then 1 else 0
      ensures Within(list, old(list))
      ensures entries == old(entries)[..i] + Remaining([old(entries)[i]], now) + old(entries)[i + 1..]
      ensures queue.list == Offered(old(queue.list), queue.maxSize, Raised([old(entries)[i]], now))
    {
      ghost var e := entries[i];
      assert [e][..0] == [];
      var node := list[i];
      if now < node.ctime {
        node.ctime := now;
      }
      entries := entries[i := Clamp(e, now)];
      assert Linked();
      gone := now - node.ctime >= TIMEOUT_MS;
      if gone {
        var ignored := queue.MsgInsert(Timeout(node.msgid, node.devid, node.kind));
        TakeOff(i);
        timedOut := timedOut + 1;
      }
    }

    // Where a tick stands after the first `done` of the entries it found, at list position i.
    ghost predicate TickAt(was: Totals, done: nat, now: nat, i: nat)
      requires done <= |was.list|
      reads this
    {
      && i == |Remaining(was.list[..done], now)|
      && View() == Totals(Remaining(was.list[..done], now) + was.list[done..], was.inserted, was.removed,
                          was.timedOut + |Raised(was.list[..done], now)|)
    }

    lemma TickAtStart(now: nat)
      ensures TickAt(View(), 0, now, 0) && Raised(entries[..0], now) == []
    {
      assert entries[0..] == entries;
    }

    lemma TickAtEnd(was: Totals, done: nat, now: nat, i: nat)
      requires done <= |was.list| && TickAt(was, done, now, i)
      ensures |was.list| - done == |entries| - i
      ensures done == |was.list| ==> was.list[..done] == was.list && View() == Apply(was, Tick(now))
    {
      if done == |was.list| {
        assert was.list[..done] == was.list && was.list[done..] == [];
      }
    }

    lemma TickAtHead(was: Totals, done: nat, now: nat, i: nat)
      requires done < |was.list| && TickAt(was, done, now, i)
      ensures i < |entries| && entries[i] == was.list[done]
      ensures entries[..i] == Remaining(was.list[..done], now) && entries[i + 1..] == was.list[done + 1..]
    {
    }

    // One round of the loop.
    method TickRound(i: nat, now: nat, queue: IpcQueue, ghost was: Totals, ghost done: nat,
                     ghost q: seq<Timeout>, ghost nodes: seq<CacheNode>) returns (next: nat)
      requires Within(list, nodes) && Linked() && queue.Valid() && done < |was.list| && TickAt(was, done, now, i)
      requires queue.list == Offered(q, queue.maxSize, Raised(was.list[..done], now))
      modifies this, nodes, queue
      ensures Within(list, nodes) && Linked() && queue.Valid()
      ensures |list| == |entries| && TickAt(was, done + 1, now, next)
      ensures queue.list == Offered(q, queue.maxSize, Raised(was.list[..done + 1], now))
    {
      hide Remaining, Raised, Offered, Due, Clamp;
      TickAtHead(was, done, now, i);
      PassedOne(was.list, done, now);
      OfferedConcat(q, queue.maxSize, Raised(was.list[..done], now), Raised([was.list[done]], now));
      var gone := TickStep(i, now, queue);
      next := if gone then i else i + 1;
    }

    method CacheTick(now: nat, queue: IpcQueue)
      requires Valid() && queue.Valid()
      modifies this, list, queue
      ensures Valid() && queue.Valid()
      ensures View() == Apply(old(View()), Tick(now))
      ensures queue.list == Offered(old(queue.list), queue.maxSize, Raised(old(entries), now))
      ensures Taken(old(queue.list), queue.maxSize, Raised(old(entries), now), queue.list)
    {
      OfferedExact(queue.list, queue.maxSize, Raised(entries, now));
      ghost var was, q: seq<Timeout>, nodes: seq<CacheNode> := View(), queue.list, list;
      ghost var done: nat := 0;
      var i: nat := 0;
      assert |list| == |entries| && Within(list, nodes);
      TickConserves(was, now);
      hide Raised, Offered, Taken, Apply, Conserved, TickAt, Cache.Linked, IpcQueue.Valid, Within;
      TickAtStart(now);
      TickAtEnd(was, done, now, i);
      OfferedNone(q, queue.maxSize);
      while i < |list|
        invariant Linked() && queue.Valid() && |list| == |entries|
        invariant done <= |was.list| && TickAt(was, done, now, i) && |was.list| - done == |entries| - i
        invariant queue.list == Offered(q, queue.maxSize, Raised(was.list[..done], now))
        invariant Within(list, nodes)
        decreases |was.list| - done
      {
        i := TickRound(i, now, queue, was, done, q, nodes);
        done := done + 1;
        TickAtEnd(was, done, now, i);
      }
      TickAtEnd(was, done, now, i);
    }
  }

  lemma PassedOne(es: seq<Entry>, done: nat, now: nat)
    requires done < |es|
    ensures Remaining(es[..done + 1], now) == Remaining(es[..done], now) + Remaining([es[done]], now)
    ensures Raised(es[..done + 1], now) == Raised(es[..done], now) + Raised([es[done]], now)
    ensures Remaining([es[done]], now) == if Due(es[done], now) then [] else [Clamp(es[done], now)]
    ensures Raised([es[done]], now) ==
            if Due(es[done], now) then [Timeout(es[done].msgid, es[done].devid, es[done].kind)] else []
  {
    var e := es[done];
    assert [e][..0] == [];
    assert es[..done + 1][..done] == es[..done] && es[..done + 1][done] == e;
  }
}
