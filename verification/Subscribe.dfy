/**
 The subscription of all topics in dev_model/dm_client.c: entry 0 in a counted loop, then a walk over the
 table that steps back to try an entry again.
 */
module Subscribe {
  const RETRY_MAX := 3   // IOTX_DM_CLIENT_SUB_RETRY_MAX_COUNTS

  // `postReply` marks the name of event replies, the one name the filter looks at.
  datatype Topic = Topic(devType: bv32, postReply: bool)

  datatype Call = Sub(index: nat, ok: bool) | Unsub(index: nat)

  // What the n-th call of each kind answers: URI building, reading "event replies are off", subscribing.
  datatype World = World(uriOk: nat -> bool, repliesOff: nat -> bool, subOk: nat -> bool)

  datatype State = State(index: nat, failCount: nat, uris: nat, filters: nat, subs: nat, trace: seq<Call>)

  const START := State(0, 0, 0, 0, 0, [])

  predicate Matches(topic: Topic, devType: bv32) {
    topic.devType & devType != 0
  }

  predicate Refuses(topic: Topic, w: World, n: nat) {
    topic.postReply && w.repliesOff(n)
  }

  // ---------------------------------------------------------------- the walk, round by round

  function Round(t: seq<Topic>, devType: bv32, w: World, s: State): State {
    if s.index >= |t| then s
    else if !Matches(t[s.index], devType) then s.(index := s.index + 1)
    else if s.failCount >= RETRY_MAX then s.(index := s.index + 1, failCount := 0)
    else if !w.uriOk(s.uris) then s.(uris := s.uris + 1)
    else if Refuses(t[s.index], w, s.filters) then
      s.(uris := s.uris + 1, filters := s.filters + 1, trace := s.trace + [Unsub(s.index)], index := s.index + 1)
    else
      var ok := w.subOk(s.subs);
      State(if ok then s.index + 1 else s.index, if ok then 0 else s.failCount + 1,
            s.uris + 1, s.filters + 1, s.subs + 1, s.trace + [Sub(s.index, ok)])
  }

  function Rounds(t: seq<Topic>, devType: bv32, w: World, s: State, n: nat): State {
    if n == 0 then s else Round(t, devType, w, Rounds(t, devType, w, s, n - 1))
  }

  function At(trace: seq<Call>, i: nat): seq<Call> {
    if trace == [] then []
    else At(trace[..|trace| - 1], i) + if trace[|trace| - 1].index == i then [trace[|trace| - 1]] else []
  }

  function Failures(i: nat, n: nat): seq<Call> {
    if n == 0 then [] else Failures(i, n - 1) + [Sub(i, false)]
  }

  lemma AtSnoc(trace: seq<Call>, c: Call, i: nat)
    ensures At(trace + [c], i) == At(trace, i) + if c.index == i then [c] else []
  {
    assert (trace + [c])[..|trace|] == trace;
  }

  lemma {:induction false} AtBeyond(trace: seq<Call>, i: nat)
    requires forall c :: c in trace ==> c.index != i
    ensures At(trace, i) == []
  {
    if trace != [] {
      AtBeyond(trace[..|trace| - 1], i);
    }
  }

  // The retry count on moving to the next entry is zero unless the filter turned an entry down after a
  // failed try of the same entry.
  lemma NewEntryCount(t: seq<Topic>, devType: bv32, w: World, s: State)
    requires s.index < |t| && Matches(t[s.index], devType)
    requires Round(t, devType, w, s).index == s.index + 1
    ensures Round(t, devType, w, s).failCount == 0 <==>
            s.failCount == 0 || s.failCount >= RETRY_MAX || !Refuses(t[s.index], w, s.filters)
  {
  }

  // The filter cannot change its mind: no entry from here on carries the name it looks at, or the
  // option it reads does not change during the walk.
  ghost predicate Steady(t: seq<Topic>, start: nat, w: World) {
    || (forall i :: start <= i < |t| ==> !t[i].postReply)
    || (forall m, n :: w.repliesOff(m) == w.repliesOff(n))
  }

  // What an entry that the walk has left behind went through.
  ghost predicate Finished(t: seq<Topic>, devType: bv32, w: World, trace: seq<Call>, i: nat)
    requires i < |t|
  {
    if !Matches(t[i], devType) then At(trace, i) == []
    else if Refuses(t[i], w, 0) then At(trace, i) == [Unsub(i)]
    else
      || At(trace, i) == Failures(i, RETRY_MAX)
      || exists k :: 0 <= k < RETRY_MAX && At(trace, i) == Failures(i, k) + [Sub(i, true)]
  }

  ghost predicate Walked(t: seq<Topic>, devType: bv32, w: World, start: nat, s: State) {
    && start <= s.index <= |t| && s.failCount <= RETRY_MAX
    && (forall c :: c in s.trace ==> c.index <= s.index)
    && (forall i :: start <= i < s.index ==> Finished(t, devType, w, s.trace, i))
    && At(s.trace, s.index) == Failures(s.index, s.failCount)
    && (s.failCount > 0 ==> s.index < |t| && Matches(t[s.index], devType) && !Refuses(t[s.index], w, 0))
  }

  // The calls for one entry are those of the trace, as often, and no others.
  lemma {:induction false} AtExact(trace: seq<Call>, i: nat, c: Call)
    ensures multiset(At(trace, i))[c] == if c.index == i then multiset(trace)[c] else 0
  {
    if trace != [] {
      AtExact(trace[..|trace| - 1], i, c);
      assert trace == trace[..|trace| - 1] + [trace[|trace| - 1]];
    }
  }

  lemma {:induction false} FailuresExact(i: nat, n: nat)
    ensures |Failures(i, n)| == n && forall k :: 0 <= k < n ==> Failures(i, n)[k] == Sub(i, false)
  {
    if n > 0 {
      FailuresExact(i, n - 1);
    }
  }

  // Subscribed after at most two failures, or three failures.
  ghost predicate Tried(calls: seq<Call>, i: nat) {
    && 1 <= |calls| <= 3 && (forall k :: 0 <= k < |calls| - 1 ==> calls[k] == Sub(i, false))
    && (calls[|calls| - 1] == Sub(i, true) || (|calls| == 3 && calls[2] == Sub(i, false)))
  }

  // The same in plain terms: an entry whose device type has no bit in common is left alone, one the filter
  // looks at and refuses is unsubscribed once, any other is tried.
  lemma FinishedExact(t: seq<Topic>, devType: bv32, w: World, trace: seq<Call>, i: nat)
    requires i < |t| && Finished(t, devType, w, trace, i)
    ensures var calls := At(trace, i);
      if t[i].devType & devType == 0 then calls == []
      else if t[i].postReply && w.repliesOff(0) then calls == [Unsub(i)]
      else Tried(calls, i)
  {
    hide At, Failures, Tried;
    if Matches(t[i], devType) && !Refuses(t[i], w, 0) {
      FailuresTried(i);
      if At(trace, i) != Failures(i, RETRY_MAX) {
        var k :| 0 <= k < RETRY_MAX && At(trace, i) == Failures(i, k) + [Sub(i, true)];
        SuccessTried(i, k);
      }
    }
  }

  lemma FailuresTried(i: nat)
    ensures Tried(Failures(i, RETRY_MAX), i)
  {
    FailuresExact(i, 3);
  }

  lemma SuccessTried(i: nat, k: nat)
    requires k < RETRY_MAX
    ensures Tried(Failures(i, k) + [Sub(i, true)], i)
  {
    FailuresExact(i, k);
  }

  // ---- the answers behind the calls

  // What the subscriptions of a trace answered, in order.
  function Answers(trace: seq<Call>): seq<bool> {
    if trace == [] then []
    else Answers(trace[..|trace| - 1]) + if trace[|trace| - 1].Sub? then [trace[|trace| - 1].ok] else []
  }

  // Every subscription the walk records got the answer the world gave, none is left out.
  ghost predicate Answered(w: World, s: State) {
    |Answers(s.trace)| == s.subs && forall k :: 0 <= k < s.subs ==> Answers(s.trace)[k] == w.subOk(k)
  }

  lemma AnswersSnoc(trace: seq<Call>, c: Call)
    ensures Answers(trace + [c]) == Answers(trace) + if c.Sub? then [c.ok] else []
  {
    assert (trace + [c])[..|trace|] == trace;
  }

  lemma {:induction false} RoundsAnswered(t: seq<Topic>, devType: bv32, w: World, s: State, n: nat)
    requires Answered(w, s)
    ensures Answered(w, Rounds(t, devType, w, s, n))
  {
    hide Answers;
    if n > 0 {
      RoundsAnswered(t, devType, w, s, n - 1);
      var r := Rounds(t, devType, w, s, n - 1);
      AnswersSnoc(r.trace, Unsub(r.index));
      AnswersSnoc(r.trace, Sub(r.index, w.subOk(r.subs)));
    }
  }

  lemma {:induction false} FirstAnswered(t: seq<Topic>, w: World, s: State, n: nat)
    requires |t| > 0 && Answered(w, s)
    ensures Answered(w, First(t, w, s, n))
    decreases n
  {
    if n > 0 {
      hide Answers;
      var s1 := s.(uris := s.uris + 1);
      AnswersSnoc(s.trace, Unsub(0));
      AnswersSnoc(s.trace, Sub(0, w.subOk(s.subs)));
      if !w.uriOk(s.uris) {
        FirstAnswered(t, w, s1, n - 1);
      } else if Refuses(t[0], w, s.filters) {
        FirstAnswered(t, w, s1.(filters := s.filters + 1, trace := s.trace + [Unsub(0)]), n - 1);
      } else if !w.subOk(s.subs) {
        FirstAnswered(t, w, s1.(filters := s.filters + 1, subs := s.subs + 1,
                                trace := s.trace + [Sub(0, false)]), n - 1);
      }
    }
  }

  // A call for the current entry leaves what is known of the others.
  lemma OthersKept(t: seq<Topic>, devType: bv32, w: World, start: nat, s: State, c: Call)
    requires Walked(t, devType, w, start, s) && c.index == s.index
    ensures At(s.trace + [c], s.index) == Failures(s.index, s.failCount) + [c]
    ensures forall i :: start <= i < s.index ==> Finished(t, devType, w, s.trace + [c], i)
    ensures At(s.trace + [c], s.index + 1) == [] == At(s.trace, s.index + 1)
  {
    AtSnoc(s.trace, c, s.index);
    AtSnoc(s.trace, c, s.index + 1);
    AtBeyond(s.trace, s.index + 1);
    forall i | start <= i < s.index ensures Finished(t, devType, w, s.trace + [c], i) {
      AtSnoc(s.trace, c, i);
      assert Finished(t, devType, w, s.trace, i);
    }
  }

  lemma RoundWalked(t: seq<Topic>, devType: bv32, w: World, start: nat, s: State)
    requires Steady(t, start, w) && Walked(t, devType, w, start, s)
    ensures Walked(t, devType, w, start, Round(t, devType, w, s))
    ensures Round(t, devType, w, s).index > s.index ==> Round(t, devType, w, s).failCount == 0
  {
    hide At;
    if s.index < |t| {
      AtBeyond(s.trace, s.index + 1);
      if Matches(t[s.index], devType) && s.failCount < RETRY_MAX && w.uriOk(s.uris) {
        assert Refuses(t[s.index], w, s.filters) == Refuses(t[s.index], w, 0);
        var c := if Refuses(t[s.index], w, 0) then Unsub(s.index) else Sub(s.index, w.subOk(s.subs));
        OthersKept(t, devType, w, start, s, c);
      } else {
        assert At(s.trace, s.index) == Failures(s.index, s.failCount);
      }
    }
  }

  // While the filter is steady, every entry left behind was subscribed after fewer than RETRY_MAX failures,
  // turned down once, or tried exactly RETRY_MAX times; and a new entry starts with a retry count of zero.
  lemma {:induction false} WalkCovers(t: seq<Topic>, devType: bv32, w: World, s: State, n: nat)
    requires Steady(t, s.index, w) && s.index <= |t| && s.failCount == 0
    requires forall c :: c in s.trace ==> c.index < s.index
    ensures Walked(t, devType, w, s.index, Rounds(t, devType, w, s, n))
    ensures var r := Rounds(t, devType, w, s, n);
            Round(t, devType, w, r).index > r.index ==> Round(t, devType, w, r).failCount == 0
  {
    if n == 0 {
      AtBeyond(s.trace, s.index);
    } else {
      WalkCovers(t, devType, w, s, n - 1);
      RoundWalked(t, devType, w, s.index, Rounds(t, devType, w, s, n - 1));
    }
    RoundWalked(t, devType, w, s.index, Rounds(t, devType, w, s, n));
  }

  ghost predicate ShortWalk(t: seq<Topic>, w: World) {
    var s := Rounds(t, 1, w, START, 6);
    |t| == 2 && s.index == 2 && Matches(t[1], 1) && !t[1].postReply && At(s.trace, 1) == Failures(1, 2)
  }

  lemma ShortRun(t: seq<Topic>, w: World)
    requires t == [Topic(1, true), Topic(1, false)]
    requires w.uriOk(0) && w.uriOk(1) && w.uriOk(2) && w.uriOk(3)
    requires !w.repliesOff(0) && w.repliesOff(1) && !w.subOk(0) && !w.subOk(1) && !w.subOk(2)
    ensures Rounds(t, 1, w, START, 6) == State(2, 0, 4, 4, 3, [Sub(0, false), Unsub(0), Sub(1, false), Sub(1, false)])
  {
    assert 1 as bv32 & 1 != 0;
    assert Rounds(t, 1, w, START, 0) == START;
    assert Rounds(t, 1, w, START, 1) == State(0, 1, 1, 1, 1, [Sub(0, false)]);
    assert Rounds(t, 1, w, START, 2) == State(1, 1, 2, 2, 1, [Sub(0, false), Unsub(0)]);
    assert Rounds(t, 1, w, START, 3) == State(1, 2, 3, 3, 2, [Sub(0, false), Unsub(0), Sub(1, false)]);
    assert Rounds(t, 1, w, START, 4) ==
           State(1, 3, 4, 4, 3, [Sub(0, false), Unsub(0), Sub(1, false), Sub(1, false)]);
    assert Rounds(t, 1, w, START, 5) ==
           State(2, 0, 4, 4, 3, [Sub(0, false), Unsub(0), Sub(1, false), Sub(1, false)]);
  }

  lemma ShortTrace()
    ensures At([Sub(0, false), Unsub(0), Sub(1, false), Sub(1, false)], 1) == Failures(1, 2)
  {
    AtSnoc([], Sub(0, false), 1);
    AtSnoc([Sub(0, false)], Unsub(0), 1);
    AtSnoc([Sub(0, false), Unsub(0)], Sub(1, false), 1);
    AtSnoc([Sub(0, false), Unsub(0), Sub(1, false)], Sub(1, false), 1);
    assert [Sub(0, false)] + [Unsub(0)] + [Sub(1, false)] + [Sub(1, false)] ==
           [Sub(0, false), Unsub(0), Sub(1, false), Sub(1, false)];
  }

  // With a filter that changes its mind, the entry after the one it turned down gets fewer tries.
  lemma UnsteadyShortens()
    ensures exists t, w :: ShortWalk(t, w)
  {
    hide Rounds, At, Failures;
    var t := [Topic(1, true), Topic(1, false)];
    var w := World(_ => true, n => n > 0, _ => false);
    ShortRun(t, w);
    ShortTrace();
    assert 1 as bv32 & 1 != 0;
    assert ShortWalk(t, w);
  }

  // ---------------------------------------------------------------- when the walk ends

  // The walk is about to build a URI, and stays where it is if that fails.
  predicate Waits(t: seq<Topic>, devType: bv32, s: State) {
    s.index < |t| && Matches(t[s.index], devType) && s.failCount < RETRY_MAX
  }

  ghost predicate Ends(t: seq<Topic>, devType: bv32, w: World, s: State) {
    exists n: nat :: Rounds(t, devType, w, s, n).index >= |t|
  }

  // How many URIs the walk has yet to build: what it does with them depends on the filter and the
  // subscriptions alone. The round of a state in which URI building works:
  function Built(t: seq<Topic>, devType: bv32, w: World, s: State): State {
    Round(t, devType, w.(uriOk := _ => true), s)
  }

  function Needed(t: seq<Topic>, devType: bv32, w: World, s: State): nat
    requires s.index <= |t| && s.failCount <= RETRY_MAX
    decreases |t| - s.index, RETRY_MAX - s.failCount
  {
    if s.index >= |t| then 0
    else (if Waits(t, devType, s) then 1 else 0) + Needed(t, devType, w, Built(t, devType, w, s))
  }

  // Never more than RETRY_MAX for each entry that is left.
  lemma {:induction false} NeededBound(t: seq<Topic>, devType: bv32, w: World, s: State)
    requires s.index < |t| && s.failCount <= RETRY_MAX
    ensures Needed(t, devType, w, s) <= RETRY_MAX * (|t| - s.index) - s.failCount
    decreases |t| - s.index, RETRY_MAX - s.failCount
  {
    var r := Built(t, devType, w, s);
    if r.index < |t| {
      NeededBound(t, devType, w, r);
    }
  }

  // How many of the next m URIs can be built.
  function Successes(w: World, from: nat, m: nat): nat
    decreases m
  {
    if m == 0 then 0 else (if w.uriOk(from) then 1 else 0) + Successes(w, from + 1, m - 1)
  }

  lemma {:induction false} RoundsShift(t: seq<Topic>, devType: bv32, w: World, s: State, n: nat)
    ensures Rounds(t, devType, w, s, n + 1) == Rounds(t, devType, w, Round(t, devType, w, s), n)
  {
    if n > 0 {
      RoundsShift(t, devType, w, s, n - 1);
    }
  }

  // Where URI building has got to makes no difference to what is needed.
  lemma {:induction false} NeededAnywhere(t: seq<Topic>, devType: bv32, w: World, s: State, uris: nat,
                                          trace: seq<Call>)
    requires s.index <= |t| && s.failCount <= RETRY_MAX
    ensures Needed(t, devType, w, s.(uris := uris, trace := trace)) == Needed(t, devType, w, s)
    decreases |t| - s.index, RETRY_MAX - s.failCount
  {
    if s.index < |t| {
      var r, r' := Built(t, devType, w, s), Built(t, devType, w, s.(uris := uris, trace := trace));
      assert r' == r.(uris := r'.uris, trace := r'.trace);
      NeededAnywhere(t, devType, w, r, r'.uris, r'.trace);
    }
  }

  // One round: a failed URI leaves what is needed, every other round is as if URI building worked.
  lemma NeededRound(t: seq<Topic>, devType: bv32, w: World, s: State)
    requires s.index < |t| && s.failCount <= RETRY_MAX
    ensures var r := Round(t, devType, w, s);
      && r.index <= |t| && r.failCount <= RETRY_MAX
      && if Waits(t, devType, s) then
           && r.uris == s.uris + 1
           && Needed(t, devType, w, s) == Needed(t, devType, w, r) + if w.uriOk(s.uris) then 1 else 0
         else r.uris == s.uris && Needed(t, devType, w, s) == Needed(t, devType, w, r)
    ensures Waits(t, devType, s) ==> Needed(t, devType, w, s) > 0
  {
    if Waits(t, devType, s) && !w.uriOk(s.uris) {
      NeededAnywhere(t, devType, w, s, s.uris + 1, s.trace);
    }
  }

  lemma {:induction false} EnoughEnds(t: seq<Topic>, devType: bv32, w: World, s: State, m: nat)
    requires s.index <= |t| && s.failCount <= RETRY_MAX
    requires Successes(w, s.uris, m) >= Needed(t, devType, w, s)
    ensures Ends(t, devType, w, s)
    decreases |t| - s.index, RETRY_MAX - s.failCount, m
  {
    if s.index >= |t| {
      assert Rounds(t, devType, w, s, 0).index >= |t|;
    } else {
      var r := Round(t, devType, w, s);
      NeededRound(t, devType, w, s);
      EnoughEnds(t, devType, w, r, if Waits(t, devType, s) then m - 1 else m);
      var n: nat :| Rounds(t, devType, w, r, n).index >= |t|;
      RoundsShift(t, devType, w, s, n);
      assert Rounds(t, devType, w, s, n + 1).index >= |t|;
    }
  }

  lemma {:induction false} EndsEnough(t: seq<Topic>, devType: bv32, w: World, s: State, n: nat) returns (m: nat)
    requires s.index <= |t| && s.failCount <= RETRY_MAX
    requires Rounds(t, devType, w, s, n).index >= |t|
    ensures Successes(w, s.uris, m) >= Needed(t, devType, w, s)
    decreases n
  {
    if n == 0 || s.index >= |t| {
      m := 0;
    } else {
      hide Needed, Round, Rounds, Waits;
      NeededRound(t, devType, w, s);
      RoundsShift(t, devType, w, s, n - 1);
      m := EndsEnough(t, devType, w, Round(t, devType, w, s), n - 1);
      m := if Waits(t, devType, s) then m + 1 else m;
    }
  }

  // In every world: the walk ends exactly if, from where it starts, as many URIs can ever be built as
  // it needs.
  lemma WalkEnds(t: seq<Topic>, devType: bv32, w: World, s: State)
    requires s.index <= |t| && s.failCount <= RETRY_MAX
    ensures Ends(t, devType, w, s) <==> exists m :: Successes(w, s.uris, m) >= Needed(t, devType, w, s)
  {
    if Ends(t, devType, w, s) {
      var n: nat :| Rounds(t, devType, w, s, n).index >= |t|;
      var m := EndsEnough(t, devType, w, s, n);
    }
    if m :| Successes(w, s.uris, m) >= Needed(t, devType, w, s) {
      EnoughEnds(t, devType, w, s, m);
    }
  }

  // Some URI can still be built whenever the walk waits for one.
  ghost predicate NeverStuck(t: seq<Topic>, devType: bv32, w: World, s: State) {
    forall n: nat :: Waits(t, devType, Rounds(t, devType, w, s, n)) ==>
                  Available(w, Rounds(t, devType, w, s, n).uris)
  }

  ghost predicate Available(w: World, from: nat) {
    exists m :: m >= from && w.uriOk(m)
  }

  lemma NeverStuckNext(t: seq<Topic>, devType: bv32, w: World, s: State)
    requires NeverStuck(t, devType, w, s)
    ensures NeverStuck(t, devType, w, Round(t, devType, w, s))
  {
    var r := Round(t, devType, w, s);
    forall n: nat | Waits(t, devType, Rounds(t, devType, w, r, n))
      ensures Available(w, Rounds(t, devType, w, r, n).uris)
    {
      RoundsShift(t, devType, w, s, n);
      assert Waits(t, devType, Rounds(t, devType, w, s, n + 1));
    }
  }

  lemma {:induction false} NeverStuckEnds(t: seq<Topic>, devType: bv32, w: World, s: State, target: nat)
    requires s.index <= |t| && s.failCount <= RETRY_MAX && NeverStuck(t, devType, w, s)
    requires Waits(t, devType, s) ==> s.uris <= target && w.uriOk(target)
    ensures Ends(t, devType, w, s)
    decreases |t| - s.index, RETRY_MAX - s.failCount, target - s.uris
  {
    if s.index >= |t| {
      assert Rounds(t, devType, w, s, 0).index >= |t|;
    } else {
      var r := Round(t, devType, w, s);
      NeverStuckNext(t, devType, w, s);
      var next := target;
      if Waits(t, devType, r) && !(Waits(t, devType, s) && !w.uriOk(s.uris)) {
        assert Waits(t, devType, Rounds(t, devType, w, r, 0));
        assert Available(w, Rounds(t, devType, w, r, 0).uris);
        next :| next >= r.uris && w.uriOk(next);
      }
      NeverStuckEnds(t, devType, w, r, next);
      var n: nat :| Rounds(t, devType, w, r, n).index >= |t|;
      RoundsShift(t, devType, w, s, n);
      assert Rounds(t, devType, w, s, n + 1).index >= |t|;
    }
  }

  lemma {:induction false} StaysOver(t: seq<Topic>, devType: bv32, w: World, s: State, n: nat, k: nat)
    requires Rounds(t, devType, w, s, n).index >= |t|
    ensures Rounds(t, devType, w, s, n + k) == Rounds(t, devType, w, s, n)
  {
    if k > 0 {
      StaysOver(t, devType, w, s, n, k - 1);
    }
  }

  // While no URI can be built the walk does not leave its entry.
  lemma {:induction false} StuckWithoutUri(t: seq<Topic>, devType: bv32, w: World, s: State, n: nat)
    requires Waits(t, devType, s) && !Available(w, s.uris)
    ensures Rounds(t, devType, w, s, n) == s.(uris := s.uris + n)
  {
    if n > 0 {
      StuckWithoutUri(t, devType, w, s, n - 1);
      assert !w.uriOk(s.uris + n - 1);
    }
  }

  lemma {:induction false} RoundsAdd(t: seq<Topic>, devType: bv32, w: World, s: State, n: nat, k: nat)
    ensures Rounds(t, devType, w, Rounds(t, devType, w, s, n), k) == Rounds(t, devType, w, s, n + k)
  {
    if k > 0 {
      RoundsAdd(t, devType, w, s, n, k - 1);
    }
  }

  // The same said of the rounds themselves: the walk ends exactly if, whenever it waits for a URI, one
  // can still be built.
  lemma EndsUnlessStuck(t: seq<Topic>, devType: bv32, w: World, s: State)
    requires s.index <= |t| && s.failCount <= RETRY_MAX
    ensures Ends(t, devType, w, s) <==> NeverStuck(t, devType, w, s)
  {
    if NeverStuck(t, devType, w, s) {
      if Waits(t, devType, s) {
        assert Waits(t, devType, Rounds(t, devType, w, s, 0));
        assert Available(w, Rounds(t, devType, w, s, 0).uris);
        var target :| target >= s.uris && w.uriOk(target);
        NeverStuckEnds(t, devType, w, s, target);
      } else {
        NeverStuckEnds(t, devType, w, s, s.uris);
      }
    }
    if Ends(t, devType, w, s) {
      var e: nat :| Rounds(t, devType, w, s, e).index >= |t|;
      forall n: nat | Waits(t, devType, Rounds(t, devType, w, s, n))
        ensures Available(w, Rounds(t, devType, w, s, n).uris)
      {
        WaitEnds(t, devType, w, s, n, e);
      }
    }
  }

  // A walk that is over after e rounds found a URI wherever it waited.
  lemma WaitEnds(t: seq<Topic>, devType: bv32, w: World, s: State, n: nat, e: nat)
    requires Rounds(t, devType, w, s, e).index >= |t| && Waits(t, devType, Rounds(t, devType, w, s, n))
    ensures Available(w, Rounds(t, devType, w, s, n).uris)
  {
    hide Rounds;
    var r := Rounds(t, devType, w, s, n);
    if n >= e {
      StaysOver(t, devType, w, s, e, n - e);
    } else if !Available(w, r.uris) {
      StuckWithoutUri(t, devType, w, r, e - n);
      RoundsAdd(t, devType, w, s, n, e - n);
    }
  }

  // ---------------------------------------------------------------- entry 0

  // Up to n tries of the first entry.
  function First(t: seq<Topic>, w: World, s: State, n: nat): State
    requires |t| > 0
    decreases n
  {
    if n == 0 then s
    else if !w.uriOk(s.uris) then First(t, w, s.(uris := s.uris + 1), n - 1)
    else if Refuses(t[0], w, s.filters) then
      First(t, w, s.(uris := s.uris + 1, filters := s.filters + 1, trace := s.trace + [Unsub(0)]), n - 1)
    else
      var ok := w.subOk(s.subs);
      var r := s.(uris := s.uris + 1, filters := s.filters + 1, subs := s.subs + 1, trace := s.trace + [Sub(0, ok)]);
      if ok then r else First(t, w, r, n - 1)
  }

  // Entry 0 is tried at most n times, and not again after a success.
  lemma {:induction false} FirstTries(t: seq<Topic>, w: World, s: State, n: nat)
    requires |t| > 0
    decreases n
    ensures var r := First(t, w, s, n);
            && s.trace <= r.trace && |r.trace| <= |s.trace| + n
            && (forall k :: |s.trace| <= k < |r.trace| ==> r.trace[k].index == 0)
            && (forall k :: |s.trace| <= k < |r.trace| - 1 ==> r.trace[k] != Sub(0, true))
            && r.index == s.index && r.failCount == s.failCount
            && (r.uris - s.uris == n || (|r.trace| > |s.trace| && r.trace[|r.trace| - 1] == Sub(0, true)))
  {
    if n > 0 {
      if !w.uriOk(s.uris) {
        FirstTries(t, w, s.(uris := s.uris + 1), n - 1);
      } else if Refuses(t[0], w, s.filters) {
        FirstTries(t, w, s.(uris := s.uris + 1, filters := s.filters + 1, trace := s.trace + [Unsub(0)]), n - 1);
      } else if !w.subOk(s.subs) {
        FirstTries(t, w, s.(uris := s.uris + 1, filters := s.filters + 1, subs := s.subs + 1,
                            trace := s.trace + [Sub(0, false)]), n - 1);
      }
    }
  }

  // There is one call for each URI that could be built; it is the refusal exactly if the entry carries the
  // name the filter looks at and the filter, asked once for each call, is on.
  lemma {:induction false} FirstCalls(t: seq<Topic>, w: World, s: State, n: nat)
    requires |t| > 0
    decreases n
    ensures var r := First(t, w, s, n);
            && s.trace <= r.trace && s.uris <= r.uris <= s.uris + n
            && |r.trace| - |s.trace| == Successes(w, s.uris, r.uris - s.uris)
            && (forall k :: |s.trace| <= k < |r.trace| ==>
                  (r.trace[k].Unsub? <==> t[0].postReply && w.repliesOff(s.filters + k - |s.trace|)))
  {
    if n > 0 {
      var s1 := s.(uris := s.uris + 1);
      if !w.uriOk(s.uris) {
        FirstCalls(t, w, s1, n - 1);
      } else if Refuses(t[0], w, s.filters) {
        FirstCalls(t, w, s1.(filters := s.filters + 1, trace := s.trace + [Unsub(0)]), n - 1);
      } else if !w.subOk(s.subs) {
        FirstCalls(t, w, s1.(filters := s.filters + 1, subs := s.subs + 1, trace := s.trace + [Sub(0, false)]), n - 1);
      }
    }
  }

  // With URIs at hand and no filter in the way, entry 0 is tried like the others.
  lemma FirstExact(t: seq<Topic>, w: World)
    requires |t| > 0 && !t[0].postReply && w.uriOk(0) && w.uriOk(1) && w.uriOk(2)
    ensures Tried(First(t, w, START, RETRY_MAX).trace, 0)
  {
    var s1 := State(0, 0, 1, 1, 1, [Sub(0, w.subOk(0))]);
    var s2 := State(0, 0, 2, 2, 2, [Sub(0, false), Sub(0, w.subOk(1))]);
    var s3 := State(0, 0, 3, 3, 3, [Sub(0, false), Sub(0, false), Sub(0, w.subOk(2))]);
    assert First(t, w, START, 3) == if w.subOk(0) then s1 else First(t, w, s1, 2);
    assert !w.subOk(0) ==> First(t, w, s1, 2) == if w.subOk(1) then s2 else First(t, w, s2, 1);
    assert !w.subOk(0) && !w.subOk(1) ==> First(t, w, s2, 1) == if w.subOk(2) then s3 else First(t, w, s3, 0);
  }

  // ---------------------------------------------------------------- the loops

  method FirstEntry(t: seq<Topic>, w: World) returns (s: State)
    requires |t| > 0
    ensures s == First(t, w, START, RETRY_MAX)
  {
    s := START;
    for failCount := 0 to RETRY_MAX
      invariant First(t, w, s, RETRY_MAX - failCount) == First(t, w, START, RETRY_MAX)
    {
      var res := w.uriOk(s.uris);
      s := s.(uris := s.uris + 1);
      if !res {
        continue;
      }
      var refused := Refuses(t[0], w, s.filters);
      s := s.(filters := s.filters + 1);
      if refused {
        s := s.(trace := s.trace + [Unsub(0)]);
        continue;
      }
      res := w.subOk(s.subs);
      s := s.(subs := s.subs + 1, trace := s.trace + [Sub(0, res)]);
      if res {
        break;
      }
    }
  }

  // The body of the walk: to try an entry again the index is stepped back before the loop steps it on.
  method WalkRound(t: seq<Topic>, devType: bv32, w: World, s: State) returns (r: State)
    requires s.index < |t|
    ensures r == Round(t, devType, w, s)
  {
    var index := s.index as int;
    r := s;
    if !Matches(t[index], devType) {
    } else if r.failCount >= RETRY_MAX {
      r := r.(failCount := 0);
    } else {
      var res := w.uriOk(r.uris);
      r := r.(uris := r.uris + 1);
      if !res {
        index := index - 1;
      } else {
        var refused := Refuses(t[index], w, r.filters);
        r := r.(filters := r.filters + 1);
        if refused {
          r := r.(trace := r.trace + [Unsub(index)]);
        } else {
          res := w.subOk(r.subs);
          r := r.(subs := r.subs + 1, trace := r.trace + [Sub(index, res)]);
          if !res {
            index := index - 1;
            r := r.(failCount := r.failCount + 1);
          } else {
            r := r.(failCount := 0);
          }
        }
      }
    }
    index := index + 1;
    r := r.(index := index);
  }

  // The walk, in every world in which it ends.
  method Walk(t: seq<Topic>, devType: bv32, w: World, from: State) returns (s: State, ghost n: nat)
    requires from.index <= |t| && from.failCount <= RETRY_MAX
    requires exists m :: Successes(w, from.uris, m) >= Needed(t, devType, w, from)
    ensures s == Rounds(t, devType, w, from, n) && s.index == |t|
  {
    hide Needed, Successes, Round, Waits;
    s, n := from, 0;
    ghost var left: nat :| Successes(w, from.uris, left) >= Needed(t, devType, w, from);
    while s.index < |t|
      invariant s.index <= |t| && s.failCount <= RETRY_MAX
      invariant s == Rounds(t, devType, w, from, n)
      invariant Successes(w, s.uris, left) >= Needed(t, devType, w, s)
      decreases |t| - s.index, RETRY_MAX - s.failCount, left
    {
      RoundProgress(t, devType, w, s, left);
      left := if Waits(t, devType, s) then left - 1 else left;
      n := n + 1;
      s := WalkRound(t, devType, w, s);
    }
  }

  // A round moves on, or counts a failure, or spends a URI; what is left is still enough.
  lemma RoundProgress(t: seq<Topic>, devType: bv32, w: World, s: State, left: nat)
    requires s.index < |t| && s.failCount <= RETRY_MAX
    requires Successes(w, s.uris, left) >= Needed(t, devType, w, s)
    ensures var r, waits := Round(t, devType, w, s), Waits(t, devType, s);
      && s.index <= r.index <= |t| && r.failCount <= RETRY_MAX
      && (r.index == s.index ==> waits && r.failCount >= s.failCount)
      && (waits ==> left > 0)
      && Successes(w, r.uris, if waits then left - 1 else left) >= Needed(t, devType, w, r)
  {
    NeededRound(t, devType, w, s);
    hide Needed;
  }

  // Where the table walk starts, after entry 0.
  function AfterFirst(t: seq<Topic>, w: World): State
    requires |t| > 0
  {
    First(t, w, START, RETRY_MAX).(index := 1, failCount := 0)
  }

  // dm_client_subscribe_all on a table in which only entry 0, if any, carries the filtered name.
  method SubscribeAll(t: seq<Topic>, devType: bv32, w: World) returns (trace: seq<Call>)
    requires |t| > 0 && forall i :: 1 <= i < |t| ==> !t[i].postReply
    requires exists m :: Successes(w, AfterFirst(t, w).uris, m) >= Needed(t, devType, w, AfterFirst(t, w))
    ensures forall i :: 1 <= i < |t| ==>
      if t[i].devType & devType == 0 then At(trace, i) == [] else Tried(At(trace, i), i)
    ensures forall k :: 0 <= k < |Answers(trace)| ==> Answers(trace)[k] == w.subOk(k)
    ensures At(trace, 0) == First(t, w, START, RETRY_MAX).trace
  {
    assert Answered(w, START);
    hide Needed, Successes, First, Answers, Tried;
    var s := FirstEntry(t, w);
    FirstTries(t, w, START, RETRY_MAX);
    FirstAnswered(t, w, START, RETRY_MAX);
    s := s.(index := 1, failCount := 0);
    ghost var first := s;
    ghost var n;
    s, n := Walk(t, devType, w, s);
    WalkCovers(t, devType, w, first, n);
    RoundsAnswered(t, devType, w, first, n);
    trace := s.trace;
    forall i | 1 <= i < |t|
      ensures if t[i].devType & devType == 0 then At(trace, i) == [] else Tried(At(trace, i), i)
    {
      assert Finished(t, devType, w, trace, i);
      FinishedExact(t, devType, w, trace, i);
    }
    FirstKept(t, devType, w, first, n);
  }

  lemma {:induction false} AtOnly(trace: seq<Call>, i: nat)
    requires forall c :: c in trace ==> c.index == i
    ensures At(trace, i) == trace
  {
    if trace != [] {
      hide At;
      var front, last := trace[..|trace| - 1], trace[|trace| - 1];
      AtOnly(front, i);
      AtSnoc(front, last, i);
      assert trace == front + [last];
    }
  }

  lemma RoundKeepsFirst(t: seq<Topic>, devType: bv32, w: World, s: State)
    requires s.index >= 1
    ensures At(Round(t, devType, w, s).trace, 0) == At(s.trace, 0) && Round(t, devType, w, s).index >= 1
  {
    hide At;
    AtSnoc(s.trace, Unsub(s.index), 0);
    AtSnoc(s.trace, Sub(s.index, w.subOk(s.subs)), 0);
  }

  // The walk makes no call for the entry before its start.
  lemma {:induction false} FirstKept(t: seq<Topic>, devType: bv32, w: World, s: State, n: nat)
    requires s.index == 1 && forall c :: c in s.trace ==> c.index == 0
    ensures At(Rounds(t, devType, w, s, n).trace, 0) == s.trace && Rounds(t, devType, w, s, n).index >= 1
  {
    if n == 0 {
      AtOnly(s.trace, 0);
    } else {
      FirstKept(t, devType, w, s, n - 1);
      RoundKeepsFirst(t, devType, w, Rounds(t, devType, w, s, n - 1));
    }
  }
}
