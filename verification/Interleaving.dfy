/**
 The cache and the event queue of MessageCache with several tasks at work. dm_msg_cache_insert tests the
 list size before it takes the mutex (dm_message_cache.c), dm_ipc_msg_insert after (dm_ipc.c): a step of a
 run is one test, or one stretch of code under a mutex.
 */
module Interleaving {
  import opened MessageCache

  // ---------------------------------------------------------------- the cache

  // `pending` holds, for each task past the size test, the entry it is about to append.
  datatype State = State(totals: Totals, pending: map<nat, Entry>)

  datatype Step = Test(task: nat, e: Entry) | Append(task: nat) | Removal(msgid: int) | Timing(now: nat)

  const EMPTY := State(Totals([], 0, 0, 0), map[])

  function Next(s: State, step: Step): State {
    match step
    case Test(task, e) =>
      if |s.totals.list| >= MAXLEN || task in s.pending then s else s.(pending := s.pending[task := e])
    case Append(task) =>
      if task !in s.pending then s
      else
        State(s.totals.(list := s.totals.list + [s.pending[task]], inserted := s.totals.inserted + 1),
              s.pending - {task})
    case Removal(msgid) => s.(totals := Apply(s.totals, Remove(msgid)))
    case Timing(now) => s.(totals := Apply(s.totals, Tick(now)))
  }

  // A task that finds less than 50 entries goes on to append its entry, whatever happens in between; the
  // other steps leave what is pending alone.
  lemma NextExact(s: State, step: Step)
    ensures step.Test? && step.task !in s.pending && |s.totals.list| < 50 ==>
      Next(s, step) == s.(pending := s.pending[step.task := step.e])
    ensures step.Test? && step.task !in s.pending && |s.totals.list| >= 50 ==> Next(s, step) == s
    ensures step.Append? && step.task in s.pending ==>
      var s' := Next(s, step);
      && s'.totals == s.totals.(list := s.totals.list + [s.pending[step.task]], inserted := s.totals.inserted + 1)
      && s'.pending == s.pending - {step.task}
    ensures step.Removal? ==> Next(s, step) == s.(totals := Apply(s.totals, Remove(step.msgid)))
    ensures step.Timing? ==> Next(s, step) == s.(totals := Apply(s.totals, Tick(step.now)))
  {
  }

  function Interleaved(s: State, steps: seq<Step>): State
    decreases |steps|
  {
    if steps == [] then s else Interleaved(Next(s, steps[0]), steps[1..])
  }

  // The steps of k tasks.
  ghost predicate Tasks(steps: seq<Step>, k: nat) {
    forall step :: step in steps ==> (step.Test? || step.Append? ==> step.task < k)
  }

  ghost predicate Bounded(s: State, k: nat) {
    && (forall task :: task in s.pending ==> task < k)
    && |s.totals.list| + |s.pending| <= MAXLEN + k - 1
    && s.totals.inserted == |s.totals.list| + s.totals.removed + s.totals.timedOut
  }

  lemma {:induction false} SmallSet(s: set<nat>, k: nat)
    requires forall x :: x in s ==> x < k
    ensures |s| <= k
  {
    if k > 0 {
      SmallSet(s - {k - 1}, k - 1);
      assert |s| <= |s - {k - 1}| + 1;
    }
  }

  lemma PendingBelow(s: State, k: nat, task: nat)
    requires Bounded(s, k) && task < k && task !in s.pending
    ensures |s.pending| < k
  {
    SmallSet(s.pending.Keys + {task}, k);
    assert |s.pending.Keys + {task}| == |s.pending| + 1;
  }

  lemma TestSize(pending: map<nat, Entry>, task: nat, e: Entry)
    requires task !in pending
    ensures |pending[task := e]| == |pending| + 1
  {
    assert pending[task := e].Keys == pending.Keys + {task};
  }

  lemma AppendSize(pending: map<nat, Entry>, task: nat)
    requires task in pending
    ensures |pending - {task}| == |pending| - 1
  {
    assert (pending - {task}).Keys == pending.Keys - {task};
  }

  lemma StepBounded(s: State, step: Step, k: nat)
    requires Bounded(s, k) && k > 0 && Tasks([step], k)
    ensures Bounded(Next(s, step), k)
  {
    assert step in [step];
    match step
    case Test(task, e) =>
      if task !in s.pending {
        PendingBelow(s, k, task);
        TestSize(s.pending, task, e);
      }
    case Append(task) =>
      if task in s.pending {
        AppendSize(s.pending, task);
      }
    case Removal(_) =>
    case Timing(now) =>
      TickPartition(s.totals.list, now);
  }

  // However k tasks interleave, the list never holds more than MAXLEN + k - 1 entries, and none is lost.
  lemma {:induction false} CacheBound(s: State, steps: seq<Step>, k: nat)
    requires Bounded(s, k) && k > 0 && Tasks(steps, k)
    ensures Bounded(Interleaved(s, steps), k)
    decreases |steps|
  {
    if steps != [] {
      assert steps[0] in steps;
      StepBounded(s, steps[0], k);
      CacheBound(Next(s, steps[0]), steps[1..], k);
    }
  }

  lemma {:induction false} InterleavedConcat(s: State, a: seq<Step>, b: seq<Step>)
    ensures Interleaved(s, a + b) == Interleaved(Interleaved(s, a), b)
    decreases |a|
  {
    if a == [] {
      assert a + b == b;
    } else {
      assert (a + b)[0] == a[0] && (a + b)[1..] == a[1..] + b;
      InterleavedConcat(Next(s, a[0]), a[1..], b);
    }
  }

  // ---- the bound is met

  // One task alone fills the list up to n entries.
  function Fill(e: Entry, n: nat): seq<Step> {
    if n == 0 then [] else Fill(e, n - 1) + [Test(0, e), Append(0)]
  }

  // Tasks 0 .. n - 1 pass the test one after another.
  function Tests(e: Entry, n: nat): seq<Step> {
    if n == 0 then [] else Tests(e, n - 1) + [Test(n - 1, e)]
  }

  // Tasks n - 1 .. 0 then append.
  function Appends(n: nat): seq<Step> {
    if n == 0 then [] else [Append(n - 1)] + Appends(n - 1)
  }

  lemma {:induction false} FillReaches(e: Entry, n: nat)
    requires n <= MAXLEN
    ensures Tasks(Fill(e, n), 1)
    ensures var s := Interleaved(EMPTY, Fill(e, n)); |s.totals.list| == n && s.pending == map[]
  {
    if n > 0 {
      FillReaches(e, n - 1);
      var s := Interleaved(EMPTY, Fill(e, n - 1));
      InterleavedConcat(EMPTY, Fill(e, n - 1), [Test(0, e), Append(0)]);
      var s1 := Next(s, Test(0, e));
      assert [Test(0, e), Append(0)][1..] == [Append(0)] && [Append(0)][1..] == [];
      assert Next(s1, Append(0)).pending == map[];
    }
  }

  function AllPending(e: Entry, n: nat): (m: map<nat, Entry>)
    ensures forall task: nat :: task in m <==> task < n
  {
    if n == 0 then map[] else AllPending(e, n - 1)[n - 1 := e]
  }

  lemma {:induction false} TestsReach(s: State, e: Entry, n: nat)
    requires |s.totals.list| < MAXLEN && s.pending == map[]
    ensures Tasks(Tests(e, n), n)
    ensures Interleaved(s, Tests(e, n)) == s.(pending := AllPending(e, n))
  {
    if n > 0 {
      TestsReach(s, e, n - 1);
      InterleavedConcat(s, Tests(e, n - 1), [Test(n - 1, e)]);
      assert [Test(n - 1, e)][1..] == [];
    }
  }

  lemma {:induction false} AppendsReach(s: State, e: Entry, n: nat)
    requires s.pending == AllPending(e, n)
    ensures Tasks(Appends(n), n)
    ensures |Interleaved(s, Appends(n)).totals.list| == |s.totals.list| + n
    decreases n
  {
    if n > 0 {
      var s1 := Next(s, Append(n - 1));
      assert s1.pending == AllPending(e, n - 1);
      AppendsReach(s1, e, n - 1);
      assert Appends(n)[0] == Append(n - 1) && Appends(n)[1..] == Appends(n - 1);
    }
  }

  // A run of k tasks that brings the list to MAXLEN - 1 + k entries.
  lemma CacheBoundMet(e: Entry, k: nat)
    requires k > 0
    ensures var steps := Fill(e, MAXLEN - 1) + Tests(e, k) + Appends(k);
            Tasks(steps, k) && |Interleaved(EMPTY, steps).totals.list| == MAXLEN + k - 1
  {
    var a, b, c := Fill(e, MAXLEN - 1), Tests(e, k), Appends(k);
    FillReaches(e, MAXLEN - 1);
    var s := Interleaved(EMPTY, a);
    TestsReach(s, e, k);
    AppendsReach(Interleaved(s, b), e, k);
    InterleavedConcat(EMPTY, a + b, c);
    InterleavedConcat(EMPTY, a, b);
  }

  ghost predicate Reaches(steps: seq<Step>, k: nat, n: nat) {
    Tasks(steps, k) && |Interleaved(EMPTY, steps).totals.list| == n
  }

  // The sizes the list can take with k tasks at work are exactly those up to MAXLEN + k - 1.
  lemma CacheSizes(k: nat, n: nat)
    requires k > 0
    ensures (exists steps :: Reaches(steps, k, n)) <==> n <= 50 + k - 1
  {
    forall steps | Reaches(steps, k, n) ensures n <= MAXLEN + k - 1 {
      CacheBound(EMPTY, steps, k);
    }
    var e := Entry(1, 0, 0, 0);
    if n <= MAXLEN {
      FillReaches(e, n);
      assert Reaches(Fill(e, n), k, n);
    } else if n <= MAXLEN + k - 1 {
      var j := n + 1 - MAXLEN;
      CacheBoundMet(e, j);
      assert Reaches(Fill(e, MAXLEN - 1) + Tests(e, j) + Appends(j), k, n);
    }
  }

  // ---------------------------------------------------------------- the event queue

  datatype Call = Put(task: nat, data: Timeout) | Get(task: nat)

  // The queue, with what it ever accepted and ever handed out.
  datatype Queue = Queue(list: seq<Timeout>, accepted: seq<Timeout>, taken: seq<Timeout>)

  // Both calls hold the mutex from the test to the end.
  function Called(q: Queue, maxSize: int, c: Call): Queue {
    match c
    case Put(_, data) =>
      var list := Offered(q.list, maxSize, [data]);
      Queue(list, if |list| > |q.list| then q.accepted + [data] else q.accepted, q.taken)
    case Get(_) =>
      if q.list == [] then q else Queue(q.list[1..], q.accepted, q.taken + [q.list[0]])
  }

  function CalledAll(q: Queue, maxSize: int, cs: seq<Call>): Queue
    decreases |cs|
  {
    if cs == [] then q else CalledAll(Called(q, maxSize, cs[0]), maxSize, cs[1..])
  }

  // A put below the bound is accepted and joins the end, at the bound it leaves all as it is; a get takes
  // the oldest element, if there is one.
  lemma CalledExact(q: Queue, maxSize: int, c: Call)
    ensures c.Put? && |q.list| < maxSize ==>
      Called(q, maxSize, c) == Queue(q.list + [c.data], q.accepted + [c.data], q.taken)
    ensures c.Get? && q.list != [] ==>
      Called(q, maxSize, c) == Queue(q.list[1..], q.accepted, q.taken + [q.list[0]])
    ensures (c.Put? && |q.list| >= maxSize) || (c.Get? && q.list == []) ==> Called(q, maxSize, c) == q
  {
    if c.Put? {
      OfferedExact(q.list, maxSize, [c.data]);
    }
  }

  ghost predicate Ordered(q: Queue, maxSize: nat) {
    |q.list| <= maxSize && q.taken + q.list == q.accepted
  }

  // However many tasks call, the queue keeps its bound, and hands out what it accepted in that order.
  lemma {:induction false} QueueBound(q: Queue, maxSize: nat, cs: seq<Call>)
    requires Ordered(q, maxSize)
    ensures Ordered(CalledAll(q, maxSize, cs), maxSize)
    decreases |cs|
  {
    if cs != [] {
      var r := Called(q, maxSize, cs[0]);
      if cs[0].Put? && |r.list| > |q.list| {
        assert r.list == q.list + [cs[0].data];
        assert q.taken + (q.list + [cs[0].data]) == (q.taken + q.list) + [cs[0].data];
      } else if cs[0].Get? && q.list != [] {
        assert q.list == [q.list[0]] + q.list[1..];
        assert (q.taken + [q.list[0]]) + q.list[1..] == q.taken + q.list;
      }
      QueueBound(r, maxSize, cs[1..]);
    }
  }
}
