/**
 The server's list of access keys (dev_model/alcs_server.c): keys of one source only, the highest seen.
 */
module ServerKeys {
  import opened Words

  const KEY_MAXCOUNT := 10
  const KEYPREFIX_LEN := 8

  // ServerKeyPriority: LOCALDEFAULT, LOCALSETUP, FROMCLOUDSVR.
  type Priority = p: nat | p < 3

  datatype Status = Success | InvalidLength | Unsupported

  datatype Key = Key(prefix: string, secret: string, priority: Priority)

  datatype Op = Add(key: Key) | Remove(prefix: string)

  // ---------------------------------------------------------------- the list as a value

  function AtLeast(keys: seq<Key>, p: Priority): seq<Key> {
    if keys == [] then []
    else AtLeast(keys[..|keys| - 1], p) + if keys[|keys| - 1].priority < p then [] else [keys[|keys| - 1]]
  }

  function FindKey(keys: seq<Key>, prefix: string): (k: nat)
    ensures k <= |keys|
    ensures k < |keys| ==> keys[k].prefix == prefix
    ensures forall i :: 0 <= i < k ==> keys[i].prefix != prefix
  {
    FirstAt(keys, (k: Key) => k.prefix == prefix)
  }

  predicate AnyHigher(keys: seq<Key>, p: Priority) {
    exists i :: 0 <= i < |keys| && keys[i].priority > p
  }

  predicate Refused(keys: seq<Key>, key: Key) {
    |keys| >= KEY_MAXCOUNT || |key.prefix| != KEYPREFIX_LEN
  }

  function Apply(keys: seq<Key>, op: Op): seq<Key> {
    match op
    case Add(key) =>
      if Refused(keys, key) then keys
      else
        var kept := AtLeast(keys, key.priority);
        if AnyHigher(kept, key.priority) then kept else kept + [key]
    case Remove(prefix) =>
      var k := FindKey(keys, prefix);
      if k < |keys| then RemoveAt(keys, k) else keys
  }

  function Run(keys: seq<Key>, ops: seq<Op>): seq<Key>
    decreases |ops|
  {
    if ops == [] then keys else Run(Apply(keys, ops[0]), ops[1..])
  }

  // The common priority of the keys, below all priorities while there is none.
  function Level(keys: seq<Key>): int {
    if keys == [] then -1 else keys[0].priority
  }

  ghost predicate Sound(keys: seq<Key>) {
    && |keys| <= KEY_MAXCOUNT
    && forall i :: 0 <= i < |keys| ==> keys[i].priority == Level(keys) && |keys[i].prefix| == KEYPREFIX_LEN
  }

  lemma AtLeastStep(front: seq<Key>, last: Key, p: Priority)
    ensures AtLeast([], p) == []
    ensures AtLeast(front + [last], p) == AtLeast(front, p) + if last.priority < p then [] else [last]
  {
    assert (front + [last])[..|front|] == front;
  }

  lemma {:induction false} AtLeastAll(keys: seq<Key>, p: Priority)
    requires forall i :: 0 <= i < |keys| ==> keys[i].priority >= p
    ensures AtLeast(keys, p) == keys
  {
    hide AtLeast;
    if keys == [] {
      AtLeastStep(keys, Key("", "", p), p);
    } else {
      var front, last := keys[..|keys| - 1], keys[|keys| - 1];
      AtLeastAll(front, p);
      assert keys == front + [last];
      AtLeastStep(front, last, p);
    }
  }

  lemma {:induction false} AtLeastNone(keys: seq<Key>, p: Priority)
    requires forall i :: 0 <= i < |keys| ==> keys[i].priority < p
    ensures AtLeast(keys, p) == []
  {
    if keys != [] {
      AtLeastNone(keys[..|keys| - 1], p);
    }
  }

  // What an add does to a list of one priority: nothing, one key more, or a fresh start.
  lemma AddExact(keys: seq<Key>, key: Key)
    requires Sound(keys)
    ensures Apply(keys, Add(key)) ==
            if Refused(keys, key) || Level(keys) > key.priority then keys
            else if Level(keys) == key.priority then keys + [key]
            else [key]
    ensures AnyHigher(AtLeast(keys, key.priority), key.priority) <==> Level(keys) > key.priority
  {
    if Level(keys) >= key.priority {
      AtLeastAll(keys, key.priority);
      assert keys != [] ==> (keys[0].priority > key.priority ==> AnyHigher(keys, key.priority));
    } else {
      AtLeastNone(keys, key.priority);
    }
  }

  lemma StepSound(keys: seq<Key>, op: Op)
    requires Sound(keys)
    ensures Sound(Apply(keys, op))
    ensures op.Add? ==> Level(Apply(keys, op)) >= Level(keys)
  {
    if op.Add? {
      AddExact(keys, op.key);
    }
  }

  // Every run keeps all keys at one priority and at most KEY_MAXCOUNT of them; while none is removed
  // the priority never falls.
  lemma {:induction false} RunSound(keys: seq<Key>, ops: seq<Op>)
    requires Sound(keys)
    ensures Sound(Run(keys, ops))
    ensures (forall op :: op in ops ==> op.Add?) ==> Level(Run(keys, ops)) >= Level(keys)
    decreases |ops|
  {
    if ops != [] {
      StepSound(keys, ops[0]);
      RunSound(Apply(keys, ops[0]), ops[1..]);
    }
  }

  // The length is tested before weaker keys are dropped: a full list refuses every key, stronger ones too.
  lemma {:induction false} FullRefuses(keys: seq<Key>, ops: seq<Op>)
    requires |keys| == KEY_MAXCOUNT && forall op :: op in ops ==> op.Add?
    ensures Run(keys, ops) == keys
    decreases |ops|
  {
    if ops != [] {
      FullRefuses(keys, ops[1..]);
    }
  }

  // A key that was taken in is the one later found, exactly if its prefix is not on a stored key of the
  // same priority: of two equal prefixes the older answers.
  lemma AddThenFind(keys: seq<Key>, key: Key)
    requires Sound(keys) && !Refused(keys, key) && Level(keys) <= key.priority
    ensures var after := Apply(keys, Add(key)); var k := FindKey(after, key.prefix);
            && k < |after|
            && (k == |after| - 1 <==> Level(keys) < key.priority || FindKey(keys, key.prefix) == |keys|)
  {
    var after := Apply(keys, Add(key));
    AddExact(keys, key);
    assert after[|after| - 1] == key;
    var k, j := FindKey(after, key.prefix), FindKey(keys, key.prefix);
    assert !(k > |after| - 1);
    if Level(keys) == key.priority {
      if j < |keys| {
        assert after[j] == keys[j];
      }
    }
  }

  // ---- the lookup of a client's key

  const KEYSEQ_LEN := 3

  datatype Verdict = Legal(key: Key) | Revoked | ListEmpty | Unmatched

  // The revocation list is a text of key sequences end to end; an incomplete one at its end matches nothing.
  ghost predicate IsRevoked(revocation: string, keyseq: string) {
    exists i: nat :: RevokedAt(revocation, keyseq, i)
  }

  predicate RevokedAt(revocation: string, keyseq: string, i: nat) {
    (i + 1) * KEYSEQ_LEN <= |revocation| && revocation[i * KEYSEQ_LEN..(i + 1) * KEYSEQ_LEN] == keyseq
  }

  // Group keys are looked at after the server keys, and only if there are any of those.
  ghost function Lookup(keys: seq<Key>, groups: seq<Key>, revocation: string, prefix: string, keyseq: string): Verdict {
    if IsRevoked(revocation, keyseq) then Revoked
    else if keys == [] then ListEmpty
    else if FindKey(keys, prefix) < |keys| then Legal(keys[FindKey(keys, prefix)])
    else if FindKey(groups, prefix) < |groups| then Legal(groups[FindKey(groups, prefix)])
    else Unmatched
  }

  // The lookup in plain terms.
  lemma LookupExact(keys: seq<Key>, groups: seq<Key>, revocation: string, prefix: string, keyseq: string)
    ensures var r := Lookup(keys, groups, revocation, prefix, keyseq);
      && (r == Revoked <==> exists i :: RevokedFrom(revocation, keyseq, i))
      && (r != Revoked ==>
           && (r == ListEmpty <==> keys == [])
           && (forall k :: FirstWith(keys, prefix, k) ==> r == Legal(keys[k]))
           && (keys != [] && NoneWith(keys, prefix) ==>
                && (forall k :: FirstWith(groups, prefix, k) ==> r == Legal(groups[k]))
                && (NoneWith(groups, prefix) ==> r == Unmatched)))
  {
    if IsRevoked(revocation, keyseq) {
      var i: nat :| RevokedAt(revocation, keyseq, i);
      assert RevokedFrom(revocation, keyseq, i * KEYSEQ_LEN);
    }
    if i :| RevokedFrom(revocation, keyseq, i) {
      assert RevokedAt(revocation, keyseq, i / 3);
    }
    forall k | FirstWith(keys, prefix, k) ensures FindKey(keys, prefix) == k {
    }
    forall k | FirstWith(groups, prefix, k) ensures FindKey(groups, prefix) == k {
    }
  }

  ghost predicate RevokedFrom(revocation: string, keyseq: string, i: int) {
    0 <= i && i % 3 == 0 && i + 3 <= |revocation| && revocation[i..i + 3] == keyseq
  }

  ghost predicate FirstWith(keys: seq<Key>, prefix: string, k: int) {
    0 <= k < |keys| && keys[k].prefix == prefix && forall i :: 0 <= i < k ==> keys[i].prefix != prefix
  }

  ghost predicate NoneWith(keys: seq<Key>, prefix: string) {
    forall i :: 0 <= i < |keys| ==> keys[i].prefix != prefix
  }

  // Removing takes off the first key with the prefix and nothing else.
  lemma RemoveExact(keys: seq<Key>, prefix: string, k: nat)
    ensures FirstWith(keys, prefix, k) ==> Apply(keys, Remove(prefix)) == keys[..k] + keys[k + 1..]
    ensures NoneWith(keys, prefix) ==> Apply(keys, Remove(prefix)) == keys
  {
    assert FirstWith(keys, prefix, k) ==> FindKey(keys, prefix) == k;
  }

  // Dropping weaker keys keeps every key of at least the priority as often as it was there, and no other.
  lemma {:induction false} AtLeastExact(keys: seq<Key>, p: Priority, x: Key)
    ensures multiset(AtLeast(keys, p))[x] == if x.priority >= p then multiset(keys)[x] else 0
  {
    hide AtLeast;
    if keys == [] {
      AtLeastStep(keys, x, p);
    } else {
      var front, last := keys[..|keys| - 1], keys[|keys| - 1];
      AtLeastExact(front, p, x);
      assert keys == front + [last];
      AtLeastStep(front, last, p);
    }
  }

  // Whatever the parts: the order is kept.
  lemma {:induction false} AtLeastConcat(a: seq<Key>, b: seq<Key>, p: Priority)
    ensures AtLeast(a + b, p) == AtLeast(a, p) + AtLeast(b, p)
    decreases |b|
  {
    hide AtLeast;
    if b == [] {
      assert a + b == a;
      AtLeastStep(b, Key("", "", p), p);
    } else {
      var front, last := b[..|b| - 1], b[|b| - 1];
      AtLeastConcat(a, front, p);
      AtLeastStep(a + front, last, p);
      AtLeastStep(front, last, p);
      assert b == front + [last];
      Associative(a, front, [last]);
    }
  }

  // What a client that holds an accepted key is given: its key, unless its sequence is revoked or an older
  // key of the same priority has the prefix.
  lemma AddThenLookup(keys: seq<Key>, key: Key, groups: seq<Key>, revocation: string, keyseq: string)
    requires Sound(keys) && !Refused(keys, key) && Level(keys) <= key.priority
    ensures Lookup(Apply(keys, Add(key)), groups, revocation, key.prefix, keyseq) ==
            if IsRevoked(revocation, keyseq) then Revoked
            else if Level(keys) == key.priority && FindKey(keys, key.prefix) < |keys|
              then Legal(keys[FindKey(keys, key.prefix)])
            else Legal(key)
  {
    hide IsRevoked;
    AddExact(keys, key);
    AddThenFind(keys, key);
    var after, k := Apply(keys, Add(key)), FindKey(keys, key.prefix);
    if Level(keys) == key.priority && k < |keys| {
      assert after[k] == keys[k];
      assert FindKey(after, key.prefix) == k;
    }
  }

  // Removing a prefix that is stored once leaves none of it.
  lemma AddThenRemove(keys: seq<Key>, key: Key)
    requires Sound(keys) && !Refused(keys, key) && Level(keys) <= key.priority
    requires FindKey(keys, key.prefix) == |keys|
    ensures Apply(Apply(keys, Add(key)), Remove(key.prefix)) == if Level(keys) == key.priority then keys else []
  {
    AddExact(keys, key);
    AddThenFind(keys, key);
  }

  // ---------------------------------------------------------------- the list in place

  // Where the walk that drops weaker keys stands after the first `done` of them, at list position i.
  ghost predicate KeptAt(keys: seq<Key>, was: seq<Key>, done: nat, p: Priority, i: nat)
    requires done <= |was|
  {
    i == |AtLeast(was[..done], p)| && keys == AtLeast(was[..done], p) + was[done..]
  }

  lemma KeptStart(keys: seq<Key>, p: Priority)
    ensures KeptAt(keys, keys, 0, p, 0)
  {
  }

  lemma KeptStep(keys: seq<Key>, was: seq<Key>, done: nat, p: Priority, i: nat)
    requires done <= |was| && KeptAt(keys, was, done, p, i) && i < |keys|
    ensures done < |was|
    ensures if keys[i].priority < p then KeptAt(RemoveAt(keys, i), was, done + 1, p, i)
            else KeptAt(keys, was, done + 1, p, i + 1)
  {
    var front, k := AtLeast(was[..done], p), was[done];
    assert was[..done + 1][..done] == was[..done] && keys[i] == k;
    assert keys == front + ([k] + was[done + 1..]);
    if k.priority < p {
      assert RemoveAt(keys, i) == front + was[done + 1..];
    } else {
      assert keys == (front + [k]) + was[done + 1..];
    }
  }

  lemma KeptEnd(keys: seq<Key>, was: seq<Key>, done: nat, p: Priority, i: nat)
    requires done <= |was| && KeptAt(keys, was, done, p, i) && i >= |keys|
    ensures keys == AtLeast(was, p)
  {
    assert was[..done] == was;
  }

  class KeyList {
    var keys: seq<Key>
    var svrCount: byte
    var revocation: string

    ghost predicate Valid()
      reads this
    {
      svrCount == |keys| && Sound(keys)
    }

    constructor ()
      ensures Valid() && keys == [] && revocation == ""
    {
      keys, svrCount, revocation := [], 0, "";
    }

    lemma CountReal()
      requires Valid()
      ensures svrCount == |keys| <= 10
    {
    }

    method Delete(i: nat)
      requires i < |keys| && svrCount == |keys|
      modifies this`keys, this`svrCount
      ensures keys == RemoveAt(old(keys), i) && svrCount == |keys|
    {
      keys := RemoveAt(keys, i);
      svrCount := svrCount - 1;
    }

    method RemoveLowPriorityKey(priority: Priority)
      requires svrCount == |keys|
      modifies this`keys, this`svrCount
      ensures keys == AtLeast(old(keys), priority) && svrCount == |keys|
    {
      ghost var was: seq<Key>, done: nat := keys, 0;
      var i: nat := 0;
      KeptStart(was, priority);
      hide KeptAt, RemoveAt;
      while i < |keys|
        invariant done <= |was| && svrCount == |keys|
        invariant KeptAt(keys, was, done, priority, i)
        decreases |was| - done
      {
        KeptStep(keys, was, done, priority, i);
        if keys[i].priority < priority {
          Delete(i);
        } else {
          i := i + 1;
        }
        done := done + 1;
      }
      KeptEnd(keys, was, done, priority, i);
    }

    method AddSvrKey(prefix: string, secret: string, priority: Priority) returns (r: Status)
      requires Valid()
      modifies this`keys, this`svrCount
      ensures Valid() && keys == Apply(old(keys), Add(Key(prefix, secret, priority)))
      ensures r == InvalidLength <==> |old(keys)| >= 10 || |prefix| != 8
      ensures r != InvalidLength ==> (r == Unsupported <==> Level(old(keys)) > priority)
      ensures r == Success ==> keys[|keys| - 1] == Key(prefix, secret, priority)
    {
      hide AtLeast, Sound;
      StepSound(keys, Add(Key(prefix, secret, priority)));
      AddExact(keys, Key(prefix, secret, priority));
      if svrCount >= KEY_MAXCOUNT || |prefix| != KEYPREFIX_LEN {
        return InvalidLength;
      }
      RemoveLowPriorityKey(priority);
      var i := 0;
      while i < |keys|
        invariant i <= |keys| && forall j :: 0 <= j < i ==> keys[j].priority <= priority
      {
        if keys[i].priority > priority {
          assert AnyHigher(keys, priority);
          return Unsupported;
        }
        i := i + 1;
      }
      keys := keys + [Key(prefix, secret, priority)];
      svrCount := svrCount + 1;
      return Success;
    }

    method RemoveSvrKey(prefix: string)
      requires Valid()
      modifies this`keys, this`svrCount
      ensures Valid() && keys == Apply(old(keys), Remove(prefix))
    {
      StepSound(keys, Remove(prefix));
      var i := 0;
      while i < |keys|
        invariant i <= |keys| && forall j :: 0 <= j < i ==> keys[j].prefix != prefix
      {
        if keys[i].prefix == prefix {
          assert FindKey(keys, prefix) == i;
          Delete(i);
          break;
        }
        i := i + 1;
      }
    }

    // alcs_set_revocation; a null pointer is the empty text.
    method SetRevocation(seqlist: string)
      modifies this`revocation
      ensures revocation == seqlist
    {
      revocation := seqlist;
    }

    method IsLegalKey(groups: seq<Key>, prefix: string, keyseq: string) returns (r: Verdict)
      requires |keyseq| == KEYSEQ_LEN
      ensures r == Lookup(keys, groups, revocation, prefix, keyseq)
    {
      var i := 0;
      ghost var n: nat := 0;
      while i < |revocation|
        invariant i == n * KEYSEQ_LEN && forall j: nat :: j < n ==> !RevokedAt(revocation, keyseq, j)
      {
        if i + KEYSEQ_LEN <= |revocation| && revocation[i..i + KEYSEQ_LEN] == keyseq {
          assert RevokedAt(revocation, keyseq, n);
          return Revoked;
        }
        i := i + KEYSEQ_LEN;
        n := n + 1;
      }
      if keys == [] {
        return ListEmpty;
      }
      r := Search(keys, prefix);
      if r == Unmatched {
        r := Search(groups, prefix);
      }
    }

    static method Search(keys: seq<Key>, prefix: string) returns (r: Verdict)
      ensures r == if FindKey(keys, prefix) < |keys| then Legal(keys[FindKey(keys, prefix)]) else Unmatched
    {
      var i := 0;
      while i < |keys|
        invariant i <= |keys| && forall j :: 0 <= j < i ==> keys[j].prefix != prefix
      {
        if |keys[i].prefix| == |prefix| && keys[i].prefix == prefix {
          assert FindKey(keys, prefix) == i;
          return Legal(keys[i]);
        }
        i := i + 1;
      }
      return Unmatched;
    }
  }
}
