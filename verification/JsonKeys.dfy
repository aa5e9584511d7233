/**
 How a JSON document becomes shadow keys in dev_model/dm_message.c: two procedures, one for objects and one
 for arrays, call each other down the tree and set every number and string under the key of its path.
 */
module JsonKeys {
  import opened Words

  // Other covers booleans and null, which no branch of the procedures takes; Unreadable stands for an item
  // the JSON library cannot deliver.
  datatype Json =
    | Obj(fields: seq<Field>)
    | Arr(items: seq<Json>)
    | Num(text: string)
    | Str(text: string)
    | Other
    | Unreadable

  datatype Field = Field(name: string, value: Json)

  datatype Visit = Visit(key: string, leaf: Json)

  // ---------------------------------------------------------------- index text

  function Digit(d: nat): char
    requires d < 10
  {
    "0123456789"[d]
  }

  function Decimal(n: nat): (s: string)
    ensures |s| > 0
    ensures forall c :: c in s ==> c in "0123456789"
  {
    if n < 10 then [Digit(n)] else Decimal(n / 10) + [Digit(n % 10)]
  }

  // The number a text of digits stands for.
  function Reading(s: string): int {
    if s == "" then 0 else 10 * Reading(s[..|s| - 1]) + (s[|s| - 1] as int - '0' as int)
  }

  // Digits in the usual order, none in front that could be left out.
  lemma {:induction false} DecimalReads(n: nat)
    ensures forall c :: c in Decimal(n) ==> '0' <= c <= '9'
    ensures Reading(Decimal(n)) == n && (n > 0 ==> Decimal(n)[0] != '0') && (n == 0 ==> Decimal(n) == "0")
  {
    DigitChar(n % 10);
    if n >= 10 {
      DecimalReads(n / 10);
      assert Decimal(n)[..|Decimal(n)| - 1] == Decimal(n / 10);
    } else {
      DigitChar(n);
      assert Decimal(n)[..0] == "" && Reading("") == 0;
    }
  }

  lemma DigitChar(d: nat)
    requires d < 10
    ensures Digit(d) as int == '0' as int + d
  {
  }

  // dm_utils_itoa prints into ten bytes, the last of which ends the text: nine digits are kept.
  function Itoa(n: nat): (s: string)
    ensures forall c :: c in s ==> c in "0123456789"
  {
    Decimal(n)[..Min(|Decimal(n)|, 9)]
  }

  const ITOA_LIMIT := 1_000_000_000

  lemma {:induction false} DecimalInjective(m: nat, n: nat)
    requires Decimal(m) == Decimal(n)
    ensures m == n
    decreases m
  {
    var s, t := Decimal(m), Decimal(n);
    assert s[|s| - 1] == Digit(m % 10) && t[|t| - 1] == Digit(n % 10);
    if m >= 10 && n >= 10 {
      assert s[..|s| - 1] == Decimal(m / 10) && t[..|t| - 1] == Decimal(n / 10);
      DecimalInjective(m / 10, n / 10);
    } else {
      assert m >= 10 ==> |s| > 1;
      assert n >= 10 ==> |t| > 1;
    }
  }

  function Pow10(k: nat): nat {
    if k == 0 then 1 else 10 * Pow10(k - 1)
  }

  lemma {:induction false} DecimalLen(n: nat, k: nat)
    requires k > 0 && n < Pow10(k)
    ensures |Decimal(n)| <= k
    decreases k
  {
    if n >= 10 {
      if k > 1 {
        DecimalLen(n / 10, k - 1);
      }
    }
  }

  lemma NineDigits()
    ensures Pow10(9) == ITOA_LIMIT
  {
    assert Pow10(3) == 1000;
    assert Pow10(6) == 1_000_000;
  }

  lemma ItoaInjective(m: nat, n: nat)
    requires m < ITOA_LIMIT && n < ITOA_LIMIT && Itoa(m) == Itoa(n)
    ensures m == n
  {
    NineDigits();
    DecimalLen(m, 9);
    DecimalLen(n, 9);
    DecimalInjective(m, n);
  }

  // The indices of an array all print differently exactly if there are at most 10^9 of them.
  lemma ItoaExact(n: nat)
    ensures (forall i: nat, j: nat :: i < j < n ==> Itoa(i) != Itoa(j)) <==> n <= ITOA_LIMIT
  {
    if n <= ITOA_LIMIT {
      forall i: nat, j: nat | i < j < n ensures Itoa(i) != Itoa(j) {
        if Itoa(i) == Itoa(j) {
          ItoaInjective(i, j);
        }
      }
    } else {
      ItoaCollides(ITOA_LIMIT / 10);
      assert Itoa(ITOA_LIMIT / 10) == Itoa(ITOA_LIMIT);
    }
  }

  // Up to nine digits the text is the number; of a longer one the first nine are kept.
  lemma ItoaReads(n: nat)
    ensures n < 1_000_000_000 ==> Itoa(n) == Decimal(n)
    ensures n >= 1_000_000_000 ==> |Itoa(n)| == 9 && Itoa(n) == Decimal(n)[..9]
  {
    NineDigits();
    if n < ITOA_LIMIT {
      DecimalLen(n, 9);
    } else {
      DecimalLenAtLeast(n, 10);
    }
  }

  // From ten digits on, the last one is lost.
  lemma ItoaCollides(n: nat)
    requires ITOA_LIMIT / 10 <= n < ITOA_LIMIT
    ensures Itoa(10 * n) == Itoa(n) == Itoa(10 * n + 1)
  {
    NineDigits();
    DecimalLen(n, 9);
    DecimalLenAtLeast(n, 9);
    assert 10 * n / 10 == n && (10 * n + 1) / 10 == n;
  }

  lemma {:induction false} DecimalLenAtLeast(n: nat, k: nat)
    requires k > 0 && n >= Pow10(k - 1)
    ensures |Decimal(n)| >= k
    decreases k
  {
    if k > 1 {
      DecimalLenAtLeast(n / 10, k - 1);
    }
  }

  // ---------------------------------------------------------------- what is set, in order

  function FieldKey(key: Option<string>, name: string): string {
    (if key.Some? then key.value + "." else "") + name
  }

  function ItemKey(key: Option<string>, index: nat): string {
    (if key.Some? then key.value else "") + "[" + Itoa(index) + "]"
  }

  predicate Leaf(j: Json) {
    j.Num? || j.Str?
  }

  function Flatten(key: string, j: Json): seq<Visit>
    decreases j, 0
  {
    match j
    case Obj(fields) => FlattenFields(Some(key), fields)
    case Arr(items) => FlattenItems(Some(key), items)
    case Num(_) => [Visit(key, j)]
    case Str(_) => [Visit(key, j)]
    case Other => []
    case Unreadable => []
  }

  function FlattenFields(key: Option<string>, fields: seq<Field>): seq<Visit>
    decreases fields, 1
  {
    if fields == [] then []
    else
      var f := fields[|fields| - 1];
      FlattenFields(key, fields[..|fields| - 1]) + Flatten(FieldKey(key, f.name), f.value)
  }

  function FlattenItems(key: Option<string>, items: seq<Json>): seq<Visit>
    decreases items, 1
  {
    if items == [] then []
    else
      FlattenItems(key, items[..|items| - 1]) +
      Flatten(ItemKey(key, |items| - 1), items[|items| - 1])
  }

  // ---------------------------------------------------------------- paths

  // A field is told by its name and its place, so that every leaf has a path of its own even where an
  // object has a name twice; keys show the name only.
  datatype Step = Name(name: string, at: nat) | Index(index: nat)

  datatype Place = Place(path: seq<Step>, leaf: Json)

  // What a path leads to, if anything.
  function Reach(j: Json, path: seq<Step>): Option<Json>
    decreases |path|
  {
    if path == [] then Some(j)
    else
      match path[0]
      case Name(name, at) =>
        if j.Obj? && at < |j.fields| && j.fields[at].name == name then Reach(j.fields[at].value, path[1..]) else None
      case Index(index) =>
        if j.Arr? && index < |j.items| then Reach(j.items[index], path[1..]) else None
  }

  function Under(step: Step, places: seq<Place>): (r: seq<Place>)
    ensures |r| == |places|
    ensures forall i :: 0 <= i < |r| ==> r[i] == Place([step] + places[i].path, places[i].leaf)
  {
    if places == [] then []
    else [Place([step] + places[0].path, places[0].leaf)] + Under(step, places[1..])
  }

  // The leaves with their paths, in document order.
  function Leaves(j: Json): seq<Place>
    decreases j, 0
  {
    match j
    case Obj(fields) => FieldLeaves(fields)
    case Arr(items) => ItemLeaves(items)
    case Num(_) => [Place([], j)]
    case Str(_) => [Place([], j)]
    case Other => []
    case Unreadable => []
  }

  function FieldLeaves(fields: seq<Field>): seq<Place>
    decreases fields, 1
  {
    if fields == [] then []
    else
      var f := fields[|fields| - 1];
      FieldLeaves(fields[..|fields| - 1]) + Under(Name(f.name, |fields| - 1), Leaves(f.value))
  }

  function ItemLeaves(items: seq<Json>): seq<Place>
    decreases items, 1
  {
    if items == [] then []
    else ItemLeaves(items[..|items| - 1]) + Under(Index(|items| - 1), Leaves(items[|items| - 1]))
  }

  // ---- every leaf, and each once

  ghost predicate DistinctPaths(places: seq<Place>) {
    forall i, j :: 0 <= i < j < |places| ==> places[i].path != places[j].path
  }

  ghost predicate Complete(j: Json, places: seq<Place>) {
    && (forall p :: p in places ==> Leaf(p.leaf) && Reach(j, p.path) == Some(p.leaf))
    && (forall path :: Reach(j, path).Some? && Leaf(Reach(j, path).value) ==>
          Place(path, Reach(j, path).value) in places)
  }

  lemma ReachFields(fields: seq<Field>, path: seq<Step>)
    requires fields != [] && path != []
    ensures Reach(Obj(fields), path) ==
            var front, f := fields[..|fields| - 1], fields[|fields| - 1];
            if path[0] == Name(f.name, |fields| - 1) then Reach(f.value, path[1..]) else Reach(Obj(front), path)
  {
  }

  lemma ReachItems(items: seq<Json>, path: seq<Step>)
    requires items != [] && path != []
    ensures Reach(Arr(items), path) ==
            var front := items[..|items| - 1];
            if path[0] == Index(|items| - 1) then Reach(items[|items| - 1], path[1..]) else Reach(Arr(front), path)
  {
  }

  lemma UnderHas(step: Step, places: seq<Place>, p: Place)
    ensures p in Under(step, places) <==>
            p.path != [] && p.path[0] == step && Place(p.path[1..], p.leaf) in places
  {
    var r := Under(step, places);
    if p in r {
      var i :| 0 <= i < |r| && r[i] == p;
      assert p.path[1..] == places[i].path && places[i] == Place(p.path[1..], p.leaf);
    }
    if p.path != [] && p.path[0] == step && Place(p.path[1..], p.leaf) in places {
      var i :| 0 <= i < |places| && places[i] == Place(p.path[1..], p.leaf);
      assert p.path == [step] + p.path[1..];
      assert r[i] == p;
    }
  }

  lemma UnderDistinct(step: Step, places: seq<Place>)
    requires DistinctPaths(places)
    ensures DistinctPaths(Under(step, places))
  {
    var r := Under(step, places);
    forall i, j | 0 <= i < j < |r| ensures r[i].path != r[j].path {
      assert r[i].path[1..] == places[i].path && r[j].path[1..] == places[j].path;
    }
  }

  lemma JoinDistinct(a: seq<Place>, b: seq<Place>, step: Step)
    requires DistinctPaths(a) && DistinctPaths(b)
    requires forall p :: p in a ==> p.path != [] && p.path[0] != step
    ensures DistinctPaths(a + Under(step, b))
  {
    UnderDistinct(step, b);
    var r := Under(step, b);
    forall i, j | 0 <= i < j < |a + r| ensures (a + r)[i].path != (a + r)[j].path {
      if i < |a| <= j {
        assert a[i] in a && r[j - |a|].path[0] == step;
      }
    }
  }

  ghost predicate Joined(whole: Json, front: Json, child: Json, step: Step, path: seq<Step>)
    requires path != []
  {
    Reach(whole, path) == if path[0] == step then Reach(child, path[1..]) else Reach(front, path)
  }

  // A container whose paths either go through `step` into `child` or into the container without it.
  lemma JoinComplete(whole: Json, front: Json, child: Json, step: Step, a: seq<Place>, b: seq<Place>)
    requires !Leaf(whole) && !Leaf(front) && Complete(front, a) && Complete(child, b)
    requires forall path :: path != [] ==> Joined(whole, front, child, step, path)
    requires forall p :: p in a ==> p.path != [] && p.path[0] != step
    ensures Complete(whole, a + Under(step, b))
  {
    var all := a + Under(step, b);
    forall p | p in all ensures Leaf(p.leaf) && Reach(whole, p.path) == Some(p.leaf) {
      if p !in a {
        UnderHas(step, b, p);
      }
      assert Joined(whole, front, child, step, p.path);
    }
    forall path | Reach(whole, path).Some? && Leaf(Reach(whole, path).value)
      ensures Place(path, Reach(whole, path).value) in all
    {
      UnderHas(step, b, Place(path, Reach(whole, path).value));
      assert Joined(whole, front, child, step, path);
    }
  }

  // Whatever the document: the list of leaves holds each path to a number or string exactly once, and
  // nothing else.
  lemma {:induction false} LeavesExact(j: Json)
    ensures DistinctPaths(Leaves(j)) && Complete(j, Leaves(j))
    decreases j, 0
  {
    match j
    case Obj(fields) => FieldLeavesExact(fields);
    case Arr(items) => ItemLeavesExact(items);
    case _ =>
  }

  lemma {:induction false} FieldLeavesExact(fields: seq<Field>)
    ensures DistinctPaths(FieldLeaves(fields)) && Complete(Obj(fields), FieldLeaves(fields))
    decreases fields, 1
  {
    if fields != [] {
      hide DistinctPaths, Leaves, Under;
      var front, f := fields[..|fields| - 1], fields[|fields| - 1];
      FieldLeavesExact(front);
      LeavesExact(f.value);
      var a, b, step := FieldLeaves(front), Leaves(f.value), Name(f.name, |fields| - 1);
      forall p | p in a ensures p.path != [] && p.path[0] != step {
        assert Reach(Obj(front), p.path).Some? && Leaf(Reach(Obj(front), p.path).value);
      }
      forall path | path != [] ensures Joined(Obj(fields), Obj(front), f.value, step, path) {
        ReachFields(fields, path);
      }
      JoinDistinct(a, b, step);
      JoinComplete(Obj(fields), Obj(front), f.value, step, a, b);
    }
  }

  lemma {:induction false} ItemLeavesExact(items: seq<Json>)
    ensures DistinctPaths(ItemLeaves(items)) && Complete(Arr(items), ItemLeaves(items))
    decreases items, 1
  {
    if items != [] {
      var front, item := items[..|items| - 1], items[|items| - 1];
      ItemLeavesExact(front);
      LeavesExact(item);
      var a, b, step := ItemLeaves(front), Leaves(item), Index(|items| - 1);
      forall p | p in a ensures p.path != [] && p.path[0] != step {
        assert Reach(Arr(front), p.path).Some? && Leaf(Reach(Arr(front), p.path).value);
      }
      forall path | path != [] ensures Joined(Arr(items), Arr(front), item, step, path) {
        ReachItems(items, path);
      }
      JoinDistinct(a, b, step);
      JoinComplete(Arr(items), Arr(front), item, step, a, b);
    }
  }

  // ---------------------------------------------------------------- keys of paths

  function Segment(step: Step): string {
    match step
    case Name(name, _) => "." + name
    case Index(index) => "[" + Itoa(index) + "]"
  }

  function Tail(path: seq<Step>): string {
    if path == [] then "" else Segment(path[0]) + Tail(path[1..])
  }

  function KeyOf(key: Option<string>, path: seq<Step>): string {
    if key.Some? then key.value + Tail(path)
    else if path != [] && path[0].Name? then path[0].name + Tail(path[1..])
    else Tail(path)
  }

  function Visits(key: Option<string>, places: seq<Place>): (r: seq<Visit>)
    ensures |r| == |places|
    ensures forall i :: 0 <= i < |r| ==> r[i] == Visit(KeyOf(key, places[i].path), places[i].leaf)
  {
    if places == [] then [] else [Visit(KeyOf(key, places[0].path), places[0].leaf)] + Visits(key, places[1..])
  }

  lemma KeyOfUnder(key: Option<string>, step: Step, path: seq<Step>)
    ensures KeyOf(key, [step] + path) == KeyOf(Some(KeyOf(key, [step])), path)
  {
    assert ([step] + path)[1..] == path && [step][1..] == [];
    assert Tail([step]) == Segment(step) + "";
    assert Segment(step) + "" == Segment(step);
    if key.Some? {
      assert key.value + (Segment(step) + Tail(path)) == (key.value + Segment(step)) + Tail(path);
    } else if step.Name? {
      assert step.name + "" == step.name;
    }
  }

  lemma VisitsUnder(key: Option<string>, a: seq<Place>, step: Step, b: seq<Place>)
    ensures Visits(key, a + Under(step, b)) == Visits(key, a) + Visits(Some(KeyOf(key, [step])), b)
  {
    hide KeyOf, Under, Visits;
    var u := Under(step, b);
    forall i | 0 <= i < |b| ensures KeyOf(key, u[i].path) == KeyOf(Some(KeyOf(key, [step])), b[i].path) {
      KeyOfUnder(key, step, b[i].path);
    }
  }

  lemma NameKey(key: Option<string>, name: string, at: nat)
    ensures KeyOf(key, [Name(name, at)]) == FieldKey(key, name)
  {
    hide Tail;
    OneTail(Name(name, at));
    assert [Name(name, at)][1..] == [];
    assert name + "" == name == "" + name;
    if key.Some? {
      assert key.value + ("." + name) == key.value + "." + name;
    }
  }

  lemma IndexKey(key: Option<string>, index: nat)
    ensures KeyOf(key, [Index(index)]) == ItemKey(key, index)
  {
    hide Tail, Itoa;
    OneTail(Index(index));
    var s := Itoa(index);
    if key.Some? {
      assert key.value + ("[" + s + "]") == key.value + "[" + s + "]";
    } else {
      assert "" + "[" + s + "]" == "[" + s + "]";
    }
  }

  lemma OneTail(step: Step)
    ensures Tail([step]) == Segment(step) && Tail([]) == ""
  {
    assert [step][1..] == [] && Segment(step) + "" == Segment(step);
  }

  // What the two procedures set is every leaf, in document order, under the key of its path.
  lemma {:induction false} FlattenLeaves(key: string, j: Json)
    ensures Flatten(key, j) == Visits(Some(key), Leaves(j))
    decreases j, 0
  {
    match j
    case Obj(fields) => FieldsFlatten(Some(key), fields);
    case Arr(items) => ItemsFlatten(Some(key), items);
    case _ =>
      assert KeyOf(Some(key), []) == key + "" == key;
  }

  lemma {:induction false} FieldsFlatten(key: Option<string>, fields: seq<Field>)
    ensures FlattenFields(key, fields) == Visits(key, FieldLeaves(fields))
    decreases fields, 1
  {
    if fields != [] {
      var front, f := fields[..|fields| - 1], fields[|fields| - 1];
      FieldsFlatten(key, front);
      FlattenLeaves(FieldKey(key, f.name), f.value);
      NameKey(key, f.name, |fields| - 1);
      VisitsUnder(key, FieldLeaves(front), Name(f.name, |fields| - 1), Leaves(f.value));
    }
  }

  lemma {:induction false} ItemsFlatten(key: Option<string>, items: seq<Json>)
    ensures FlattenItems(key, items) == Visits(key, ItemLeaves(items))
    decreases items, 1
  {
    if items != [] {
      var front, n := items[..|items| - 1], |items| - 1;
      ItemsFlatten(key, front);
      FlattenLeaves(ItemKey(key, n), items[n]);
      IndexKey(key, n);
      VisitsUnder(key, ItemLeaves(front), Index(n), Leaves(items[n]));
    }
  }

  // The key of a path, step by step: a name is put behind a dot, unless it comes first, an index in brackets.
  lemma KeyExact(key: Option<string>, path: seq<Step>, step: Step)
    ensures var text := if step.Name? then "." + step.name else "[" + Itoa(step.index) + "]";
      path != [] || key.Some? ==> KeyOf(key, path + [step]) == KeyOf(key, path) + text
    ensures key.None? ==> KeyOf(key, [step]) == if step.Name? then step.name else "[" + Itoa(step.index) + "]"
    ensures key.Some? ==> KeyOf(key, []) == key.value
  {
    hide Itoa, Tail;
    OneTail(step);
    TailSnoc(path, step);
    assert [step][1..] == [];
    if key.Some? {
      assert key.value + (Tail(path) + Segment(step)) == (key.value + Tail(path)) + Segment(step);
      assert key.value + "" == key.value;
    } else if path != [] && path[0].Name? {
      assert (path + [step])[0] == path[0] && (path + [step])[1..] == path[1..] + [step];
      TailSnoc(path[1..], step);
      assert path[0].name + (Tail(path[1..]) + Segment(step)) == (path[0].name + Tail(path[1..])) + Segment(step);
    } else if path != [] {
      assert (path + [step])[0] == path[0];
    }
    assert step.Name? ==> step.name + "" == step.name;
  }

  // ---- different paths, different keys

  ghost predicate DistinctNames(fields: seq<Field>) {
    forall i, j :: 0 <= i < j < |fields| ==> fields[i].name != fields[j].name
  }

  // The name ends like the key of an array item.
  ghost predicate EndsIndexed(name: string) {
    exists s, i :: name == Bracketed(s, i)
  }

  function Bracketed(s: string, i: nat): string {
    s + "[" + Itoa(i) + "]"
  }

  // A name that cannot be taken for a longer path.
  ghost predicate Plain(name: string) {
    '.' !in name && !EndsIndexed(name)
  }

  // The names of each object differ and are plain; indices print in full.
  ghost predicate WellNamed(j: Json)
    decreases j
  {
    match j
    case Obj(fields) =>
      && DistinctNames(fields)
      && forall i :: 0 <= i < |fields| ==> Plain(fields[i].name) && WellNamed(fields[i].value)
    case Arr(items) => |items| <= ITOA_LIMIT && forall i :: 0 <= i < |items| ==> WellNamed(items[i])
    case _ => true
  }

  ghost predicate PlainStep(step: Step) {
    match step
    case Name(name, _) => Plain(name)
    case Index(index) => index < ITOA_LIMIT
  }

  ghost predicate PlainPath(path: seq<Step>) {
    forall i :: 0 <= i < |path| ==> PlainStep(path[i])
  }

  lemma {:induction false} ReachPlain(j: Json, path: seq<Step>)
    requires WellNamed(j) && Reach(j, path).Some?
    ensures PlainPath(path)
    decreases |path|
  {
    hide Plain;
    if path != [] {
      match path[0]
      case Name(name, at) => ReachPlain(j.fields[at].value, path[1..]);
      case Index(index) => ReachPlain(j.items[index], path[1..]);
      assert forall i :: 0 < i < |path| ==> path[i] == path[1..][i - 1];
    }
  }

  // The two steps read the same in a key.
  predicate SameText(a: Step, b: Step) {
    if a.Name? then b.Name? && a.name == b.name else a == b
  }

  ghost predicate SameTexts(p: seq<Step>, q: seq<Step>) {
    |p| == |q| && forall i :: 0 <= i < |p| ==> SameText(p[i], q[i])
  }

  lemma {:induction false} SameReach(j: Json, p: seq<Step>, q: seq<Step>)
    requires WellNamed(j) && Reach(j, p).Some? && Reach(j, q).Some? && SameTexts(p, q)
    ensures p == q
    decreases |p|
  {
    hide Plain;
    if p != [] {
      assert SameText(p[0], q[0]);
      assert SameTexts(p[1..], q[1..]);
      if p[0].Name? {
        assert p[0].at == q[0].at;
        SameReach(j.fields[p[0].at].value, p[1..], q[1..]);
      } else {
        SameReach(j.items[p[0].index], p[1..], q[1..]);
      }
      assert p == [p[0]] + p[1..] && q == [q[0]] + q[1..];
    }
  }

  // ---- cutting a key where its last step begins

  // The position of the last stop character.
  function LastStop(w: string, stop: char): int {
    if w == "" then -1 else if w[|w| - 1] == stop then |w| - 1 else LastStop(w[..|w| - 1], stop)
  }

  lemma {:induction false} LastStopIs(u: string, s: string, stop: char)
    requires s != "" && s[0] == stop && stop !in s[1..]
    ensures LastStop(u + s, stop) == |u|
    decreases |s|
  {
    var w := u + s;
    if |s| > 1 {
      assert s[|s| - 1] == s[1..][|s| - 2];
      assert w[..|w| - 1] == u + s[..|s| - 1];
      assert forall c :: c in s[..|s| - 1][1..] ==> c in s[1..];
      LastStopIs(u, s[..|s| - 1], stop);
    }
  }

  lemma CutLast(u: string, s: string, v: string, t: string, stop: char)
    requires u + s == v + t
    requires s != "" && s[0] == stop && stop !in s[1..] && t != "" && t[0] == stop && stop !in t[1..]
    ensures u == v && s == t
  {
    LastStopIs(u, s, stop);
    LastStopIs(v, t, stop);
    assert u == (u + s)[..|u|] == v && s == (u + s)[|u|..] == t;
  }

  lemma {:induction false} TailSnoc(p: seq<Step>, step: Step)
    ensures Tail(p + [step]) == Tail(p) + Segment(step)
  {
    hide Segment;
    if p == [] {
      OneTail(step);
      assert [] + [step] == [step] && "" + Segment(step) == Segment(step);
    } else {
      assert (p + [step])[0] == p[0] && (p + [step])[1..] == p[1..] + [step];
      TailSnoc(p[1..], step);
    }
  }

  lemma SegmentText(step: Step)
    ensures Segment(step) != ""
  {
  }

  lemma TailLast(p: seq<Step>)
    requires p != []
    ensures Tail(p) == Tail(p[..|p| - 1]) + Segment(p[|p| - 1]) && Segment(p[|p| - 1]) != ""
  {
    hide Tail, Segment;
    assert p == p[..|p| - 1] + [p[|p| - 1]];
    TailSnoc(p[..|p| - 1], p[|p| - 1]);
    SegmentText(p[|p| - 1]);
  }

  // A text that ends with a name after the delimiter, and with a bracketed index: so does the name.
  lemma NameIndexed(u: string, name: string, v: string, i: nat)
    requires '.' !in name && u + ("." + name) == v + ("[" + Itoa(i) + "]")
    ensures EndsIndexed(name)
  {
    hide Itoa;
    var w, t := u + ("." + name), "[" + Itoa(i) + "]";
    assert w[|u|] == '.' && '.' !in t;
    assert forall k :: |v| <= k < |w| ==> w[k] == t[k - |v|];
    var front := w[|u| + 1..|v|];
    assert name == w[|u| + 1..] == front + t == Bracketed(front, i);
  }

  lemma IndexSegment(i: nat, at: Step)
    requires at == Index(i)
    ensures var s := Segment(at); s != "" && s[0] == '[' && '[' !in s[1..] && s[1..|s| - 1] == Itoa(i)
  {
    hide Itoa;
    assert Segment(at)[1..] == Itoa(i) + "]";
  }

  lemma LastStepCut(u: string, a: Step, v: string, b: Step)
    requires PlainStep(a) && PlainStep(b) && u + Segment(a) == v + Segment(b)
    ensures u == v && SameText(a, b)
  {
    hide Itoa, EndsIndexed;
    if a.Name? && b.Name? {
      CutLast(u, Segment(a), v, Segment(b), '.');
      assert a.name == Segment(a)[1..] == Segment(b)[1..] == b.name;
    } else if a.Index? && b.Index? {
      IndexSegment(a.index, a);
      IndexSegment(b.index, b);
      CutLast(u, Segment(a), v, Segment(b), '[');
      ItoaInjective(a.index, b.index);
    } else if a.Name? {
      NameIndexed(u, a.name, v, b.index);
    } else {
      NameIndexed(v, b.name, u, a.index);
    }
  }

  lemma {:induction false} TailInjective(p: seq<Step>, q: seq<Step>)
    requires PlainPath(p) && PlainPath(q) && Tail(p) == Tail(q)
    ensures SameTexts(p, q)
    decreases |p|
  {
    hide PlainStep, Segment;
    if p != [] {
      TailLast(p);
    }
    if q != [] {
      TailLast(q);
    }
    if p != [] && q != [] {
      var m, n := |p| - 1, |q| - 1;
      LastStepCut(Tail(p[..m]), p[m], Tail(q[..n]), q[n]);
      TailInjective(p[..m], q[..n]);
    }
  }

  // Within one document two leaves never share a key.
  lemma KeyInjective(key: Option<string>, j: Json, p: seq<Step>, q: seq<Step>)
    requires WellNamed(j) && !Leaf(j)
    requires Reach(j, p).Some? && Leaf(Reach(j, p).value) && Reach(j, q).Some? && Leaf(Reach(j, q).value)
    requires KeyOf(key, p) == KeyOf(key, q)
    ensures p == q
  {
    hide Tail, KeyOf, WellNamed;
    ReachPlain(j, p);
    ReachPlain(j, q);
    assert p != [] && q != [];
    KeyTail(key, p);
    KeyTail(key, q);
    assert p[0].Name? <==> q[0].Name?;
    if key.Some? {
      assert (key.value + Tail(p))[|key.value|..] == Tail(p) && (key.value + Tail(q))[|key.value|..] == Tail(q);
    }
    TailInjective(p, q);
    SameReach(j, p, q);
  }

  lemma TailStep(path: seq<Step>)
    requires path != []
    ensures Tail(path) == Segment(path[0]) + Tail(path[1..])
  {
  }

  lemma KeyTail(key: Option<string>, path: seq<Step>)
    requires path != []
    ensures if key.Some? then KeyOf(key, path) == key.value + Tail(path)
            else if path[0].Name? then Tail(path) == "." + KeyOf(key, path)
            else Tail(path) == KeyOf(key, path)
  {
    hide Itoa, Tail;
    TailStep(path);
    if key.None? && path[0].Name? {
      Associative(".", path[0].name, Tail(path[1..]));
    }
  }

  ghost predicate DistinctKeys(vs: seq<Visit>) {
    forall i, k :: 0 <= i < k < |vs| ==> vs[i].key != vs[k].key
  }

  lemma KeysDistinct(key: Option<string>, j: Json)
    requires WellNamed(j) && !Leaf(j)
    ensures DistinctKeys(Visits(key, Leaves(j)))
  {
    LeavesExact(j);
    var places := Leaves(j);
    forall i, k | 0 <= i < k < |places| ensures KeyOf(key, places[i].path) != KeyOf(key, places[k].path) {
      assert places[i] in places && places[k] in places;
      if KeyOf(key, places[i].path) == KeyOf(key, places[k].path) {
        KeyInjective(key, j, places[i].path, places[k].path);
      }
    }
  }

  // Where a name holds the delimiter, whatever stands on its two sides, there is a document in which two
  // leaves share a key.
  lemma DelimiterCollides(key: Option<string>, s: string, t: string, x: Json, y: Json)
    requires Leaf(x) && Leaf(y)
    ensures var k := FieldKey(key, s + "." + t);
      FlattenFields(key, [Field(s + "." + t, x), Field(s, Obj([Field(t, y)]))]) == [Visit(k, x), Visit(k, y)]
  {
    var a, b := Field(s + "." + t, x), Field(s, Obj([Field(t, y)]));
    assert FieldKey(Some(FieldKey(key, s)), t) == FieldKey(key, s + "." + t) by {
      FieldKeyJoin(key, s, "." + t);
      assert FieldKey(key, s) + "." + t == FieldKey(key, s) + ("." + t);
      assert s + "." + t == s + ("." + t);
    }
    OneField(key, a);
    OneField(Some(FieldKey(key, s)), Field(t, y));
    assert [a, b][..1] == [a];
  }

  // The same for a name that ends with an index in brackets, and any array that has that index.
  lemma BracketCollides(key: Option<string>, s: string, i: nat, x: Json, items: seq<Json>)
    requires Leaf(x) && i < |items| && Leaf(items[i])
    ensures var name := Bracketed(s, i);
      var k, vs := FieldKey(key, name), FlattenFields(key, [Field(name, x), Field(s, Arr(items))]);
      |vs| > 1 && vs[0] == Visit(k, x) && Visit(k, items[i]) in vs[1..]
  {
    var name := Bracketed(s, i);
    var a, b := Field(name, x), Field(s, Arr(items));
    assert ItemKey(Some(FieldKey(key, s)), i) == FieldKey(key, name) by {
      hide Itoa;
      FieldKeyJoin(key, s, "[" + Itoa(i) + "]");
      assert FieldKey(key, s) + "[" + Itoa(i) + "]" == FieldKey(key, s) + ("[" + Itoa(i) + "]");
      assert name == s + ("[" + Itoa(i) + "]");
    }
    OneField(key, a);
    ItemVisited(Some(FieldKey(key, s)), items, i);
    assert [a, b][..1] == [a];
    assert FlattenFields(key, [a, b]) == [Visit(FieldKey(key, name), x)] + FlattenItems(Some(FieldKey(key, s)), items);
  }

  lemma FieldKeyJoin(key: Option<string>, s: string, rest: string)
    ensures FieldKey(key, s) + rest == FieldKey(key, s + rest)
  {
    if key.Some? {
      assert (key.value + "." + s) + rest == key.value + "." + (s + rest);
    } else {
      assert ("" + s) + rest == "" + (s + rest);
    }
  }

  lemma OneField(key: Option<string>, f: Field)
    ensures FlattenFields(key, [f]) == Flatten(FieldKey(key, f.name), f.value)
  {
    assert [f][..0] == [];
  }

  lemma {:induction false} ItemVisited(key: Option<string>, items: seq<Json>, i: nat)
    requires i < |items| && Leaf(items[i])
    ensures Visit(ItemKey(key, i), items[i]) in FlattenItems(key, items)
    decreases |items|
  {
    hide Itoa, ItemKey;
    var last := |items| - 1;
    if i < last {
      ItemVisited(key, items[..last], i);
    } else {
      assert Visit(ItemKey(key, i), items[i]) in Flatten(ItemKey(key, last), items[last]);
    }
  }

  // Some other field of the same object sets a value under the key of this name.
  ghost predicate Shares(key: Option<string>, n: string, f: Field, v: Visit) {
    f.name != n && v in FlattenFields(key, [f]) && v.key == FieldKey(key, n)
  }

  lemma FieldKeyCancels(key: Option<string>, s: string, t: string)
    requires FieldKey(key, s) == FieldKey(key, t)
    ensures s == t
  {
    var front := if key.Some? then key.value + "." else "";
    assert (front + s)[|front|..] == s && (front + t)[|front|..] == t;
  }

  lemma SharedName(key: Option<string>, n: string, f: Field, v: Visit)
    requires Shares(key, n, f, v)
    ensures '.' in n || EndsIndexed(n)
  {
    hide Itoa, Tail, KeyOf, Leaves;
    OneField(key, f);
    FlattenLeaves(FieldKey(key, f.name), f.value);
    var places := Leaves(f.value);
    var i :| 0 <= i < |places| && Visits(Some(FieldKey(key, f.name)), places)[i] == v;
    var q := places[i].path;
    KeyOfSome(FieldKey(key, f.name), q);
    FieldKeyJoin(key, f.name, Tail(q));
    FieldKeyCancels(key, n, f.name + Tail(q));
    OneTail(Index(0));
    assert f.name + "" == f.name;
    NameEnds(f.name, q);
  }

  // A name with more steps behind it holds the delimiter or ends with an index.
  lemma NameEnds(name: string, q: seq<Step>)
    ensures q != [] ==> '.' in name + Tail(q) || EndsIndexed(name + Tail(q))
  {
    hide Itoa, Tail;
    if q != [] {
      TailLast(q);
      var u, step := name + Tail(q[..|q| - 1]), q[|q| - 1];
      assert name + Tail(q) == u + Segment(step);
      if step.Name? {
        assert (name + Tail(q))[|u|] == '.';
      } else {
        assert name + Tail(q) == Bracketed(u, step.index);
      }
    }
  }

  lemma KeyOfSome(key: string, path: seq<Step>)
    ensures KeyOf(Some(key), path) == key + Tail(path)
  {
  }

  // A name can be taken for another path, by some document, exactly if it is not plain.
  lemma PlainExact(key: Option<string>, n: string)
    ensures (exists f, v :: Shares(key, n, f, v)) <==> !Plain(n)
  {
    forall f, v | Shares(key, n, f, v) ensures !Plain(n) {
      SharedName(key, n, f, v);
    }
    var y := Num("");
    if '.' in n {
      var i :| 0 <= i < |n| && n[i] == '.';
      var s, t := n[..i], n[i + 1..];
      assert n == s + "." + t;
      var f := Field(s, Obj([Field(t, y)]));
      DelimiterCollides(key, s, t, y, y);
      LastField(key, Field(n, y), f, Visit(FieldKey(key, n), y));
      assert Shares(key, n, f, Visit(FieldKey(key, n), y));
    } else if EndsIndexed(n) {
      var s, i :| n == Bracketed(s, i);
      var items := seq(i + 1, _ => y);
      var f := Field(s, Arr(items));
      BracketCollides(key, s, i, y, items);
      LastField(key, Field(n, y), f, Visit(FieldKey(key, n), y));
      assert Shares(key, n, f, Visit(FieldKey(key, n), y));
    }
  }

  // What comes after the first field's one value is the second field's.
  lemma LastField(key: Option<string>, a: Field, b: Field, v: Visit)
    requires Leaf(a.value) && FlattenFields(key, [a, b]) != [] && v in FlattenFields(key, [a, b])[1..]
    ensures v in FlattenFields(key, [b])
  {
    OneField(key, a);
    OneField(key, b);
    assert [a, b][..1] == [a];
    assert FlattenFields(key, [a, b]) == [Visit(FieldKey(key, a.name), a.value)] + FlattenFields(key, [b]);
  }

  // ---------------------------------------------------------------- the shadow

  datatype DataType =
    | NoType | IntType | FloatType | DoubleType | TextType | EnumType | DateType | BoolType | ArrayType | StructType

  // The type a shadow has under a key, if it has the key, and whether it lets a value be set there.
  datatype Schema = Schema(typeOf: string -> Option<DataType>, sets: (string, Json) -> bool)

  // What the shadow makes of a value under a key: takes it, has no use for a value of that kind, or refuses
  // it, as it does when it has no such key.
  datatype Verdict = Taken | Unused | Refused

  predicate Fits(leaf: Json, d: DataType) {
    || (leaf.Num? && (d.IntType? || d.EnumType? || d.BoolType? || d.FloatType? || d.DoubleType?))
    || (leaf.Str? && (d.TextType? || d.DateType?))
  }

  function Answer(schema: Schema, key: string, leaf: Json): Verdict {
    match schema.typeOf(key)
    case None => Refused
    case Some(d) => if !Fits(leaf, d) then Unused else if schema.sets(key, leaf) then Taken else Refused
  }

  datatype Shadow = Shadow(visits: seq<Visit>, data: map<string, Json>)

  // A number goes under the five number types and a text under the two text types, if the shadow lets it;
  // under another type it is of no use; without the key, or if the shadow does not let it, it is refused.
  lemma AnswerExact(schema: Schema, key: string, leaf: Json)
    requires Leaf(leaf)
    ensures var fits := schema.typeOf(key).Some? &&
        schema.typeOf(key).value in
          if leaf.Num? then {IntType, EnumType, BoolType, FloatType, DoubleType} else {TextType, DateType};
      && (Answer(schema, key, leaf) == Taken <==> fits && schema.sets(key, leaf))
      && (Answer(schema, key, leaf) == Refused <==> schema.typeOf(key).None? || (fits && !schema.sets(key, leaf)))
  {
  }

  function SetOne(schema: Schema, s: Shadow, v: Visit): Shadow {
    Shadow(s.visits + [v], if Answer(schema, v.key, v.leaf) == Taken then s.data[v.key := v.leaf] else s.data)
  }

  // Values are set in turn up to the first refusal.
  function SetAll(schema: Schema, s: Shadow, vs: seq<Visit>): (Shadow, bool)
    decreases |vs|
  {
    if vs == [] then (s, true)
    else if Answer(schema, vs[0].key, vs[0].leaf) == Refused then (SetOne(schema, s, vs[0]), false)
    else SetAll(schema, SetOne(schema, s, vs[0]), vs[1..])
  }

  lemma {:induction false} SetAllConcat(schema: Schema, s: Shadow, a: seq<Visit>, b: seq<Visit>)
    ensures SetAll(schema, s, a + b) ==
            var (r, ok) := SetAll(schema, s, a); if ok then SetAll(schema, r, b) else (r, false)
    decreases |a|
  {
    if a == [] {
      assert a + b == b;
    } else {
      assert (a + b)[0] == a[0] && (a + b)[1..] == a[1..] + b;
      SetAllConcat(schema, SetOne(schema, s, a[0]), a[1..], b);
    }
  }

  ghost predicate NoneRefused(schema: Schema, vs: seq<Visit>) {
    forall i :: 0 <= i < |vs| ==> Answer(schema, vs[i].key, vs[i].leaf) != Refused
  }

  function FirstRefused(schema: Schema, vs: seq<Visit>): (n: nat)
    ensures n <= |vs|
    ensures n < |vs| ==> Answer(schema, vs[n].key, vs[n].leaf) == Refused
    ensures forall i :: 0 <= i < n ==> Answer(schema, vs[i].key, vs[i].leaf) != Refused
  {
    if vs == [] || Answer(schema, vs[0].key, vs[0].leaf) == Refused then 0 else FirstRefused(schema, vs[1..]) + 1
  }

  lemma FirstRefusedNone(schema: Schema, vs: seq<Visit>)
    ensures FirstRefused(schema, vs) == |vs| <==> NoneRefused(schema, vs)
  {
    hide Answer;
  }

  lemma ConsTake(vs: seq<Visit>, m: nat)
    requires m < |vs|
    ensures vs[..m + 1] == [vs[0]] + vs[1..][..m]
  {
  }

  // How far the visits go: past the first refusal, or to the end.
  function VisitedLen(schema: Schema, vs: seq<Visit>): (n: nat)
    ensures n <= |vs|
  {
    Min(FirstRefused(schema, vs) + 1, |vs|)
  }

  // All values are visited exactly if none is refused; else the visits end with the first refusal.
  lemma {:induction false} SetAllVisits(schema: Schema, s: Shadow, vs: seq<Visit>)
    ensures SetAll(schema, s, vs).1 <==> NoneRefused(schema, vs)
    ensures SetAll(schema, s, vs).0.visits == s.visits + vs[..VisitedLen(schema, vs)]
    decreases |vs|
  {
    hide Answer, NoneRefused;
    FirstRefusedNone(schema, vs);
    if vs != [] {
      var v, rest := vs[0], vs[1..];
      if Answer(schema, v.key, v.leaf) == Refused {
        assert vs[..1] == [v];
      } else {
        FirstRefusedNone(schema, rest);
        SetAllVisits(schema, SetOne(schema, s, v), rest);
        ConsTake(vs, VisitedLen(schema, rest));
        Associative(s.visits, [v], rest[..VisitedLen(schema, rest)]);
      }
    }
  }

  // With distinct keys the shadow ends up holding each value it takes, and nothing else changes.
  lemma {:induction false} SetAllData(schema: Schema, s: Shadow, vs: seq<Visit>, key: string)
    requires DistinctKeys(vs) && NoneRefused(schema, vs)
    ensures var d := SetAll(schema, s, vs).0.data;
            && (forall i :: 0 <= i < |vs| && vs[i].key == key && Answer(schema, key, vs[i].leaf) == Taken ==>
                  key in d && d[key] == vs[i].leaf)
            && ((forall i :: 0 <= i < |vs| ==> vs[i].key != key || Answer(schema, key, vs[i].leaf) != Taken) ==>
                  (key in d <==> key in s.data) && (key in d ==> d[key] == s.data[key]))
    decreases |vs|
  {
    if vs != [] {
      SetAllData(schema, SetOne(schema, s, vs[0]), vs[1..], key);
    }
  }

  // A document whose values are all accepted: each of its leaves, found by its path, is what the shadow
  // holds under the key of that path, if it takes a value there.
  lemma DocumentStored(schema: Schema, s: Shadow, key: Option<string>, fields: seq<Field>, path: seq<Step>)
    requires WellNamed(Obj(fields)) && SetAll(schema, s, FlattenFields(key, fields)).1
    requires Reach(Obj(fields), path).Some? && Leaf(Reach(Obj(fields), path).value)
    requires Answer(schema, KeyOf(key, path), Reach(Obj(fields), path).value) == Taken
    ensures var d := SetAll(schema, s, FlattenFields(key, fields)).0.data;
            KeyOf(key, path) in d && d[KeyOf(key, path)] == Reach(Obj(fields), path).value
  {
    var j := Obj(fields);
    var vs, leaf := FlattenFields(key, fields), Reach(j, path).value;
    FieldsFlatten(key, fields);
    KeysDistinct(key, j);
    SetAllVisits(schema, s, vs);
    SetAllData(schema, s, vs, KeyOf(key, path));
    LeavesExact(j);
    assert Place(path, leaf) in Leaves(j);
    var i :| 0 <= i < |Leaves(j)| && Leaves(j)[i] == Place(path, leaf);
    assert vs[i] == Visit(KeyOf(key, path), leaf);
  }

  class Device {
    const schema: Schema
    ghost var visits: seq<Visit>
    var data: map<string, Json>

    ghost function View(): Shadow
      reads this
    {
      Shadow(visits, data)
    }

    constructor (schema: Schema)
      ensures this.schema == schema && View() == Shadow([], map[])
    {
      this.schema, visits, data := schema, [], map[];
    }

    method SetNumber(key: string, leaf: Json) returns (ok: bool)
      requires leaf.Num?
      modifies this
      ensures View() == SetOne(schema, old(View()), Visit(key, leaf))
      ensures ok <==> Answer(schema, key, leaf) != Refused
    {
      visits := visits + [Visit(key, leaf)];
      var dataType := schema.typeOf(key);
      if dataType == None {
        return false;
      }
      ok := true;
      match dataType.value {
        case IntType => ok := SetShadow(key, leaf);
        case EnumType => ok := SetShadow(key, leaf);
        case BoolType => ok := SetShadow(key, leaf);
        case FloatType => ok := SetShadow(key, leaf);
        case DoubleType => ok := SetShadow(key, leaf);
        case _ =>
      }
    }

    method SetString(key: string, leaf: Json) returns (ok: bool)
      requires leaf.Str?
      modifies this
      ensures View() == SetOne(schema, old(View()), Visit(key, leaf))
      ensures ok <==> Answer(schema, key, leaf) != Refused
    {
      visits := visits + [Visit(key, leaf)];
      var dataType := schema.typeOf(key);
      if dataType == None {
        return false;
      }
      ok := true;
      match dataType.value {
        case TextType => ok := SetShadow(key, leaf);
        case DateType => ok := SetShadow(key, leaf);
        case _ =>
      }
    }

    // The shadow's own setter.
    method SetShadow(key: string, leaf: Json) returns (ok: bool)
      modifies this`data
      ensures ok == schema.sets(key, leaf)
      ensures data == if ok then old(data)[key := leaf] else old(data)
    {
      ok := schema.sets(key, leaf);
      if ok {
        data := data[key := leaf];
      }
    }

    // The four tests both procedures make on an item.
    method SetItem(key: string, value: Json) returns (ok: bool)
      modifies this
      ensures (View(), ok) == SetAll(schema, old(View()), Flatten(key, value))
      decreases value, 1
    {
      hide SetOne, Answer;
      ok := true;
      assert [Visit(key, value)][1..] == [];
      if value.Obj? {
        ok := SetObject(Some(key), value);
      }
      if value.Arr? {
        ok := SetArray(Some(key), value);
      }
      if value.Num? {
        ok := SetNumber(key, value);
      }
      if value.Str? {
        ok := SetString(key, value);
      }
    }

    method SetObject(key: Option<string>, root: Json) returns (ok: bool)
      requires root.Obj?
      modifies this
      ensures (View(), ok) == SetAll(schema, old(View()), FlattenFields(key, root.fields))
      decreases root, 0
    {
      ghost var was := View();
      assert root.fields[..0] == [];
      var index := 0;
      while index < |root.fields|
        invariant index <= |root.fields|
        invariant (View(), true) == SetAll(schema, was, FlattenFields(key, root.fields[..index]))
      {
        FieldsSplit(schema, was, key, root.fields, index);
        var field := root.fields[index];
        if field.value.Unreadable? {
          index := index + 1;
          continue;
        }
        var newKey := field.name;
        if key.Some? {
          newKey := key.value + "." + newKey;
        }
        assert newKey == FieldKey(key, field.name);
        ok := SetItem(newKey, field.value);
        if !ok {
          return false;
        }
        index := index + 1;
      }
      assert root.fields[..index] == root.fields;
      return true;
    }

    method SetArray(key: Option<string>, root: Json) returns (ok: bool)
      requires root.Arr?
      modifies this
      ensures (View(), ok) == SetAll(schema, old(View()), FlattenItems(key, root.items))
      decreases root, 0
    {
      ghost var was := View();
      assert root.items[..0] == [];
      var index := 0;
      while index < |root.items|
        invariant index <= |root.items|
        invariant (View(), true) == SetAll(schema, was, FlattenItems(key, root.items[..index]))
      {
        ItemsSplit(schema, was, key, root.items, index);
        if root.items[index].Unreadable? {
          index := index + 1;
          continue;
        }
        var newKey := "";
        if key.Some? {
          newKey := key.value;
        }
        newKey := newKey + "[" + Itoa(index) + "]";
        ok := SetItem(newKey, root.items[index]);
        if !ok {
          return false;
        }
        index := index + 1;
      }
      assert root.items[..index] == root.items;
      return true;
    }
  }

  // One more field: either it is set in full and the rest can follow, or the whole object stops there.
  lemma FieldsSplit(schema: Schema, s: Shadow, key: Option<string>, fields: seq<Field>, k: nat)
    requires k < |fields| && SetAll(schema, s, FlattenFields(key, fields[..k])).1
    ensures var r := SetAll(schema, s, FlattenFields(key, fields[..k])).0;
            var one := SetAll(schema, r, Flatten(FieldKey(key, fields[k].name), fields[k].value));
            SetAll(schema, s, FlattenFields(key, fields[..k + 1])) == one &&
            (!one.1 ==> SetAll(schema, s, FlattenFields(key, fields)) == one)
  {
    var f := fields[k];
    assert fields[..k + 1][..k] == fields[..k] && fields[..k + 1][k] == f;
    SetAllConcat(schema, s, FlattenFields(key, fields[..k]), Flatten(FieldKey(key, f.name), f.value));
    FieldsPrefix(schema, s, key, fields, k + 1);
  }

  lemma {:induction false} FieldsPrefix(schema: Schema, s: Shadow, key: Option<string>, fields: seq<Field>, k: nat)
    requires k <= |fields|
    ensures var one := SetAll(schema, s, FlattenFields(key, fields[..k]));
            !one.1 ==> SetAll(schema, s, FlattenFields(key, fields)) == one
    decreases |fields|
  {
    if k < |fields| {
      var front, f := fields[..|fields| - 1], fields[|fields| - 1];
      FieldsPrefix(schema, s, key, front, k);
      assert front[..k] == fields[..k];
      SetAllConcat(schema, s, FlattenFields(key, front), Flatten(FieldKey(key, f.name), f.value));
    } else {
      assert fields[..k] == fields;
    }
  }

  lemma ItemsSplit(schema: Schema, s: Shadow, key: Option<string>, items: seq<Json>, k: nat)
    requires k < |items| && SetAll(schema, s, FlattenItems(key, items[..k])).1
    ensures var r := SetAll(schema, s, FlattenItems(key, items[..k])).0;
            var one := SetAll(schema, r, Flatten(ItemKey(key, k), items[k]));
            SetAll(schema, s, FlattenItems(key, items[..k + 1])) == one &&
            (!one.1 ==> SetAll(schema, s, FlattenItems(key, items)) == one)
  {
    assert items[..k + 1][..k] == items[..k] && items[..k + 1][k] == items[k];
    SetAllConcat(schema, s, FlattenItems(key, items[..k]), Flatten(ItemKey(key, k), items[k]));
    ItemsPrefix(schema, s, key, items, k + 1);
  }

  lemma {:induction false} ItemsPrefix(schema: Schema, s: Shadow, key: Option<string>, items: seq<Json>, k: nat)
    requires k <= |items|
    ensures var one := SetAll(schema, s, FlattenItems(key, items[..k]));
            !one.1 ==> SetAll(schema, s, FlattenItems(key, items)) == one
    decreases |items|
  {
    if k < |items| {
      var front, n := items[..|items| - 1], |items| - 1;
      ItemsPrefix(schema, s, key, front, k);
      assert front[..k] == items[..k];
      SetAllConcat(schema, s, FlattenItems(key, front), Flatten(ItemKey(key, n), items[n]));
    } else {
      assert items[..k] == items;
    }
  }
}
