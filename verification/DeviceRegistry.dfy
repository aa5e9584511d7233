/**
 The device manager of dev_model/dm_manager.c: a list of devices, each with a number handed out once.
 None stands for a null pointer, or for an out-parameter that is left as it was.
 */
module DeviceRegistry {
  import opened Words

  const LOCAL_NODE_DEVID := 0
  const PRODUCT_KEY_LEN := 20
  const DEVICE_NAME_LEN := 32
  const DEVICE_SECRET_LEN := 64

  datatype Status = Success | Failure | InvalidParam

  datatype DevStatus = Unauthorized | Authorized

  datatype Device = Device(devid: int, devType: int, productKey: string, deviceName: string,
                           deviceSecret: string, status: DevStatus)

  datatype State = State(next: int, list: seq<Device>)

  datatype Op =
    | Create(devType: int, pk: Option<string>, dn: Option<string>, secret: Option<string>)
    | Destroy(devid: int)

  // ---------------------------------------------------------------- the registry as a value

  // Positions of the first match, or the length of the list.
  function ByDevid(list: seq<Device>, devid: int): (k: nat)
    ensures k <= |list|
    ensures k < |list| ==> list[k].devid == devid
    ensures forall i :: 0 <= i < k ==> list[i].devid != devid
  {
    FirstAt(list, (d: Device) => d.devid == devid)
  }

  predicate Named(d: Device, pk: string, dn: string) {
    d.productKey == pk && d.deviceName == dn
  }

  function ByPkdn(list: seq<Device>, pk: string, dn: string): (k: nat)
    ensures k <= |list|
    ensures k < |list| ==> Named(list[k], pk, dn)
    ensures forall i :: 0 <= i < k ==> !Named(list[i], pk, dn)
  {
    FirstAt(list, (d: Device) => Named(d, pk, dn))
  }

  predicate Acceptable(pk: Option<string>, dn: Option<string>, secret: Option<string>) {
    && pk.Some? && dn.Some? && |pk.value| <= PRODUCT_KEY_LEN && |dn.value| <= DEVICE_NAME_LEN
    && (secret.Some? ==> |secret.value| <= DEVICE_SECRET_LEN)
  }

  function Apply(s: State, op: Op): State {
    match op
    case Create(devType, pk, dn, secret) =>
      if !Acceptable(pk, dn, secret) || ByPkdn(s.list, pk.value, dn.value) < |s.list| then s
      else
        State(s.next + 1, s.list + [Device(s.next, devType, pk.value, dn.value,
                                           if secret.Some? then secret.value else "", Authorized)])
    case Destroy(devid) =>
      var k := ByDevid(s.list, devid);
      if devid <= LOCAL_NODE_DEVID || k == |s.list| then s
      else s.(list := RemoveAt(s.list, k))
  }

  function Run(s: State, ops: seq<Op>): State
    decreases |ops|
  {
    if ops == [] then s else Run(Apply(s, ops[0]), ops[1..])
  }

  ghost predicate Increasing(list: seq<Device>) {
    forall i, j :: 0 <= i < j < |list| ==> list[i].devid < list[j].devid
  }

  ghost predicate Distinct(list: seq<Device>) {
    forall i, j :: 0 <= i < j < |list| ==> !Named(list[i], list[j].productKey, list[j].deviceName)
  }

  // The local node heads the list, numbers rise along it and stay below the next one, no two devices
  // have the same product key and name.
  ghost predicate Sound(s: State) {
    && s.list != [] && s.list[0].devid == LOCAL_NODE_DEVID
    && Increasing(s.list) && Distinct(s.list)
    && forall i :: 0 <= i < |s.list| ==> s.list[i].devid < s.next
  }

  lemma DestroySound(s: State, k: nat)
    requires Sound(s) && 0 < k < |s.list|
    ensures Sound(s.(list := RemoveAt(s.list, k)))
  {
    var list := RemoveAt(s.list, k);
    forall i | 0 <= i < |list| ensures list[i] == s.list[if i < k then i else i + 1] {
    }
  }

  lemma StepSound(s: State, op: Op)
    requires Sound(s)
    ensures Sound(Apply(s, op)) && Apply(s, op).list[0] == s.list[0]
  {
    if op.Destroy? && op.devid > LOCAL_NODE_DEVID {
      var k := ByDevid(s.list, op.devid);
      if k < |s.list| {
        DestroySound(s, k);
      }
    }
  }

  // Over every run, and the local node stays as it was registered.
  lemma {:induction false} RunSound(s: State, ops: seq<Op>)
    requires Sound(s)
    ensures Sound(Run(s, ops)) && Run(s, ops).list[0] == s.list[0]
    decreases |ops|
  {
    if ops != [] {
      StepSound(s, ops[0]);
      RunSound(Apply(s, ops[0]), ops[1..]);
    }
  }

  // Destroying a number takes the device that has it, and no other, off the list; the local node stays.
  lemma DestroyExact(s: State, devid: int)
    requires Sound(s)
    ensures var s' := Apply(s, Destroy(devid));
      && s'.next == s.next
      && (forall d :: d in s'.list <==> d in s.list && (d.devid != devid || d.devid <= 0))
      && (0 < devid < s.next ==> Absent(s', devid))
  {
    var k := ByDevid(s.list, devid);
    if devid > 0 && k < |s.list| {
      OthersStay(s.list, k);
    }
  }

  lemma OthersStay(list: seq<Device>, k: nat)
    requires Increasing(list) && k < |list|
    ensures forall d :: d in RemoveAt(list, k) <==> d in list && d.devid != list[k].devid
  {
    hide RemoveAt;
    forall d | d in list && d.devid != list[k].devid ensures d in RemoveAt(list, k) {
      var i :| 0 <= i < |list| && list[i] == d;
      StaysAt(list, k, i);
    }
    forall d | d in RemoveAt(list, k) ensures d in list && d.devid != list[k].devid {
      var i :| 0 <= i < |RemoveAt(list, k)| && RemoveAt(list, k)[i] == d;
      CameFrom(list, k, i);
    }
  }

  lemma StaysAt(list: seq<Device>, k: nat, i: nat)
    requires k < |list| && i < |list| && i != k
    ensures list[i] in RemoveAt(list, k)
  {
    assert RemoveAt(list, k)[if i < k then i else i - 1] == list[i];
  }

  lemma CameFrom(list: seq<Device>, k: nat, i: nat)
    requires Increasing(list) && k < |list| && i < |RemoveAt(list, k)|
    ensures RemoveAt(list, k)[i] in list && RemoveAt(list, k)[i].devid != list[k].devid
  {
    assert RemoveAt(list, k)[i] == list[if i < k then i else i + 1];
  }

  // A number that was given up stays away over every run.
  lemma DestroyedForever(s: State, devid: int, ops: seq<Op>)
    requires Sound(s) && 0 < devid < s.next
    ensures Absent(Run(s, [Destroy(devid)] + ops), devid)
  {
    StepSound(s, Destroy(devid));
    DestroyExact(s, devid);
    NeverReused(Apply(s, Destroy(devid)), ops, devid);
    assert ([Destroy(devid)] + ops)[1..] == ops;
  }

  // The two searches find each device at its own place, so one undoes the other.
  lemma LookupsInverse(s: State, k: nat)
    requires Sound(s) && k < |s.list|
    ensures ByDevid(s.list, s.list[k].devid) == k
    ensures ByPkdn(s.list, s.list[k].productKey, s.list[k].deviceName) == k
  {
    var d := s.list[k];
    assert !(k < ByDevid(s.list, d.devid));
    assert Named(d, d.productKey, d.deviceName);
  }

  ghost predicate Absent(s: State, devid: int) {
    devid < s.next && forall i :: 0 <= i < |s.list| ==> s.list[i].devid != devid
  }

  // A number once given up is never given out again.
  lemma {:induction false} NeverReused(s: State, ops: seq<Op>, devid: int)
    requires Sound(s) && Absent(s, devid)
    ensures Absent(Run(s, ops), devid)
    decreases |ops|
  {
    if ops != [] {
      StepSound(s, ops[0]);
      NeverReused(Apply(s, ops[0]), ops[1..], devid);
    }
  }

  // Destroying the device just created brings the list back; creating it again gives a new number.
  lemma CreateThenDestroy(s: State, op: Op)
    requires Sound(s) && op.Create? && Apply(s, op) != s
    ensures Apply(Apply(s, op), Destroy(s.next)) == State(s.next + 1, s.list)
    ensures Apply(Apply(Apply(s, op), Destroy(s.next)), op).list[|s.list|].devid == s.next + 1
  {
    var t := Apply(s, op);
    StepSound(s, op);
    LookupsInverse(t, |s.list|);
    assert t.list[..|s.list|] == s.list && t.list[|s.list| + 1..] == [];
    assert s.list[0].devid < s.next;
  }

  // ---------------------------------------------------------------- walking the list

  function NextDevid(list: seq<Device>, devid: int): Option<int> {
    var k := ByDevid(list, devid);
    if k + 1 < |list| then Some(list[k + 1].devid) else None
  }

  function Devids(list: seq<Device>): (ids: seq<int>)
    ensures |ids| == |list| && forall i :: 0 <= i < |list| ==> ids[i] == list[i].devid
  {
    if list == [] then [] else [list[0].devid] + Devids(list[1..])
  }

  // At most n numbers reached by asking for the next one over and over.
  function Walk(list: seq<Device>, devid: int, n: nat): seq<int>
    decreases n
  {
    if n == 0 then []
    else
      match NextDevid(list, devid)
      case None => [devid]
      case Some(next) => [devid] + Walk(list, next, n - 1)
  }

  // The next number is that of the next device.
  lemma NextOf(s: State, k: nat)
    requires Sound(s) && k < |s.list|
    ensures NextDevid(s.list, s.list[k].devid) == if k + 1 < |s.list| then Some(s.list[k + 1].devid) else None
  {
    LookupsInverse(s, k);
  }

  lemma {:induction false} WalkFrom(s: State, k: nat, n: nat)
    requires Sound(s) && k < |s.list| && n >= |s.list| - k
    ensures Walk(s.list, s.list[k].devid, n) == Devids(s.list)[k..]
    decreases |s.list| - k
  {
    hide Sound, NextDevid, Devids;
    NextOf(s, k);
    ghost var ids: seq<int> := Devids(s.list);
    if k + 1 < |s.list| {
      WalkFrom(s, k + 1, n - 1);
      assert ids[k..] == [ids[k]] + ids[k + 1..];
    } else {
      assert ids[k..] == [ids[k]];
    }
  }

  // From the local node the walk comes to an end after visiting each device once, in list order.
  lemma WalkEnumerates(s: State, n: nat)
    requires Sound(s) && n >= |s.list|
    ensures Walk(s.list, LOCAL_NODE_DEVID, n) == Devids(s.list)
    ensures forall i, j :: 0 <= i < j < |s.list| ==> Devids(s.list)[i] != Devids(s.list)[j]
  {
    WalkFrom(s, 0, n);
  }

  // ---------------------------------------------------------------- the manager

  class Manager {
    var globalDevid: int
    var devList: seq<Device>

    ghost function View(): State
      reads this
    {
      State(globalDevid, devList)
    }

    // dm_mgr_init; the hardware layer fills buffers of these sizes.
    constructor (devType: int, pk: string, dn: string)
      requires |pk| <= PRODUCT_KEY_LEN && |dn| <= DEVICE_NAME_LEN
      ensures Sound(View()) && devList == [Device(LOCAL_NODE_DEVID, devType, pk, dn, "", Unauthorized)]
      ensures globalDevid == LOCAL_NODE_DEVID + 1
    {
      globalDevid := LOCAL_NODE_DEVID + 1;
      devList := [Device(LOCAL_NODE_DEVID, devType, pk, dn, "", Unauthorized)];
    }

    method FindByDevid(devid: int) returns (node: Option<Device>, ghost k: nat)
      ensures k == ByDevid(devList, devid)
      ensures node == if k < |devList| then Some(devList[k]) else None
    {
      var i := 0;
      while i < |devList|
        invariant i <= |devList| && forall j :: 0 <= j < i ==> devList[j].devid != devid
      {
        if devList[i].devid == devid {
          assert !(ByDevid(devList, devid) < i);
          return Some(devList[i]), i;
        }
        i := i + 1;
      }
      return None, i;
    }

    method FindByPkdn(pk: string, dn: string) returns (node: Option<Device>)
      ensures var k := ByPkdn(devList, pk, dn); node == if k < |devList| then Some(devList[k]) else None
    {
      var i := 0;
      while i < |devList|
        invariant i <= |devList| && forall j :: 0 <= j < i ==> !Named(devList[j], pk, dn)
      {
        if |devList[i].productKey| == |pk| && devList[i].productKey == pk &&
           |devList[i].deviceName| == |dn| && devList[i].deviceName == dn {
          assert Named(devList[i], pk, dn);
          return Some(devList[i]);
        }
        i := i + 1;
      }
      return None;
    }

    method DeviceCreate(devType: int, pk: Option<string>, dn: Option<string>, secret: Option<string>)
      returns (r: Status, devid: Option<int>)
      requires Sound(View())
      modifies this
      ensures Sound(View()) && View() == Apply(old(View()), Create(devType, pk, dn, secret))
      ensures r == InvalidParam <==>
        || pk.None? || dn.None? || |pk.value| > 20 || |dn.value| > 32 || (secret.Some? && |secret.value| > 64)
      ensures r == Success ==> var key := if secret.Some? then secret.value else "";
        devList == old(devList) + [Device(old(globalDevid), devType, pk.value, dn.value, key, Authorized)]
      ensures r != Success ==> devList == old(devList) && globalDevid == old(globalDevid)
      ensures r == Success <==> devid == Some(old(globalDevid)) && globalDevid == old(globalDevid) + 1
      ensures r == Failure <==> Acceptable(pk, dn, secret) &&
                                exists i :: 0 <= i < |old(devList)| && Named(old(devList)[i], pk.value, dn.value)
      ensures r == Failure ==> devid == Some(devList[ByPkdn(devList, pk.value, dn.value)].devid)
      ensures r == InvalidParam ==> devid == None
    {
      StepSound(View(), Create(devType, pk, dn, secret));
      if pk == None || dn == None || |pk.value| >= PRODUCT_KEY_LEN + 1 || |dn.value| >= DEVICE_NAME_LEN + 1 {
        return InvalidParam, None;
      }
      if secret.Some? && |secret.value| >= DEVICE_SECRET_LEN + 1 {
        return InvalidParam, None;
      }
      var found := FindByPkdn(pk.value, dn.value);
      if found.Some? {
        return Failure, Some(found.value.devid);
      }
      var node := Device(globalDevid, devType, pk.value, dn.value, "", Unauthorized);
      globalDevid := globalDevid + 1;
      if secret.Some? {
        node := node.(deviceSecret := secret.value);
      }
      node := node.(status := Authorized);
      devList := devList + [node];
      return Success, Some(node.devid);
    }

    method DeviceDestroy(devid: int) returns (r: Status)
      requires Sound(View())
      modifies this
      ensures Sound(View()) && View() == Apply(old(View()), Destroy(devid))
      ensures r == InvalidParam <==> devid < 0
      ensures r == Success <==> devid > 0 && exists i :: 0 <= i < |old(devList)| && old(devList)[i].devid == devid
      ensures r == Success <==> devList != old(devList)
      ensures r == Success ==> forall d :: d in devList <==> d in old(devList) && d.devid != devid
    {
      StepSound(View(), Destroy(devid));
      DestroyExact(View(), devid);
      if devid < 0 {
        return InvalidParam;
      }
      var node, k := FindByDevid(devid);
      if node == None {
        return Failure;
      }
      if node.value.devid == LOCAL_NODE_DEVID {
        return Failure;
      }
      DeleteNode(node.value, k);
      return Success;
    }

    // list_del on the node found; it is at this place in the list.
    method DeleteNode(node: Device, ghost k: nat)
      requires k < |devList| && devList[k] == node && ByDevid(devList, node.devid) == k
      modifies this`devList
      ensures devList == RemoveAt(old(devList), k)
    {
      var i := 0;
      while devList[i] != node
        invariant i <= k
        decreases k - i
      {
        i := i + 1;
      }
      assert i == k;
      devList := RemoveAt(devList, i);
    }

    method DeviceNumber() returns (index: nat)
      ensures index == |devList|
    {
      index := 0;
      while index < |devList|
        invariant index <= |devList|
      {
        index := index + 1;
      }
    }

    method GetDevidByIndex(index: int) returns (r: Status, devid: Option<int>)
      ensures r == if index < 0 then InvalidParam else if index < |devList| then Success else Failure
      ensures devid == if 0 <= index < |devList| then Some(devList[index].devid) else None
    {
      if index < 0 {
        return InvalidParam, None;
      }
      var searchIndex := 0;
      while searchIndex < |devList|
        invariant searchIndex <= |devList| && searchIndex <= index
      {
        if searchIndex == index {
          return Success, Some(devList[searchIndex].devid);
        }
        searchIndex := searchIndex + 1;
      }
      return Failure, None;
    }

    method GetNextDevid(devid: int) returns (r: Status, next: Option<int>)
      ensures devid < 0 ==> r == InvalidParam && next == None
      ensures devid >= 0 ==> next == NextDevid(devList, devid) && r == if next == None then Failure else Success
    {
      if devid < 0 {
        return InvalidParam, None;
      }
      var search: Option<Device> := None;
      var i := 0;
      while i < |devList|
        invariant i <= |devList|
        invariant search == None ==> forall j :: 0 <= j < i ==> devList[j].devid != devid
        invariant search.Some? ==> i > 0 && search.value == devList[i - 1] && ByDevid(devList, devid) == i - 1
      {
        if search.Some? && search.value.devid == devid {
          return Success, Some(devList[i].devid);
        }
        if devList[i].devid == devid {
          assert !(ByDevid(devList, devid) < i);
          search := Some(devList[i]);
        }
        i := i + 1;
      }
      return Failure, None;
    }
  }
}
