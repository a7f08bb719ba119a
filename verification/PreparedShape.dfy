/** The shape of a prepared claim: one device per result, shared injections
    once, distinct mount targets, and an order-independent RSD request. */
module PreparedShape {
  import opened Text
  import opened Devices
  import opened Snapshot
  import opened Storage
  import opened Metadata
  import opened Preparation

  // ---- the RSD request is canonical ------------------------------------------------

  /** The addresses handed to the RSD library for an allocation. */
  function RsdRequest(m: Memory, results: seq<Allocated>): seq<string>
    requires AllListed(m, Own(results))
  {
    Sort(NativeBuses(m, Own(results)))
  }

  lemma {:induction false} OwnConcat(p: seq<Allocated>, q: seq<Allocated>)
    ensures Own(p + q) == Own(p) + Own(q)
  {
    if q == [] {
      assert p + q == p;
    } else {
      var n := |q| - 1;
      OwnConcat(p, q[..n]);
      assert (p + q)[..|p + q| - 1] == p + q[..n];
    }
  }

  lemma {:induction false} BusesConcat(m: Memory, p: seq<Allocated>, q: seq<Allocated>)
    requires AllListed(m, p) && AllListed(m, q)
    ensures AllListed(m, p + q) && NativeBuses(m, p + q) == NativeBuses(m, p) + NativeBuses(m, q)
  {
    if q == [] {
      assert p + q == p;
    } else {
      var n := |q| - 1;
      BusesConcat(m, p, q[..n]);
      assert (p + q)[..|p + q| - 1] == p + q[..n];
    }
  }

  /** Taking one result out of the middle takes its address out of the request. */
  lemma BusesWithout(m: Memory, p: seq<Allocated>, x: Allocated, q: seq<Allocated>)
    requires AllListed(m, p) && AllListed(m, [x]) && AllListed(m, q)
    ensures AllListed(m, p + [x] + q) && AllListed(m, p + q)
    ensures multiset(NativeBuses(m, p + [x] + q)) == multiset(NativeBuses(m, p + q)) + multiset(NativeBuses(m, [x]))
  {
    BusesConcat(m, p, [x]);
    BusesConcat(m, p + [x], q);
    BusesConcat(m, p, q);
  }

  /** Any element of a list can be taken out of it. */
  lemma TakenOut(s: seq<Allocated>, x: Allocated) returns (p: seq<Allocated>, q: seq<Allocated>)
    requires x in multiset(s)
    ensures s == p + [x] + q && multiset(p + q) == multiset(s) - multiset{x}
  {
    var k :| 0 <= k < |s| && s[k] == x;
    p, q := s[..k], s[k + 1..];
    assert s == p + [x] + q;
  }

  lemma {:induction false} PermutedBuses(m: Memory, a: seq<Allocated>, b: seq<Allocated>)
    requires AllListed(m, a) && AllListed(m, b) && multiset(a) == multiset(b)
    ensures multiset(NativeBuses(m, a)) == multiset(NativeBuses(m, b))
  {
    if a == [] {
      assert |multiset(b)| == 0;
    } else {
      var n := |a| - 1;
      var x := a[n];
      assert a == a[..n] + [x];
      var p, q := TakenOut(b, x);
      assert AllListed(m, [x]) && AllListed(m, p) && AllListed(m, q);
      hide Preparation.NativeBuses;
      BusesWithout(m, p, x, q);
      BusesConcat(m, a[..n], [x]);
      PermutedBuses(m, a[..n], p + q);
    }
  }

  lemma OwnWithout(p: seq<Allocated>, x: Allocated, q: seq<Allocated>)
    ensures multiset(Own(p + [x] + q)) == multiset(Own(p + q)) + multiset(Own([x]))
  {
    OwnConcat(p, [x]);
    OwnConcat(p + [x], q);
    OwnConcat(p, q);
  }

  lemma {:induction false} PermutedOwn(a: seq<Allocated>, b: seq<Allocated>)
    requires multiset(a) == multiset(b)
    ensures multiset(Own(a)) == multiset(Own(b))
  {
    if a == [] {
      assert |multiset(b)| == 0;
    } else {
      var n := |a| - 1;
      var x := a[n];
      assert a == a[..n] + [x];
      var p, q := TakenOut(b, x);
      hide Preparation.Own;
      OwnWithout(p, x, q);
      OwnConcat(a[..n], [x]);
      PermutedOwn(a[..n], p + q);
    }
  }

  /** The RSD library gets the same sequence whatever the order of the
      allocation results: the sorted addresses of the native devices, each as often as it was allocated. */
  lemma RsdRequestCanonical(m: Memory, a: seq<Allocated>, b: seq<Allocated>)
    requires AllListed(m, Own(a)) && AllListed(m, Own(b)) && multiset(a) == multiset(b)
    ensures RsdRequest(m, a) == RsdRequest(m, b)
    ensures Sorted(RsdRequest(m, a)) && multiset(RsdRequest(m, a)) == multiset(NativeBuses(m, Own(a)))
  {
    PermutedOwn(a, b);
    PermutedBuses(m, Own(a), Own(b));
    SortCanonical(NativeBuses(m, Own(a)), NativeBuses(m, Own(b)));
  }

  /** The result names a native device of the inventory. */
  ghost predicate IsNativeResult(m: Memory, a: Allocated) {
    a.driver == DRIVER_NAME && a.device in m.allocatable && !IsVfio(m.allocatable[a.device])
  }

  /** How many native results have an address, as published. */
  ghost function NativeResultsAt(m: Memory, results: seq<Allocated>, bus: string): nat {
    HowMany(|results|, (i: nat) =>
      i < |results| && IsNativeResult(m, results[i]) && StringAttr(m.allocatable[results[i].device], PciBusID) == bus)
  }

  lemma {:induction false} BusesCounted(m: Memory, results: seq<Allocated>, bus: string)
    requires AllListed(m, Own(results))
    ensures multiset(NativeBuses(m, Own(results)))[bus] == NativeResultsAt(m, results, bus)
  {
    if results != [] {
      var n := |results| - 1;
      var rest, last := results[..n], results[n];
      var own := Own(rest);
      assert Own(results) == if last.driver == DRIVER_NAME then own + [last] else own;
      assert AllListed(m, own) by { assert forall a :: a in own ==> a in Own(results); }
      BusesCounted(m, rest, bus);
      var here := (i: nat) =>
        i < |results| && IsNativeResult(m, results[i]) && StringAttr(m.allocatable[results[i].device], PciBusID) == bus;
      var before := (i: nat) =>
        i < n && IsNativeResult(m, rest[i]) && StringAttr(m.allocatable[rest[i].device], PciBusID) == bus;
      HowManyStep(n, here);
      HowManySame(n, before, here);
      if last.driver == DRIVER_NAME {
        assert last in Own(results);
        assert (own + [last])[..|own|] == own;
      }
    }
  }

  /** The request holds the published address of every native result, as often as it was allocated, and nothing else. */
  lemma RequestCounted(m: Memory, results: seq<Allocated>, bus: string)
    requires AllListed(m, Own(results))
    ensures multiset(RsdRequest(m, results))[bus] == NativeResultsAt(m, results, bus)
  {
    BusesCounted(m, results, bus);
  }

  lemma {:induction false} SomeNative(m: Memory, results: seq<Allocated>)
    requires AllListed(m, Own(results))
    ensures NativeBuses(m, Own(results)) != [] <==> exists a :: a in results && IsNativeResult(m, a)
  {
    if results != [] {
      var n := |results| - 1;
      var rest, last := results[..n], results[n];
      var own := Own(rest);
      assert results == rest + [last];
      assert Own(results) == if last.driver == DRIVER_NAME then own + [last] else own;
      assert AllListed(m, own) by { assert forall a :: a in own ==> a in Own(results); }
      SomeNative(m, rest);
      if last.driver == DRIVER_NAME {
        assert last in Own(results);
        assert (own + [last])[..|own|] == own;
      }
      assert NativeBuses(m, Own(results)) != [] <==> NativeBuses(m, own) != [] || IsNativeResult(m, last);
      assert forall a :: a in results <==> a in rest || a == last;
    }
  }

  /** A Prepare asks for at most one group, and only for that sequence. */
  lemma GroupsRequested(m: Memory, fs: Fs, claim: Claim, env: PrepareEnv)
    ensures var r := PrepareDevices(m, fs, claim, env);
            r.fs.groups == fs.groups
            || (claim.allocation.Some? && AllListed(m, Own(claim.allocation.value))
                && r.fs.groups == fs.groups + [RsdRequest(m, claim.allocation.value)])
  {
    hide Preparation.AllAdmissible, Preparation.NodesReady, Preparation.PreparedList, Preparation.NativeBuses, Sort, Preparation.Own;
    if claim.allocation.Some? && AllAdmissible(m, env.sys, claim.allocation.value) {
      OwnListed(m, env.sys, claim.allocation.value);
    }
  }

  // ---- one device per result, shared parts once -----------------------------------------

  ghost predicate Prepared(m: Memory, fs: Fs, claim: Claim, env: PrepareEnv) {
    PrepareDevices(m, fs, claim, env).value.Some?
  }

  /** The group path a successful preparation used; empty for a passthrough-only claim. */
  ghost function HostPath(m: Memory, fs: Fs, claim: Claim, env: PrepareEnv): string
    requires claim.allocation.Some? && AllListed(m, Own(claim.allocation.value))
    requires GroupPath(fs, NativeBuses(m, Own(claim.allocation.value)), env).value.Some?
  {
    GroupPath(fs, NativeBuses(m, Own(claim.allocation.value)), env).value.value
  }

  lemma PreparedIsList(m: Memory, fs: Fs, claim: Claim, env: PrepareEnv)
    requires Prepared(m, fs, claim, env)
    ensures claim.allocation.Some? && AllListed(m, Own(claim.allocation.value))
    ensures var own := Own(claim.allocation.value);
            && GroupPath(fs, NativeBuses(m, own), env).value.Some?
            && var host := HostPath(m, fs, claim, env);
               && NodesReady(m, own, host, env)
               && PrepareDevices(m, fs, claim, env).value == Some(PreparedList(m, claim, own, host, env))
  {
    OwnListed(m, env.sys, claim.allocation.value);
  }

  /** prepareDevices answers the driver's own results one by one, in order. */
  lemma OneDevicePerResult(m: Memory, fs: Fs, claim: Claim, env: PrepareEnv)
    requires Prepared(m, fs, claim, env)
    ensures var own, devices := Own(claim.allocation.value), PrepareDevices(m, fs, claim, env).value.value;
            && |devices| == |own|
            && forall i :: 0 <= i < |own| ==>
                 devices[i].device == own[i].device && devices[i].pool == own[i].pool && devices[i].requests == [own[i].request]
  {
    PreparedIsList(m, fs, claim, env);
  }

  lemma LeastNative(m: Memory, own: seq<Allocated>, k: nat) returns (i: nat)
    requires k < |own| && !IsVfioResult(m, own[k])
    ensures i <= k && FirstNative(m, own, i)
  {
    i := 0;
    while IsVfioResult(m, own[i])
      invariant i <= k && forall j: nat :: j < i ==> IsVfioResult(m, own[j])
      decreases k - i
    {
      i := i + 1;
    }
  }

  lemma LeastOfRequest(m: Memory, own: seq<Allocated>, k: nat) returns (i: nat)
    requires k < |own| && IsVfioResult(m, own[k])
    ensures i <= k && FirstOfRequest(m, own, i) && MainRequest(own[i]) == MainRequest(own[k])
  {
    i := 0;
    while !(IsVfioResult(m, own[i]) && MainRequest(own[i]) == MainRequest(own[k]))
      invariant i <= k
      invariant forall j: nat :: j < i ==> !(IsVfioResult(m, own[j]) && MainRequest(own[j]) == MainRequest(own[k]))
      decreases k - i
    {
      i := i + 1;
    }
  }

  /** What one result's container edits hold in a prepared claim. */
  lemma EditsOf(m: Memory, fs: Fs, claim: Claim, env: PrepareEnv, j: nat)
    requires Prepared(m, fs, claim, env) && j < |Own(claim.allocation.value)|
    ensures var own, devices := Own(claim.allocation.value), PrepareDevices(m, fs, claim, env).value.value;
            && |devices| == |own| && own[j] in own
            && var base := NodesOf(m, own[j], HostPath(m, fs, claim, env), env);
               && base.Some?
               && devices[j].edits.nodes == (if FirstNative(m, own, j) then base.value + RdsNodes(env) else base.value)
               && devices[j].edits.mounts == (if FirstOfRequest(m, own, j) then MetadataMountsOf(claim, MainRequest(own[j])) else [])
  {
    PreparedIsList(m, fs, claim, env);
    var own, host := Own(claim.allocation.value), HostPath(m, fs, claim, env);
    assert PrepareDevices(m, fs, claim, env).value.value[j] == PreparedAt(m, claim, own, host, env, j);
  }

  function RdsNodes(env: PrepareEnv): seq<DeviceNode> {
    if env.rds.Some? then env.rds.value else []
  }

  /** The nodes of result j when the RDS nodes land on result i. */
  ghost predicate NodesWithRdsAt(m: Memory, fs: Fs, claim: Claim, env: PrepareEnv, i: nat, j: nat)
    requires Prepared(m, fs, claim, env) && j < |Own(claim.allocation.value)|
  {
    var own, devices := Own(claim.allocation.value), PrepareDevices(m, fs, claim, env).value.value;
    && |devices| == |own| && own[j] in own
    && var base := NodesOf(m, own[j], HostPath(m, fs, claim, env), env);
       base.Some? && devices[j].edits.nodes == if j == i then base.value + RdsNodes(env) else base.value
  }

  /** When the claim has a native device, the RDS nodes land on exactly one of its devices, the first native one. */
  lemma RdsLandsOnce(m: Memory, fs: Fs, claim: Claim, env: PrepareEnv, k: nat) returns (i: nat)
    requires Prepared(m, fs, claim, env) && k < |Own(claim.allocation.value)|
    requires !IsVfioResult(m, Own(claim.allocation.value)[k])
    ensures i <= k && FirstNative(m, Own(claim.allocation.value), i)
    ensures !IsVfioResult(m, Own(claim.allocation.value)[i])
    ensures forall j: nat :: j < i ==> IsVfioResult(m, Own(claim.allocation.value)[j])
    ensures forall j: nat :: j < |Own(claim.allocation.value)| ==> NodesWithRdsAt(m, fs, claim, env, i, j)
  {
    var own := Own(claim.allocation.value);
    i := LeastNative(m, own, k);
    forall j: nat | j < |own| ensures NodesWithRdsAt(m, fs, claim, env, i, j) {
      EditsOf(m, fs, claim, env, j);
      assert FirstNative(m, own, j) <==> j == i;
    }
  }

  /** A passthrough-only claim gets no RDS nodes and asks for no group. */
  lemma PassthroughOnly(m: Memory, fs: Fs, claim: Claim, env: PrepareEnv)
    requires Prepared(m, fs, claim, env)
    requires forall a :: a in Own(claim.allocation.value) ==> IsVfioResult(m, a)
    ensures PrepareDevices(m, fs, claim, env).fs == fs
  {
    NoNativeNoBuses(m, Own(claim.allocation.value));
  }

  lemma {:induction false} NoNativeNoBuses(m: Memory, own: seq<Allocated>)
    requires AllListed(m, own) && forall a :: a in own ==> IsVfioResult(m, a)
    ensures NativeBuses(m, own) == []
  {
    if own != [] {
      var n := |own| - 1;
      assert own[n] in own;
      NoNativeNoBuses(m, own[..n]);
    }
  }

  /** Each main request with a passthrough device has its metadata mounts on
      exactly one device, the first passthrough device allocated to it. */
  lemma MountsLandOnce(m: Memory, fs: Fs, claim: Claim, env: PrepareEnv, k: nat, main: string) returns (i: nat)
    requires Prepared(m, fs, claim, env) && k < |Own(claim.allocation.value)|
    requires IsVfioResult(m, Own(claim.allocation.value)[k]) && IsHead(main, Own(claim.allocation.value)[k].request)
    ensures |PrepareDevices(m, fs, claim, env).value.value| == |Own(claim.allocation.value)|
    ensures var own, devices := Own(claim.allocation.value), PrepareDevices(m, fs, claim, env).value.value;
            && i <= k && IsVfioResult(m, own[i]) && IsHead(main, own[i].request)
            && (forall j: nat :: j < i && IsVfioResult(m, own[j]) ==> !IsHead(main, own[j].request))
            && (forall j: nat :: j < |own| && IsHead(main, own[j].request) ==>
                  devices[j].edits.mounts == if j == i then MetadataMountsOf(claim, main) else [])
  {
    var own := Own(claim.allocation.value);
    forall j: nat | j < |own| ensures IsHead(main, own[j].request) <==> MainRequest(own[j]) == main {
      MainRequestExactly(own[j], main);
    }
    hide Text.IsHead, MainRequest;
    i := LeastOfRequest(m, own, k);
    EditsOf(m, fs, claim, env, k);
    forall j: nat | j < |own| && MainRequest(own[j]) == main
      ensures PrepareDevices(m, fs, claim, env).value.value[j].edits.mounts == if j == i then MetadataMountsOf(claim, main) else []
    {
      EditsOf(m, fs, claim, env, j);
      assert FirstOfRequest(m, own, j) <==> j == i;
    }
  }

  /** No two mounts of a claim target the same container path. */
  lemma ContainerPathsDistinct(m: Memory, fs: Fs, claim: Claim, env: PrepareEnv, i: nat, a: nat, j: nat, b: nat)
    requires Prepared(m, fs, claim, env)
    ensures var devices := PrepareDevices(m, fs, claim, env).value.value;
            && i < |devices| && a < |devices[i].edits.mounts| && j < |devices| && b < |devices[j].edits.mounts|
            && devices[i].edits.mounts[a].containerPath == devices[j].edits.mounts[b].containerPath ==>
              i == j && a == b
  {
    hide Preparation.PrepareDevices;
    OneDevicePerResult(m, fs, claim, env);
    var own, devices := Own(claim.allocation.value), PrepareDevices(m, fs, claim, env).value.value;
    if i < |devices| && a < |devices[i].edits.mounts| && j < |devices| && b < |devices[j].edits.mounts| {
      MountTarget(m, fs, claim, env, i, a);
      MountTarget(m, fs, claim, env, j, b);
      assert i < j && FirstOfRequest(m, own, j) && IsVfioResult(m, own[i]) ==> MainRequest(own[i]) != MainRequest(own[j]);
    }
  }

  /** Where a mount of a prepared claim ends up. */
  lemma MountTarget(m: Memory, fs: Fs, claim: Claim, env: PrepareEnv, i: nat, a: nat)
    requires Prepared(m, fs, claim, env) && i < |Own(claim.allocation.value)|
    ensures var own, devices := Own(claim.allocation.value), PrepareDevices(m, fs, claim, env).value.value;
            && |devices| == |own|
            && (a < |devices[i].edits.mounts| ==>
                  && FirstOfRequest(m, own, i) && a < |ContainerDirs(claim)|
                  && devices[i].edits.mounts[a].containerPath == FilePath(ContainerDirs(claim)[a], MainRequest(own[i])))
  {
    EditsOf(m, fs, claim, env, i);
  }
}
