/** Exactly when a claim is prepared afresh, and what each of its devices then gets. */
module FreshPrepare {
  import opened Text
  import opened Devices
  import opened Snapshot
  import opened Validation
  import opened Storage
  import opened Metadata
  import opened Preparation
  import opened ClaimGuarantees
  import opened PreparedShape
  import opened Runs
  import opened RunGuarantees

  // ---- when preparation succeeds ---------------------------------------------------

  ghost predicate HasNative(m: Memory, results: seq<Allocated>) {
    exists a :: a in results && IsNativeResult(m, a)
  }

  /** The result names a passthrough device of the inventory. */
  ghost predicate IsPassthroughResult(m: Memory, a: Allocated) {
    a.driver == DRIVER_NAME && a.device in m.allocatable && IsVfio(m.allocatable[a.device])
  }

  ghost predicate HasPassthrough(m: Memory, results: seq<Allocated>) {
    exists a :: a in results && IsPassthroughResult(m, a)
  }

  /** Every own result is in the inventory, on this node, and passes the live check. */
  ghost predicate Admitted(m: Memory, results: seq<Allocated>, env: PrepareEnv) {
    forall a :: a in results && a.driver == DRIVER_NAME ==>
      a.device in m.allocatable && a.pool == m.nodeName && Usable(env.sys, m.allocatable[a.device])
  }

  /** The nodes a device needs appear in time: the shared vfio node and its
      group's for passthrough; the claim's group node and its own for a native device. */
  ghost predicate NodesPresent(d: Device, host: string, env: PrepareEnv) {
    if IsVfio(d) then
      && IntAttr(d, IommuGroupKey).Some?
      && env.present("/dev/vfio/vfio") && env.present("/dev/vfio/" + Itoa(IntAttr(d, IommuGroupKey).value))
    else
      var name := StringAttr(d, DeviceNodeName);
      && name !in {"", ".", ".."} && (name == "/" || '/' !in name)
      && env.present(host) && env.present(if name == "/" then "/dev" else "/dev/" + name)
  }

  /** The node of the claim's RSD group; a claim without native devices has none. */
  ghost function GroupHost(m: Memory, results: seq<Allocated>, env: PrepareEnv): string
    requires AllListed(m, Own(results))
  {
    if HasNative(m, results) && env.rsd(RsdRequest(m, results)).Some? then env.rsd(RsdRequest(m, results)).value else ""
  }

  /** Everything but the stores allows the preparation. */
  ghost predicate Preparable(m: Memory, results: seq<Allocated>, env: PrepareEnv) {
    && Admitted(m, results, env) && AllListed(m, Own(results))
    && (HasNative(m, results) ==> env.umd.Some? && env.rsd(RsdRequest(m, results)) !in {None, Some("")})
    && forall a :: a in Own(results) ==> NodesPresent(m.allocatable[a.device], GroupHost(m, results, env), env)
  }

  lemma AdmittedExactly(m: Memory, results: seq<Allocated>, env: PrepareEnv)
    ensures Admitted(m, results, env) <==> AllAdmissible(m, env.sys, results)
  {
    hide Validation.Usable;
  }

  lemma PassthroughExactly(m: Memory, results: seq<Allocated>)
    ensures HasPassthrough(m, results) <==> HasVfio(m, results)
  {
    forall a | a in results ensures IsPassthroughResult(m, a) <==> a.driver == DRIVER_NAME && IsVfioResult(m, a) {}
  }

  lemma NodesExactly(m: Memory, a: Allocated, host: string, env: PrepareEnv)
    requires a.device in m.allocatable
    ensures NodesOf(m, a, host, env).Some? <==> NodesPresent(m.allocatable[a.device], host, env)
  {}

  lemma AllNodesExactly(m: Memory, own: seq<Allocated>, host: string, env: PrepareEnv)
    requires AllListed(m, own)
    ensures NodesReady(m, own, host, env) <==> forall a :: a in own ==> NodesPresent(m.allocatable[a.device], host, env)
  {
    hide Preparation.NodesOf, NodesPresent;
    forall i: nat | i < |own| ensures NodesOf(m, own[i], host, env).Some? <==> NodesPresent(m.allocatable[own[i].device], host, env) {
      assert own[i] in own;
      NodesExactly(m, own[i], host, env);
    }
  }

  /** The group step: nothing for a claim without native devices; otherwise the
      canonical request, answered by a path, after the common spec is written. */
  lemma GroupExactly(m: Memory, fs: Fs, results: seq<Allocated>, env: PrepareEnv)
    requires AllListed(m, Own(results))
    ensures var r := GroupPath(fs, NativeBuses(m, Own(results)), env);
            && (!HasNative(m, results) ==> r == IO(fs, Some("")))
            && (HasNative(m, results) ==>
                  (r.value.Some? <==> env.umd.Some? && !fs.Fails() && env.rsd(RsdRequest(m, results)) !in {None, Some("")}))
            && (r.value.Some? ==>
                  && r.value.value == GroupHost(m, results, env)
                  && r.fs.groups == fs.groups + if HasNative(m, results) then [RsdRequest(m, results)] else [])
  {
    SomeNative(m, results);
    hide Preparation.CreateGroup;
  }

  /** Exactly when the devices of a claim can be prepared, if no effect fails. */
  lemma PreparedExactly(m: Memory, fs: Fs, claim: Claim, env: PrepareEnv)
    requires fs.Healthy()
    ensures Prepared(m, fs, claim, env) <==> claim.allocation.Some? && Preparable(m, claim.allocation.value, env)
  {
    hide NodesPresent, Preparation.GroupPath, GroupHost, HasNative, Admitted, Preparation.AllAdmissible;
    if claim.allocation.Some? {
      var results := claim.allocation.value;
      AdmittedExactly(m, results, env);
      if AllAdmissible(m, env.sys, results) {
        OwnListed(m, env.sys, results);
        GroupExactly(m, fs, results, env);
        var host := GroupPath(fs, NativeBuses(m, Own(results)), env).value;
        if host.Some? {
          AllNodesExactly(m, Own(results), host.value, env);
        }
      }
    }
  }

  /** Exactly when a claim that is not on record is prepared, if no effect
      fails: everything it needs is there, and it is not a passthrough claim whose
      directory is torn. The answer is then recorded, and the RSD group requested
      is the canonical one. */
  lemma FreshPrepareExactly(m: Memory, fs: Fs, claim: Claim, env: PrepareEnv)
    requires TreeOk(fs) && IsUid(claim.uid) && fs.Healthy()
    requires fs.checkpoint.Some? && Entry(fs, claim.uid) in {None, Some([])}
    ensures var r := Prepare(m, fs, claim, env);
            r.value.Some? <==>
              && claim.allocation.Some? && Preparable(m, claim.allocation.value, env)
              && !(HasPassthrough(m, claim.allocation.value) && IsTorn(fs, claim.uid))
  {
    hide Preparable, Preparation.Commit, HasPassthrough, Preparation.HasVfio, Preparation.PrepareDevices;
    PreparedExactly(m, fs.Next(), claim, env);
    if Prepared(m, fs.Next(), claim, env) {
      var IO(ready, devices) := PrepareDevices(m, fs.Next(), claim, env);
      PassthroughExactly(m, claim.allocation.value);
      if !IsTorn(fs, claim.uid) {
        HealthyCommit(m, ready, claim, env, fs.checkpoint.value, devices.value);
      } else if HasVfio(m, claim.allocation.value) {
        TornCommit(m, ready, claim, env, fs.checkpoint.value, devices.value);
      } else {
        PlainCommit(m, ready, claim, env, fs.checkpoint.value, devices.value);
      }
    }
  }

  /** A claim without passthrough devices does not touch the metadata tree. */
  lemma PlainCommit(m: Memory, fs: Fs, claim: Claim, env: PrepareEnv, claims: Claims, devices: seq<PreparedDevice>)
    requires claim.allocation.Some? && fs.Healthy() && !HasVfio(m, claim.allocation.value)
    ensures var r := Commit(m, fs, claim, env, claims, devices);
            r.value && r.fs.tree == fs.tree
  {}

  /** What a successful fresh Prepare leaves, whatever effects fail elsewhere:
      its answer on record, and one request for the canonical group if there are native devices. */
  lemma FreshSuccessIsLogged(m: Memory, fs: Fs, claim: Claim, env: PrepareEnv)
    requires TreeOk(fs) && IsUid(claim.uid)
    requires Entry(fs, claim.uid) in {None, Some([])}
    ensures var r := Prepare(m, fs, claim, env);
            r.value.Some? ==>
              && claim.allocation.Some? && AllListed(m, Own(claim.allocation.value))
              && Entry(r.fs, claim.uid) == r.value
              && r.fs.groups == fs.groups + if HasNative(m, claim.allocation.value) then [RsdRequest(m, claim.allocation.value)] else []
  {
    hide Preparation.Commit, HasNative, Preparation.GroupPath, GroupHost, Preparation.AllAdmissible, Preparation.NodesReady;
    if Prepare(m, fs, claim, env).value.Some? {
      var IO(read, claims) := fs.ReadCheckpoint();
      var IO(ready, devices) := PrepareDevices(m, read, claim, env);
      CommitEffect(m, ready, claim, env, claims.value, devices.value);
      GroupExactly(m, read, claim.allocation.value, env);
    }
  }

  // ---- what a prepared device gets -----------------------------------------------------

  ghost predicate GetsVfioNodes(nodes: seq<DeviceNode>, d: Device) {
    && IntAttr(d, IommuGroupKey).Some?
    && (var group := "/dev/vfio/" + Itoa(IntAttr(d, IommuGroupKey).value);
        nodes == [DeviceNode("/dev/vfio/vfio", "/dev/vfio/vfio", "mrw", 107, 107), DeviceNode(group, group, "mrw", 107, 107)])
  }

  ghost predicate GetsNativeNodes(nodes: seq<DeviceNode>, d: Device, host: string, shared: seq<DeviceNode>) {
    var node := if StringAttr(d, DeviceNodeName) == "/" then "/dev" else "/dev/" + StringAttr(d, DeviceNodeName);
    nodes == [DeviceNode("/dev/rsd0", host, "", 0, 0), DeviceNode(node, node, "", 0, 0)] + shared
  }

  ghost predicate GetsIds(ids: seq<string>, uid: string, device: string, withCommon: bool) {
    var own := "k8s.npu.rebellions.ai/npu=" + (uid + "-" + device);
    ids == if withCommon then ["k8s.npu.rebellions.ai/npu=common", own] else [own]
  }

  lemma IdsExactly(uid: string, device: string, withCommon: bool)
    ensures GetsIds(ClaimDeviceIDs(uid, device, withCommon), uid, device, withCommon)
  {
    assert CDI_KIND + "=" == "k8s.npu.rebellions.ai/npu=";
    assert QualifiedName(COMMON) == "k8s.npu.rebellions.ai/npu=common";
  }

  lemma NodesSpelledOut(m: Memory, a: Allocated, host: string, env: PrepareEnv)
    requires a.device in m.allocatable && NodesOf(m, a, host, env).Some?
    ensures var d, nodes := m.allocatable[a.device], NodesOf(m, a, host, env).value;
            if IsVfio(d) then GetsVfioNodes(nodes, d) else GetsNativeNodes(nodes, d, host, [])
  {}

  /** What a result gets, given whether it carries the claim's RDS nodes and its request's mounts. */
  ghost predicate GetsDevice(p: PreparedDevice, m: Memory, claim: Claim, a: Allocated, host: string, env: PrepareEnv,
                             withRds: bool, withMounts: bool)
    requires a.device in m.allocatable
  {
    var d := m.allocatable[a.device];
    && p.requests == [a.request] && p.pool == a.pool && p.device == a.device
    && GetsIds(p.cdiIDs, claim.uid, a.device, !IsVfio(d))
    && p.edits.mounts == (if withMounts then MetadataMountsOf(claim, MainRequest(a)) else [])
    && (if IsVfio(d) then GetsVfioNodes(p.edits.nodes, d)
        else GetsNativeNodes(p.edits.nodes, d, host, if withRds && env.rds.Some? then env.rds.value else []))
  }

  lemma PreparedWithExactly(m: Memory, claim: Claim, a: Allocated, host: string, env: PrepareEnv, withRds: bool, withMounts: bool)
    requires a.device in m.allocatable && NodesOf(m, a, host, env).Some?
    requires withRds ==> !IsVfio(m.allocatable[a.device])
    ensures GetsDevice(PreparedWith(m, claim, a, NodesOf(m, a, host, env).value, env, withRds, withMounts),
                       m, claim, a, host, env, withRds, withMounts)
  {
    NodesSpelledOut(m, a, host, env);
    IdsExactly(claim.uid, a.device, !IsVfio(m.allocatable[a.device]));
    hide Preparation.NodesOf, GetsIds, ClaimDeviceIDs, MetadataMountsOf, MainRequest;
  }

  /** What the i-th own result of a prepared claim gets: a passthrough device
      the two vfio nodes, its own CDI id, and the metadata mounts if it is the first
      of its main request; a native device the group's node and its own, the
      common CDI id besides its own, and the RDS nodes if it is the first native device. */
  lemma PreparedDeviceExactly(m: Memory, fs: Fs, claim: Claim, env: PrepareEnv, i: nat)
    requires Prepared(m, fs, claim, env) && i < |Own(claim.allocation.value)|
    ensures AllListed(m, Own(claim.allocation.value))
    ensures var own, devices := Own(claim.allocation.value), PrepareDevices(m, fs, claim, env).value.value;
            && |devices| == |own| && own[i].device in m.allocatable
            && (var passthrough := IsVfio(m.allocatable[own[i].device]);
                var withRds := !passthrough && forall j: nat :: j < i ==> IsVfioResult(m, own[j]);
                var withMounts := passthrough && forall j: nat :: j < i && IsVfioResult(m, own[j]) ==> MainRequest(own[j]) != MainRequest(own[i]);
                GetsDevice(devices[i], m, claim, own[i], GroupHost(m, claim.allocation.value, env), env, withRds, withMounts))
  {
    PreparedIsList(m, fs, claim, env);
    var results := claim.allocation.value;
    var own, host := Own(results), HostPath(m, fs, claim, env);
    GroupExactly(m, fs, results, env);
    hide Preparation.PrepareDevices, Preparation.GroupPath, GroupHost, GetsDevice, Preparation.PreparedWith, Preparation.NodesOf;
    assert own[i] in own;
    assert PrepareDevices(m, fs, claim, env).value.value[i] == PreparedAt(m, claim, own, host, env, i);
    PreparedWithExactly(m, claim, own[i], host, env, FirstNative(m, own, i), FirstOfRequest(m, own, i));
  }
}
