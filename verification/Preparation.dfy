/** Preparing and unpreparing a claim, as transformations of the stores. */
module Preparation {
  import opened Text
  import opened Sysfs
  import opened Devices
  import opened Snapshot
  import opened Validation
  import opened Storage
  import opened Metadata

  /** What a Prepare observes besides the stores: sysfs, the runtime edits of
      the toolkit (None when unreadable), the answer of the RSD library for any
      request, the RDS nodes (None when unreadable), which device nodes appear in
      time, the order in which Go ranges over the metadata map, and how many
      characters of the owner marker an interrupted write leaves. */
  datatype PrepareEnv = PrepareEnv(
    sys: Sysfs,
    umd: Option<string>,
    rsd: seq<string> -> Option<string>,
    rds: Option<seq<DeviceNode>>,
    present: string -> bool,
    order: seq<string>,
    cut: nat)

  // ---- the driver's own results -----------------------------------------------------

  function Own(results: seq<Allocated>): seq<Allocated> {
    if results == [] then [] else
      var last := results[|results| - 1];
      var before := Own(results[..|results| - 1]);
      if last.driver == DRIVER_NAME then before + [last] else before
  }

  /** An allocated device is in the inventory, on this node, and passes the live check. */
  predicate Admissible(m: Memory, sys: Sysfs, a: Allocated) {
    a.device in m.allocatable && a.pool == m.nodeName && Usable(sys, m.allocatable[a.device])
  }

  predicate AllAdmissible(m: Memory, sys: Sysfs, results: seq<Allocated>) {
    forall a | a in results :: a.driver == DRIVER_NAME ==> Admissible(m, sys, a)
  }

  predicate AllListed(m: Memory, own: seq<Allocated>) {
    forall a | a in own :: a.device in m.allocatable
  }

  /** The driver's own results are the results of this driver, each once, in order. */
  lemma {:induction false} OwnInOrder(results: seq<Allocated>) returns (pos: seq<nat>)
    ensures |pos| == |Own(results)|
    ensures forall k, l :: 0 <= k < l < |pos| ==> pos[k] < pos[l]
    ensures forall k :: 0 <= k < |pos| ==>
              pos[k] < |results| && results[pos[k]].driver == DRIVER_NAME && Own(results)[k] == results[pos[k]]
    ensures forall i: nat :: i < |results| && results[i].driver == DRIVER_NAME ==> i in pos
  {
    pos := [];
    if results != [] {
      var n := |results| - 1;
      var rest := results[..n];
      pos := OwnInOrder(rest);
      assert forall i: nat :: i < n ==> rest[i] == results[i];
      assert Own(results) == Own(rest) + if results[n].driver == DRIVER_NAME then [results[n]] else [];
      hide Own;
      if results[n].driver == DRIVER_NAME {
        pos := pos + [n];
      }
    }
  }

  lemma {:induction false} OwnMember(results: seq<Allocated>, a: Allocated)
    ensures a in Own(results) <==> a in results && a.driver == DRIVER_NAME
  {
    if results != [] {
      var n := |results| - 1;
      OwnMember(results[..n], a);
      assert results == results[..n] + [results[n]];
    }
  }

  lemma OwnListed(m: Memory, sys: Sysfs, results: seq<Allocated>)
    requires AllAdmissible(m, sys, results)
    ensures AllListed(m, Own(results))
    ensures forall a :: a in Own(results) ==> Admissible(m, sys, a)
  {
    forall a | a in Own(results) ensures Admissible(m, sys, a) { OwnMember(results, a); }
  }

  // ---- the RSD request ------------------------------------------------------------------

  predicate IsVfioResult(m: Memory, a: Allocated) {
    a.device in m.allocatable && IsVfio(m.allocatable[a.device])
  }

  /** The bus addresses of the native devices, as published, in result order. */
  function NativeBuses(m: Memory, own: seq<Allocated>): seq<string>
    requires AllListed(m, own)
  {
    if own == [] then [] else
      var last := own[|own| - 1];
      var before := NativeBuses(m, own[..|own| - 1]);
      if IsVfioResult(m, last) then before else before + [StringAttr(m.allocatable[last.device], PciBusID)]
  }

  predicate ChangesOnlyCommon(fs: Fs, after: Fs) {
    && after.checkpoint == fs.checkpoint && after.tree == fs.tree
    && after.missed == fs.missed && after.abandoned == fs.abandoned && after.torn == fs.torn
    && (forall k | k in fs.specs.Keys + after.specs.Keys && k != COMMON :: k in fs.specs && k in after.specs && after.specs[k] == fs.specs[k])
  }

  function CommonSpec(umd: string): Spec {
    Spec([CdiDevice(COMMON, Runtime(umd))])
  }

  /** The common CDI spec, then the RSD group; the path of the group's node.
      The group is requested only once the spec is written, and an empty path is a failure. */
  function CreateGroup(fs: Fs, buses: seq<string>, env: PrepareEnv): (r: IO<Option<string>>)
    ensures ChangesOnlyCommon(fs, r.fs)
    ensures r.value.Some? ==> env.umd.Some? && COMMON in r.fs.specs
                                  && r.fs.specs[COMMON].devices == [CdiDevice("common", Runtime(env.umd.value))]
    ensures var asked := env.umd.Some? && !fs.Fails();
            && r.fs.groups == (if asked then fs.groups + [buses] else fs.groups)
            && r.value == (if asked && env.rsd(buses) != Some("") then env.rsd(buses) else None)
    ensures fs.Healthy() ==> r.fs.Healthy()
    ensures r.fs.specs == fs.specs || (env.umd.Some? && r.fs.specs == fs.specs[COMMON := CommonSpec(env.umd.value)])
  {
    if env.umd.None? then IO(fs, None)
    else
      var IO(written, ok) := fs.WriteSpec(COMMON, CommonSpec(env.umd.value));
      if !ok then IO(written, None)
      else
        var asked := written.(groups := written.groups + [buses]);
        IO(asked, if env.rsd(buses) == Some("") then None else env.rsd(buses))
  }

  // ---- container edits --------------------------------------------------------------------

  const RSD_NODE := "/dev/rsd0"
  const VFIO_NODE := "/dev/vfio/vfio"
  const QEMU_ID: nat := 107

  function PlainNode(path: string, hostPath: string): DeviceNode {
    DeviceNode(path, hostPath, "", 0, 0)
  }

  function QemuNode(path: string): DeviceNode {
    DeviceNode(path, path, "mrw", QEMU_ID, QEMU_ID)
  }

  /** A device node name that filepath.Base leaves as it is. */
  predicate IsNodeName(name: string) {
    name == "/" || (name != "" && name != "." && name != ".." && '/' !in name)
  }

  function NodePath(name: string): string {
    if name == "/" then "/dev" else "/dev/" + name
  }

  /** applyConfig: the group's node and the device's own node, both present. */
  function NativeNodes(d: Device, host: string, env: PrepareEnv): Option<seq<DeviceNode>> {
    var name := StringAttr(d, DeviceNodeName);
    if !env.present(host) || !IsNodeName(name) || !env.present(NodePath(name)) then None
    else Some([PlainNode(RSD_NODE, host), PlainNode(NodePath(name), NodePath(name))])
  }

  /** vfioContainerEdits: the shared and the group's vfio node, both present. */
  function VfioNodes(d: Device, env: PrepareEnv): Option<seq<DeviceNode>> {
    var group := IntAttr(d, IommuGroupKey);
    if group.None? then None
    else
      var path := "/dev/vfio/" + Itoa(group.value);
      if !env.present(VFIO_NODE) || !env.present(path) then None else Some([QemuNode(VFIO_NODE), QemuNode(path)])
  }

  method VfioContainerNodes(d: Device, env: PrepareEnv) returns (nodes: Option<seq<DeviceNode>>)
    ensures nodes == VfioNodes(d, env)
  {
    var group := IntAttr(d, IommuGroupKey);
    if group.None? {
      return None;
    }
    var paths := [VFIO_NODE, "/dev/vfio/" + Itoa(group.value)];
    var found: seq<DeviceNode> := [];
    for i := 0 to 2
      invariant |found| == i
      invariant forall j :: 0 <= j < i ==> env.present(paths[j]) && found[j] == QemuNode(paths[j])
    {
      if !env.present(paths[i]) {
        return None;
      }
      found := found + [QemuNode(paths[i])];
    }
    assert found == [QemuNode(paths[0]), QemuNode(paths[1])];
    return Some(found);
  }

  function NodesOf(m: Memory, a: Allocated, host: string, env: PrepareEnv): Option<seq<DeviceNode>>
    requires a.device in m.allocatable
  {
    if IsVfioResult(m, a) then VfioNodes(m.allocatable[a.device], env) else NativeNodes(m.allocatable[a.device], host, env)
  }

  /** The first native result of the claim: the one that carries the RDS nodes. */
  predicate FirstNative(m: Memory, own: seq<Allocated>, i: nat)
    requires i < |own|
  {
    !IsVfioResult(m, own[i]) && forall j: nat | j < i :: IsVfioResult(m, own[j])
  }

  /** The first passthrough result of its main request: the one that carries the metadata mounts. */
  predicate FirstOfRequest(m: Memory, own: seq<Allocated>, i: nat)
    requires i < |own|
  {
    IsVfioResult(m, own[i]) &&
    forall j: nat | j < i :: IsVfioResult(m, own[j]) ==> MainRequest(own[j]) != MainRequest(own[i])
  }

  /** One prepared device, with or without the claim's shared RDS nodes and its request's mounts. */
  function PreparedWith(m: Memory, claim: Claim, a: Allocated, nodes: seq<DeviceNode>, env: PrepareEnv,
                        inject: bool, mount: bool): PreparedDevice
  {
    var rds := if env.rds.Some? then env.rds.value else [];
    PreparedDevice(
      [a.request], a.pool, a.device,
      ClaimDeviceIDs(claim.uid, a.device, !IsVfioResult(m, a)),
      Edits(if inject then nodes + rds else nodes, if mount then MetadataMountsOf(claim, MainRequest(a)) else []))
  }

  function PreparedAt(m: Memory, claim: Claim, own: seq<Allocated>, host: string, env: PrepareEnv, i: nat): PreparedDevice
    requires i < |own| && own[i].device in m.allocatable && NodesOf(m, own[i], host, env).Some?
  {
    PreparedWith(m, claim, own[i], NodesOf(m, own[i], host, env).value, env, FirstNative(m, own, i), FirstOfRequest(m, own, i))
  }

  predicate NodesReady(m: Memory, own: seq<Allocated>, host: string, env: PrepareEnv)
    requires AllListed(m, own)
  {
    forall i: nat | i < |own| :: NodesOf(m, own[i], host, env).Some?
  }

  function PreparedList(m: Memory, claim: Claim, own: seq<Allocated>, host: string, env: PrepareEnv): seq<PreparedDevice>
    requires AllListed(m, own) && NodesReady(m, own, host, env)
  {
    seq(|own|, i requires 0 <= i < |own| => PreparedAt(m, claim, own, host, env, i))
  }

  /** What the two injection flags of the loop mean when it reaches result i. */
  ghost predicate FlagsAt(m: Memory, own: seq<Allocated>, i: nat, injected: bool, mounted: set<string>)
    requires i <= |own|
  {
    && (injected <==> exists j: nat :: j < i && !IsVfioResult(m, own[j]))
    && (forall r :: r in mounted <==> exists j: nat :: j < i && IsVfioResult(m, own[j]) && MainRequest(own[j]) == r)
  }

  lemma FlagsInitially(m: Memory, own: seq<Allocated>)
    ensures FlagsAt(m, own, 0, false, {})
  {}

  /** The loop's flags choose the same injections as the positions do. */
  lemma FlagsPrepare(m: Memory, claim: Claim, own: seq<Allocated>, host: string, env: PrepareEnv, i: nat, injected: bool, mounted: set<string>)
    requires i < |own| && own[i].device in m.allocatable && NodesOf(m, own[i], host, env).Some?
    requires FlagsAt(m, own, i, injected, mounted)
    ensures PreparedAt(m, claim, own, host, env, i) ==
            PreparedWith(m, claim, own[i], NodesOf(m, own[i], host, env).value, env,
                         !IsVfioResult(m, own[i]) && !injected, IsVfioResult(m, own[i]) && MainRequest(own[i]) !in mounted)
  {
    FlagsDecide(m, own, i, injected, mounted);
  }

  lemma FlagsDecide(m: Memory, own: seq<Allocated>, i: nat, injected: bool, mounted: set<string>)
    requires i < |own| && FlagsAt(m, own, i, injected, mounted)
    ensures FirstNative(m, own, i) <==> !IsVfioResult(m, own[i]) && !injected
    ensures FirstOfRequest(m, own, i) <==> IsVfioResult(m, own[i]) && MainRequest(own[i]) !in mounted
    ensures FlagsAt(m, own, i + 1, injected || !IsVfioResult(m, own[i]),
                    if IsVfioResult(m, own[i]) then mounted + {MainRequest(own[i])} else mounted)
  {}

  // ---- prepareDevices -------------------------------------------------------------------

  function GroupPath(fs: Fs, buses: seq<string>, env: PrepareEnv): (r: IO<Option<string>>) {
    if buses == [] then IO(fs, Some("")) else CreateGroup(fs, Sort(buses), env)
  }

  function PrepareDevices(m: Memory, fs: Fs, claim: Claim, env: PrepareEnv): (r: IO<Option<seq<PreparedDevice>>>)
    ensures ChangesOnlyCommon(fs, r.fs)
    ensures fs.Healthy() ==> r.fs.Healthy()
    ensures r.value.Some? ==>
              && claim.allocation.Some? && AllAdmissible(m, env.sys, claim.allocation.value)
              && (forall a :: a in claim.allocation.value && a.driver == DRIVER_NAME ==>
                    a.device in m.allocatable && a.pool == m.nodeName && Usable(env.sys, m.allocatable[a.device]))
              && AllListed(m, Own(claim.allocation.value))
              && GroupPath(fs, NativeBuses(m, Own(claim.allocation.value)), env).value.Some?
  {
    if claim.allocation.None? || !AllAdmissible(m, env.sys, claim.allocation.value) then IO(fs, None)
    else
      var own := Own(claim.allocation.value);
      OwnListed(m, env.sys, claim.allocation.value);
      var IO(grouped, host) := GroupPath(fs, NativeBuses(m, own), env);
      if host.None? || !NodesReady(m, own, host.value, env) then IO(grouped, None)
      else IO(grouped, Some(PreparedList(m, claim, own, host.value, env)))
  }

  // ---- Prepare and Unprepare ---------------------------------------------------------------

  predicate HasVfio(m: Memory, results: seq<Allocated>) {
    exists a | a in results :: a.driver == DRIVER_NAME && IsVfioResult(m, a)
  }

  /** rollbackKubeVirtMetadata: a failed rollback is only recorded. */
  function Rollback(fs: Fs, uid: string): Fs {
    var IO(cleaned, ok) := Cleanup(fs, uid);
    if ok then cleaned else cleaned.(abandoned := cleaned.abandoned + {uid})
  }

  /** The metadata step of Prepare. */
  function PublishMetadata(m: Memory, fs: Fs, claim: Claim, env: PrepareEnv): IO<bool>
    requires claim.allocation.Some?
  {
    if HasVfio(m, claim.allocation.value) then WriteMetadata(fs, claim, m.allocatable, env.order, env.cut) else IO(fs, true)
  }

  /** The commit steps of Prepare: metadata, CDI spec, checkpoint, in that order. */
  function Commit(m: Memory, fs: Fs, claim: Claim, env: PrepareEnv, claims: Claims, devices: seq<PreparedDevice>): IO<bool>
    requires claim.allocation.Some?
  {
    var IO(described, published) := PublishMetadata(m, fs, claim, env);
    if !published then IO(Rollback(described, claim.uid), false)
    else
      var IO(specified, written) := described.WriteSpec(claim.uid, ClaimSpec(claim.uid, devices));
      if !written then IO(Rollback(specified, claim.uid), false)
      else
        var IO(recorded, saved) := specified.WriteCheckpoint(claims[claim.uid := devices]);
        if !saved then IO(Rollback(recorded, claim.uid), false) else IO(recorded, true)
  }

  function Prepare(m: Memory, fs: Fs, claim: Claim, env: PrepareEnv): IO<Option<seq<PreparedDevice>>> {
    var IO(read, claims) := fs.ReadCheckpoint();
    if claims.None? then IO(read, None)
    else if IsPrepared(claims.value, claim.uid) then IO(read, Some(claims.value[claim.uid]))
    else
      var IO(ready, devices) := PrepareDevices(m, read, claim, env);
      if devices.None? then IO(ready, None)
      else
        var IO(done, ok) := Commit(m, ready, claim, env, claims.value, devices.value);
        IO(done, if ok then devices else None)
  }

  /** The teardown steps of Unprepare: CDI spec, metadata, checkpoint entry, in that order. */
  function Teardown(fs: Fs, uid: string, claims: Claims): IO<bool> {
    var IO(unspecified, ok) := fs.RemoveSpec(uid);
    if !ok then IO(unspecified, false)
    else
      var IO(cleaned, clean) := Cleanup(unspecified, uid);
      if !clean then IO(cleaned, false) else cleaned.WriteCheckpoint(claims - {uid})
  }

  function Unprepare(fs: Fs, uid: string): IO<bool> {
    var IO(read, claims) := fs.ReadCheckpoint();
    if claims.None? then IO(read, false)
    else if !IsPrepared(claims.value, uid) then IO(read, true)
    else Teardown(read, uid, claims.value)
  }

  /** After the startup step there is a checkpoint, with the claims that were
      recorded before; the step fails only with one of its effects, and then changes nothing. */
  lemma EnsureCheckpointExactly(fs: Fs)
    ensures var r := EnsureCheckpoint(fs);
            && r.fs.SameStores(fs.(checkpoint := r.fs.checkpoint, faults := r.fs.faults))
            && r.fs.checkpoint == (if r.value && fs.checkpoint.None? then Some(map[]) else fs.checkpoint)
            && (r.value ==> r.fs.checkpoint.Some?) && (fs.Healthy() ==> r.value && r.fs.Healthy())
            && (r.value <==> !fs.Fails() && (fs.checkpoint.Some? || !fs.Next().Fails()))
  {}

  /** NewDeviceState's checkpoint step: create an empty checkpoint unless one exists. */
  function EnsureCheckpoint(fs: Fs): IO<bool> {
    var listed := fs.Next();
    if fs.Fails() then IO(listed, false)
    else if fs.checkpoint.Some? then IO(listed, true)
    else listed.WriteCheckpoint(map[])
  }
}
