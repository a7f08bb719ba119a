/** Runs of a node: any sequence of Prepare, Unprepare, scan and restart, with
    any effect failing and any call cut short by a crash. */
module Runs {
  import opened Text
  import opened Devices
  import opened Snapshot
  import opened Storage
  import opened Metadata
  import opened Preparation
  import opened PreparedShape
  import opened ClaimGuarantees

  /** A node between two calls. `memory` is lost while the driver is down.
      `attempted` holds the claims an Unprepare was called for since they were
      last prepared afresh, `committed` the pair of the last successful scan
      since the driver started, and `answer` what the call before answered if it
      was a successful Prepare. */
  datatype World = World(
    memory: Option<Memory>,
    fs: Fs,
    attempted: set<string>,
    committed: Option<(seq<Device>, seq<Device>)>,
    answer: Option<seq<PreparedDevice>>)

  /** One call. `faults` decides its effects one by one; a crash at some effect
      is a schedule that fails it and all later ones, followed by a Restart. */
  datatype Op =
    | PrepareOp(claim: Claim, env: PrepareEnv, faults: seq<bool>)
    | UnprepareOp(uid: string, faults: seq<bool>)
    | RescanOp(scan: ScanEnv)
    | RestartOp(nodeName: string, start: ScanEnv, faults: seq<bool>)

  /** A call to a driver that is down changes nothing. */
  ghost function Step(w: World, op: Op): World {
    match op
    case PrepareOp(claim, env, faults) =>
      if w.memory.None? then w.(answer := None) else
        var IO(fs, devices) := Prepare(w.memory.value, w.fs.(faults := faults), claim, env);
        var anew := devices.Some? && Entry(w.fs, claim.uid) in {None, Some([])};
        w.(fs := fs, attempted := if anew then w.attempted - {claim.uid} else w.attempted, answer := devices)
    case UnprepareOp(uid, faults) =>
      if w.memory.None? then w.(answer := None) else
        w.(fs := Unprepare(w.fs.(faults := faults), uid).fs, attempted := w.attempted + {uid}, answer := None)
    case RescanOp(scan) =>
      if w.memory.None? then w.(answer := None) else
        var pair := ScanPair(KnownBuses(w.memory.value.allocatable), scan);
        w.(memory := Some(Rescanned(w.memory.value, scan)), committed := if pair.Some? then pair else w.committed, answer := None)
    case RestartOp(nodeName, start, faults) =>
      var IO(fs, ok) := EnsureCheckpoint(w.fs.(faults := faults));
      w.(fs := fs, memory := if ok then Some(Started(nodeName, start)) else None, committed := None, answer := None)
  }

  /** A claim as the scheduler hands it over: a UID of its own and distinct devices. */
  ghost predicate IsClaim(claim: Claim) {
    && IsUid(claim.uid)
    && (claim.allocation.Some? ==>
          var own := Own(claim.allocation.value);
          forall i, j :: 0 <= i < j < |own| ==> own[i].device != own[j].device)
  }

  ghost predicate IsOp(op: Op) {
    op.PrepareOp? ==> IsClaim(op.claim)
  }

  /** A node before the driver first starts: nothing stored except, possibly,
      metadata directories of the name-keyed layout with any markers. */
  ghost predicate IsFresh(w: World) {
    && w.memory.None? && w.attempted == {} && w.committed.None?
    && w.fs.checkpoint.None? && w.fs.specs == map[]
    && w.fs.missed == {} && w.fs.abandoned == {} && w.fs.torn == {}
    && forall uid :: UidDir(uid) !in w.fs.tree
  }

  /** Operation i leads from world i to the next. */
  ghost predicate StepAt(ws: seq<World>, ops: seq<Op>, i: nat)
    requires i < |ops| && |ws| == |ops| + 1
  {
    IsOp(ops[i]) && ws[i + 1] == Step(ws[i], ops[i])
  }

  /** A run: a fresh node, then one world after every operation. */
  ghost predicate IsRun(ws: seq<World>, ops: seq<Op>) {
    |ws| == |ops| + 1 && IsFresh(ws[0]) && forall i: nat :: i < |ops| ==> StepAt(ws, ops, i)
  }

  /** Any operations can be run, in any order, from any fresh node. */
  lemma {:induction false} AnyOpsRun(w: World, ops: seq<Op>) returns (ws: seq<World>)
    requires IsFresh(w) && forall op :: op in ops ==> IsOp(op)
    ensures IsRun(ws, ops) && ws[0] == w
  {
    hide Step, IsFresh, IsOp;
    if ops == [] {
      ws := [w];
    } else {
      var n := |ops| - 1;
      var before := AnyOpsRun(w, ops[..n]);
      ws := before + [Step(before[n], ops[n])];
      forall i: nat | i < |ops| ensures StepAt(ws, ops, i) {
        if i < n {
          assert StepAt(before, ops[..n], i);
        }
      }
    }
  }

  // ---- CDI names resolve -------------------------------------------------------------

  /** The spec of one transient id defines only that id's devices, each once. */
  ghost predicate SpecOk(id: string, spec: Spec) {
    if id == COMMON then |spec.devices| == 1 && spec.devices[0].name == COMMON
    else
      && IsUid(id)
      && (forall i :: 0 <= i < |spec.devices| ==> |spec.devices[i].name| >= 37 && spec.devices[i].name[..37] == id + "-")
      && (forall i, j :: 0 <= i < j < |spec.devices| ==> spec.devices[i].name != spec.devices[j].name)
  }

  ghost predicate SpecsOk(specs: map<string, Spec>) {
    forall id :: id in specs ==> SpecOk(id, specs[id])
  }

  lemma QualifiedInjective(a: string, b: string)
    ensures QualifiedName(a) == QualifiedName(b) <==> a == b
  {
    var n := |CDI_KIND| + 1;
    assert QualifiedName(a)[n..] == a && QualifiedName(b)[n..] == b;
  }

  /** In a well-formed spec directory every defined name is found in exactly one place. */
  lemma DefinedNamesResolve(specs: map<string, Spec>, id: string, i: nat)
    requires SpecsOk(specs) && id in specs && i < |specs[id].devices|
    ensures Resolves(specs, QualifiedName(specs[id].devices[i].name))
  {
    var name := specs[id].devices[i].name;
    forall other, j: nat | other in specs && j < |specs[other].devices| && QualifiedName(specs[other].devices[j].name) == QualifiedName(name)
      ensures other == id && j == i
    {
      QualifiedInjective(specs[other].devices[j].name, name);
      assert SpecOk(other, specs[other]) && SpecOk(id, specs[id]);
      assert (id + "-")[..|id|] == id && (other + "-")[..|other|] == other;
      assert |COMMON| == 6;
    }
  }

  lemma ClaimSpecOk(uid: string, devices: seq<PreparedDevice>)
    requires IsUid(uid)
    requires forall i, j :: 0 <= i < j < |devices| ==> devices[i].device != devices[j].device
    ensures SpecOk(uid, ClaimSpec(uid, devices))
  {
    var spec := ClaimSpec(uid, devices);
    forall i | 0 <= i < |devices|
      ensures |spec.devices[i].name| >= 37 && spec.devices[i].name[..37] == uid + "-" && spec.devices[i].name[37..] == devices[i].device
    {
      assert spec.devices[i].name == (uid + "-") + devices[i].device;
    }
    forall i, j | 0 <= i < j < |devices| ensures spec.devices[i].name != spec.devices[j].name {
      assert spec.devices[i].name[37..] == devices[i].device && spec.devices[j].name[37..] == devices[j].device;
    }
    assert |COMMON| == 6;
  }

  // ---- a prepared claim is intact --------------------------------------------------------

  /** The host path of a mount is a published file in the claim's own directory. */
  ghost predicate FileExists(fs: Fs, uid: string, path: FilePath) {
    path.dir == UidDir(uid) && fs.Owned(path.dir, uid) && path.request in fs.tree[path.dir].files
  }

  ghost predicate DeviceIntact(fs: Fs, uid: string, d: PreparedDevice) {
    && (d.cdiIDs == ClaimDeviceIDs(uid, d.device, false) || (d.cdiIDs == ClaimDeviceIDs(uid, d.device, true) && COMMON in fs.specs))
    && forall mount :: mount in d.edits.mounts ==> FileExists(fs, uid, mount.hostPath)
  }

  /** The claim's CDI spec has one device per prepared device, in order, named
      by claim and device and injecting exactly the prepared edits. */
  ghost predicate SpecShows(fs: Fs, uid: string, devices: seq<PreparedDevice>) {
    && uid in fs.specs && |fs.specs[uid].devices| == |devices|
    && forall i :: 0 <= i < |devices| ==>
         fs.specs[uid].devices[i] == CdiDevice(uid + "-" + devices[i].device, Injected(devices[i].edits))
  }

  /** The claim's spec defines the device once, with exactly its edits. */
  ghost predicate DefinesOnce(fs: Fs, uid: string, d: PreparedDevice) {
    uid in fs.specs &&
    exists i: nat ::
      && i < |fs.specs[uid].devices| && fs.specs[uid].devices[i] == CdiDevice(uid + "-" + d.device, Injected(d.edits))
      && forall j: nat :: j < |fs.specs[uid].devices| && fs.specs[uid].devices[j].name == uid + "-" + d.device ==> j == i
  }

  ghost predicate Intact(fs: Fs, uid: string, devices: seq<PreparedDevice>) {
    SpecShows(fs, uid, devices) && forall d :: d in devices ==> DeviceIntact(fs, uid, d)
  }

  /** Intact under well-formed specs means what the container runtime needs:
      every CDI id resolves and every mount source exists. */
  lemma IntactIsUsable(fs: Fs, uid: string, devices: seq<PreparedDevice>, d: PreparedDevice)
    requires SpecsOk(fs.specs) && Intact(fs, uid, devices) && d in devices
    ensures DefinesOnce(fs, uid, d)
    ensures forall id :: id in d.cdiIDs ==> Resolves(fs.specs, id)
    ensures forall mount :: mount in d.edits.mounts ==> FileExists(fs, uid, mount.hostPath)
  {
    var i :| 0 <= i < |devices| && devices[i] == d;
    assert DeviceIntact(fs, uid, d);
    DefinedNamesResolve(fs.specs, uid, i);
    assert SpecOk(uid, fs.specs[uid]);
    if COMMON in fs.specs {
      assert SpecOk(COMMON, fs.specs[COMMON]);
      DefinedNamesResolve(fs.specs, COMMON, 0);
    }
  }

  lemma KeptStaysIntact(fs: Fs, after: Fs, uid: string, devices: seq<PreparedDevice>)
    requires Intact(fs, uid, devices) && KeepsClaim(fs, after, uid)
    requires COMMON in fs.specs ==> COMMON in after.specs
    ensures Intact(after, uid, devices)
  {
    forall d | d in devices ensures DeviceIntact(after, uid, d) {
      assert DeviceIntact(fs, uid, d);
      forall mount | mount in d.edits.mounts ensures FileExists(after, uid, mount.hostPath) {
        assert FileExists(fs, uid, mount.hostPath);
      }
    }
  }

  // ---- a fresh Prepare is complete ----------------------------------------------------------

  lemma {:induction false} NativeMeansBuses(m: Memory, own: seq<Allocated>, k: nat)
    requires AllListed(m, own) && k < |own| && !IsVfioResult(m, own[k])
    ensures NativeBuses(m, own) != []
  {
    var n := |own| - 1;
    if k < n {
      NativeMeansBuses(m, own[..n], k);
    }
  }

  /** A native device is only prepared after the common spec was written. */
  lemma CommonWritten(m: Memory, fs: Fs, claim: Claim, env: PrepareEnv, k: nat)
    requires Prepared(m, fs, claim, env) && k < |Own(claim.allocation.value)|
    requires !IsVfioResult(m, Own(claim.allocation.value)[k])
    ensures COMMON in PrepareDevices(m, fs, claim, env).fs.specs
  {
    hide Preparation.AllAdmissible, Preparation.NodesReady, Preparation.PreparedList, Preparation.Own, Validation.Usable;
    NativeMeansBuses(m, Own(claim.allocation.value), k);
  }

  lemma FreshDeviceIntact(m: Memory, fs: Fs, claim: Claim, env: PrepareEnv, after: Fs, i: nat)
    requires Prepared(m, fs, claim, env)
    requires COMMON in PrepareDevices(m, fs, claim, env).fs.specs ==> COMMON in after.specs
    requires HasVfio(m, claim.allocation.value) ==> FilesWritten(after, claim, m.allocatable)
    requires i < |PrepareDevices(m, fs, claim, env).value.value|
    ensures DeviceIntact(after, claim.uid, PrepareDevices(m, fs, claim, env).value.value[i])
  {
    PreparedIsList(m, fs, claim, env);
    var results := claim.allocation.value;
    var own := Own(results);
    var d := PrepareDevices(m, fs, claim, env).value.value[i];
    assert d == PreparedAt(m, claim, own, HostPath(m, fs, claim, env), env, i);
    OwnMember(results, own[i]);
    assert own[i] in own;
    if IsVfioResult(m, own[i]) {
      assert HasVfio(m, results);
      assert MainRequest(own[i]) in Requests(results, m.allocatable);
    } else {
      CommonWritten(m, fs, claim, env, i);
    }
  }

  lemma FreshPrepareIsIntact(m: Memory, fs: Fs, claim: Claim, env: PrepareEnv, claims: Claims)
    requires TreeOk(fs) && IsClaim(claim) && Prepared(m, fs, claim, env)
    requires var ready := PrepareDevices(m, fs, claim, env);
             Commit(m, ready.fs, claim, env, claims, ready.value.value).value
    ensures var ready := PrepareDevices(m, fs, claim, env);
            var after := Commit(m, ready.fs, claim, env, claims, ready.value.value).fs;
            && Intact(after, claim.uid, ready.value.value)
            && SpecOk(claim.uid, ClaimSpec(claim.uid, ready.value.value))
  {
    var ready := PrepareDevices(m, fs, claim, env);
    var devices := ready.value.value;
    var after := Commit(m, ready.fs, claim, env, claims, devices).fs;
    CommitEffect(m, ready.fs, claim, env, claims, devices);
    OneDevicePerResult(m, fs, claim, env);
    ClaimSpecOk(claim.uid, devices);
    forall d | d in devices ensures DeviceIntact(after, claim.uid, d) {
      var i :| 0 <= i < |devices| && devices[i] == d;
      FreshDeviceIntact(m, fs, claim, env, after, i);
    }
  }

  // ---- the invariant of every run ------------------------------------------------------------

  ghost predicate IsRecorded(fs: Fs, uid: string) {
    fs.checkpoint.Some? && IsPrepared(fs.checkpoint.value, uid)
  }

  /** One claim's share of the invariant: recorded and untouched by Unprepare
      means intact, and owning its UID directory means being recorded, or that
      directory was passed over by a cleanup, or the claim's rollback failed. */
  ghost predicate ClaimInv(fs: Fs, attempted: set<string>, uid: string) {
    && (IsRecorded(fs, uid) && uid !in attempted ==> Intact(fs, uid, fs.checkpoint.value[uid]))
    && (fs.Owned(UidDir(uid), uid) ==> IsRecorded(fs, uid) || UidDir(uid) in fs.missed || uid in fs.abandoned)
  }

  ghost predicate KeysOk(fs: Fs) {
    forall uid :: Entry(fs, uid).Some? ==> IsUid(uid)
  }

  ghost predicate FsInv(fs: Fs, attempted: set<string>) {
    SpecsOk(fs.specs) && TreeOk(fs) && KeysOk(fs) && forall uid :: IsUid(uid) ==> ClaimInv(fs, attempted, uid)
  }

  /** The inventory is coherent and, once a scan succeeded, is exactly that scan's pair, with no function twice. */
  ghost predicate MemoryInv(w: World) {
    && (w.memory.Some? ==> Coherent(w.memory.value))
    && (w.committed.Some? ==>
          && w.memory.Some? && (w.memory.value.npu, w.memory.value.vfio) == w.committed.value
          && DistinctBuses(w.memory.value.resources.devices))
  }

  ghost predicate Inv(w: World) {
    FsInv(w.fs, w.attempted) && MemoryInv(w)
  }

  /** An operation on one claim keeps everybody else's share. */
  lemma OthersKept(fs: Fs, after: Fs, attempted: set<string>, attemptedAfter: set<string>, uid: string)
    requires FsInv(fs, attempted) && IsUid(uid)
    requires forall other :: IsUid(other) && other != uid ==> KeepsClaim(fs, after, other)
    requires attempted - {uid} <= attemptedAfter
    requires COMMON in fs.specs ==> COMMON in after.specs
    requires RecordsKept(fs, after, uid)
    requires SpecsOk(after.specs) && TreeOk(after) && KeysOk(after) && ClaimInv(after, attemptedAfter, uid)
    ensures FsInv(after, attemptedAfter)
  {
    forall other | IsUid(other) ensures ClaimInv(after, attemptedAfter, other) {
      if other != uid {
        assert ClaimInv(fs, attempted, other);
        assert Entry(after, other) == Entry(fs, other);
        if IsRecorded(fs, other) && other !in attempted {
          KeptStaysIntact(fs, after, other, fs.checkpoint.value[other]);
        }
      }
    }
  }

  lemma SameStoresInv(fs: Fs, after: Fs, attempted: set<string>, attemptedAfter: set<string>)
    requires FsInv(fs, attempted) && after.SameStores(fs) && attempted <= attemptedAfter
    ensures FsInv(after, attemptedAfter)
  {
    assert after == fs.(faults := after.faults);
    forall uid | IsUid(uid) ensures ClaimInv(after, attemptedAfter, uid) {
      assert ClaimInv(fs, attempted, uid);
      if IsRecorded(fs, uid) && uid !in attempted {
        assert KeepsClaim(fs, after, uid);
        KeptStaysIntact(fs, after, uid, fs.checkpoint.value[uid]);
      }
    }
  }

  // ---- Prepare -----------------------------------------------------------------------------

  lemma PrepareDevicesInv(m: Memory, fs: Fs, claim: Claim, env: PrepareEnv, attempted: set<string>)
    requires FsInv(fs, attempted) && IsUid(claim.uid)
    ensures FsInv(PrepareDevices(m, fs, claim, env).fs, attempted)
  {
    var after := PrepareDevices(m, fs, claim, env).fs;
    assert SpecsOk(after.specs) && (COMMON in fs.specs ==> COMMON in after.specs);
    forall other | IsUid(other) ensures KeepsClaim(fs, after, other) {
      OnlyCommonKeeps(fs, after, other);
    }
    assert ClaimInv(after, attempted, claim.uid) by {
      assert ClaimInv(fs, attempted, claim.uid);
      if IsRecorded(fs, claim.uid) && claim.uid !in attempted {
        KeptStaysIntact(fs, after, claim.uid, fs.checkpoint.value[claim.uid]);
      }
    }
    assert KeysOk(after) by { assert after.checkpoint == fs.checkpoint; }
    OthersKept(fs, after, attempted, attempted, claim.uid);
  }

  lemma CommitInv(m: Memory, fs: Fs, claim: Claim, env: PrepareEnv, claims: Claims, attempted: set<string>)
    requires FsInv(fs, attempted) && IsClaim(claim) && fs.checkpoint == Some(claims) && !IsPrepared(claims, claim.uid)
    requires Prepared(m, fs, claim, env)
    requires FsInv(PrepareDevices(m, fs, claim, env).fs, attempted)
    ensures var ready := PrepareDevices(m, fs, claim, env);
            var r := Commit(m, ready.fs, claim, env, claims, ready.value.value);
            FsInv(r.fs, if r.value then attempted - {claim.uid} else attempted)
  {
    hide Preparation.Commit, Preparation.PrepareDevices, Storage.ClaimSpec;
    var uid, ready := claim.uid, PrepareDevices(m, fs, claim, env);
    var devices := ready.value.value;
    var r := Commit(m, ready.fs, claim, env, claims, devices);
    var attemptedAfter := if r.value then attempted - {uid} else attempted;
    CommitEffect(m, ready.fs, claim, env, claims, devices);
    OneDevicePerResult(m, fs, claim, env);
    ClaimSpecOk(uid, devices);
    forall other | IsUid(other) && other != uid ensures KeepsClaim(ready.fs, r.fs, other) {
      CommitKeeps(m, ready.fs, claim, env, claims, devices, other);
    }
    TreeKeepsOk(ready.fs, r.fs, uid);
    assert |COMMON| == 6;
    if r.value {
      FreshPrepareIsIntact(m, fs, claim, env, claims);
      VfioMeansDevices(m, fs, claim, env);
      OwnerOfFresh(m, ready.fs, claim, env, claims, devices, r.fs, attempted);
    } else {
      assert r.fs.checkpoint == ready.fs.checkpoint == fs.checkpoint;
    }
    OthersKept(ready.fs, r.fs, attempted, attemptedAfter, uid);
  }

  lemma VfioMeansDevices(m: Memory, fs: Fs, claim: Claim, env: PrepareEnv)
    requires Prepared(m, fs, claim, env)
    ensures HasVfio(m, claim.allocation.value) ==> PrepareDevices(m, fs, claim, env).value.value != []
  {
    if !HasVfio(m, claim.allocation.value) {
      return;
    }
    var results := claim.allocation.value;
    OneDevicePerResult(m, fs, claim, env);
    var a :| a in results && a.driver == DRIVER_NAME && IsVfioResult(m, a);
    OwnMember(results, a);
  }

  /** A freshly recorded claim accounts for its own directory. */
  lemma OwnerOfFresh(m: Memory, ready: Fs, claim: Claim, env: PrepareEnv, claims: Claims, devices: seq<PreparedDevice>,
                     after: Fs, attempted: set<string>)
    requires claim.allocation.Some? && ready.checkpoint == Some(claims) && !IsPrepared(claims, claim.uid)
    requires HasVfio(m, claim.allocation.value) ==> devices != []
    requires ClaimInv(ready, attempted, claim.uid)
    requires CommitSummary(m, ready, claim, env, claims, devices, IO(after, true))
    ensures after.Owned(UidDir(claim.uid), claim.uid) ==>
              IsRecorded(after, claim.uid) || UidDir(claim.uid) in after.missed || claim.uid in after.abandoned
  {}

  lemma PrepareInv(m: Memory, fs: Fs, claim: Claim, env: PrepareEnv, attempted: set<string>)
    requires FsInv(fs, attempted) && IsClaim(claim)
    ensures var r := Prepare(m, fs, claim, env);
            FsInv(r.fs, if r.value.Some? && Entry(fs, claim.uid) in {None, Some([])} then attempted - {claim.uid} else attempted)
  {
    var IO(read, claims) := fs.ReadCheckpoint();
    SameStoresInv(fs, read, attempted, attempted);
    if claims.Some? && !IsPrepared(claims.value, claim.uid) {
      PrepareDevicesInv(m, read, claim, env, attempted);
      if PrepareDevices(m, read, claim, env).value.Some? {
        CommitInv(m, read, claim, env, claims.value, attempted);
      }
    }
  }

  // ---- Unprepare and Restart ------------------------------------------------------------------

  lemma UnprepareInv(fs: Fs, uid: string, attempted: set<string>)
    requires FsInv(fs, attempted)
    ensures FsInv(Unprepare(fs, uid).fs, attempted + {uid})
  {
    var after := Unprepare(fs, uid).fs;
    if !IsRecorded(fs, uid) {
      SameStoresInv(fs, after, attempted, attempted + {uid});
    } else {
      assert Entry(fs, uid).Some?;
      UnprepareFrame(fs, uid);
      forall other | other != uid ensures KeepsClaim(fs, after, other) {
        UnprepareIsolates(fs, uid, other);
      }
      assert |COMMON| == 6;
      UnprepareAccounts(fs, uid);
      UnprepareKeepsTree(fs, uid);
      OthersKept(fs, after, attempted, attempted + {uid}, uid);
    }
  }

  /** A claim that loses its entry owns nothing but passed-over directories. */
  lemma UnprepareAccounts(fs: Fs, uid: string)
    requires IsRecorded(fs, uid)
    ensures var after := Unprepare(fs, uid).fs;
            IsRecorded(after, uid) || forall p :: after.Owned(p, uid) ==> p in after.missed
  {
    if Unprepare(fs, uid).value {
      UnprepareLeavesOnlyMissed(fs, uid);
    } else {
      FailedUnprepareKeepsRecord(fs, uid);
    }
  }

  lemma FailedUnprepareKeepsRecord(fs: Fs, uid: string)
    requires !Unprepare(fs, uid).value
    ensures Unprepare(fs, uid).fs.checkpoint == fs.checkpoint
  {}

  lemma EnsureCheckpointInv(fs: Fs, attempted: set<string>)
    requires FsInv(fs, attempted)
    ensures FsInv(EnsureCheckpoint(fs).fs, attempted)
  {
    var after := EnsureCheckpoint(fs).fs;
    forall uid | IsUid(uid) ensures ClaimInv(after, attempted, uid) {
      assert ClaimInv(fs, attempted, uid);
      if IsRecorded(after, uid) && uid !in attempted {
        KeptStaysIntact(fs, after, uid, fs.checkpoint.value[uid]);
      }
    }
  }

  // ---- every run ---------------------------------------------------------------------------------

  lemma FaultsDoNotMatter(fs: Fs, faults: seq<bool>, attempted: set<string>)
    requires FsInv(fs, attempted)
    ensures FsInv(fs.(faults := faults), attempted)
  {
    SameStoresInv(fs, fs.(faults := faults), attempted, attempted);
  }

  lemma StepInv(w: World, op: Op)
    requires Inv(w) && IsOp(op)
    ensures Inv(Step(w, op))
  {
    match op
    case PrepareOp(claim, env, faults) =>
      if w.memory.Some? {
        FaultsDoNotMatter(w.fs, faults, w.attempted);
        PrepareInv(w.memory.value, w.fs.(faults := faults), claim, env, w.attempted);
      }
    case UnprepareOp(uid, faults) =>
      if w.memory.Some? {
        FaultsDoNotMatter(w.fs, faults, w.attempted);
        UnprepareInv(w.fs.(faults := faults), uid, w.attempted);
      }
    case RescanOp(scan) =>
    case RestartOp(nodeName, start, faults) =>
      FaultsDoNotMatter(w.fs, faults, w.attempted);
      EnsureCheckpointInv(w.fs.(faults := faults), w.attempted);
  }

  lemma FreshInv(w: World)
    requires IsFresh(w)
    ensures Inv(w)
  {}

  /** The invariant holds at every point of every run. */
  lemma {:induction false} RunInv(ws: seq<World>, ops: seq<Op>, n: nat)
    requires IsRun(ws, ops) && n <= |ops|
    ensures Inv(ws[n])
  {
    hide Step, Inv, IsFresh;
    if n == 0 {
      FreshInv(ws[0]);
    } else {
      RunInv(ws, ops, n - 1);
      assert StepAt(ws, ops, n - 1);
      StepInv(ws[n - 1], ops[n - 1]);
    }
  }
}
