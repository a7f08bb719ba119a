/** The promises of the driver over whole runs. */
module RunGuarantees {
  import opened Text
  import opened Sysfs
  import opened Devices
  import opened Snapshot
  import Sriov
  import opened ScanGuarantees
  import opened Storage
  import opened Metadata
  import opened Preparation
  import opened ClaimGuarantees
  import opened Runs

  /** At every point of every run, with any effect failing and any crash, a checkpointed claim
      with no Unprepare attempted since it was prepared has its CDI spec with one
      device per prepared device that injects exactly its edits, every
      one of its CDI ids (the common one included) resolves to exactly one
      device, and every metadata mount starts from a written file. */
  lemma RecordedClaimsAreUsable(ws: seq<World>, ops: seq<Op>, n: nat, uid: string, d: PreparedDevice)
    requires IsRun(ws, ops) && n <= |ops|
    requires IsRecorded(ws[n].fs, uid) && uid !in ws[n].attempted && d in ws[n].fs.checkpoint.value[uid]
    ensures var fs := ws[n].fs;
            && SpecShows(fs, uid, fs.checkpoint.value[uid]) && DefinesOnce(fs, uid, d)
            && (forall id :: id in d.cdiIDs ==> Resolves(fs.specs, id))
            && (forall mount :: mount in d.edits.mounts ==> FileExists(fs, uid, mount.hostPath))
  {
    RunInv(ws, ops, n);
    var fs := ws[n].fs;
    assert Entry(fs, uid).Some?;
    assert ClaimInv(fs, ws[n].attempted, uid);
    IntactIsUsable(fs, uid, fs.checkpoint.value[uid], d);
  }

  /** At every point of every run a UID directory is unmarked, marked by its
      own claim, or torn by an interrupted marker write. A claim that owns its
      directory is checkpointed, unless a cleanup passed the directory over unread
      or the claim's rollback failed and no later cleanup succeeded. */
  lemma MetadataIsAccountedFor(ws: seq<World>, ops: seq<Op>, n: nat, uid: string)
    requires IsRun(ws, ops) && n <= |ops| && IsUid(uid) && UidDir(uid) in ws[n].fs.tree
    ensures var fs := ws[n].fs;
            && (Owner(fs.tree[UidDir(uid)]) in {None, Some(uid)} || (IsTorn(fs, uid) && UidDir(uid) in fs.torn))
            && (Owner(fs.tree[UidDir(uid)]) == Some(uid) ==>
                  IsRecorded(fs, uid) || UidDir(uid) in fs.missed || uid in fs.abandoned)
  {
    RunInv(ws, ops, n);
    assert ClaimInv(ws[n].fs, ws[n].attempted, uid);
  }

  /** No metadata leak: as long as the claim's rollbacks succeed and its marker
      is not passed over, the owner of a UID directory is a checkpointed claim. */
  lemma OwnersAreRecorded(ws: seq<World>, ops: seq<Op>, n: nat, uid: string)
    requires IsRun(ws, ops) && n <= |ops| && IsUid(uid)
    requires uid !in ws[n].fs.abandoned && UidDir(uid) !in ws[n].fs.missed
    ensures ws[n].fs.Owned(UidDir(uid), uid) ==> IsRecorded(ws[n].fs, uid)
  {
    if UidDir(uid) in ws[n].fs.tree {
      MetadataIsAccountedFor(ws, ops, n, uid);
    }
  }

  /** At every point of every run, writing a claim's metadata without a failing
      effect is refused, as if another claim owned the directory, exactly when
      the directory's marker is torn, and it is torn only if a marker write was
      interrupted there and the directory was not removed or re-marked since. */
  lemma ConflictOnlyWhenTorn(ws: seq<World>, ops: seq<Op>, n: nat, claim: Claim, allocatable: map<string, Device>, order: seq<string>, cut: nat)
    requires IsRun(ws, ops) && n <= |ops| && IsUid(claim.uid) && claim.allocation.Some?
    ensures WriteMetadata(ws[n].fs.(faults := []), claim, allocatable, order, cut).value <==> !IsTorn(ws[n].fs, claim.uid)
    ensures IsTorn(ws[n].fs, claim.uid) ==> UidDir(claim.uid) in ws[n].fs.torn
  {
    RunInv(ws, ops, n);
    var fs := ws[n].fs.(faults := []);
    assert TreeOk(fs);
    ConflictExactly(fs, claim, allocatable, order, cut);
  }

  // ---- an interrupted marker write blocks its claim ------------------------------------------

  ghost predicate IsHealthyOp(op: Op) {
    match op
    case PrepareOp(_, _, faults) => true !in faults
    case UnprepareOp(_, faults) => true !in faults
    case RescanOp(_) => true
    case RestartOp(_, _, faults) => true !in faults
  }

  /** No effect of the operations from i to n fails. */
  ghost predicate HealthyBetween(ops: seq<Op>, i: nat, n: nat)
    requires n <= |ops|
  {
    forall k: nat :: i <= k < n ==> IsHealthyOp(ops[k])
  }

  lemma TornCommit(m: Memory, fs: Fs, claim: Claim, env: PrepareEnv, claims: Claims, devices: seq<PreparedDevice>)
    requires TreeOk(fs) && IsUid(claim.uid) && claim.allocation.Some? && fs.Healthy() && IsTorn(fs, claim.uid)
    ensures var r := Commit(m, fs, claim, env, claims, devices);
            IsTorn(r.fs, claim.uid) && (HasVfio(m, claim.allocation.value) ==> !r.value)
  {
    var uid := claim.uid;
    TornRefused(fs, claim, m.allocatable, env.order, env.cut);
    CommitEffect(m, fs, claim, env, claims, devices);
    var IO(described, published) := PublishMetadata(m, fs, claim, env);
    assert described.tree == fs.tree;
    hide Preparation.PublishMetadata, Metadata.Cleanup;
    assert !published ==> IsTorn(Rollback(described, uid), uid);
  }

  lemma TornRefused(fs: Fs, claim: Claim, allocatable: map<string, Device>, order: seq<string>, cut: nat)
    requires fs.Healthy() && claim.allocation.Some? && IsTorn(fs, claim.uid)
    ensures WriteMetadata(fs, claim, allocatable, order, cut) == IO(fs.Next(), false)
  {}

  lemma TornPrepare(m: Memory, fs: Fs, claim: Claim, env: PrepareEnv)
    requires TreeOk(fs) && IsUid(claim.uid) && fs.Healthy() && IsTorn(fs, claim.uid)
    ensures var r := Prepare(m, fs, claim, env);
            && IsTorn(r.fs, claim.uid)
            && (claim.allocation.Some? && HasVfio(m, claim.allocation.value) && !IsRecorded(fs, claim.uid) ==> r.value.None?)
  {
    hide Preparation.Commit;
    var IO(read, claims) := fs.ReadCheckpoint();
    if claims.Some? && !IsPrepared(claims.value, claim.uid) {
      var IO(ready, devices) := PrepareDevices(m, read, claim, env);
      if devices.Some? {
        TornCommit(m, ready, claim, env, claims.value, devices.value);
      }
    }
  }

  lemma TornPrepareOfOther(m: Memory, fs: Fs, claim: Claim, env: PrepareEnv, uid: string)
    requires TreeOk(fs) && IsUid(claim.uid) && IsUid(uid) && claim.uid != uid && IsTorn(fs, uid)
    ensures IsTorn(Prepare(m, fs, claim, env).fs, uid)
  {
    hide Preparation.Commit;
    var IO(read, claims) := fs.ReadCheckpoint();
    if claims.Some? && !IsPrepared(claims.value, claim.uid) {
      var IO(ready, devices) := PrepareDevices(m, read, claim, env);
      if devices.Some? {
        CommitEffect(m, ready, claim, env, claims.value, devices.value);
        UidDirInjective(uid, claim.uid);
        assert !ready.Owned(UidDir(uid), claim.uid);
      }
    }
  }

  lemma TornUnprepare(fs: Fs, uid: string, other: string)
    requires IsUid(uid) && IsTorn(fs, uid) && KeysOk(fs)
    ensures IsTorn(Unprepare(fs, other).fs, uid)
  {
    if IsRecorded(fs, other) {
      UnprepareFrame(fs, other);
      hide Preparation.Unprepare;
      assert Entry(fs, other).Some?;
      assert !fs.Owned(UidDir(uid), other);
    } else {
      hide Preparation.Teardown;
    }
  }

  lemma TornStep(w: World, op: Op, uid: string)
    requires Inv(w) && IsOp(op) && IsHealthyOp(op) && IsUid(uid) && IsTorn(w.fs, uid)
    ensures IsTorn(Step(w, op).fs, uid)
    ensures op.PrepareOp? && op.claim.uid == uid && IsPassthrough(w, op.claim) && !IsRecorded(w.fs, uid) ==> Step(w, op).answer.None?
  {
    hide Preparation.Prepare, Preparation.Unprepare;
    match op
    case PrepareOp(claim, env, faults) =>
      if w.memory.Some? {
        var fs := w.fs.(faults := faults);
        assert TreeOk(fs);
        if claim.uid == uid {
          TornPrepare(w.memory.value, fs, claim, env);
        } else {
          TornPrepareOfOther(w.memory.value, fs, claim, env, uid);
        }
      }
    case UnprepareOp(other, faults) =>
      if w.memory.Some? {
        assert KeysOk(w.fs.(faults := faults)) by { FaultsDoNotMatter(w.fs, faults, w.attempted); }
        TornUnprepare(w.fs.(faults := faults), uid, other);
      }
    case RescanOp(_) =>
    case RestartOp(_, _, _) =>
  }

  /** The claim was allocated a passthrough device of the current inventory. */
  ghost predicate IsPassthrough(w: World, claim: Claim) {
    w.memory.Some? && claim.allocation.Some? && HasVfio(w.memory.value, claim.allocation.value)
  }

  lemma {:induction false} TornStays(ws: seq<World>, ops: seq<Op>, i: nat, n: nat, uid: string)
    requires IsRun(ws, ops) && i <= n <= |ops| && HealthyBetween(ops, i, n)
    requires IsUid(uid) && IsTorn(ws[i].fs, uid)
    ensures IsTorn(ws[n].fs, uid)
  {
    hide IsTorn, Step;
    if i < n {
      TornStays(ws, ops, i, n - 1, uid);
      RunInv(ws, ops, n - 1);
      assert StepAt(ws, ops, n - 1);
      TornStep(ws[n - 1], ops[n - 1], uid);
    }
  }

  /** Once an interrupted write has torn a claim's marker, no sequence of
      operations without failing effects, restarts included, repairs it, and
      every attempt to prepare the claim for passthrough fails. */
  lemma TornClaimStaysBlocked(ws: seq<World>, ops: seq<Op>, i: nat, n: nat)
    requires IsRun(ws, ops) && i <= n < |ops| && HealthyBetween(ops, i, n + 1)
    requires ops[n].PrepareOp? && IsTorn(ws[i].fs, ops[n].claim.uid)
    requires IsPassthrough(ws[n], ops[n].claim) && !IsRecorded(ws[n].fs, ops[n].claim.uid)
    ensures ws[n + 1].answer.None? && IsTorn(ws[n + 1].fs, ops[n].claim.uid)
  {
    hide IsTorn, Step;
    assert StepAt(ws, ops, n) && IsHealthyOp(ops[n]);
    TornStays(ws, ops, i, n, ops[n].claim.uid);
    RunInv(ws, ops, n);
    TornStep(ws[n], ops[n], ops[n].claim.uid);
  }

  // ---- runs without failing effects leak nothing --------------------------------------------

  /** Nothing new is recorded as missed, abandoned or torn. */
  ghost predicate NoNewRecords(fs: Fs, after: Fs) {
    after.missed <= fs.missed && after.abandoned <= fs.abandoned && after.torn <= fs.torn
  }

  lemma HealthyCommit(m: Memory, fs: Fs, claim: Claim, env: PrepareEnv, claims: Claims, devices: seq<PreparedDevice>)
    requires TreeOk(fs) && IsUid(claim.uid) && claim.allocation.Some? && fs.Healthy() && !IsTorn(fs, claim.uid)
    ensures Commit(m, fs, claim, env, claims, devices).value
    ensures NoNewRecords(fs, Commit(m, fs, claim, env, claims, devices).fs)
  {
    CommitEffect(m, fs, claim, env, claims, devices);
    HealthyPublish(m, fs, claim, env);
  }

  lemma HealthyPublish(m: Memory, fs: Fs, claim: Claim, env: PrepareEnv)
    requires TreeOk(fs) && IsUid(claim.uid) && claim.allocation.Some? && fs.Healthy() && !IsTorn(fs, claim.uid)
    ensures PublishMetadata(m, fs, claim, env).value && PublishMetadata(m, fs, claim, env).fs.Healthy()
  {
    OwnershipFrame(fs, claim.uid, env.cut);
  }

  lemma HealthyPrepare(m: Memory, fs: Fs, claim: Claim, env: PrepareEnv)
    requires TreeOk(fs) && IsUid(claim.uid) && fs.Healthy() && !IsTorn(fs, claim.uid)
    ensures NoNewRecords(fs, Prepare(m, fs, claim, env).fs)
  {
    var IO(read, claims) := fs.ReadCheckpoint();
    if claims.Some? && !IsPrepared(claims.value, claim.uid) {
      var IO(ready, devices) := PrepareDevices(m, read, claim, env);
      if devices.Some? {
        HealthyCommit(m, ready, claim, env, claims.value, devices.value);
      }
    }
  }

  lemma HealthyUnprepare(fs: Fs, uid: string)
    requires fs.Healthy()
    ensures NoNewRecords(fs, Unprepare(fs, uid).fs)
  {
    hide Preparation.Teardown;
    if fs.checkpoint.Some? {
      HealthyTeardownRecords(fs.Next(), uid, fs.checkpoint.value);
    }
  }

  lemma HealthyTeardownRecords(fs: Fs, uid: string, claims: Claims)
    requires fs.Healthy()
    ensures NoNewRecords(fs, Teardown(fs, uid, claims).fs)
  {
    hide Metadata.Cleanup;
    var unspecified := fs.RemoveSpec(uid).fs;
    assert unspecified.Healthy();
    assert CleanupFrame(unspecified, Cleanup(unspecified, uid).fs);
  }

  /** While no effect fails, nothing is missed, abandoned or torn. */
  lemma {:induction false} HealthyRun(ws: seq<World>, ops: seq<Op>, n: nat)
    requires IsRun(ws, ops) && n <= |ops| && HealthyBetween(ops, 0, n)
    ensures ws[n].fs.missed == {} && ws[n].fs.abandoned == {} && ws[n].fs.torn == {}
  {
    hide Preparation.Prepare, Preparation.Unprepare;
    if n > 0 {
      HealthyRun(ws, ops, n - 1);
      RunInv(ws, ops, n - 1);
      var before, op := ws[n - 1], ops[n - 1];
      assert StepAt(ws, ops, n - 1) && IsHealthyOp(op);
      match op
      case PrepareOp(claim, env, faults) =>
        if before.memory.Some? {
          assert TreeOk(before.fs.(faults := faults));
          HealthyPrepare(before.memory.value, before.fs.(faults := faults), claim, env);
        }
      case UnprepareOp(uid, faults) =>
        if before.memory.Some? {
          HealthyUnprepare(before.fs.(faults := faults), uid);
        }
      case RescanOp(_) =>
      case RestartOp(_, _, _) =>
    }
  }

  /** While no effect fails, the owners named in the UID layout are checkpointed
      claims, and every claim can write its metadata. */
  lemma HealthyRunLeaksNothing(ws: seq<World>, ops: seq<Op>, n: nat, uid: string)
    requires IsRun(ws, ops) && n <= |ops| && HealthyBetween(ops, 0, n) && IsUid(uid)
    ensures ws[n].fs.Owned(UidDir(uid), uid) ==> IsRecorded(ws[n].fs, uid)
    ensures !IsTorn(ws[n].fs, uid)
  {
    HealthyRun(ws, ops, n);
    OwnersAreRecorded(ws, ops, n, uid);
    if UidDir(uid) in ws[n].fs.tree {
      MetadataIsAccountedFor(ws, ops, n, uid);
    }
  }

  // ---- Prepare is idempotent across runs ------------------------------------------------------

  lemma StepKeepsRecord(w: World, op: Op, uid: string)
    requires Inv(w) && IsOp(op) && IsRecorded(w.fs, uid)
    requires op.UnprepareOp? ==> op.uid != uid
    ensures Entry(Step(w, op).fs, uid) == Entry(w.fs, uid)
  {
    assert Entry(w.fs, uid).Some?;
    assert |COMMON| == 6;
    match op
    case PrepareOp(claim, env, faults) =>
      if w.memory.Some? {
        var fs := w.fs.(faults := faults);
        if claim.uid == uid {
          ReplayIsExact(w.memory.value, fs, claim, env);
        } else {
          PrepareIsolates(w.memory.value, fs, claim, env, uid);
        }
      }
    case UnprepareOp(other, faults) =>
      if w.memory.Some? {
        UnprepareIsolates(w.fs.(faults := faults), other, uid);
      }
    case RescanOp(_) =>
    case RestartOp(_, _, _) =>
  }

  /** No Unprepare of the claim among the operations from i to n. */
  ghost predicate NotUnprepared(ops: seq<Op>, i: nat, n: nat, uid: string)
    requires n <= |ops|
  {
    forall k: nat :: i <= k < n && ops[k].UnprepareOp? ==> ops[k].uid != uid
  }

  lemma {:induction false} RunKeepsRecord(ws: seq<World>, ops: seq<Op>, i: nat, n: nat, uid: string)
    requires IsRun(ws, ops) && i <= n <= |ops| && NotUnprepared(ops, i, n, uid)
    requires IsRecorded(ws[i].fs, uid)
    ensures Entry(ws[n].fs, uid) == Entry(ws[i].fs, uid)
  {
    if i < n {
      RunKeepsRecord(ws, ops, i, n - 1, uid);
      RunInv(ws, ops, n - 1);
      assert StepAt(ws, ops, n - 1);
      StepKeepsRecord(ws[n - 1], ops[n - 1], uid);
    }
  }

  lemma SuccessIsRecorded(m: Memory, fs: Fs, claim: Claim, env: PrepareEnv)
    requires TreeOk(fs) && IsUid(claim.uid)
    requires Prepare(m, fs, claim, env).value.Some? && Prepare(m, fs, claim, env).value.value != []
    ensures IsRecorded(Prepare(m, fs, claim, env).fs, claim.uid)
    ensures Entry(Prepare(m, fs, claim, env).fs, claim.uid) == Prepare(m, fs, claim, env).value
  {
    var IO(read, claims) := fs.ReadCheckpoint();
    if claims.Some? && !IsPrepared(claims.value, claim.uid) {
      var IO(ready, devices) := PrepareDevices(m, read, claim, env);
      CommitEffect(m, ready, claim, env, claims.value, devices.value);
    }
  }

  /** The answer of a successful Prepare is the checkpoint entry it leaves. */
  lemma AnswerIsRecorded(w: World, op: Op)
    requires Inv(w) && IsOp(op) && op.PrepareOp?
    requires Step(w, op).answer.Some? && Step(w, op).answer.value != []
    ensures Entry(Step(w, op).fs, op.claim.uid) == Step(w, op).answer
  {
    SuccessIsRecorded(w.memory.value, w.fs.(faults := op.faults), op.claim, op.env);
  }

  /** Prepare of a claim that is on record: what it answers, and that no store changes and no group is requested. */
  lemma RecordedAnswer(w: World, op: Op)
    requires op.PrepareOp? && IsRecorded(w.fs, op.claim.uid)
    ensures Step(w, op).fs.SameStores(w.fs)
    ensures Step(w, op).answer ==
            if w.memory.None? || (op.faults != [] && op.faults[0]) then None else Entry(w.fs, op.claim.uid)
  {
    if w.memory.Some? {
      ReplayIsExact(w.memory.value, w.fs.(faults := op.faults), op.claim, op.env);
    }
  }

  /** Operation i prepared the claim with a non-empty answer, operation n
      prepares it again, and no Unprepare of it comes in between. */
  ghost predicate PreparedAgain(ws: seq<World>, ops: seq<Op>, i: nat, n: nat)
    requires i < n < |ops| && |ws| == |ops| + 1
  {
    && ops[i].PrepareOp? && ops[n].PrepareOp? && ops[i].claim.uid == ops[n].claim.uid
    && ws[i + 1].answer.Some? && ws[i + 1].answer.value != []
    && NotUnprepared(ops, i, n, ops[n].claim.uid)
  }

  /** After a successful Prepare, whatever scans, restarts, crashes and other
      claims' operations come in between, a second Prepare of the claim answers
      the identical device list unless the driver is down or cannot read the
      checkpoint. It changes no store and requests no group, even when the
      devices have left the inventory. */
  lemma PrepareIsIdempotent(ws: seq<World>, ops: seq<Op>, i: nat, n: nat)
    requires IsRun(ws, ops) && i < n < |ops| && PreparedAgain(ws, ops, i, n)
    ensures ws[n + 1].fs.SameStores(ws[n].fs)
    ensures ws[n + 1].answer ==
            if ws[n].memory.None? || (ops[n].faults != [] && ops[n].faults[0]) then None else ws[i + 1].answer
  {
    var uid := ops[n].claim.uid;
    hide Step;
    RunInv(ws, ops, i);
    assert StepAt(ws, ops, i) && StepAt(ws, ops, n);
    AnswerIsRecorded(ws[i], ops[i]);
    RunKeepsRecord(ws, ops, i + 1, n, uid);
    RecordedAnswer(ws[n], ops[n]);
  }

  // ---- the inventory over a run ------------------------------------------------------------------

  /** Snapshot atomicity: at every point of every run, from the first successful scan on, the two device
      lists are the pair of the most recent successful scan, the index and the
      published resources agree with it, and no PCI function appears twice. */
  lemma InventoryIsLastScan(ws: seq<World>, ops: seq<Op>, n: nat)
    requires IsRun(ws, ops) && n <= |ops| && ws[n].committed.Some?
    ensures ws[n].memory.Some?
    ensures var m, (npu, vfio) := ws[n].memory.value, ws[n].committed.value;
            && m.npu == npu && m.vfio == vfio
            && m.allocatable == Index(npu + vfio) && m.resources == Resources(m.nodeName, npu + vfio)
            && DistinctBuses(m.resources.devices)
  {
    RunInv(ws, ops, n);
  }

  /** A stale allocation cannot be prepared: once a scan has seen the function
      in another partition, a claim for the old name is rejected before any
      store is touched. */
  lemma StaleAllocationIsRejected(m: Memory, scan: ScanEnv, bus: string, was: Sriov.SriovInfo, d: Device,
                                  fs: Fs, claim: Claim, a: Allocated, env: PrepareEnv)
    requires ScanPair(KnownBuses(m.allocatable), scan).Some?
    requires scan.inventory.Some? ==> IsSmiInventory(scan.inventory.value)
    requires IsPciAddress(bus) && d in Rescanned(m, scan).vfio && EqualFold(StringAttr(d, PciBusID), bus)
    requires StringAttr(d, PartitionModeKey) != was.PartitionMode()
    requires claim.allocation.Some? && a in claim.allocation.value && a.driver == DRIVER_NAME
    requires a.device == was.DeviceName(Sriov.VfioDeviceName(bus)) && !IsRecorded(fs, claim.uid)
    ensures var r := Prepare(Rescanned(m, scan), fs, claim, env);
            r.value.None? && r.fs.SameStores(fs)
  {
    StaleNameIsGone(m, scan, bus, was, d);
    assert !Admissible(Rescanned(m, scan), env.sys, a);
    RejectedPrepareTouchesNothing(Rescanned(m, scan), fs, claim, env);
  }

  /** The native counterpart: a claim for the old name of a native device whose function was repartitioned. */
  lemma StaleNativeAllocationIsRejected(m: Memory, scan: ScanEnv, was: Sriov.SriovInfo, d: Device,
                                        fs: Fs, claim: Claim, a: Allocated, env: PrepareEnv)
    requires ScanPair(KnownBuses(m.allocatable), scan).Some?
    requires scan.inventory.Some? ==> IsSmiInventory(scan.inventory.value)
    requires was.IsVF() ==> was.numVFs in {1, 4}
    requires d in Rescanned(m, scan).npu && StringAttr(d, PartitionModeKey) != was.PartitionMode()
    requires claim.allocation.Some? && a in claim.allocation.value && a.driver == DRIVER_NAME
    requires a.device == was.DeviceName(StringAttr(d, DeviceNodeName)) && !IsRecorded(fs, claim.uid)
    ensures var r := Prepare(Rescanned(m, scan), fs, claim, env);
            r.value.None? && r.fs.SameStores(fs)
  {
    StaleNativeNameIsGone(m, scan, was, d);
    assert !Admissible(Rescanned(m, scan), env.sys, a);
    RejectedPrepareTouchesNothing(Rescanned(m, scan), fs, claim, env);
  }
}
