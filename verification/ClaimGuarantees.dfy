/** What one Prepare or Unprepare does to the stores, on every exit path. */
module ClaimGuarantees {
  import opened Text
  import opened Devices
  import opened Snapshot
  import opened Validation
  import opened Storage
  import opened Metadata
  import opened Preparation

  /** A claim UID as the API server issues it: 36 characters, no blanks. It
      can therefore not be the transient id of the common spec. */
  predicate IsUid(uid: string) {
    |uid| == 36 && NoSpaces(uid)
  }

  /** The marker holds only the beginning of the claim's UID. */
  ghost predicate TornMark(dir: ClaimDir, uid: string) {
    Owner(dir).Some? && Owner(dir).value < uid
  }

  ghost predicate IsTorn(fs: Fs, uid: string) {
    UidDir(uid) in fs.tree && TornMark(fs.tree[UidDir(uid)], uid)
  }

  /** Unmarked, marked by its own claim, or torn by an interrupted write. */
  ghost predicate MarkOk(dir: ClaimDir, uid: string, interrupted: bool) {
    Owner(dir) in {None, Some(uid)} || (interrupted && TornMark(dir, uid))
  }

  /** No UID-layout directory names a foreign claim, and a torn marker comes from an interrupted write. */
  ghost predicate TreeOk(fs: Fs) {
    forall uid :: UidDir(uid) in fs.tree ==> MarkOk(fs.tree[UidDir(uid)], uid, UidDir(uid) in fs.torn)
  }

  // ---- what an operation leaves to other claims --------------------------------------

  function Entry(fs: Fs, uid: string): Option<seq<PreparedDevice>> {
    if fs.checkpoint.Some? && uid in fs.checkpoint.value then Some(fs.checkpoint.value[uid]) else None
  }

  function SpecOf(fs: Fs, uid: string): Option<Spec> {
    if uid in fs.specs then Some(fs.specs[uid]) else None
  }

  /** A claim's checkpoint entry, CDI spec and owned directories, of either layout, are the same before and after. */
  ghost predicate KeepsClaim(fs: Fs, after: Fs, uid: string) {
    && Entry(after, uid) == Entry(fs, uid)
    && SpecOf(after, uid) == SpecOf(fs, uid)
    && forall p :: (fs.Owned(p, uid) <==> after.Owned(p, uid)) && (fs.Owned(p, uid) ==> after.tree[p] == fs.tree[p])
  }

  /** Directories that are neither the claim's own UID directory nor owned by
      it stay as they are; new ones do not appear elsewhere. */
  ghost predicate TreeKeeps(fs: Fs, after: Fs, uid: string) {
    && (forall p :: p in fs.tree && !fs.Owned(p, uid) && p != UidDir(uid) ==> p in after.tree && after.tree[p] == fs.tree[p])
    && (forall p :: p in after.tree && p != UidDir(uid) ==> p in fs.tree && after.tree[p] == fs.tree[p])
    && (UidDir(uid) in after.tree ==> MarkOk(after.tree[UidDir(uid)], uid, UidDir(uid) in after.torn))
    && (forall p :: p in fs.torn && p != UidDir(uid) && p in after.tree ==> p in after.torn)
  }

  lemma TreeKeepsOk(fs: Fs, after: Fs, uid: string)
    requires TreeOk(fs) && TreeKeeps(fs, after, uid)
    ensures TreeOk(after)
  {
    forall id | UidDir(id) in after.tree ensures MarkOk(after.tree[UidDir(id)], id, UidDir(id) in after.torn) {
      UidDirInjective(id, uid);
    }
  }

  lemma TreeKeepsOthers(fs: Fs, after: Fs, uid: string, other: string)
    requires TreeOk(fs) && TreeKeeps(fs, after, uid) && IsUid(uid) && IsUid(other) && other != uid
    ensures forall p :: (fs.Owned(p, other) <==> after.Owned(p, other)) && (fs.Owned(p, other) ==> after.tree[p] == fs.tree[p])
  {
    NoForeignOwner(fs, uid, other);
    assert !after.Owned(UidDir(uid), other);
  }

  /** No other claim owns a UID directory of a tree in order. */
  lemma NoForeignOwner(fs: Fs, uid: string, other: string)
    requires TreeOk(fs) && IsUid(uid) && IsUid(other) && other != uid
    ensures !fs.Owned(UidDir(uid), other)
  {}

  // ---- the metadata step -----------------------------------------------------------------

  /** Only the tree changed, only at the claim's UID directory, and that is not owned by another. */
  ghost predicate UidFrame(fs: Fs, after: Fs, uid: string) {
    && after.SameStores(fs.(tree := after.tree, faults := after.faults, torn := after.torn))
    && (forall p :: p != UidDir(uid) ==> (p in fs.torn <==> p in after.torn))
    && (forall p :: p != UidDir(uid) ==> (p in fs.tree <==> p in after.tree) && (p in fs.tree ==> after.tree[p] == fs.tree[p]))
    && (UidDir(uid) in after.tree ==> MarkOk(after.tree[UidDir(uid)], uid, UidDir(uid) in after.torn))
  }

  lemma MkdirFrame(fs: Fs, read: Fs, uid: string)
    requires TreeOk(fs) && read.SameStores(fs)
    ensures UidFrame(fs, read.MkdirAll(UidDir(uid)).fs, uid)
  {
    assert Owner(EMPTY_DIR) == None;
  }

  /** Writing the marker of the claim's own directory stays within the frame if the new marker may be there. */
  lemma MarkedFrame(fs: Fs, made: Fs, after: Fs, uid: string)
    requires UidFrame(fs, made, uid) && UidDir(uid) in made.tree
    requires var p := UidDir(uid);
             && p in after.tree && after.tree == made.tree[p := after.tree[p]]
             && after.SameStores(made.(tree := after.tree, faults := after.faults, torn := after.torn))
             && made.torn - {p} <= after.torn <= made.torn + {p}
             && MarkOk(after.tree[p], uid, p in after.torn)
    ensures UidFrame(fs, after, uid)
  {
    hide MarkOk;
  }

  lemma MarkFrame(fs: Fs, made: Fs, uid: string, cut: nat)
    requires UidFrame(fs, made, uid) && UidDir(uid) in made.tree && IsUid(uid)
    ensures var r := made.WriteMarker(UidDir(uid), uid + "\n", cut);
            UidFrame(fs, r.fs, uid) && (r.value ==> r.fs.Owned(UidDir(uid), uid) && r.fs.torn <= made.torn)
  {
    InterruptedMark(made.tree[UidDir(uid)], uid, cut);
    MarkedFrame(fs, made, made.WriteMarker(UidDir(uid), uid + "\n", cut).fs, uid) by {
      hide Text.TrimSpace, FirstChars;
      assert FirstChars(uid, cut) <= uid by { FirstCharsPrefix(uid, cut); }
    }
    hide Text.TrimSpace, FirstChars, UidFrame;
  }

  lemma FirstCharsPrefix(s: string, cut: nat)
    ensures FirstChars(s, cut) <= s
  {}

  /** What a marker write leaves: the whole UID, or, when interrupted, its first `cut` characters. */
  lemma InterruptedMark(dir: ClaimDir, uid: string, cut: nat)
    requires IsUid(uid)
    ensures Owner(dir.(marker := Some(uid + "\n"))) == Some(uid)
    ensures Owner(dir.(marker := Some(FirstChars(uid + "\n", cut)))) == Some(FirstChars(uid, cut))
  {
    TrimLine(uid);
    TrimCutLine(uid, if cut <= 37 then cut else 37);
    hide Text.TrimSpace;
    assert (uid + "\n")[..37] == uid + "\n" && uid[..36] == uid;
  }

  lemma OwnershipFrame(fs: Fs, uid: string, cut: nat)
    requires TreeOk(fs) && IsUid(uid)
    ensures var r := ClaimOwnership(fs, uid, cut);
            && UidFrame(fs, r.fs, uid)
            && (r.value ==> r.fs.Owned(UidDir(uid), uid) && r.fs.torn <= fs.torn)
            && (fs.Healthy() ==> r.fs.Healthy() && (r.value <==> !IsTorn(fs, uid)))
  {
    var p := UidDir(uid);
    var IO(afterRead, text) := fs.ReadMarker(p);
    assert afterRead.tree == fs.tree;
    if text.None? {
      var IO(afterMkdir, made) := afterRead.MkdirAll(p);
      MkdirFrame(fs, afterRead, uid);
      if made {
        MarkFrame(fs, afterMkdir, uid, cut);
      }
    }
  }

  // ---- torn markers ------------------------------------------------------------------------

  /** On a tree in order a claim is refused its own directory, without any
      effect failing, exactly when an interrupted write tore the marker. */
  lemma ConflictExactly(fs: Fs, claim: Claim, allocatable: map<string, Device>, order: seq<string>, cut: nat)
    requires TreeOk(fs) && IsUid(claim.uid) && claim.allocation.Some? && fs.Healthy()
    ensures WriteMetadata(fs, claim, allocatable, order, cut).value <==> !IsTorn(fs, claim.uid)
  {
    OwnershipFrame(fs, claim.uid, cut);
  }

  /** The last step of taking ownership of an unmarked directory, interrupted:
      the marker is torn exactly if less than the whole UID was written. */
  lemma InterruptedWriteTears(fs: Fs, uid: string, cut: nat)
    requires IsUid(uid) && fs.faults == [false, false, false, true]
    requires UidDir(uid) in fs.tree ==> fs.tree[UidDir(uid)].marker == None
    ensures var r := ClaimOwnership(fs, uid, cut);
            !r.value && r.fs.Healthy() && (IsTorn(r.fs, uid) <==> cut < |uid|) && (r.fs.Owned(UidDir(uid), uid) <==> cut >= |uid|)
  {
    InterruptedMarker(fs, uid, cut);
    InterruptedMark(if UidDir(uid) in fs.tree then fs.tree[UidDir(uid)] else EMPTY_DIR, uid, cut);
    hide Text.TrimSpace, Metadata.ClaimOwnership;
  }

  lemma InterruptedMarker(fs: Fs, uid: string, cut: nat)
    requires fs.faults == [false, false, false, true]
    requires UidDir(uid) in fs.tree ==> fs.tree[UidDir(uid)].marker == None
    ensures var r, p := ClaimOwnership(fs, uid, cut), UidDir(uid);
            && !r.value && p in r.fs.tree && r.fs.Healthy()
            && r.fs.tree[p] == (if p in fs.tree then fs.tree[p] else EMPTY_DIR).(marker := Some(FirstChars(uid + "\n", cut)))
  {
    hide FirstChars;
    var p := UidDir(uid);
    var IO(read, text) := fs.ReadMarker(p);
    assert read.faults == [false, false, true];
    var IO(made, ok) := read.MkdirAll(p);
    assert ok && made.faults == [false, true];
    assert made.Next().faults == [true];
  }

  /** A torn directory outlives a cleanup that succeeds in full, and the claim is refused as if another owned it. */
  lemma TornBlocks(fs: Fs, uid: string, cut: nat)
    requires IsTorn(fs, uid) && fs.Healthy()
    ensures var r := Cleanup(fs, uid);
            r.value && UidDir(uid) in r.fs.tree && r.fs.tree[UidDir(uid)] == fs.tree[UidDir(uid)]
    ensures !ClaimOwnership(fs, uid, cut).value && !ClaimOwnership(Cleanup(fs, uid).fs, uid, cut).value
  {
    hide Metadata.Cleanup;
    assert !fs.Owned(UidDir(uid), uid);
  }

  /** A written tree has, below the claim's directory, the file of every request with exactly its devices. */
  ghost predicate FilesWritten(fs: Fs, claim: Claim, allocatable: map<string, Device>)
    requires claim.allocation.Some?
  {
    var devices := DevicesByRequest(claim.allocation.value, allocatable);
    fs.Owned(UidDir(claim.uid), claim.uid) &&
    forall r :: r in devices ==>
      && r in fs.tree[UidDir(claim.uid)].files
      && fs.tree[UidDir(claim.uid)].files[r] == MetadataFile(PodClaimName(claim), r, devices[r])
  }

  lemma UidFrameTransitive(fs: Fs, mid: Fs, after: Fs, uid: string)
    requires UidFrame(fs, mid, uid) && UidFrame(mid, after, uid)
    ensures UidFrame(fs, after, uid)
  {}

  lemma PublishFilesFrame(fs: Fs, uid: string, alias: Option<string>, order: seq<string>, devices: map<string, seq<MetadataDevice>>)
    requires fs.Owned(UidDir(uid), uid) && forall k :: k in order ==> k in devices
    ensures var r := PublishFiles(fs, UidDir(uid), alias, order, devices);
            UidFrame(fs, r.fs, uid) && r.fs.Owned(UidDir(uid), uid) && r.fs.torn == fs.torn
  {
    hide Metadata.PublishFiles;
  }

  lemma WriteMetadataFrame(fs: Fs, claim: Claim, allocatable: map<string, Device>, order: seq<string>, cut: nat)
    requires TreeOk(fs) && IsUid(claim.uid) && claim.allocation.Some?
    ensures var r := WriteMetadata(fs, claim, allocatable, order, cut);
            UidFrame(fs, r.fs, claim.uid) && (r.value ==> FilesWritten(r.fs, claim, allocatable) && r.fs.torn <= fs.torn)
  {
    OwnershipFrame(fs, claim.uid, cut);
    var IO(owned, ok) := ClaimOwnership(fs, claim.uid, cut);
    if ok {
      var devices := DevicesByRequest(claim.allocation.value, allocatable);
      var requests := Arranged(order, devices.Keys);
      PublishFilesFrame(owned, claim.uid, PodClaimName(claim), requests, devices);
      UidFrameTransitive(fs, owned, PublishFiles(owned, UidDir(claim.uid), PodClaimName(claim), requests, devices).fs, claim.uid);
    }
  }

  // ---- rollback -------------------------------------------------------------------------

  /** After a rollback the claim owns nothing but directories passed over, or the rollback is on record as failed. */
  ghost predicate RolledBack(fs: Fs, uid: string) {
    uid in fs.abandoned || forall p :: fs.Owned(p, uid) ==> p in fs.missed
  }

  /** Other claims' records stay, as far as the directories concerned do. */
  ghost predicate RecordsKept(fs: Fs, after: Fs, uid: string) {
    && (forall p :: p in fs.missed && p in after.tree ==> p in after.missed)
    && fs.abandoned - {uid} <= after.abandoned <= fs.abandoned + {uid}
  }

  /** A rollback touches only the tree, and there only what the claim owns. */
  ghost predicate RollbackFrame(fs: Fs, after: Fs, uid: string) {
    && after.checkpoint == fs.checkpoint && after.specs == fs.specs && after.groups == fs.groups
    && RecordsKept(fs, after, uid) && OnlyLost(fs, after, uid)
    && after.torn <= fs.torn && (forall p :: p in fs.torn && p in after.tree ==> p in after.torn)
  }

  lemma RollbackEffect(fs: Fs, uid: string)
    ensures RollbackFrame(fs, Rollback(fs, uid), uid) && RolledBack(Rollback(fs, uid), uid)
    ensures fs.Healthy() ==> forall p :: !Rollback(fs, uid).Owned(p, uid)
  {}

  // ---- the commit of a Prepare ------------------------------------------------------------

  /** The checkpoint write is the step of the commit that fails. */
  ghost predicate OnlyCheckpointFails(m: Memory, fs: Fs, claim: Claim, env: PrepareEnv, devices: seq<PreparedDevice>)
    requires claim.allocation.Some?
  {
    var IO(described, published) := PublishMetadata(m, fs, claim, env);
    var IO(specified, written) := described.WriteSpec(claim.uid, ClaimSpec(claim.uid, devices));
    published && written && specified.Fails()
  }

  /** Everything the rest of the proofs needs to know about a commit. */
  ghost predicate CommitSummary(m: Memory, fs: Fs, claim: Claim, env: PrepareEnv, claims: Claims,
                                devices: seq<PreparedDevice>, r: IO<bool>)
    requires claim.allocation.Some?
  {
    var uid, spec := claim.uid, ClaimSpec(claim.uid, devices);
    && TreeKeeps(fs, r.fs, uid) && r.fs.groups == fs.groups
    && RecordsKept(fs, r.fs, uid)
    && (r.value ==>
          && r.fs.checkpoint == Some(claims[uid := devices]) && r.fs.specs == fs.specs[uid := spec]
          && r.fs.missed == fs.missed && r.fs.abandoned == fs.abandoned && r.fs.torn <= fs.torn
          && (HasVfio(m, claim.allocation.value) ==> FilesWritten(r.fs, claim, m.allocatable))
          && (!HasVfio(m, claim.allocation.value) ==> r.fs.tree == fs.tree))
    && (!r.value ==>
          && r.fs.checkpoint == fs.checkpoint && RolledBack(r.fs, uid)
          && r.fs.specs == if OnlyCheckpointFails(m, fs, claim, env, devices) then fs.specs[uid := spec] else fs.specs)
  }

  /** A commit that fails after reaching `mid` and rolls back. */
  lemma FailedCommit(fs: Fs, mid: Fs, uid: string)
    requires UidFrame(fs, mid.(specs := fs.specs), uid)
    ensures var after := Rollback(mid, uid);
            && TreeKeeps(fs, after, uid) && after.groups == fs.groups && after.specs == mid.specs
            && after.checkpoint == fs.checkpoint && RolledBack(after, uid)
            && RecordsKept(fs, after, uid)
  {
    RollbackEffect(mid, uid);
  }

  /** Effects on the other stores keep what the metadata step established about the tree. */
  lemma UidFrameKeeps(fs: Fs, described: Fs, after: Fs, uid: string)
    requires UidFrame(fs, described, uid)
    requires after == described.(specs := after.specs, checkpoint := after.checkpoint, faults := after.faults)
    ensures TreeKeeps(fs, after, uid) && after.groups == fs.groups && after.missed == fs.missed && after.abandoned == fs.abandoned
    ensures after.checkpoint == described.checkpoint ==> UidFrame(fs, after.(specs := fs.specs), uid)
    ensures described.specs == fs.specs && described.checkpoint == fs.checkpoint
  {}

  lemma PublishMetadataFrame(m: Memory, fs: Fs, claim: Claim, env: PrepareEnv)
    requires TreeOk(fs) && IsUid(claim.uid) && claim.allocation.Some?
    ensures var r := PublishMetadata(m, fs, claim, env);
            && UidFrame(fs, r.fs, claim.uid)
            && (HasVfio(m, claim.allocation.value) ==> r.value ==> FilesWritten(r.fs, claim, m.allocatable) && r.fs.torn <= fs.torn)
            && (!HasVfio(m, claim.allocation.value) ==> r == IO(fs, true))
  {
    WriteMetadataFrame(fs, claim, m.allocatable, env.order, env.cut);
  }

  lemma CommitEffect(m: Memory, fs: Fs, claim: Claim, env: PrepareEnv, claims: Claims, devices: seq<PreparedDevice>)
    requires TreeOk(fs) && IsUid(claim.uid) && claim.allocation.Some?
    ensures CommitSummary(m, fs, claim, env, claims, devices, Commit(m, fs, claim, env, claims, devices))
  {
    hide Preparation.Rollback, Preparation.PublishMetadata, RolledBack, TreeKeeps, UidFrame;
    var uid := claim.uid;
    PublishMetadataFrame(m, fs, claim, env);
    var IO(described, published) := PublishMetadata(m, fs, claim, env);
    var IO(specified, written) := described.WriteSpec(uid, ClaimSpec(uid, devices));
    var IO(recorded, saved) := specified.WriteCheckpoint(claims[uid := devices]);
    UidFrameKeeps(fs, described, described, uid);
    UidFrameKeeps(fs, described, specified, uid);
    UidFrameKeeps(fs, described, recorded, uid);
    if !published {
      FailedCommit(fs, described, uid);
    } else if !written {
      FailedCommit(fs, specified, uid);
    } else if !saved {
      FailedCommit(fs, recorded, uid);
    }
  }

  lemma InterruptedCommitTears(m: Memory, fs: Fs, claim: Claim, env: PrepareEnv, claims: Claims, devices: seq<PreparedDevice>)
    requires IsUid(claim.uid) && claim.allocation.Some? && HasVfio(m, claim.allocation.value)
    requires UidDir(claim.uid) in fs.tree ==> fs.tree[UidDir(claim.uid)].marker == None
    requires fs.faults == [false, false, false, true]
    ensures var r := Commit(m, fs, claim, env, claims, devices);
            !r.value && (if env.cut < |claim.uid| then IsTorn(r.fs, claim.uid) else UidDir(claim.uid) !in r.fs.tree)
  {
    InterruptedWriteTears(fs, claim.uid, env.cut);
    hide Preparation.Rollback, Metadata.ClaimOwnership;
    var described := ClaimOwnership(fs, claim.uid, env.cut).fs;
    assert PublishMetadata(m, fs, claim, env) == IO(described, false);
    assert Commit(m, fs, claim, env, claims, devices) == IO(Rollback(described, claim.uid), false);
    RollbackOfTorn(described, claim.uid);
  }

  /** A rollback without failing effects passes a torn directory over and removes an owned one. */
  lemma RollbackOfTorn(fs: Fs, uid: string)
    requires fs.Healthy() && (IsTorn(fs, uid) || fs.Owned(UidDir(uid), uid))
    ensures if IsTorn(fs, uid) then IsTorn(Rollback(fs, uid), uid) else UidDir(uid) !in Rollback(fs, uid).tree
  {
    RollbackEffect(fs, uid);
    hide Preparation.Rollback;
    var after := Rollback(fs, uid);
    assert UidDir(uid) in after.tree ==> after.tree[UidDir(uid)] == fs.tree[UidDir(uid)];
    assert UidDir(uid) in after.tree && !IsTorn(fs, uid) ==> after.Owned(UidDir(uid), uid);
  }

  /** A Prepare whose marker write is interrupted, and nothing else: it fails,
      and its successful rollback leaves the directory torn exactly if less than the
      whole UID was written, and removes it otherwise. */
  lemma InterruptedPrepareTears(m: Memory, fs: Fs, claim: Claim, env: PrepareEnv)
    requires IsUid(claim.uid) && claim.allocation.Some? && HasVfio(m, claim.allocation.value)
    requires !fs.Fails() && fs.checkpoint.Some? && !IsPrepared(fs.checkpoint.value, claim.uid)
    requires UidDir(claim.uid) in fs.tree ==> fs.tree[UidDir(claim.uid)].marker == None
    ensures var r, IO(ready, devices) := Prepare(m, fs, claim, env), PrepareDevices(m, fs.Next(), claim, env);
            devices.Some? && ready.faults == [false, false, false, true] ==>
              r.value.None? && (if env.cut < |claim.uid| then IsTorn(r.fs, claim.uid) else UidDir(claim.uid) !in r.fs.tree)
  {
    hide Preparation.PrepareDevices, Preparation.Commit, IsTorn;
    var IO(ready, devices) := PrepareDevices(m, fs.Next(), claim, env);
    if devices.Some? && ready.faults == [false, false, false, true] {
      InterruptedCommitTears(m, ready, claim, env, fs.checkpoint.value, devices.value);
    }
  }

  // ---- isolation between claims --------------------------------------------------------

  lemma OnlyCommonKeeps(fs: Fs, after: Fs, other: string)
    requires ChangesOnlyCommon(fs, after) && other != COMMON
    ensures KeepsClaim(fs, after, other)
  {}

  lemma KeepsTransitive(fs: Fs, mid: Fs, after: Fs, other: string)
    requires KeepsClaim(fs, mid, other) && KeepsClaim(mid, after, other)
    ensures KeepsClaim(fs, after, other)
  {}

  lemma CommitKeeps(m: Memory, fs: Fs, claim: Claim, env: PrepareEnv, claims: Claims, devices: seq<PreparedDevice>, other: string)
    requires TreeOk(fs) && IsUid(claim.uid) && claim.allocation.Some?
    requires fs.checkpoint == Some(claims) && IsUid(other) && other != claim.uid
    ensures KeepsClaim(fs, Commit(m, fs, claim, env, claims, devices).fs, other)
  {
    CommitEffect(m, fs, claim, env, claims, devices);
    TreeKeepsOthers(fs, Commit(m, fs, claim, env, claims, devices).fs, claim.uid, other);
  }

  /** Prepare keeps the tree in order on every exit path. */
  lemma PrepareKeepsTree(m: Memory, fs: Fs, claim: Claim, env: PrepareEnv)
    requires TreeOk(fs) && IsUid(claim.uid)
    ensures TreeOk(Prepare(m, fs, claim, env).fs)
  {
    var IO(read, claims) := fs.ReadCheckpoint();
    if claims.Some? && !IsPrepared(claims.value, claim.uid) {
      var IO(ready, devices) := PrepareDevices(m, read, claim, env);
      if devices.Some? {
        CommitEffect(m, ready, claim, env, claims.value, devices.value);
        TreeKeepsOk(ready, Commit(m, ready, claim, env, claims.value, devices.value).fs, claim.uid);
      }
    }
  }

  /** Claim isolation: on every exit path of Prepare, rollback included, every
      other claim keeps its checkpoint entry, its CDI spec and every metadata
      directory marked with it, even when names or pod aliases collide. */
  lemma PrepareIsolates(m: Memory, fs: Fs, claim: Claim, env: PrepareEnv, other: string)
    requires TreeOk(fs) && IsUid(claim.uid)
    requires IsUid(other) && other != claim.uid
    ensures KeepsClaim(fs, Prepare(m, fs, claim, env).fs, other)
    ensures TreeOk(Prepare(m, fs, claim, env).fs)
  {
    assert |COMMON| == 6;
    PrepareKeepsTree(m, fs, claim, env);
    var IO(read, claims) := fs.ReadCheckpoint();
    if claims.Some? && !IsPrepared(claims.value, claim.uid) {
      var IO(ready, devices) := PrepareDevices(m, read, claim, env);
      OnlyCommonKeeps(read, ready, other);
      if devices.Some? {
        CommitKeeps(m, ready, claim, env, claims.value, devices.value, other);
        KeepsTransitive(read, ready, Commit(m, ready, claim, env, claims.value, devices.value).fs, other);
      }
    }
  }

  /** What a teardown can change. */
  ghost predicate TeardownFrame(fs: Fs, after: Fs, uid: string) {
    && OnlyLost(fs, after, uid)
    && (after.specs == fs.specs || after.specs == fs.specs - {uid})
    && (after.checkpoint == fs.checkpoint || (fs.checkpoint.Some? && after.checkpoint == Some(fs.checkpoint.value - {uid})))
    && after.groups == fs.groups && RecordsKept(fs, after, uid)
    && after.torn <= fs.torn && (forall p :: p in fs.torn && p in after.tree ==> p in after.torn)
  }

  lemma UnprepareFrame(fs: Fs, uid: string)
    ensures TeardownFrame(fs, Unprepare(fs, uid).fs, uid)
  {
    hide Preparation.Teardown;
    var IO(read, claims) := fs.ReadCheckpoint();
    if claims.Some? && IsPrepared(claims.value, uid) {
      TeardownEffect(read, uid, claims.value);
    }
  }

  lemma RemoveSpecFrame(fs: Fs, uid: string)
    ensures TeardownFrame(fs, fs.RemoveSpec(uid).fs, uid)
    ensures fs.RemoveSpec(uid).fs.checkpoint == fs.checkpoint
  {
    var u := fs.RemoveSpec(uid).fs;
    assert u.tree == fs.tree && u.missed == fs.missed && u.torn == fs.torn;
  }

  lemma CleanedFrame(fs: Fs, unspecified: Fs, cleaned: Fs, uid: string)
    requires TeardownFrame(fs, unspecified, uid) && unspecified.tree == fs.tree
    requires CleanupFrame(unspecified, cleaned) && OnlyLost(unspecified, cleaned, uid)
    requires unspecified.abandoned - {uid} <= cleaned.abandoned <= unspecified.abandoned
    ensures TeardownFrame(fs, cleaned, uid)
  {
    assert OnlyLost(fs, cleaned, uid);
  }

  lemma UnrecordedFrame(fs: Fs, cleaned: Fs, uid: string)
    requires TeardownFrame(fs, cleaned, uid) && fs.checkpoint.Some?
    ensures TeardownFrame(fs, cleaned.WriteCheckpoint(fs.checkpoint.value - {uid}).fs, uid)
  {
    var u := cleaned.WriteCheckpoint(fs.checkpoint.value - {uid}).fs;
    assert u.tree == cleaned.tree && u.missed == cleaned.missed && u.specs == cleaned.specs && u.torn == cleaned.torn;
  }

  lemma TeardownEffect(fs: Fs, uid: string, claims: Claims)
    requires fs.checkpoint == Some(claims)
    ensures TeardownFrame(fs, Teardown(fs, uid, claims).fs, uid)
  {
    var unspecified := fs.RemoveSpec(uid).fs;
    RemoveSpecFrame(fs, uid);
    CleanedFrame(fs, unspecified, Cleanup(unspecified, uid).fs, uid);
    UnrecordedFrame(fs, Cleanup(unspecified, uid).fs, uid);
  }

  /** The Unprepare half; it needs nothing of the tree. */
  lemma UnprepareIsolates(fs: Fs, uid: string, other: string)
    requires other != uid
    ensures KeepsClaim(fs, Unprepare(fs, uid).fs, other)
  {
    UnprepareFrame(fs, uid);
  }

  lemma UnprepareKeepsTree(fs: Fs, uid: string)
    requires TreeOk(fs)
    ensures TreeOk(Unprepare(fs, uid).fs)
  {
    UnprepareFrame(fs, uid);
  }

  /** Whatever effects fail and whatever is written while the claim takes
      ownership of its directory, another claim owns that directory afterwards
      exactly if it did before. */
  ghost predicate OwnershipIsolates(fs: Fs, uid: string, other: string) {
    forall faults: seq<bool>, cut: nat ::
      ClaimOwnership(fs.(faults := faults), uid, cut).fs.Owned(UidDir(uid), other) <==> fs.Owned(UidDir(uid), other)
  }

  /** Isolation needs the tree in order: taking ownership is safe for another
      claim exactly when that claim does not own the directory. If it does, an
      unreadable marker lets the directory be adopted and re-marked. */
  lemma AdoptionIsolatesExactly(fs: Fs, uid: string, other: string)
    requires IsUid(uid) && IsUid(other) && other != uid
    ensures OwnershipIsolates(fs, uid, other) <==> !fs.Owned(UidDir(uid), other)
  {
    forall faults: seq<bool>, cut: nat | !fs.Owned(UidDir(uid), other)
      ensures !ClaimOwnership(fs.(faults := faults), uid, cut).fs.Owned(UidDir(uid), other)
    {
      ForeignStaysForeign(fs.(faults := faults), uid, other, cut);
    }
    if fs.Owned(UidDir(uid), other) {
      UnreadMarkerIsAdopted(fs.(faults := [true]), uid);
    }
  }

  lemma ForeignStaysForeign(fs: Fs, uid: string, other: string, cut: nat)
    requires IsUid(uid) && IsUid(other) && other != uid && !fs.Owned(UidDir(uid), other)
    ensures !ClaimOwnership(fs, uid, cut).fs.Owned(UidDir(uid), other)
  {
    InterruptedMark(if UidDir(uid) in fs.tree then fs.tree[UidDir(uid)] else EMPTY_DIR, uid, cut);
    hide Text.TrimSpace;
  }

  /** One failed marker read is enough to take over an existing directory. */
  lemma UnreadMarkerIsAdopted(fs: Fs, uid: string)
    requires IsUid(uid) && UidDir(uid) in fs.tree && fs.faults == [true]
    ensures ClaimOwnership(fs, uid, 0).value && ClaimOwnership(fs, uid, 0).fs.Owned(UidDir(uid), uid)
  {
    TrimLine(uid);
    hide Text.TrimSpace;
    var afterRead := fs.ReadMarker(UidDir(uid)).fs;
    assert !afterRead.Fails() && afterRead.MkdirAll(UidDir(uid)).value;
  }

  // ---- a failed Prepare is contained ------------------------------------------------------

  /** A device that is not in the inventory, not on this node or fails the live
      check rejects the claim before any store is touched and before any RSD group is requested. */
  lemma RejectedPrepareTouchesNothing(m: Memory, fs: Fs, claim: Claim, env: PrepareEnv)
    requires Entry(fs, claim.uid) in {None, Some([])}
    requires claim.allocation.Some? ==>
               exists a :: a in claim.allocation.value && a.driver == DRIVER_NAME &&
                 (a.device !in m.allocatable || a.pool != m.nodeName || !Usable(env.sys, m.allocatable[a.device]))
    ensures Prepare(m, fs, claim, env).value.None? && Prepare(m, fs, claim, env).fs.SameStores(fs)
  {
    hide Validation.Usable;
    if claim.allocation.Some? {
      var a :| a in claim.allocation.value && a.driver == DRIVER_NAME &&
        (a.device !in m.allocatable || a.pool != m.nodeName || !Usable(env.sys, m.allocatable[a.device]));
      assert !Admissible(m, env.sys, a);
    }
  }

  /** A claim that is prepared afresh has only devices that are in the inventory, on this node and pass the live check. */
  lemma FreshSuccessIsAdmitted(m: Memory, fs: Fs, claim: Claim, env: PrepareEnv, a: Allocated)
    requires Entry(fs, claim.uid) in {None, Some([])}
    requires Prepare(m, fs, claim, env).value.Some?
    ensures claim.allocation.Some?
    ensures a in claim.allocation.value && a.driver == DRIVER_NAME ==>
              a.device in m.allocatable && a.pool == m.nodeName && Usable(env.sys, m.allocatable[a.device])
  {
    hide Validation.Usable;
    if claim.allocation.None? ||
       (a in claim.allocation.value && a.driver == DRIVER_NAME &&
        (a.device !in m.allocatable || a.pool != m.nodeName || !Usable(env.sys, m.allocatable[a.device])))
    {
      RejectedPrepareTouchesNothing(m, fs, claim, env);
    }
  }

  /** A failed Prepare leaves the checkpoint as it was, and the claim's own
      spec too unless every step up to the checkpoint write succeeded and that write failed. */
  lemma FailedPrepareIsContained(m: Memory, fs: Fs, claim: Claim, env: PrepareEnv)
    requires TreeOk(fs) && IsUid(claim.uid)
    requires Prepare(m, fs, claim, env).value.None?
    ensures var after := Prepare(m, fs, claim, env).fs;
            && after.checkpoint == fs.checkpoint
            && (SpecOf(after, claim.uid) != SpecOf(fs, claim.uid) ==>
                  var IO(ready, devices) := PrepareDevices(m, fs.Next(), claim, env);
                  devices.Some? && OnlyCheckpointFails(m, ready, claim, env, devices.value))
            && ((forall p :: fs.Owned(p, claim.uid) <==> after.Owned(p, claim.uid)) || RolledBack(after, claim.uid))
  {
    hide Preparation.Commit, Preparation.PrepareDevices, OnlyCheckpointFails;
    var IO(read, claims) := fs.ReadCheckpoint();
    if claims.Some? {
      var IO(ready, devices) := PrepareDevices(m, read, claim, env);
      if devices.Some? {
        CommitEffect(m, ready, claim, env, claims.value, devices.value);
      }
    }
  }

  // ---- replay ------------------------------------------------------------------------------

  /** Preparing a checkpointed claim again either fails on reading the
      checkpoint or answers the recorded devices; no store changes and no group is
      requested, whatever the inventory has become. */
  lemma ReplayIsExact(m: Memory, fs: Fs, claim: Claim, env: PrepareEnv)
    requires Entry(fs, claim.uid) !in {None, Some([])}
    ensures var r := Prepare(m, fs, claim, env);
            r.fs.SameStores(fs) && r.value == if fs.Fails() then None else Some(fs.checkpoint.value[claim.uid])
  {}

  // ---- Unprepare converges --------------------------------------------------------------

  /** From any state whatsoever in which the claim is checkpointed, one
      Unprepare without failing effects removes its entry, its spec and every
      directory it owns, and a second call changes nothing. */
  lemma UnprepareConverges(fs: Fs, uid: string)
    requires fs.Healthy() && Entry(fs, uid) !in {None, Some([])}
    ensures var r := Unprepare(fs, uid);
            && r.value && Entry(r.fs, uid) == None && SpecOf(r.fs, uid) == None
            && (forall p :: !r.fs.Owned(p, uid))
            && Unprepare(r.fs, uid).value && Unprepare(r.fs, uid).fs.SameStores(r.fs)
  {
    hide Preparation.Teardown;
    HealthyTeardown(fs.Next(), uid, fs.checkpoint.value);
  }

  /** Unprepare of a claim that is not on record, or on record without
      devices, changes nothing and succeeds if the checkpoint can be read. */
  lemma UnprepareOfUnrecorded(fs: Fs, uid: string)
    requires Entry(fs, uid) in {None, Some([])}
    ensures var r := Unprepare(fs, uid);
            r.fs.SameStores(fs) && (r.value <==> !fs.Fails() && fs.checkpoint.Some?)
  {
    hide Preparation.Teardown;
  }

  lemma HealthyTeardown(fs: Fs, uid: string, claims: Claims)
    requires fs.Healthy()
    ensures var r := Teardown(fs, uid, claims);
            && r.value && r.fs.Healthy() && r.fs.checkpoint == Some(claims - {uid}) && uid !in r.fs.specs
            && forall p :: !r.fs.Owned(p, uid)
  {
    hide Metadata.Cleanup;
    var cleaned := Cleanup(fs.RemoveSpec(uid).fs, uid).fs;
    assert cleaned.Healthy() && !cleaned.Fails();
    forall p ensures !Teardown(fs, uid, claims).fs.Owned(p, uid) {
      assert !cleaned.Owned(p, uid);
    }
  }

  /** A pass over one parent leaves the other parent alone, and records as
      missed only what it leaves owned. */
  ghost predicate PassOver(fs: Fs, after: Fs, parent: Parent, uid: string) {
    && (forall p :: p in after.missed && p !in fs.missed ==> p.parent == parent && after.Owned(p, uid))
    && (forall p: DirPath :: p.parent != parent && fs.Owned(p, uid) ==> after.Owned(p, uid))
  }

  lemma CleanDirMissed(fs: Fs, p: DirPath, uid: string)
    ensures PassOver(fs, CleanDir(fs, p, uid).fs, p.parent, uid)
    ensures CleanDir(fs, p, uid).fs.missed <= fs.missed + {p}
    ensures forall q :: q != p && fs.Owned(q, uid) ==> CleanDir(fs, p, uid).fs.Owned(q, uid)
  {}

  lemma {:induction false} CleanDirsMissed(fs: Fs, parent: Parent, names: seq<string>, uid: string)
    requires Distinct(names)
    ensures PassOver(fs, CleanDirs(fs, parent, names, uid).fs, parent, uid)
    ensures forall p: DirPath :: p.name !in names && fs.Owned(p, uid) ==> CleanDirs(fs, parent, names, uid).fs.Owned(p, uid)
    decreases |names|
  {
    hide Metadata.CleanDir;
    if names != [] {
      var p := DirPath(parent, names[0]);
      var IO(next, ok) := CleanDir(fs, p, uid);
      CleanDirMissed(fs, p, uid);
      if ok {
        assert names[0] !in names[1..];
        CleanDirsMissed(next, parent, names[1..], uid);
      }
    }
  }

  lemma CleanParentMissed(fs: Fs, parent: Parent, uid: string)
    ensures PassOver(fs, CleanParent(fs, parent, uid).fs, parent, uid)
  {
    hide Metadata.CleanDirs;
    var IO(listed, names) := fs.List(parent);
    if names.Some? {
      CleanDirsMissed(listed, parent, names.value, uid);
    }
  }

  lemma CleanupMissed(fs: Fs, uid: string, p: DirPath)
    requires p in Cleanup(fs, uid).fs.missed && p !in fs.missed
    ensures Cleanup(fs, uid).fs.Owned(p, uid)
  {
    hide Metadata.CleanParent;
    CleanParentMissed(fs, ResourceClaims, uid);
    CleanParentMissed(CleanParent(fs, ResourceClaims, uid).fs, ResourceClaimTemplates, uid);
  }

  /** The record of missed directories does not influence what a cleanup does. */
  ghost predicate SameButMissed(a: IO<bool>, b: IO<bool>) {
    a.value == b.value && a.fs.(missed := b.fs.missed) == b.fs
  }

  lemma CleanDirIgnoresMissed(a: Fs, b: Fs, p: DirPath, uid: string)
    requires a.(missed := b.missed) == b
    ensures SameButMissed(CleanDir(a, p, uid), CleanDir(b, p, uid))
  {}

  lemma {:induction false} CleanDirsIgnoresMissed(a: Fs, b: Fs, parent: Parent, names: seq<string>, uid: string)
    requires a.(missed := b.missed) == b
    ensures SameButMissed(CleanDirs(a, parent, names, uid), CleanDirs(b, parent, names, uid))
    decreases |names|
  {
    if names != [] {
      var p := DirPath(parent, names[0]);
      CleanDirIgnoresMissed(a, b, p, uid);
      hide Metadata.CleanDir;
      if CleanDir(a, p, uid).value {
        CleanDirsIgnoresMissed(CleanDir(a, p, uid).fs, CleanDir(b, p, uid).fs, parent, names[1..], uid);
      }
    }
  }

  lemma CleanParentIgnoresMissed(a: Fs, b: Fs, parent: Parent, uid: string)
    requires a.(missed := b.missed) == b
    ensures SameButMissed(CleanParent(a, parent, uid), CleanParent(b, parent, uid))
  {
    hide Metadata.CleanDirs;
    var names := a.List(parent).value;
    if names.Some? {
      CleanDirsIgnoresMissed(a.List(parent).fs, b.List(parent).fs, parent, names.value, uid);
    }
  }

  lemma CleanupIgnoresMissed(a: Fs, b: Fs, uid: string)
    requires a.(missed := b.missed) == b
    ensures SameButMissed(Cleanup(a, uid), Cleanup(b, uid))
  {
    hide Metadata.CleanParent;
    CleanParentIgnoresMissed(a, b, ResourceClaims, uid);
    CleanParentIgnoresMissed(CleanParent(a, ResourceClaims, uid).fs, CleanParent(b, ResourceClaims, uid).fs, ResourceClaimTemplates, uid);
  }

  lemma TeardownIgnoresMissed(a: Fs, b: Fs, uid: string, claims: Claims)
    requires a.(missed := b.missed) == b
    ensures SameButMissed(Teardown(a, uid, claims), Teardown(b, uid, claims))
  {
    hide Metadata.Cleanup;
    var u, v := a.RemoveSpec(uid), b.RemoveSpec(uid);
    assert u.value == v.value && u.fs.(missed := v.fs.missed) == v.fs;
    CleanupIgnoresMissed(u.fs, v.fs, uid);
  }

  lemma UnprepareIgnoresMissed(a: Fs, b: Fs, uid: string)
    requires a.(missed := b.missed) == b
    ensures SameButMissed(Unprepare(a, uid), Unprepare(b, uid))
  {
    hide Preparation.Teardown;
    var u, v := a.ReadCheckpoint(), b.ReadCheckpoint();
    assert u.value == v.value && u.fs.(missed := v.fs.missed) == v.fs;
    if u.value.Some? {
      TeardownIgnoresMissed(u.fs, v.fs, uid, u.value.value);
    }
  }

  /** An Unprepare that reports success leaves a directory owned exactly when
      it passed that directory over because its marker could not be read: the
      same call with an empty record does the same and records exactly those. */
  lemma UnprepareLeavesExactlyMissed(fs: Fs, uid: string)
    requires fs.checkpoint.Some? && IsPrepared(fs.checkpoint.value, uid)
    ensures var r, cleared := Unprepare(fs, uid), Unprepare(fs.(missed := {}), uid);
            && SameButMissed(r, cleared)
            && (r.value ==> && Entry(r.fs, uid) == None && SpecOf(r.fs, uid) == None
                            && forall p :: r.fs.Owned(p, uid) <==> p in cleared.fs.missed)
  {
    hide Preparation.Unprepare;
    UnprepareIgnoresMissed(fs, fs.(missed := {}), uid);
    UnprepareLeavesOnlyMissed(fs.(missed := {}), uid);
    forall p | p in Unprepare(fs.(missed := {}), uid).fs.missed && Unprepare(fs, uid).value ensures Unprepare(fs, uid).fs.Owned(p, uid) {
      NewlyMissedStays(fs.(missed := {}), uid, p);
    }
  }

  lemma NewlyMissedStays(fs: Fs, uid: string, p: DirPath)
    requires p !in fs.missed
    ensures p in Unprepare(fs, uid).fs.missed ==> Unprepare(fs, uid).fs.Owned(p, uid)
  {
    hide Metadata.Cleanup;
    var unspecified := fs.Next().RemoveSpec(uid).fs;
    if p in Cleanup(unspecified, uid).fs.missed {
      CleanupMissed(unspecified, uid, p);
    }
  }

  lemma UnprepareLeavesOnlyMissed(fs: Fs, uid: string)
    requires fs.checkpoint.Some? && IsPrepared(fs.checkpoint.value, uid)
    ensures var IO(after, ok) := Unprepare(fs, uid);
            ok ==> && Entry(after, uid) == None && SpecOf(after, uid) == None
                   && forall p :: after.Owned(p, uid) ==> p in after.missed
  {
    hide Metadata.Cleanup;
    var unspecified := fs.Next().RemoveSpec(uid);
    if unspecified.value {
      var cleaned := Cleanup(unspecified.fs, uid);
      assert cleaned.value ==> forall p :: cleaned.fs.Owned(p, uid) ==> p in cleaned.fs.missed;
    }
  }

  /** That exception is real: one failed marker read makes Unprepare report
      success, and the directory then stays, since every further Unprepare is a
      no-op until the claim is prepared again. */
  lemma UnprepareCanLeak(uid: string, d: PreparedDevice)
    requires IsUid(uid)
    ensures exists fs: Fs ::
              && fs.checkpoint == Some(map[uid := [d]]) && fs.Owned(UidDir(uid), uid)
              && Unprepare(fs, uid).value && Unprepare(fs, uid).fs.Owned(UidDir(uid), uid)
              && Unprepare(Unprepare(fs, uid).fs.(faults := []), uid).fs.Owned(UidDir(uid), uid)
  {
    TrimLine(uid);
    var p := UidDir(uid);
    var tree := map[p := ClaimDir(Some(uid + "\n"), map[], map[])];
    var fs := Fs(Some(map[uid := [d]]), map[], tree, [], [false, false, false, true], {}, {}, {});
    var listed := fs.Next().RemoveSpec(uid).fs.List(ResourceClaims);
    assert NamesIn(tree, ResourceClaims) == {p.name} by { assert p in tree; }
    assert NamesIn(tree, ResourceClaimTemplates) == {};
    SingletonListing(p.name);
    assert listed.value == Some([p.name]);
    assert listed.fs.faults == [true];
    var cleaned := CleanDir(listed.fs, p, uid);
    assert cleaned.value && cleaned.fs.tree == tree && cleaned.fs.faults == [];
    assert CleanDirs(listed.fs, ResourceClaims, [p.name], uid) == CleanDirs(cleaned.fs, ResourceClaims, [], uid) by {
      assert [p.name][1..] == [];
    }
    assert Unprepare(fs, uid).value && Unprepare(fs, uid).fs.tree == tree;
  }

  /** A failed Unprepare keeps the record, so the next Prepare is answered from
      it. By then the claim's spec is gone exactly if reading the checkpoint and
      removing the spec were not what failed. */
  lemma ReplayAfterPartialUnprepare(m: Memory, fs: Fs, claim: Claim, env: PrepareEnv)
    requires fs.checkpoint.Some? && IsPrepared(fs.checkpoint.value, claim.uid)
    requires SpecOf(fs, claim.uid).Some? && !Unprepare(fs, claim.uid).value
    ensures var after := Unprepare(fs, claim.uid).fs.(faults := []);
            && Prepare(m, after, claim, env).value == Some(fs.checkpoint.value[claim.uid])
            && (SpecOf(Prepare(m, after, claim, env).fs, claim.uid) == None <==> !fs.Fails() && !fs.Next().Fails())
  {
    hide Preparation.Prepare;
    ReplayIsExact(m, Unprepare(fs, claim.uid).fs.(faults := []), claim, env);
  }
}
