/** The RPC batches and the scan loop around the device state. */
module Driver {
  import opened Text
  import opened Sysfs
  import opened Devices
  import opened Discovery
  import opened Snapshot
  import opened ScanGuarantees
  import opened Storage
  import opened Metadata
  import opened Preparation
  import opened ClaimGuarantees
  import opened Runs
  import opened RunGuarantees
  import D = DeviceState

  // ---- batches -----------------------------------------------------------------------

  /** The stores after the first n claims of a batch. */
  function BatchFs(m: Memory, fs: Fs, claims: seq<Claim>, envs: seq<PrepareEnv>, n: nat): Fs
    requires n <= |claims| == |envs|
  {
    if n == 0 then fs else Prepare(m, BatchFs(m, fs, claims, envs, n - 1), claims[n - 1], envs[n - 1]).fs
  }

  function BatchAnswer(m: Memory, fs: Fs, claims: seq<Claim>, envs: seq<PrepareEnv>, i: nat): Option<seq<PreparedDevice>>
    requires i < |claims| == |envs|
  {
    Prepare(m, BatchFs(m, fs, claims, envs, i), claims[i], envs[i]).value
  }

  /** The answers of the first n claims by UID, a later claim replacing an earlier namesake. */
  function BatchAnswers(m: Memory, fs: Fs, claims: seq<Claim>, envs: seq<PrepareEnv>, n: nat): map<string, Option<seq<PreparedDevice>>>
    requires n <= |claims| == |envs|
  {
    if n == 0 then map[] else
      BatchAnswers(m, fs, claims, envs, n - 1)[claims[n - 1].uid := BatchAnswer(m, fs, claims, envs, n - 1)]
  }

  ghost predicate DistinctUids(claims: seq<Claim>) {
    forall i: nat, j: nat :: i < j < |claims| ==> claims[i].uid != claims[j].uid
  }

  /** PrepareResourceClaims: every claim is attempted, in order, whatever became
      of the ones before it, and gets its own answer. */
  method PrepareResourceClaims(state: D.DeviceState, claims: seq<Claim>, envs: seq<PrepareEnv>)
    returns (result: map<string, Option<seq<PreparedDevice>>>)
    requires |claims| == |envs|
    modifies state`disk
    ensures state.disk == BatchFs(state.View(), old(state.disk), claims, envs, |claims|)
    ensures result == BatchAnswers(state.View(), old(state.disk), claims, envs, |claims|)
  {
    result := map[];
    for i := 0 to |claims|
      invariant state.disk == BatchFs(state.View(), old(state.disk), claims, envs, i)
      invariant result == BatchAnswers(state.View(), old(state.disk), claims, envs, i)
    {
      var devices := state.Prepare(claims[i], envs[i]);
      result := result[claims[i].uid := devices];
    }
  }

  /** With distinct UIDs every claim finds its own answer in the result. */
  lemma {:induction false} BatchAnswersEach(m: Memory, fs: Fs, claims: seq<Claim>, envs: seq<PrepareEnv>, n: nat, i: nat)
    requires i < n <= |claims| == |envs| && DistinctUids(claims)
    ensures claims[i].uid in BatchAnswers(m, fs, claims, envs, n)
    ensures BatchAnswers(m, fs, claims, envs, n)[claims[i].uid] == BatchAnswer(m, fs, claims, envs, i)
  {
    hide Preparation.Prepare;
    if i < n - 1 {
      BatchAnswersEach(m, fs, claims, envs, n - 1, i);
      assert claims[i].uid != claims[n - 1].uid;
    }
  }

  /** From any point of a batch to any later one, a claim that is not among those in between keeps everything. */
  lemma {:induction false} BatchKeeps(m: Memory, fs: Fs, claims: seq<Claim>, envs: seq<PrepareEnv>, i: nat, n: nat, uid: string)
    requires i <= n <= |claims| == |envs| && TreeOk(fs) && IsUid(uid)
    requires forall c :: c in claims ==> IsUid(c.uid)
    requires forall k :: i <= k < n ==> claims[k].uid != uid
    ensures TreeOk(BatchFs(m, fs, claims, envs, n))
    ensures KeepsClaim(BatchFs(m, fs, claims, envs, i), BatchFs(m, fs, claims, envs, n), uid)
  {
    hide Preparation.Prepare;
    if n == i {
      BatchTreeOk(m, fs, claims, envs, n);
    } else {
      var before := BatchFs(m, fs, claims, envs, n - 1);
      BatchKeeps(m, fs, claims, envs, i, n - 1, uid);
      PrepareIsolates(m, before, claims[n - 1], envs[n - 1], uid);
      KeepsTransitive(BatchFs(m, fs, claims, envs, i), before, BatchFs(m, fs, claims, envs, n), uid);
    }
  }

  lemma {:induction false} BatchTreeOk(m: Memory, fs: Fs, claims: seq<Claim>, envs: seq<PrepareEnv>, n: nat)
    requires n <= |claims| == |envs| && TreeOk(fs)
    requires forall c :: c in claims ==> IsUid(c.uid)
    ensures TreeOk(BatchFs(m, fs, claims, envs, n))
  {
    if n > 0 {
      BatchTreeOk(m, fs, claims, envs, n - 1);
      assert claims[n - 1] in claims;
      PrepareKeepsTree(m, BatchFs(m, fs, claims, envs, n - 1), claims[n - 1], envs[n - 1]);
    }
  }

  /** A claim that a batch answers with devices is checkpointed with exactly
      those devices when the whole batch is done, whatever happened to its neighbours. */
  lemma BatchAnswerIsRecorded(m: Memory, fs: Fs, claims: seq<Claim>, envs: seq<PrepareEnv>, i: nat)
    requires i < |claims| == |envs| && TreeOk(fs) && DistinctUids(claims)
    requires forall c :: c in claims ==> IsUid(c.uid)
    ensures BatchAnswer(m, fs, claims, envs, i) !in {None, Some([])} ==>
              Entry(BatchFs(m, fs, claims, envs, |claims|), claims[i].uid) == BatchAnswer(m, fs, claims, envs, i)
  {
    var before := BatchFs(m, fs, claims, envs, i);
    hide Preparation.Prepare;
    assert claims[i] in claims;
    BatchTreeOk(m, fs, claims, envs, i);
    if BatchAnswer(m, fs, claims, envs, i) !in {None, Some([])} {
      SuccessIsRecorded(m, before, claims[i], envs[i]);
    }
    BatchKeeps(m, fs, claims, envs, i + 1, |claims|, claims[i].uid);
  }

  function UnpreparedFs(fs: Fs, uids: seq<string>, n: nat): Fs
    requires n <= |uids|
  {
    if n == 0 then fs else Unprepare(UnpreparedFs(fs, uids, n - 1), uids[n - 1]).fs
  }

  /** The answers of the first n Unprepare calls by UID, a later call replacing an earlier one for the same claim. */
  function UnprepareAnswers(fs: Fs, uids: seq<string>, n: nat): map<string, bool>
    requires n <= |uids|
  {
    if n == 0 then map[] else
      UnprepareAnswers(fs, uids, n - 1)[uids[n - 1] := Unprepare(UnpreparedFs(fs, uids, n - 1), uids[n - 1]).value]
  }

  /** UnprepareResourceClaims: every claim is attempted, in order, and gets its
      own answer. A claim reported as done is no longer checkpointed when the batch ends. */
  method UnprepareResourceClaims(state: D.DeviceState, uids: seq<string>) returns (result: map<string, bool>)
    modifies state`disk
    ensures state.disk == UnpreparedFs(old(state.disk), uids, |uids|)
    ensures result == UnprepareAnswers(old(state.disk), uids, |uids|)
    ensures forall uid :: uid in result <==> uid in uids
    ensures forall uid :: uid in result && result[uid] ==> !IsRecorded(state.disk, uid)
  {
    hide Preparation.Unprepare;
    result := map[];
    for i := 0 to |uids|
      invariant state.disk == UnpreparedFs(old(state.disk), uids, i)
      invariant result == UnprepareAnswers(old(state.disk), uids, i)
      invariant forall uid :: uid in result <==> uid in uids[..i]
      invariant forall uid :: uid in result && result[uid] ==> !IsRecorded(state.disk, uid)
    {
      ghost var before := state.disk;
      var ok := state.Unprepare(uids[i]);
      result := result[uids[i] := ok];
      UnprepareRecords(before, uids[i]);
    }
  }

  /** A batch without failing effects on a readable checkpoint reports every claim as done. */
  lemma {:induction false} HealthyBatchIsDone(fs: Fs, uids: seq<string>, n: nat, uid: string)
    requires n <= |uids| && fs.Healthy() && fs.checkpoint.Some?
    ensures UnpreparedFs(fs, uids, n).Healthy() && UnpreparedFs(fs, uids, n).checkpoint.Some?
    ensures uid in uids[..n] ==> uid in UnprepareAnswers(fs, uids, n) && UnprepareAnswers(fs, uids, n)[uid]
  {
    hide Preparation.Unprepare;
    if n > 0 {
      HealthyBatchIsDone(fs, uids, n - 1, uid);
      HealthyUnprepareIsDone(UnpreparedFs(fs, uids, n - 1), uids[n - 1]);
      assert uids[..n] == uids[..n - 1] + [uids[n - 1]];
    }
  }

  lemma HealthyUnprepareIsDone(fs: Fs, uid: string)
    requires fs.Healthy() && fs.checkpoint.Some?
    ensures var r := Unprepare(fs, uid);
            r.value && r.fs.Healthy() && r.fs.checkpoint.Some? && !IsRecorded(r.fs, uid)
  {
    hide Preparation.Teardown;
    HealthyTeardown(fs.Next(), uid, fs.checkpoint.value);
  }

  /** A successful Unprepare drops the claim's record; no other record changes. */
  lemma UnprepareRecords(fs: Fs, uid: string)
    ensures Unprepare(fs, uid).value ==> !IsRecorded(Unprepare(fs, uid).fs, uid)
    ensures forall other :: other != uid ==> (IsRecorded(Unprepare(fs, uid).fs, other) <==> IsRecorded(fs, other))
  {
    forall other | other != uid ensures IsRecorded(Unprepare(fs, uid).fs, other) <==> IsRecorded(fs, other) {
      UnprepareIsolates(fs, uid, other);
      assert Entry(Unprepare(fs, uid).fs, other) == Entry(fs, other);
    }
  }

  // ---- the scan loop --------------------------------------------------------------------

  /** One tick: what the scan observes and whether a publication would succeed. */
  datatype Tick = Tick(scan: ScanEnv, publishes: bool)

  /** The memory and the last published resources after the first n ticks. */
  ghost function ScanLoop(m: Memory, published: Resources, ticks: seq<Tick>, n: nat): (Memory, Resources)
    requires n <= |ticks|
  {
    if n == 0 then (m, published) else
      var (before, last) := ScanLoop(m, published, ticks, n - 1);
      var tick := ticks[n - 1];
      var after := Rescanned(before, tick.scan);
      (after, if IsChange(before, tick) && tick.publishes then after.resources else last)
  }

  ghost predicate IsChange(m: Memory, tick: Tick) {
    var after := Rescanned(m, tick.scan);
    after.npu != m.npu || after.vfio != m.vfio
  }

  /** runDeviceScan, over any finite number of ticks. */
  method RunDeviceScan(state: D.DeviceState, published: Resources, ticks: seq<Tick>) returns (last: Resources)
    requires state.Valid()
    modifies state
    ensures state.Valid() && state.disk == old(state.disk)
    ensures (state.View(), last) == ScanLoop(old(state.View()), published, ticks, |ticks|)
  {
    last := published;
    for i := 0 to |ticks|
      invariant state.Valid() && state.disk == old(state.disk)
      invariant (state.View(), last) == ScanLoop(old(state.View()), published, ticks, i)
    {
      ghost var before := state.View();
      var resources, changed, ok := state.RescanDevices(ticks[i].scan);
      assert changed <==> IsChange(before, ticks[i]);
      if ok && changed && ticks[i].publishes {
        last := resources;
      }
    }
  }

  /** A scan that changes neither list changes no published resources. */
  lemma RescannedCoherent(m: Memory, tick: Tick)
    ensures Coherent(m) ==> Coherent(Rescanned(m, tick.scan))
    ensures Rescanned(m, tick.scan).nodeName == m.nodeName
    ensures Coherent(m) && !IsChange(m, tick) ==> Rescanned(m, tick.scan).resources == m.resources
  {}

  /** Tick i can publish the inventory if it changes it. */
  ghost predicate ChangeIsPublished(m: Memory, published: Resources, ticks: seq<Tick>, i: nat)
    requires i < |ticks|
  {
    IsChange(ScanLoop(m, published, ticks, i).0, ticks[i]) ==> ticks[i].publishes
  }

  /** Tick i changes nothing. */
  ghost predicate TickIsQuiet(m: Memory, published: Resources, ticks: seq<Tick>, i: nat)
    requires i < |ticks|
  {
    !IsChange(ScanLoop(m, published, ticks, i).0, ticks[i])
  }

  /** As long as every changed inventory could be published, what was last
      published is the current inventory. */
  lemma {:induction false} PublishedIsCurrent(m: Memory, ticks: seq<Tick>, n: nat)
    requires Coherent(m) && n <= |ticks|
    requires forall i: nat :: i < n ==> ChangeIsPublished(m, m.resources, ticks, i)
    ensures var (after, last) := ScanLoop(m, m.resources, ticks, n);
            Coherent(after) && after.nodeName == m.nodeName && last == after.resources
  {
    hide Rescanned, IsChange;
    if n > 0 {
      PublishedIsCurrent(m, ticks, n - 1);
      var (before, last) := ScanLoop(m, m.resources, ticks, n - 1);
      RescannedCoherent(before, ticks[n - 1]);
      assert ChangeIsPublished(m, m.resources, ticks, n - 1);
    }
  }

  /** Failed reads over any number of ticks: while every tick only reads what a
      well-formed sysfs showed, or fails to, the inventory of the last full scan stays. */
  lemma {:induction false} FailingTicksKeepInventory(m: Memory, published: Resources, ticks: seq<Tick>, n: nat,
                                                     known: set<string>, sys: Sysfs, inventory: Option<seq<SmiDevice>>)
    requires n <= |ticks| && WellFormed(sys) && (inventory.Some? ==> IsSmiInventory(inventory.value))
    requires ShowsScanOf(m, known, sys, inventory)
    requires forall i: nat :: i < n ==> OnlyReadsFail(sys, inventory, ticks[i].scan)
    ensures var after := ScanLoop(m, published, ticks, n).0;
            && SameIdentities(m.npu, after.npu) && SameIdentities(m.vfio, after.vfio)
            && ShowsScanOf(after, known, sys, inventory)
  {
    hide Rescanned, ShowsScanOf, OnlyReadsFail, IsChange, WellFormed;
    if n > 0 {
      FailingTicksKeepInventory(m, published, ticks, n - 1, known, sys, inventory);
      var before := ScanLoop(m, published, ticks, n - 1).0;
      assert OnlyReadsFail(sys, inventory, ticks[n - 1].scan);
      ReadFailuresKeepInventory(before, known, sys, inventory, ticks[n - 1].scan);
    }
  }

  /** A publication that failed is not retried: until the inventory changes
      again, the old resources stay published. */
  lemma {:induction false} FailedPublicationStays(m: Memory, published: Resources, ticks: seq<Tick>, n: nat)
    requires 0 < n <= |ticks| && !ticks[0].publishes
    requires forall i: nat :: 0 < i < n ==> TickIsQuiet(m, published, ticks, i)
    ensures ScanLoop(m, published, ticks, n).1 == published
  {
    hide Rescanned;
    if n > 1 {
      FailedPublicationStays(m, published, ticks, n - 1);
      assert TickIsQuiet(m, published, ticks, n - 1);
    } else {
      assert ScanLoop(m, published, ticks, 0) == (m, published);
    }
  }
}
