/** The driver's state object: the published inventory and the stores, with the
    operations that replace them. */
module DeviceState {
  import opened Text
  import opened Sysfs
  import opened Devices
  import opened Discovery
  import opened Snapshot
  import opened Validation
  import opened Storage
  import opened Metadata
  import opened Preparation

  class DeviceState {
    const nodeName: string
    var npuDevices: seq<Device>
    var vfioDevices: seq<Device>
    var allocatable: map<string, Device>
    var driverResources: Resources
    var scan: ScanStatus
    var disk: Fs

    ghost function View(): Memory
      reads this
    {
      Memory(nodeName, npuDevices, vfioDevices, allocatable, driverResources, scan)
    }

    ghost predicate Valid()
      reads this
    {
      Coherent(View())
    }

    /** The inventory half of NewDeviceState: a failed enumeration of either
        kind leaves that kind out. */
    constructor (nodeName: string, env: ScanEnv, disk: Fs)
      ensures this.disk == disk
      ensures View() == Started(nodeName, env)
      ensures Valid()
    {
      this.nodeName := nodeName;
      this.disk := disk;
      this.npuDevices, this.vfioDevices := [], [];
      this.allocatable := map[];
      this.driverResources := Resources(nodeName, []);
      this.scan := ScanStatus(false, false);
      new;
      var vfio := EnumerateVfioDevices(env.atVfio, {});
      if vfio.Some? {
        vfioDevices := vfio.value;
      }
      var candidates := CountNativeCandidates(env.atCount, {});
      if candidates.None? || candidates.value > 0 {
        var npu: Option<seq<Device>> := None;
        if env.inventory.Some? {
          npu := NpuDevicesFromInventory(env.atNative, env.inventory.value);
        }
        if npu.Some? {
          npuDevices := npu.value;
        }
        scan := ScanStatus(false, npu.None?);
      }
      RebuildResources();
    }

    /** The checkpoint half of NewDeviceState; on failure no state is returned. */
    method SyncCheckpoint() returns (ok: bool)
      modifies this`disk
      ensures IO(disk, ok) == EnsureCheckpoint(old(disk))
    {
      var listed := !disk.Fails();
      var present := disk.checkpoint.Some?;
      disk := disk.Next();
      if !listed {
        return false;
      }
      if present {
        return true;
      }
      var IO(next, written) := disk.WriteCheckpoint(map[]);
      disk := next;
      return written;
    }

    /** rebuildResources. */
    method RebuildResources()
      modifies this`allocatable, this`driverResources
      ensures Valid()
    {
      var devices := npuDevices + vfioDevices;
      var byName: map<string, Device> := map[];
      for i := 0 to |devices|
        invariant byName == Index(devices[..i])
      {
        assert devices[..i + 1][..i] == devices[..i];
        byName := byName[devices[i].name := devices[i]];
      }
      assert devices[..|devices|] == devices;
      allocatable := byName;
      driverResources := Resources(nodeName, devices);
    }

    /** The addresses RescanDevices already knows from the published inventory. */
    method KnownFromInventory() returns (known: set<string>)
      ensures known == KnownBuses(allocatable)
    {
      known := {};
      var todo := allocatable.Keys;
      while todo != {}
        invariant todo <= allocatable.Keys
        invariant known == KnownBuses(map n | n in allocatable && n !in todo :: allocatable[n])
        decreases |todo|
      {
        var name :| name in todo;
        ghost var before := map n | n in allocatable && n !in todo :: allocatable[n];
        todo := todo - {name};
        ghost var after := map n | n in allocatable && n !in todo :: allocatable[n];
        var bus, parent := StringAttr(allocatable[name], PciBusID), StringAttr(allocatable[name], ParentPciBusID);
        KnownStep(before, name, allocatable[name]);
        assert after == before[name := allocatable[name]];
        if bus != "" {
          known := known + {Lower(bus)};
        }
        if parent != "" {
          known := known + {Lower(parent)};
        }
      }
      assert (map n | n in allocatable && n !in todo :: allocatable[n]) == allocatable;
    }

    /** The native half of RescanDevices. */
    method RescanNative(candidates: nat, env: ScanEnv) returns (npu: Option<seq<Device>>)
      ensures npu == NativeHalf(candidates > 0, env)
    {
      if candidates == 0 {
        return Some([]);
      }
      if env.inventory.None? {
        return None;
      }
      npu := NpuDevicesFromInventory(env.atNative, env.inventory.value);
    }

    /** RescanDevices: the state after the call is the one the scan describes,
        the result is the published resources, and `changed` says whether either
        list is new. */
    method RescanDevices(env: ScanEnv) returns (resources: Resources, changed: bool, ok: bool)
      requires Valid()
      modifies this
      ensures Valid() && disk == old(disk)
      ensures View() == Rescanned(old(View()), env)
      ensures resources == driverResources
      ensures ok <==> ScanPair(old(KnownBuses(allocatable)), env).Some?
      ensures changed <==> ok && (npuDevices != old(npuDevices) || vfioDevices != old(vfioDevices))
    {
      var known := KnownFromInventory();
      var vfio := EnumerateVfioDevices(env.atVfio, known);
      var candidates: Option<nat> := None;
      if vfio.Some? {
        candidates := CountNativeCandidates(env.atCount, known);
      }
      if candidates.None? {
        scan := scan.(sysfsFailing := true);
        return driverResources, false, false;
      }
      scan := scan.(sysfsFailing := false);
      var npu := RescanNative(candidates.value, env);
      scan := scan.(npuFailing := npu.None?);
      if npu.None? {
        return driverResources, false, false;
      }
      var distinct := HasDistinctBuses(npu.value + vfio.value);
      if !distinct {
        return driverResources, false, false;
      }
      changed := npu.value != npuDevices || vfio.value != vfioDevices;
      if changed {
        npuDevices, vfioDevices := npu.value, vfio.value;
        RebuildResources();
      }
      return driverResources, changed, true;
    }

    /** claimHasVfioDevice. */
    method ClaimHasVfioDevice(claim: Claim) returns (found: bool)
      requires claim.allocation.Some?
      ensures found <==> HasVfio(View(), claim.allocation.value)
    {
      var results := claim.allocation.value;
      for i := 0 to |results|
        invariant forall a :: a in results[..i] && a.driver == DRIVER_NAME ==> !IsVfioResult(View(), a)
      {
        if results[i].driver == DRIVER_NAME && results[i].device in allocatable && IsVfio(allocatable[results[i].device]) {
          assert results[i] in results;
          return true;
        }
      }
      assert results[..|results|] == results;
      return false;
    }

    /** The first loop of prepareDevices: the driver's own results, if all are admissible. */
    method AdmitResults(results: seq<Allocated>, sys: Sysfs) returns (own: Option<seq<Allocated>>)
      ensures own == if AllAdmissible(View(), sys, results) then Some(Own(results)) else None
      ensures own.Some? <==>
                forall a :: a in results && a.driver == DRIVER_NAME ==>
                  a.device in allocatable && a.pool == nodeName && Usable(sys, allocatable[a.device])
    {
      var found: seq<Allocated> := [];
      for i := 0 to |results|
        invariant AllAdmissible(View(), sys, results[..i])
        invariant found == Own(results[..i])
      {
        var a := results[i];
        assert results[..i + 1] == results[..i] + [a];
        assert results[..i + 1][..i] == results[..i];
        assert a in results;
        if a.driver == DRIVER_NAME {
          if a.device !in allocatable || a.pool != nodeName || !Usable(sys, allocatable[a.device]) {
            assert !Admissible(View(), sys, a);
            return None;
          }
          found := found + [a];
        }
      }
      assert results[..|results|] == results;
      return Some(found);
    }

    /** The second loop of prepareDevices. */
    method CollectBuses(own: seq<Allocated>) returns (buses: seq<string>)
      requires AllListed(View(), own)
      ensures buses == NativeBuses(View(), own)
    {
      buses := [];
      for i := 0 to |own|
        invariant buses == NativeBuses(View(), own[..i])
      {
        assert own[..i + 1][..i] == own[..i];
        assert own[i] in own;
        if !IsVfio(allocatable[own[i].device]) {
          buses := buses + [StringAttr(allocatable[own[i].device], PciBusID)];
        }
      }
      assert own[..|own|] == own;
    }

    /** The body of the last loop of prepareDevices, for one result. */
    method BuildDevice(claim: Claim, a: Allocated, host: string, env: PrepareEnv, inject: bool, mount: bool)
      returns (device: Option<PreparedDevice>)
      requires a.device in allocatable
      requires mount ==> IsVfio(allocatable[a.device])
      ensures device == if NodesOf(View(), a, host, env).None? then None
                        else Some(PreparedWith(View(), claim, a, NodesOf(View(), a, host, env).value, env, inject, mount))
    {
      var vfio := IsVfio(allocatable[a.device]);
      var mounts: seq<Mount> := [];
      var nodes: Option<seq<DeviceNode>>;
      if vfio {
        if mount {
          mounts := KubevirtMetadataMounts(claim, MainRequest(a));
        }
        nodes := VfioContainerNodes(allocatable[a.device], env);
      } else {
        nodes := NativeNodes(allocatable[a.device], host, env);
      }
      if nodes.None? {
        return None;
      }
      var all := nodes.value;
      if inject {
        all := all + (if env.rds.Some? then env.rds.value else []);
      }
      return Some(PreparedDevice([a.request], a.pool, a.device, ClaimDeviceIDs(claim.uid, a.device, !vfio), Edits(all, mounts)));
    }

    /** The last loop of prepareDevices: container edits per result, with the
        RDS nodes and each request's mounts injected once. */
    method BuildDevices(claim: Claim, own: seq<Allocated>, host: string, env: PrepareEnv) returns (devices: Option<seq<PreparedDevice>>)
      requires AllListed(View(), own)
      ensures devices == if NodesReady(View(), own, host, env)
                         then Some(PreparedList(View(), claim, own, host, env)) else None
    {
      hide Preparation.PreparedAt, Preparation.PreparedWith, Preparation.NodesOf, Preparation.FlagsAt;
      ghost var m := View();
      FlagsInitially(m, own);
      var mounted: set<string> := {};
      var rdsInjected := false;
      var found: seq<PreparedDevice> := [];
      for i := 0 to |own|
        invariant forall j: nat :: j < i ==> NodesOf(m, own[j], host, env).Some?
        invariant |found| == i
        invariant forall j: nat :: j < i ==> found[j] == PreparedAt(m, claim, own, host, env, j)
        invariant FlagsAt(m, own, i, rdsInjected, mounted)
      {
        var a := own[i];
        FlagsDecide(m, own, i, rdsInjected, mounted);
        var vfio := IsVfio(allocatable[a.device]);
        var inject, mount := !vfio && !rdsInjected, vfio && MainRequest(a) !in mounted;
        var device := BuildDevice(claim, a, host, env, inject, mount);
        if device.None? {
          return None;
        }
        FlagsPrepare(m, claim, own, host, env, i, rdsInjected, mounted);
        found := found + [device.value];
        if vfio {
          mounted := mounted + {MainRequest(a)};
        } else {
          rdsInjected := true;
        }
      }
      assert found == PreparedList(m, claim, own, host, env);
      return Some(found);
    }

    /** prepareDevices. */
    method PrepareDevices(claim: Claim, env: PrepareEnv) returns (devices: Option<seq<PreparedDevice>>)
      modifies this`disk
      ensures IO(disk, devices) == Preparation.PrepareDevices(View(), old(disk), claim, env)
    {
      if claim.allocation.None? {
        return None;
      }
      var own := AdmitResults(claim.allocation.value, env.sys);
      if own.None? {
        return None;
      }
      OwnListed(View(), env.sys, claim.allocation.value);
      var buses := CollectBuses(own.value);
      var IO(grouped, host) := GroupPath(disk, buses, env);
      disk := grouped;
      if host.None? {
        return None;
      }
      devices := BuildDevices(claim, own.value, host.value, env);
    }

    /** rollbackKubeVirtMetadata. */
    method RollbackKubeVirtMetadata(uid: string)
      modifies this`disk
      ensures disk == Rollback(old(disk), uid)
    {
      var cleanup := RemoveKubeVirtMetadataForClaim(disk, uid);
      disk := cleanup.fs;
      if !cleanup.value {
        disk := disk.(abandoned := disk.abandoned + {uid});
      }
    }

    /** The commit steps of Prepare, each failure rolling the metadata back. */
    method CommitClaim(claim: Claim, env: PrepareEnv, claims: Claims, devices: seq<PreparedDevice>) returns (ok: bool)
      requires claim.allocation.Some?
      modifies this`disk
      ensures IO(disk, ok) == Commit(View(), old(disk), claim, env, claims, devices)
    {
      hide Metadata.WriteMetadata, Preparation.Rollback, Storage.ClaimSpec, Preparation.HasVfio;
      var vfio := ClaimHasVfioDevice(claim);
      if vfio {
        var published := WriteKubeVirtMetadata(disk, claim, allocatable, env.order, env.cut);
        disk := published.fs;
        if !published.value {
          RollbackKubeVirtMetadata(claim.uid);
          return false;
        }
      }
      var specified := CreateClaimSpecFile(disk, claim.uid, devices);
      disk := specified.fs;
      if !specified.value {
        RollbackKubeVirtMetadata(claim.uid);
        return false;
      }
      var IO(recorded, saved) := disk.WriteCheckpoint(claims[claim.uid := devices]);
      disk := recorded;
      if !saved {
        RollbackKubeVirtMetadata(claim.uid);
        return false;
      }
      return true;
    }

    /** Prepare: a checkpointed claim is replayed, any other is prepared and committed. */
    method Prepare(claim: Claim, env: PrepareEnv) returns (devices: Option<seq<PreparedDevice>>)
      modifies this`disk
      ensures IO(disk, devices) == Preparation.Prepare(View(), old(disk), claim, env)
    {
      var IO(read, claims) := disk.ReadCheckpoint();
      disk := read;
      if claims.None? {
        return None;
      }
      if IsPrepared(claims.value, claim.uid) {
        return Some(claims.value[claim.uid]);
      }
      devices := PrepareDevices(claim, env);
      if devices.None? {
        return None;
      }
      var ok := CommitClaim(claim, env, claims.value, devices.value);
      if !ok {
        return None;
      }
    }

    /** Unprepare: tears down what the checkpoint records, the entry last. */
    method Unprepare(uid: string) returns (ok: bool)
      modifies this`disk
      ensures IO(disk, ok) == Preparation.Unprepare(old(disk), uid)
    {
      var IO(read, claims) := disk.ReadCheckpoint();
      disk := read;
      if claims.None? {
        return false;
      }
      if !IsPrepared(claims.value, uid) {
        return true;
      }
      var IO(unspecified, removed) := disk.RemoveSpec(uid);
      disk := unspecified;
      if !removed {
        return false;
      }
      var cleanup := RemoveKubeVirtMetadataForClaim(disk, uid);
      disk := cleanup.fs;
      if !cleanup.value {
        return false;
      }
      var IO(saved, written) := disk.WriteCheckpoint(claims.value - {uid});
      disk := saved;
      return written;
    }
  }

  lemma KnownStep(before: map<string, Device>, name: string, d: Device)
    requires name !in before
    ensures KnownBuses(before[name := d]) ==
            KnownBuses(before) +
            (if StringAttr(d, PciBusID) != "" then {Lower(StringAttr(d, PciBusID))} else {}) +
            (if StringAttr(d, ParentPciBusID) != "" then {Lower(StringAttr(d, ParentPciBusID))} else {})
  {
    var after := before[name := d];
    assert forall n :: n in before ==> after[n] == before[n];
    assert name in after && after[name] == d;
  }

  /** The duplicate check of RescanDevices. */
  method HasDistinctBuses(devices: seq<Device>) returns (distinct: bool)
    ensures distinct <==> DistinctBuses(devices)
  {
    var seen: set<string> := {};
    for i := 0 to |devices|
      invariant DistinctBuses(devices[..i])
      invariant forall b :: b in seen <==> exists j :: 0 <= j < i && Bus(devices[j]) == b
    {
      if Bus(devices[i]) in seen {
        return false;
      }
      seen := seen + {Bus(devices[i])};
    }
    assert devices[..|devices|] == devices;
    return true;
  }
}
