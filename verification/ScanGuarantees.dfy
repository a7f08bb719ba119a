/** What holds of every scan: read failures never shrink the inventory, the
    rbln-smi gate is sound, no function is offered twice, names are identities. */
module ScanGuarantees {
  import opened Text
  import opened Sysfs
  import opened Devices
  import opened Sriov
  import opened Discovery
  import opened Snapshot
  import opened Validation

  // ---- published names are unique ------------------------------------------------

  predicate EndsWith(s: string, t: string) {
    |s| >= |t| && s[|s| - |t|..] == t
  }

  /** A name rbln-smi gives a device: not shaped like a passthrough name and
      without a partition suffix of its own. */
  predicate IsSmiName(s: string) {
    !("vfio-" <= s) && !EndsWith(s, "-vf1") && !EndsWith(s, "-vf4")
  }

  predicate IsSmiInventory(inventory: seq<SmiDevice>) {
    && (forall i: nat, j: nat | i < j < |inventory| :: inventory[i].name != inventory[j].name)
    && (forall i: nat | i < |inventory| :: IsSmiName(inventory[i].name))
  }

  lemma SmallItoa()
    ensures Itoa(1) == "1" && Itoa(4) == "4"
  {}

  lemma SuffixOf(base: string, info: SriovInfo)
    requires info.IsVF() && info.numVFs in {1, 4}
    ensures var name, suffix := info.DeviceName(base), (if info.numVFs == 1 then "-vf1" else "-vf4");
            name == base + suffix && name[..|name| - 4] == base && EndsWith(name, suffix)
  {
    SmallItoa();
    assert "-" + ("vf" + "1") == "-vf1" && "-" + ("vf" + "4") == "-vf4";
    assert info.DeviceName(base) == base + ("-" + ("vf" + Itoa(info.numVFs)));
  }

  lemma NativeNamesDiffer(a: string, s: SriovInfo, b: string, t: SriovInfo)
    requires IsSmiName(a) && IsSmiName(b) && a != b
    requires s.IsVF() ==> s.numVFs in {1, 4}
    requires t.IsVF() ==> t.numVFs in {1, 4}
    ensures s.DeviceName(a) != t.DeviceName(b)
  {
    if s.IsVF() { SuffixOf(a, s); }
    if t.IsVF() { SuffixOf(b, t); }
  }

  lemma NativeAndVfioNamesDiffer(a: string, s: SriovInfo, bus: string, t: SriovInfo)
    requires IsSmiName(a)
    requires s.IsVF() ==> s.numVFs in {1, 4}
    requires IsPciAddress(bus)
    ensures s.DeviceName(a) != t.DeviceName(VfioDeviceName(bus))
  {
    var x, y := s.DeviceName(a), t.DeviceName(VfioDeviceName(bus));
    VfioBaseInjective(bus, bus);
    assert y[..5] == VfioDeviceName(bus)[..5] == "vfio-";
    assert |y| >= 17;
    if s.IsVF() { SuffixOf(a, s); }
    assert |x| >= 17 ==> x[..5] == a[..5];
  }

  lemma VfioNamesDistinct(sys: Sysfs, known: set<string>)
    requires WellFormed(sys) && VfioDevices(sys, known).Some?
    ensures DistinctNames(VfioDevices(sys, known).value)
  {
    var names := sys.entries.value;
    var os := VfioOutcomes(sys, known, names);
    forall i, j | 0 <= i < j < |os| && os[i].Publish? && os[j].Publish? ensures os[i].device.name != os[j].device.name {
      VfioPublish(sys, known, names[i]);
      VfioPublish(sys, known, names[j]);
      VfioNameIdentity(names[i], ProbeSriov(sys, names[i]).value, names[j], ProbeSriov(sys, names[j]).value);
      assert Lower(names[i]) == names[i] && Lower(names[j]) == names[j];
    }
    PublishedNamesDistinct(os);
  }

  lemma NativeNamesDistinct(sys: Sysfs, inventory: seq<SmiDevice>)
    requires IsSmiInventory(inventory) && NativeDevices(sys, inventory).Some?
    ensures DistinctNames(NativeDevices(sys, inventory).value)
  {
    var os := NativeOutcomes(sys, inventory);
    forall i, j | 0 <= i < j < |os| && os[i].Publish? && os[j].Publish? ensures os[i].device.name != os[j].device.name {
      NativePublish(sys, inventory[i]);
      NativePublish(sys, inventory[j]);
      NativeNamesDiffer(inventory[i].name, ProbeSriov(sys, inventory[i].bus).value,
                        inventory[j].name, ProbeSriov(sys, inventory[j].bus).value);
    }
    PublishedNamesDistinct(os);
  }

  /** No two devices of one scan share a name, whichever kind they are. */
  lemma ScannedNamesDistinct(known: set<string>, env: ScanEnv)
    requires WellFormed(env.atVfio) && (env.inventory.Some? ==> IsSmiInventory(env.inventory.value))
    requires ScanPair(known, env).Some?
    ensures DistinctNames(ScanPair(known, env).value.0 + ScanPair(known, env).value.1)
  {
    var (npu, vfio) := ScanPair(known, env).value;
    VfioNamesDistinct(env.atVfio, known);
    if npu != [] {
      NativeNamesDistinct(env.atNative, env.inventory.value);
    }
    forall d, e | d in npu && e in vfio ensures d.name != e.name {
      var i, s := NativeSource(env.atNative, env.inventory.value, d);
      var bus, t, group := VfioSource(env.atVfio, known, e);
      NativeAndVfioNamesDiffer(env.inventory.value[i].name, s, bus, t);
    }
  }

  // ---- read failures never shrink the inventory ------------------------------------

  lemma KnownHas(devices: seq<Device>, d: Device)
    requires DistinctNames(devices) && d in devices && StringAttr(d, PciBusID) != ""
    ensures Bus(d) in KnownBuses(Index(devices))
  {
    IndexHas(devices, d);
    assert d.name in Index(devices) && StringAttr(Index(devices)[d.name], PciBusID) != "";
  }

  lemma VfioLayoutDegrades(before: Sysfs, after: Sysfs, bus: string)
    requires Degraded(before, after)
    ensures VfioLayout(after, bus).Abort? || SameOutcome(VfioLayout(before, bus), VfioLayout(after, bus))
  {
    assert WorseFunction(before.at(bus), after.at(bus));
    ProbeDegrades(before, after, bus);
    GroupDegrades(before.at(bus), after.at(bus), bus);
  }

  lemma VfioOutcomeDegrades(before: Sysfs, known: set<string>, after: Sysfs, knownAfter: set<string>, bus: string)
    requires Degraded(before, after)
    requires !VfioOutcome(before, known, bus).Abort?
    requires VfioOutcome(before, known, bus).Publish? ==> Lower(bus) in knownAfter && Lower(bus) == bus
    ensures || VfioOutcome(after, knownAfter, bus).Abort?
            || SameOutcome(VfioOutcome(before, known, bus), VfioOutcome(after, knownAfter, bus))
  {
    assert WorseFunction(before.at(bus), after.at(bus));
    VfioLayoutDegrades(before, after, bus);
  }

  lemma NativeOutcomeDegrades(before: Sysfs, after: Sysfs, d: SmiDevice)
    requires Degraded(before, after)
    ensures NativeOutcome(after, d).Abort? || SameOutcome(NativeOutcome(before, d), NativeOutcome(after, d))
  {
    assert WorseFunction(before.at(Lower(d.bus)), after.at(Lower(d.bus)));
    ProbeDegrades(before, after, d.bus);
  }

  lemma CandidateDegrades(before: Sysfs, known: set<string>, after: Sysfs, knownAfter: set<string>, dir: string)
    requires Degraded(before, after)
    requires Candidate(before, known, dir) == Ok(false)
    ensures Candidate(after, knownAfter, dir) != Ok(true)
  {
    assert WorseFunction(before.at(dir), after.at(dir));
  }

  /** A natively published function keeps opening the gate, or its reads fail the scan. */
  lemma PublishedNativeIsCandidate(before: Sysfs, after: Sysfs, known: set<string>, e: SmiDevice)
    requires WellFormed(before) && Degraded(before, after)
    requires NativeOutcome(before, e).Publish? && Lower(e.bus) in known
    ensures before.entries.Ok? && Lower(e.bus) in before.entries.value
    ensures Candidate(after, known, Lower(e.bus)).Err? || Candidate(after, known, Lower(e.bus)) == Ok(true)
  {
    var dir := Lower(e.bus);
    NativePublish(before, e);
    LowerIdempotent(e.bus);
    LowerAddress(e.bus);
    assert NativeIsListed(before, dir);
    assert WorseFunction(before.at(dir), after.at(dir));
    var info := ProbeSriov(before, e.bus).value;
    assert info.IsVF() ==> before.at(dir).physfnStat.Ok?;
  }

  lemma VfioHalfDegrades(before: Sysfs, known: set<string>, after: Sysfs, knownAfter: set<string>)
    requires WellFormed(before) && Degraded(before, after) && VfioDevices(before, known).Some?
    requires forall d :: d in VfioDevices(before, known).value ==> Bus(d) in knownAfter
    ensures VfioDevices(after, knownAfter).Some? ==>
              SameIdentities(VfioDevices(before, known).value, VfioDevices(after, knownAfter).value)
  {
    if VfioDevices(after, knownAfter).Some? {
      var names := before.entries.value;
      var os, ps := VfioOutcomes(before, known, names), VfioOutcomes(after, knownAfter, names);
      forall i | 0 <= i < |names| ensures SameOutcome(os[i], ps[i]) {
        assert os[i] != Abort && ps[i] != Abort;
        if os[i].Publish? {
          VfioPublish(before, known, names[i]);
          PublishedHas(os, i);
          VfioAttributes(before, names[i], ProbeSriov(before, names[i]).value, IsolatedGroup(before.at(names[i]), names[i]).value);
          assert Bus(os[i].device) == Lower(names[i]);
        }
        VfioOutcomeDegrades(before, known, after, knownAfter, names[i]);
      }
      SamePublished(os, ps);
    }
  }

  lemma NativeListDegrades(before: Sysfs, after: Sysfs, inventory: seq<SmiDevice>)
    requires Degraded(before, after)
    requires NativeDevices(before, inventory).Some? && NativeDevices(after, inventory).Some?
    ensures SameIdentities(NativeDevices(before, inventory).value, NativeDevices(after, inventory).value)
  {
    var os, ps := NativeOutcomes(before, inventory), NativeOutcomes(after, inventory);
    forall i | 0 <= i < |inventory| ensures SameOutcome(os[i], ps[i]) {
      assert ps[i] != Abort;
      NativeOutcomeDegrades(before, after, inventory[i]);
    }
    SamePublished(os, ps);
  }

  /** A closed gate stays closed when reads fail. */
  lemma ClosedGateDegrades(before: Sysfs, known: set<string>, after: Sysfs, knownAfter: set<string>)
    requires Degraded(before, after)
    requires Gate(before, known) == Some(false)
    ensures Gate(after, knownAfter) != Some(true)
  {
    if Gate(after, knownAfter) == Some(true) {
      var names := before.entries.value;
      var j :| 0 <= j < |names| && Candidate(after, knownAfter, names[j]) == Ok(true);
      assert names[j] in names;
      CandidateDegrades(before, known, after, knownAfter, names[j]);
    }
  }

  /** A gate that let a native device through stays open, or the scan fails. */
  lemma OpenGateDegrades(before: Sysfs, after: Sysfs, known: set<string>, inventory: seq<SmiDevice>, d: Device)
    requires WellFormed(before) && Degraded(before, after)
    requires NativeDevices(before, inventory).Some? && d in NativeDevices(before, inventory).value
    requires Bus(d) in known
    ensures Gate(after, known) != Some(false)
  {
    var i, info := NativeSource(before, inventory, d);
    var e := inventory[i];
    PublishedNativeIsCandidate(before, after, known, e);
    if Gate(after, known).Some? {
      var j :| 0 <= j < |before.entries.value| && before.entries.value[j] == Lower(e.bus);
      assert Candidate(after, known, after.entries.value[j]).Ok?;
    }
  }

  /** The whole native half, gate included. */
  lemma NativeHalfDegrades(before: Sysfs, known: set<string>, inventory: Option<seq<SmiDevice>>,
                           atCount: Sysfs, atNative: Sysfs, knownAfter: set<string>)
    requires WellFormed(before) && Degraded(before, atCount) && Degraded(before, atNative)
    requires Gate(before, known).Some?
    requires NativeHalf(Gate(before, known).value, ScanEnv(before, before, inventory, before)).Some?
    requires forall d :: d in NativeHalf(Gate(before, known).value, ScanEnv(before, before, inventory, before)).value ==>
                           Bus(d) in knownAfter
    requires Gate(atCount, knownAfter).Some?
    ensures var npu := NativeHalf(Gate(before, known).value, ScanEnv(before, before, inventory, before)).value;
            var next := NativeHalf(Gate(atCount, knownAfter).value, ScanEnv(before, atCount, inventory, atNative));
            next.Some? ==> SameIdentities(npu, next.value)
  {
    if Gate(before, known) == Some(false) {
      ClosedGateDegrades(before, known, atCount, knownAfter);
    } else {
      var npu := NativeDevices(before, inventory.value).value;
      if npu != [] {
        OpenGateDegrades(before, atCount, knownAfter, inventory.value, npu[0]);
      }
      if NativeDevices(atNative, inventory.value).Some? {
        NativeListDegrades(before, atNative, inventory.value);
      }
    }
  }

  /** The inventory is, up to descriptive attributes, the pair that a scan of
      the given sysfs committed. */
  ghost predicate ShowsScanOf(m: Memory, known: set<string>, sys: Sysfs, inventory: Option<seq<SmiDevice>>) {
    var pair := ScanPair(known, ScanEnv(sys, sys, inventory, sys));
    Coherent(m) && pair.Some? && SameIdentities(m.npu, pair.value.0) && SameIdentities(m.vfio, pair.value.1)
  }

  /** Every phase of a scan reads what the sysfs showed or fails, and rbln-smi answers the given list. */
  ghost predicate OnlyReadsFail(sys: Sysfs, inventory: Option<seq<SmiDevice>>, env: ScanEnv) {
    && env.inventory == inventory
    && Degraded(sys, env.atVfio) && Degraded(sys, env.atCount) && Degraded(sys, env.atNative)
  }

  lemma ShownBusesAreKnown(m: Memory, known: set<string>, sys: Sysfs, inventory: Option<seq<SmiDevice>>, d: Device)
    requires WellFormed(sys) && (inventory.Some? ==> IsSmiInventory(inventory.value))
    requires ShowsScanOf(m, known, sys, inventory)
    requires var pair := ScanPair(known, ScanEnv(sys, sys, inventory, sys)).value; d in pair.0 + pair.1
    ensures Bus(d) in KnownBuses(m.allocatable)
  {
    hide Snapshot.KnownBuses, Snapshot.ScanPair, Snapshot.Index, WellFormed;
    var env := ScanEnv(sys, sys, inventory, sys);
    var pair := ScanPair(known, env).value;
    var devices, shown := pair.0 + pair.1, m.npu + m.vfio;
    ScannedNamesDistinct(known, env);
    assert forall i :: 0 <= i < |devices| ==> SameIdentity(shown[i], devices[i]);
    assert DistinctNames(shown);
    var i :| 0 <= i < |devices| && devices[i] == d;
    ScannedDevicesHaveBuses(known, env, d);
    KnownHas(shown, shown[i]);
  }

  /** Failed reads never shrink the inventory. Let the inventory be what a scan
      of a well-formed sysfs published. If every later read answers as it
      did then or fails, and rbln-smi answers the same, the next scan keeps every name and
      every identity attribute, in order: it either fails and changes nothing or
      commits the same devices. */
  lemma ReadFailuresKeepInventory(m: Memory, known: set<string>, before: Sysfs, inventory: Option<seq<SmiDevice>>, env: ScanEnv)
    requires WellFormed(before) && (inventory.Some? ==> IsSmiInventory(inventory.value))
    requires ShowsScanOf(m, known, before, inventory) && OnlyReadsFail(before, inventory, env)
    ensures var r := Rescanned(m, env);
            && SameIdentities(m.npu, r.npu) && SameIdentities(m.vfio, r.vfio)
            && ShowsScanOf(r, known, before, inventory)
            && (ScanPair(KnownBuses(m.allocatable), env).None? ==> r == m.(status := r.status))
  {
    hide Discovery.VfioOutcome, Discovery.NativeOutcome, Discovery.Candidate, Snapshot.KnownBuses, Snapshot.Index;
    var pair, knownAfter := ScanPair(known, ScanEnv(before, before, inventory, before)).value, KnownBuses(m.allocatable);
    forall d | d in pair.0 + pair.1 ensures Bus(d) in knownAfter {
      ShownBusesAreKnown(m, known, before, inventory, d);
    }
    if ScanPair(knownAfter, env).Some? {
      VfioHalfDegrades(before, known, env.atVfio, knownAfter);
      NativeHalfDegrades(before, known, inventory, env.atCount, env.atNative, knownAfter);
    }
  }

  lemma ScannedDevicesHaveBuses(known: set<string>, env: ScanEnv, d: Device)
    requires ScanPair(known, env).Some?
    requires d in ScanPair(known, env).value.0 + ScanPair(known, env).value.1
    ensures IsPciAddress(StringAttr(d, PciBusID))
  {
    var (npu, vfio) := ScanPair(known, env).value;
    if d in vfio {
      var bus, info, group := VfioSource(env.atVfio, known, d);
    } else {
      var i, info := NativeSource(env.atNative, env.inventory.value, d);
    }
  }

  // ---- what a scan commits ---------------------------------------------------------------

  /** Exactly when the gate fails, and when it is open. */
  lemma GateExactly(sys: Sysfs, known: set<string>)
    ensures Gate(sys, known).Some? <==> sys.entries.Ok? && forall e :: e in sys.entries.value ==> !CountFails(sys, known, e)
    ensures Gate(sys, known) == Some(true) <==>
              Gate(sys, known).Some? && exists e :: e in sys.entries.value && IsNativeCandidate(sys, e)
  {
    hide Discovery.Candidate, IsNativeCandidate, CountFails;
    if sys.entries.Ok? {
      forall e | e in sys.entries.value
        ensures Candidate(sys, known, e).Ok? <==> !CountFails(sys, known, e)
        ensures Candidate(sys, known, e) == Ok(true) <==> IsNativeCandidate(sys, e)
      {
        CandidateExactly(sys, known, e);
        assert !Candidate(sys, known, e).Absent?;
      }
      if e :| e in sys.entries.value && IsNativeCandidate(sys, e) {
        var j :| 0 <= j < |sys.entries.value| && sys.entries.value[j] == e;
        assert Candidate(sys, known, sys.entries.value[j]) == Ok(true);
      }
    }
  }

  /** Exactly when the passthrough enumeration succeeds, and which devices it has. */
  lemma VfioDevicesExactly(sys: Sysfs, known: set<string>, d: Device)
    ensures VfioDevices(sys, known).Some? <==>
              sys.entries.Ok? && forall e :: e in sys.entries.value ==> !VfioOutcome(sys, known, e).Abort?
    ensures VfioDevices(sys, known).Some? ==>
              (d in VfioDevices(sys, known).value <==>
                 exists e :: e in sys.entries.value && VfioOutcome(sys, known, e) == Publish(d))
  {
    if sys.entries.Ok? {
      var names := sys.entries.value;
      var os := VfioOutcomes(sys, known, names);
      forall e | e in names ensures VfioOutcome(sys, known, e) in os {
        var i :| 0 <= i < |names| && names[i] == e;
        assert os[i] == VfioOutcome(sys, known, e);
      }
      forall e | e in names && VfioOutcome(sys, known, e) == Publish(d) ensures d in Published(os) {
        var i :| 0 <= i < |os| && os[i] == Publish(d);
        PublishedHas(os, i);
      }
      if d in Published(os) {
        PublishedFrom(os, d);
      }
    }
  }

  /** The native counterpart. */
  lemma NativeDevicesExactly(sys: Sysfs, inventory: seq<SmiDevice>, d: Device)
    ensures NativeDevices(sys, inventory).Some? <==> forall e :: e in inventory ==> !NativeOutcome(sys, e).Abort?
    ensures NativeDevices(sys, inventory).Some? ==>
              (d in NativeDevices(sys, inventory).value <==> exists e :: e in inventory && NativeOutcome(sys, e) == Publish(d))
  {
    var os := NativeOutcomes(sys, inventory);
    forall e | e in inventory ensures NativeOutcome(sys, e) in os {
      var i :| 0 <= i < |inventory| && inventory[i] == e;
      assert os[i] == NativeOutcome(sys, e);
    }
    forall e | e in inventory && NativeOutcome(sys, e) == Publish(d) ensures d in Published(os) {
      var i :| 0 <= i < |os| && os[i] == Publish(d);
      PublishedHas(os, i);
    }
    if d in Published(os) {
      PublishedFrom(os, d);
    }
  }

  /** Exactly when a scan commits, and what: the passthrough list, and the
      native list if some listed function is a candidate; without one rbln-smi does not matter. */
  lemma ScanCommitsExactly(known: set<string>, env: ScanEnv, npu: seq<Device>, vfio: seq<Device>)
    ensures ScanPair(known, env) == Some((npu, vfio)) <==>
              && VfioDevices(env.atVfio, known) == Some(vfio)
              && env.atCount.entries.Ok? && (forall e :: e in env.atCount.entries.value ==> !CountFails(env.atCount, known, e))
              && (if exists e :: e in env.atCount.entries.value && IsNativeCandidate(env.atCount, e)
                  then env.inventory.Some? && NativeDevices(env.atNative, env.inventory.value) == Some(npu)
                  else npu == [])
              && DistinctBuses(npu + vfio)
  {
    GateExactly(env.atCount, known);
    hide Discovery.Gate, CountFails, IsNativeCandidate;
  }

  /** A node whose functions are all bound elsewhere needs no rbln-smi: the
      scan commits its passthrough list whatever rbln-smi answers, even if it is not installed. */
  lemma PassthroughNodeNeedsNoSmi(known: set<string>, env: ScanEnv)
    requires WellFormed(env.atVfio) && VfioDevices(env.atVfio, known).Some?
    requires env.atCount.entries.Ok?
    requires forall e :: e in env.atCount.entries.value && IsPciAddress(e) ==>
                           && env.atCount.at(e).driver != Ok(NATIVE_DRIVER) && !env.atCount.at(e).driver.Err?
                           && !FailsPresent(env.atCount.at(e), env.atCount.at(e).vendor)
    ensures ScanPair(known, env) == Some(([], VfioDevices(env.atVfio, known).value))
  {
    var vfio := VfioDevices(env.atVfio, known).value;
    VfioBusesDistinct(env.atVfio, known);
    assert [] + vfio == vfio;
    ScanCommitsExactly(known, env, [], vfio);
  }

  /** The listing itself never yields a function twice. */
  lemma VfioBusesDistinct(sys: Sysfs, known: set<string>)
    requires WellFormed(sys) && VfioDevices(sys, known).Some?
    ensures DistinctBuses(VfioDevices(sys, known).value)
  {
    var names, vfio := sys.entries.value, VfioDevices(sys, known).value;
    var pos := PublishedInOrder(VfioOutcomes(sys, known, names));
    forall k, l | 0 <= k < l < |vfio| ensures Bus(vfio[k]) != Bus(vfio[l]) {
      var a, b := names[pos[k]], names[pos[l]];
      VfioPublish(sys, known, a);
      VfioPublish(sys, known, b);
      VfioAttributes(sys, a, ProbeSriov(sys, a).value, IsolatedGroup(sys.at(a), a).value);
      VfioAttributes(sys, b, ProbeSriov(sys, b).value, IsolatedGroup(sys.at(b), b).value);
      assert Lower(a) == a && Lower(b) == b;
    }
  }

  // ---- the rbln-smi gate ---------------------------------------------------------------

  /** Exactly when an inventory entry that can be published opens the gate. */
  lemma PublishedIsCandidateExactly(sys: Sysfs, known: set<string>, e: SmiDevice)
    requires NativeOutcome(sys, e).Publish?
    ensures Candidate(sys, known, Lower(e.bus)) == Ok(true) <==> CountsAsCandidate(sys.at(Lower(e.bus)))
  {
    NativePublish(sys, e);
    LowerAddress(e.bus);
  }

  /** An inventory entry that the native enumeration would publish but the candidate count does not see. */
  ghost predicate IsUnseen(sys: Sysfs, e: SmiDevice) {
    && NativeOutcome(sys, e).Publish?
    && !(sys.entries.Ok? && Lower(e.bus) in sys.entries.value && CountsAsCandidate(sys.at(Lower(e.bus))))
  }

  /** A closed gate withholds devices of some rbln-smi answer. */
  ghost predicate GateHides(sys: Sysfs, known: set<string>) {
    Gate(sys, known) == Some(false) &&
    exists inventory :: NativeDevices(sys, inventory).Some? && NativeDevices(sys, inventory).value != []
  }

  /** Exactly when the gate hides a device: it is closed and there is a
      publishable function that is not listed, has no readable Rebellions
      vendor, or has a VF count of its own. */
  lemma GateHidesExactly(sys: Sysfs, known: set<string>)
    ensures GateHides(sys, known) <==> Gate(sys, known) == Some(false) && exists e :: IsUnseen(sys, e)
  {
    if GateHides(sys, known) {
      var inventory :| NativeDevices(sys, inventory).Some? && NativeDevices(sys, inventory).value != [];
      var i, info := NativeSource(sys, inventory, NativeDevices(sys, inventory).value[0]);
      ClosedGateSeesNone(sys, known, inventory[i]);
    }
    if e :| IsUnseen(sys, e) {
      var os := NativeOutcomes(sys, [e]);
      PublishedHas(os, 0);
      assert Abort !in os;
      assert NativeDevices(sys, [e]).Some? && NativeDevices(sys, [e]).value != [];
    }
  }

  lemma ClosedGateSeesNone(sys: Sysfs, known: set<string>, e: SmiDevice)
    requires Gate(sys, known) == Some(false) && NativeOutcome(sys, e).Publish?
    ensures IsUnseen(sys, e)
  {
    hide Discovery.Candidate, Discovery.NativeOutcome;
    PublishedIsCandidateExactly(sys, known, e);
  }

  /** On a well-formed sysfs the candidate count sees every publishable function. */
  lemma WellFormedSeesAll(sys: Sysfs, e: SmiDevice)
    requires WellFormed(sys)
    ensures !IsUnseen(sys, e)
  {
    if NativeOutcome(sys, e).Publish? {
      NativePublish(sys, e);
      assert NativeIsListed(sys, Lower(e.bus));
      var info := ProbeSriov(sys, e.bus).value;
      assert info.IsVF() ==> sys.at(Lower(e.bus)).physfnStat.Ok?;
    }
  }

  /** On a well-formed sysfs, no candidate means no inventory entry could be published. */
  lemma ClosedGateHidesNothing(sys: Sysfs, known: set<string>, inventory: seq<SmiDevice>)
    requires WellFormed(sys) && Gate(sys, known) == Some(false)
    ensures NativeDevices(sys, inventory) in {None, Some([])}
  {
    GateHidesExactly(sys, known);
    forall e ensures !IsUnseen(sys, e) { WellFormedSeesAll(sys, e); }
  }

  /** The pair a scan would commit if rbln-smi were always asked. */
  ghost function UngatedPair(known: set<string>, env: ScanEnv): Option<(seq<Device>, seq<Device>)> {
    var vfio := VfioDevices(env.atVfio, known);
    var npu := NativeHalf(true, env);
    if vfio.None? || npu.None? || !DistinctBuses(npu.value + vfio.value) then None
    else Some((npu.value, vfio.value))
  }

  /** The gate is a sound shortcut: on a well-formed static sysfs whose required
      reads succeed, whatever the ungated scan commits the gated scan commits too.
      The two differ only where a closed gate spares the scan a failing rbln-smi
      or native read. */
  lemma GateIsSound(known: set<string>, sys: Sysfs, inventory: Option<seq<SmiDevice>>)
    requires WellFormed(sys) && Gate(sys, known).Some?
    ensures var env := ScanEnv(sys, sys, inventory, sys);
            && (UngatedPair(known, env).Some? ==> ScanPair(known, env) == UngatedPair(known, env))
            && (ScanPair(known, env) != UngatedPair(known, env) ==> Gate(sys, known) == Some(false) && NativeHalf(true, env).None?)
  {
    if Gate(sys, known) == Some(false) && inventory.Some? {
      ClosedGateHidesNothing(sys, known, inventory.value);
    }
  }

  /** The gate does hide devices: with one natively bound function whose vendor
      cannot be read, and which is not published yet, it is closed. */
  lemma GateNeedsReadableVendor()
    ensures exists sys: Sysfs :: GateHides(sys, {})
  {
    var bus := "0000:01:00.0";
    var f := PciFunction(Ok(()), Err, Ok(NATIVE_DRIVER), Ok(NPU_CLASS), Absent, Absent, Absent, Absent, Absent, "");
    var sys := Sysfs(Ok([bus]), _ => f);
    var d := SmiDevice("rbln0", bus, "");
    assert IsPciAddress(bus);
    assert Candidate(sys, {}, bus) == Ok(false);
    assert Gate(sys, {}) == Some(false);
    assert ProbeSriov(sys, bus) == Found(SriovInfo("", 0));
    assert IsUnseen(sys, d);
    GateHidesExactly(sys, {});
  }

  // ---- what is published, and to whom it can be given -------------------------------------

  /** Exactly when a listed function is published for passthrough: it is a
      Rebellions NPU bound to vfio-pci, not a PF that hosts VFs, with a supported
      layout, and alone in its IOMMU group. */
  lemma VfioPublishedExactly(sys: Sysfs, known: set<string>, bus: string)
    ensures var f, info := sys.at(bus), ProbeSriov(sys, bus);
            VfioOutcome(sys, known, bus).Publish? <==>
              && IsPciAddress(bus)
              && f.vendor.Ok? && EqualFold(TrimSpace(f.vendor.value), RBLN_VENDOR)
              && f.driver == Ok(VFIO_DRIVER) && Trimmed(f.pciClass) == Ok(NPU_CLASS)
              && info.Found? && (info.value.IsVF() || info.value.numVFs == 0)
              && f.iommuGroup.Ok? && ParseInt(f.iommuGroup.value).Some?
              && f.iommuMembers.Ok? && |f.iommuMembers.value| == 1 && EqualFold(f.iommuMembers.value[0], bus)
  {}

  /** Exactly when a function aborts the passthrough enumeration: the vendor of
      a known NPU cannot be read, or, for a Rebellions function, the driver, or, once bound to
      vfio-pci, its class, its layout or its IOMMU group cannot be read. An
      absent driver link or a removed function is no failure. */
  lemma VfioAbortsExactly(sys: Sysfs, known: set<string>, bus: string)
    ensures var f, info := sys.at(bus), ProbeSriov(sys, bus);
            VfioOutcome(sys, known, bus).Abort? <==>
              && IsPciAddress(bus)
              && (|| (Lower(bus) in known && FailsPresent(f, f.vendor))
                  || (f.vendor.Ok? && EqualFold(TrimSpace(f.vendor.value), RBLN_VENDOR) &&
                      (|| f.driver.Err?
                       || (f.driver == Ok(VFIO_DRIVER) &&
                           (|| FailsPresent(f, f.pciClass)
                            || (Trimmed(f.pciClass) == Ok(NPU_CLASS) &&
                                (|| info.Failed?
                                 || (info.Found? && !info.value.IsHostingPF() && IsolatedGroup(f, bus).Failed?))))))))
  {}

  /** Exactly when an inventory entry is published as a native device. */
  lemma NativePublishedExactly(sys: Sysfs, e: SmiDevice)
    ensures var f, info := sys.at(Lower(e.bus)), ProbeSriov(sys, e.bus);
            NativeOutcome(sys, e).Publish? <==>
              && IsPciAddress(e.bus) && f.stat.Ok? && f.driver == Ok(NATIVE_DRIVER)
              && info.Found? && (info.value.IsVF() || info.value.numVFs == 0)
  {}

  /** Exactly when an inventory entry aborts the native enumeration; an entry without a function does not. */
  lemma NativeAbortsExactly(sys: Sysfs, e: SmiDevice)
    ensures var f := sys.at(Lower(e.bus));
            NativeOutcome(sys, e).Abort? <==>
              f.stat.Err? || (f.stat.Ok? && (f.driver.Err? || (f.driver == Ok(NATIVE_DRIVER) && ProbeSriov(sys, e.bus).Failed?)))
  {}

  /** Functions with the same IOMMU group number list the same members. */
  ghost predicate GroupsConsistent(sys: Sysfs) {
    forall a, b ::
      sys.at(a).iommuGroup.Ok? && sys.at(b).iommuGroup.Ok? &&
      ParseInt(sys.at(a).iommuGroup.value) == ParseInt(sys.at(b).iommuGroup.value) ==>
        sys.at(a).iommuMembers == sys.at(b).iommuMembers
  }

  /** No two passthrough devices of one scan share an IOMMU group, so handing
      them to different virtual machines is safe. */
  lemma PassthroughGroupsAreExclusive(sys: Sysfs, known: set<string>, d: Device, e: Device)
    requires WellFormed(sys) && GroupsConsistent(sys) && VfioDevices(sys, known).Some?
    requires d in VfioDevices(sys, known).value && e in VfioDevices(sys, known).value
    requires IntAttr(d, IommuGroupKey) == IntAttr(e, IommuGroupKey)
    ensures d == e
  {
    var a, s, g := VfioSource(sys, known, d);
    var b, t, h := VfioSource(sys, known, e);
    assert sys.at(a).iommuMembers == sys.at(b).iommuMembers;
    assert EqualFold(a, b) && Lower(a) == a && Lower(b) == b;
  }

  // ---- no function twice, and stale allocations ----------------------------------------

  /** After a successful scan no PCI function is published twice, whatever
      changed between its three reads. */
  lemma NoFunctionPublishedTwice(m: Memory, env: ScanEnv)
    requires ScanPair(KnownBuses(m.allocatable), env).Some?
    ensures DistinctBuses(Rescanned(m, env).resources.devices)
  {}

  /** A published passthrough function whose partition changed gets a name that
      no longer resolves: whatever device now carries the old name, it is not
      in the inventory. */
  lemma StaleNameIsGone(m: Memory, env: ScanEnv, bus: string, was: SriovInfo, d: Device)
    requires ScanPair(KnownBuses(m.allocatable), env).Some?
    requires env.inventory.Some? ==> IsSmiInventory(env.inventory.value)
    requires IsPciAddress(bus)
    requires d in Rescanned(m, env).vfio && EqualFold(StringAttr(d, PciBusID), bus)
    requires StringAttr(d, PartitionModeKey) != was.PartitionMode()
    ensures was.DeviceName(VfioDeviceName(bus)) !in Rescanned(m, env).allocatable
  {
    var known := KnownBuses(m.allocatable);
    var (npu, vfio) := ScanPair(known, env).value;
    var name := was.DeviceName(VfioDeviceName(bus));
    IndexFrom(npu + vfio, name);
    if name in Index(npu + vfio) {
      var e := Index(npu + vfio)[name];
      NamesakeIsSamePartition(known, env, bus, was, e);
      SameBusSameDevice(npu + vfio, d, e);
    }
  }

  /** Any scanned device carrying a passthrough name is that function in that partition. */
  lemma NamesakeIsSamePartition(known: set<string>, env: ScanEnv, bus: string, was: SriovInfo, e: Device)
    requires ScanPair(known, env).Some?
    requires env.inventory.Some? ==> IsSmiInventory(env.inventory.value)
    requires IsPciAddress(bus)
    requires e in ScanPair(known, env).value.0 + ScanPair(known, env).value.1
    requires e.name == was.DeviceName(VfioDeviceName(bus))
    ensures Bus(e) == Lower(bus) && StringAttr(e, PartitionModeKey) == was.PartitionMode()
  {
    var (npu, vfio) := ScanPair(known, env).value;
    if e in vfio {
      var name, info, group := VfioSource(env.atVfio, known, e);
      VfioNameIdentity(name, info, bus, was);
    } else {
      var i, info := NativeSource(env.atNative, env.inventory.value, e);
      NativeAndVfioNamesDiffer(env.inventory.value[i].name, info, bus, was);
    }
  }

  lemma SameBusSameDevice(devices: seq<Device>, d: Device, e: Device)
    requires DistinctBuses(devices) && d in devices && e in devices && Bus(d) == Bus(e)
    ensures d == e
  {
    var i :| 0 <= i < |devices| && devices[i] == d;
    var j :| 0 <= j < |devices| && devices[j] == e;
    assert Bus(devices[i]) == Bus(devices[j]);
    assert i == j;
  }

  /** The native counterpart: the old name of a published native device whose partition changed. */
  lemma StaleNativeNameIsGone(m: Memory, env: ScanEnv, was: SriovInfo, d: Device)
    requires ScanPair(KnownBuses(m.allocatable), env).Some?
    requires env.inventory.Some? ==> IsSmiInventory(env.inventory.value)
    requires was.IsVF() ==> was.numVFs in {1, 4}
    requires d in Rescanned(m, env).npu && StringAttr(d, PartitionModeKey) != was.PartitionMode()
    ensures was.DeviceName(StringAttr(d, DeviceNodeName)) !in Rescanned(m, env).allocatable
  {
    var known, inventory := KnownBuses(m.allocatable), env.inventory.value;
    var (npu, vfio) := ScanPair(known, env).value;
    var i, now := NativeSource(env.atNative, inventory, d);
    NativeAttributes(env.atNative, inventory[i], now);
    var base := inventory[i].name;
    var name := was.DeviceName(base);
    IndexFrom(npu + vfio, name);
    if name in Index(npu + vfio) {
      var e := Index(npu + vfio)[name];
      if e in vfio {
        var bus, t, group := VfioSource(env.atVfio, known, e);
        NativeAndVfioNamesDiffer(base, was, bus, t);
      } else {
        var j, info := NativeSource(env.atNative, inventory, e);
        if i != j {
          NativeNamesDiffer(base, was, inventory[j].name, info);
        } else {
          SuffixInjective(base, was, info);
        }
      }
    }
  }
}
