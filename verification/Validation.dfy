/** The live re-check of an allocated device, and its agreement with discovery. */
module Validation {
  import opened Text
  import opened Sysfs
  import opened Devices
  import opened Sriov
  import opened Discovery
  import opened Snapshot

  /** validateAllocatedDevice. */
  predicate Usable(sys: Sysfs, d: Device) {
    var bus := StringAttr(d, PciBusID);
    var f := sys.at(Lower(bus));
    var vendor := Trimmed(f.vendor);
    var info := ProbeSriov(sys, bus);
    && bus != ""
    && vendor.Ok? && EqualFold(vendor.value, RBLN_VENDOR)
    && PciDriver(f) == Ok(if IsVfio(d) then VFIO_DRIVER else NATIVE_DRIVER)
    && info.Found?
    && !info.value.IsHostingPF()
    && info.value.PartitionMode() == StringAttr(d, PartitionModeKey)
    && EqualFold(info.value.parent, StringAttr(d, ParentPciBusID))
    && (IsVfio(d) ==>
          var group := IsolatedGroup(f, bus);
          group.Found? && IntAttr(d, IommuGroupKey) == Some(group.value))
  }

  // ---- what published attributes say -----------------------------------------

  lemma VfioAttributes(sys: Sysfs, bus: string, info: SriovInfo, group: int)
    ensures var d := VfioDevice(sys, bus, info, group);
            && IsVfio(d) && StringAttr(d, TypeKey) == TYPE_VFIO && StringAttr(d, PciBusID) == bus
            && StringAttr(d, PartitionModeKey) == info.PartitionMode()
            && StringAttr(d, ParentPciBusID) == info.parent
            && IntAttr(d, IommuGroupKey) == Some(group)
            && BoolAttr(d, VfKey) == Some(info.IsVF())
            && IntAttr(d, NumVFsKey) == Some(info.numVFs)
  {}

  lemma NativeAttributes(sys: Sysfs, e: SmiDevice, info: SriovInfo)
    ensures var d := NativeDevice(sys, e, info);
            && d.name == info.DeviceName(e.name) && IntAttr(d, IommuGroupKey) == None
            && !IsVfio(d) && StringAttr(d, TypeKey) == (if info.IsVF() then TYPE_NPU_VF else TYPE_NPU)
            && StringAttr(d, PciBusID) == e.bus && StringAttr(d, DeviceNodeName) == e.name
            && StringAttr(d, PartitionModeKey) == info.PartitionMode()
            && StringAttr(d, ParentPciBusID) == info.parent
            && BoolAttr(d, VfKey) == Some(info.IsVF())
            && IntAttr(d, NumVFsKey) == Some(info.numVFs)
  {}

  lemma VfioPublish(sys: Sysfs, known: set<string>, bus: string)
    requires VfioOutcome(sys, known, bus).Publish?
    ensures var info, group := ProbeSriov(sys, bus), IsolatedGroup(sys.at(bus), bus);
            && info.Found? && group.Found? && !info.value.IsHostingPF()
            && VfioOutcome(sys, known, bus) == Publish(VfioDevice(sys, bus, info.value, group.value))
            && IsPciAddress(bus) && sys.at(bus).driver == Ok(VFIO_DRIVER)
            && Trimmed(sys.at(bus).pciClass) == Ok(NPU_CLASS)
            && sys.at(bus).vendor.Ok? && EqualFold(TrimSpace(sys.at(bus).vendor.value), RBLN_VENDOR)
  {}

  lemma NativePublish(sys: Sysfs, e: SmiDevice)
    requires NativeOutcome(sys, e).Publish?
    ensures var info := ProbeSriov(sys, e.bus);
            && info.Found? && !info.value.IsHostingPF()
            && NativeOutcome(sys, e) == Publish(NativeDevice(sys, e, info.value))
            && sys.at(Lower(e.bus)).driver == Ok(NATIVE_DRIVER)
  {}

  /** Where a published passthrough device comes from. */
  lemma VfioSource(sys: Sysfs, known: set<string>, d: Device) returns (bus: string, info: SriovInfo, group: int)
    requires VfioDevices(sys, known).Some? && d in VfioDevices(sys, known).value
    ensures bus in sys.entries.value && IsPciAddress(bus) && VfioOutcome(sys, known, bus) == Publish(d)
    ensures ProbeSriov(sys, bus) == Found(info) && !info.IsHostingPF() && d == VfioDevice(sys, bus, info, group)
    ensures IsolatedGroup(sys.at(bus), bus) == Found(group) && IntAttr(d, IommuGroupKey) == Some(group)
    ensures IsVfio(d) && StringAttr(d, PciBusID) == bus && StringAttr(d, PartitionModeKey) == info.PartitionMode()
  {
    var names := sys.entries.value;
    PublishedFrom(VfioOutcomes(sys, known, names), d);
    var i :| 0 <= i < |names| && VfioOutcome(sys, known, names[i]) == Publish(d);
    VfioPublish(sys, known, names[i]);
    bus, info, group := names[i], ProbeSriov(sys, names[i]).value, IsolatedGroup(sys.at(names[i]), names[i]).value;
    VfioAttributes(sys, bus, info, group);
  }

  /** Where a published native device comes from. */
  lemma NativeSource(sys: Sysfs, inventory: seq<SmiDevice>, d: Device) returns (i: nat, info: SriovInfo)
    requires NativeDevices(sys, inventory).Some? && d in NativeDevices(sys, inventory).value
    ensures i < |inventory| && NativeOutcome(sys, inventory[i]) == Publish(d)
    ensures ProbeSriov(sys, inventory[i].bus) == Found(info) && !info.IsHostingPF() && d == NativeDevice(sys, inventory[i], info)
    ensures !IsVfio(d) && StringAttr(d, PciBusID) == inventory[i].bus && StringAttr(d, PartitionModeKey) == info.PartitionMode()
  {
    PublishedFrom(NativeOutcomes(sys, inventory), d);
    i :| 0 <= i < |inventory| && NativeOutcome(sys, inventory[i]) == Publish(d);
    NativePublish(sys, inventory[i]);
    info := ProbeSriov(sys, inventory[i].bus).value;
    NativeAttributes(sys, inventory[i], info);
  }

  // ---- validation agrees with discovery ------------------------------------------

  /** On a well-formed sysfs every passthrough device a scan publishes passes the live check there. */
  lemma PublishedVfioIsUsable(sys: Sysfs, known: set<string>, bus: string)
    requires WellFormed(sys) && sys.entries.Ok? && bus in sys.entries.value
    requires VfioOutcome(sys, known, bus).Publish?
    ensures Usable(sys, VfioOutcome(sys, known, bus).device)
  {
    VfioPublish(sys, known, bus);
    var info, group := ProbeSriov(sys, bus).value, IsolatedGroup(sys.at(bus), bus).value;
    VfioAttributes(sys, bus, info, group);
    assert Lower(bus) == bus;
  }

  /** The native counterpart; the vendor check holds because the sysfs is well formed. */
  lemma PublishedNativeIsUsable(sys: Sysfs, e: SmiDevice)
    requires WellFormed(sys)
    requires NativeOutcome(sys, e).Publish?
    ensures Usable(sys, NativeOutcome(sys, e).device)
  {
    NativePublish(sys, e);
    var info := ProbeSriov(sys, e.bus).value;
    NativeAttributes(sys, e, info);
    assert NativeIsListed(sys, Lower(e.bus));
  }

  /** Same device up to the spelling of its parent's address. */
  ghost predicate SamePartition(d: Device, e: Device) {
    && d.name == e.name
    && StringAttr(d, PartitionModeKey) == StringAttr(e, PartitionModeKey)
    && IntAttr(d, NumVFsKey) == IntAttr(e, NumVFsKey)
    && EqualFold(StringAttr(d, ParentPciBusID), StringAttr(e, ParentPciBusID))
    && IntAttr(d, IommuGroupKey) == IntAttr(e, IommuGroupKey)
  }

  lemma SameLayout(s: SriovInfo, t: SriovInfo, base: string)
    requires s.PartitionMode() == t.PartitionMode() && !s.IsHostingPF() && !t.IsHostingPF()
    ensures s.numVFs == t.numVFs && s.DeviceName(base) == t.DeviceName(base)
  {
    ModeDeterminesCount(s, t);
    SuffixInjective(base, s, t);
  }

  /** A published passthrough device passes the live check against a later
      sysfs that still shows its class exactly when rediscovering the function
      there publishes the same partition. */
  lemma UsableVfioIsRediscovered(before: Sysfs, known: set<string>, bus: string, after: Sysfs, knownAfter: set<string>)
    requires VfioOutcome(before, known, bus).Publish? && Lower(bus) == bus
    ensures var d, again := VfioOutcome(before, known, bus).device, VfioOutcome(after, knownAfter, bus);
            Usable(after, d) && Trimmed(after.at(bus).pciClass) == Ok(NPU_CLASS) <==>
              again.Publish? && SamePartition(d, again.device)
  {
    VfioPublish(before, known, bus);
    var s, g := ProbeSriov(before, bus).value, IsolatedGroup(before.at(bus), bus).value;
    VfioAttributes(before, bus, s, g);
    var d, again := VfioOutcome(before, known, bus).device, VfioOutcome(after, knownAfter, bus);
    if again.Publish? {
      VfioPublish(after, knownAfter, bus);
    }
    if again.Publish? || (Usable(after, d) && Trimmed(after.at(bus).pciClass) == Ok(NPU_CLASS)) {
      var t, h := ProbeSriov(after, bus).value, IsolatedGroup(after.at(bus), bus).value;
      VfioAttributes(after, bus, t, h);
      if s.PartitionMode() == t.PartitionMode() {
        SameLayout(s, t, VfioDeviceName(bus));
      }
      assert VfioLayout(after, bus) == Publish(VfioDevice(after, bus, t, h));
    }
  }

  /** The part of the native check that rediscovery does not make. */
  ghost predicate HasRebellionsVendor(sys: Sysfs, bus: string) {
    var vendor := Trimmed(sys.at(Lower(bus)).vendor);
    vendor.Ok? && EqualFold(vendor.value, RBLN_VENDOR)
  }

  lemma NativeFound(sys: Sysfs, e: SmiDevice, info: SriovInfo)
    requires ProbeSriov(sys, e.bus) == Found(info) && !info.IsHostingPF() && sys.at(Lower(e.bus)).driver == Ok(NATIVE_DRIVER)
    ensures NativeOutcome(sys, e) == Publish(NativeDevice(sys, e, info))
  {
    LayoutFoundExactly(sys, e.bus, info);
    hide Sriov.ProbeSriov;
  }

  lemma UsableNativeIsPublished(before: Sysfs, e: SmiDevice, after: Sysfs)
    requires NativeOutcome(before, e).Publish?
    ensures var d, again := NativeOutcome(before, e).device, NativeOutcome(after, e);
            Usable(after, d) ==> again.Publish? && SamePartition(d, again.device)
  {
    NativePublish(before, e);
    hide Discovery.NativeOutcome, Sriov.ProbeSriov, Discovery.NativeDevice, Sriov.IsolatedGroup;
    var s := ProbeSriov(before, e.bus).value;
    NativeAttributes(before, e, s);
    if Usable(after, NativeOutcome(before, e).device) {
      var t := ProbeSriov(after, e.bus).value;
      NativeFound(after, e, t);
      NativeAttributes(after, e, t);
      SameLayout(s, t, e.name);
    }
  }

  lemma PublishedNativeStaysUsable(before: Sysfs, e: SmiDevice, after: Sysfs)
    requires NativeOutcome(before, e).Publish? && NativeOutcome(after, e).Publish?
    requires SamePartition(NativeOutcome(before, e).device, NativeOutcome(after, e).device)
    requires HasRebellionsVendor(after, e.bus)
    ensures Usable(after, NativeOutcome(before, e).device)
  {
    NativePublish(before, e);
    NativePublish(after, e);
    NativeAttributes(before, e, ProbeSriov(before, e.bus).value);
    NativeAttributes(after, e, ProbeSriov(after, e.bus).value);
    hide Discovery.NativeOutcome;
  }

  /** The native counterpart: the check asks for the vendor as well. */
  lemma UsableNativeIsRediscovered(before: Sysfs, e: SmiDevice, after: Sysfs)
    requires NativeOutcome(before, e).Publish?
    ensures var d, again := NativeOutcome(before, e).device, NativeOutcome(after, e);
            Usable(after, d) <==> again.Publish? && SamePartition(d, again.device) && HasRebellionsVendor(after, e.bus)
  {
    var d, again := NativeOutcome(before, e).device, NativeOutcome(after, e);
    NativePublish(before, e);
    NativeAttributes(before, e, ProbeSriov(before, e.bus).value);
    UsableNativeIsPublished(before, e, after);
    if again.Publish? && SamePartition(d, again.device) && HasRebellionsVendor(after, e.bus) {
      PublishedNativeStaysUsable(before, e, after);
    }
  }

  // ---- every published device has exactly one class --------------------------------

  ghost predicate HasExactlyOneClass(d: Device) {
    exists c :: c in CLASSES && Selects(c, d) && forall other :: other in CLASSES && Selects(other, d) ==> other == c
  }

  lemma OneClass(d: Device, info: SriovInfo, c: DeviceClass)
    requires info.IsVF() ==> info.numVFs in {1, 4}
    requires StringAttr(d, PartitionModeKey) == info.PartitionMode()
    requires BoolAttr(d, VfKey) == Some(info.IsVF())
    requires || (StringAttr(d, TypeKey) == TYPE_VFIO && c == if info.IsVF() then VfioNpuVF(info.numVFs) else VfioNpu)
             || (StringAttr(d, TypeKey) == TYPE_NPU && !info.IsVF() && c == Npu)
             || (StringAttr(d, TypeKey) == TYPE_NPU_VF && info.IsVF() && c == NpuVF(info.numVFs))
    ensures HasExactlyOneClass(d)
  {
    assert ("vf" + Itoa(1))[2..] == Itoa(1) && ("vf" + Itoa(4))[2..] == Itoa(4);
    assert Itoa(1) != Itoa(4) by { if Itoa(1) == Itoa(4) { ItoaInjective(1, 4); } }
    assert c in CLASSES && Selects(c, d);
    forall other | other in CLASSES && Selects(other, d) ensures other == c {}
  }

  lemma VfioHasOneClass(sys: Sysfs, known: set<string>, bus: string)
    requires VfioOutcome(sys, known, bus).Publish?
    ensures HasExactlyOneClass(VfioOutcome(sys, known, bus).device)
  {
    VfioPublish(sys, known, bus);
    var info, group := ProbeSriov(sys, bus).value, IsolatedGroup(sys.at(bus), bus).value;
    VfioAttributes(sys, bus, info, group);
    OneClass(VfioOutcome(sys, known, bus).device, info, if info.IsVF() then VfioNpuVF(info.numVFs) else VfioNpu);
  }

  lemma NativeHasOneClass(sys: Sysfs, e: SmiDevice)
    requires NativeOutcome(sys, e).Publish?
    ensures HasExactlyOneClass(NativeOutcome(sys, e).device)
  {
    NativePublish(sys, e);
    var info := ProbeSriov(sys, e.bus).value;
    NativeAttributes(sys, e, info);
    OneClass(NativeOutcome(sys, e).device, info, if info.IsVF() then NpuVF(info.numVFs) else Npu);
  }

  /** Every device any scan publishes is selected by exactly one DeviceClass. */
  lemma ScannedDevicesHaveOneClass(known: set<string>, env: ScanEnv, d: Device)
    requires ScanPair(known, env).Some?
    requires d in ScanPair(known, env).value.0 + ScanPair(known, env).value.1
    ensures HasExactlyOneClass(d)
  {
    var (npu, vfio) := ScanPair(known, env).value;
    if d in vfio {
      var bus, info, group := VfioSource(env.atVfio, known, d);
      VfioHasOneClass(env.atVfio, known, bus);
    } else {
      var i, info := NativeSource(env.atNative, env.inventory.value, d);
      NativeHasOneClass(env.atNative, env.inventory.value[i]);
    }
  }

  // ---- published devices spelled out -------------------------------------------------

  /** Which partition a device publishes, read off sysfs: a function with a
      parent link is a virtual function and carries its parent's VF count in its
      name, its attributes and its class; any other function carries none. */
  ghost predicate ShowsPartition(sys: Sysfs, bus: string, d: Device, base: string, passthrough: bool) {
    var f := sys.at(Lower(bus));
    if f.physfnStat.Ok? then
      && f.physfn.Ok? && StringAttr(d, ParentPciBusID) == f.physfn.value
      && BoolAttr(d, VfKey) == Some(true)
      && (var count := ReadNumVFs(sys.at(f.physfn.value));
          || (count == Ok(1) && IntAttr(d, NumVFsKey) == Some(1) && StringAttr(d, PartitionModeKey) == "vf1"
              && d.name == base + "-vf1" && Selects(if passthrough then VfioNpuVF(1) else NpuVF(1), d))
          || (count == Ok(4) && IntAttr(d, NumVFsKey) == Some(4) && StringAttr(d, PartitionModeKey) == "vf4"
              && d.name == base + "-vf4" && Selects(if passthrough then VfioNpuVF(4) else NpuVF(4), d)))
    else
      && ParentPciBusID !in d.attributes && BoolAttr(d, VfKey) == Some(false)
      && IntAttr(d, NumVFsKey) == Some(0) && StringAttr(d, PartitionModeKey) == "none"
      && d.name == base && Selects(if passthrough then VfioNpu else Npu, d)
  }

  lemma SmallNumerals()
    ensures Itoa(1) == "1" && Itoa(4) == "4"
  {}

  /** A published passthrough device: its address, its exclusive IOMMU group, its partition. */
  lemma PublishedVfioExactly(sys: Sysfs, known: set<string>, bus: string)
    requires VfioOutcome(sys, known, bus).Publish? && Lower(bus) == bus
    ensures var d, f := VfioOutcome(sys, known, bus).device, sys.at(bus);
            && StringAttr(d, TypeKey) == "vfio" && StringAttr(d, PciBusID) == bus && DeviceNodeName !in d.attributes
            && f.iommuGroup.Ok? && IntAttr(d, IommuGroupKey) == ParseInt(f.iommuGroup.value)
            && d.extra == f.extra
            && ShowsPartition(sys, bus, d, VfioDeviceName(bus), true)
  {
    VfioPublish(sys, known, bus);
    var info, group := ProbeSriov(sys, bus).value, IsolatedGroup(sys.at(bus), bus).value;
    VfioAttributes(sys, bus, info, group);
    LayoutFoundExactly(sys, bus, info);
    GroupExactly(sys.at(bus), bus, group);
    NamesSpelledOut(info, VfioDeviceName(bus));
    SmallNumerals();
    hide Discovery.VfioOutcome, Sriov.ProbeSriov, Sriov.IsolatedGroup;
  }

  /** A published native device: its node, its address, its partition. */
  lemma PublishedNativeExactly(sys: Sysfs, e: SmiDevice)
    requires NativeOutcome(sys, e).Publish?
    ensures var d := NativeOutcome(sys, e).device;
            && StringAttr(d, TypeKey) == (if sys.at(Lower(e.bus)).physfnStat.Ok? then "npu-vf" else "npu")
            && StringAttr(d, PciBusID) == e.bus && StringAttr(d, DeviceNodeName) == e.name && IommuGroupKey !in d.attributes
            && d.extra == e.extra + sys.at(Lower(e.bus)).extra
            && ShowsPartition(sys, e.bus, d, e.name, false)
  {
    NativePublish(sys, e);
    var info := ProbeSriov(sys, e.bus).value;
    NativeAttributes(sys, e, info);
    LayoutFoundExactly(sys, e.bus, info);
    NamesSpelledOut(info, e.name);
    SmallNumerals();
    hide Discovery.NativeOutcome, Sriov.ProbeSriov;
  }
}
