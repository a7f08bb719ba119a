/** One discovery pass: the passthrough enumeration, the native candidate count
    that gates rbln-smi, and the conversion of the rbln-smi inventory. */
module Discovery {
  import opened Text
  import opened Sysfs
  import opened Devices
  import opened Sriov

  /** What one function contributes to an enumeration. */
  datatype Outcome = Publish(device: Device) | Ignore | Abort

  function Published(outcomes: seq<Outcome>): seq<Device> {
    if outcomes == [] then [] else
      var last := outcomes[|outcomes| - 1];
      Published(outcomes[..|outcomes| - 1]) + (if last.Publish? then [last.device] else [])
  }

  /** An enumeration publishes every usable function, in order, unless one required read fails. */
  function Enumerated(outcomes: seq<Outcome>): Option<seq<Device>> {
    if Abort in outcomes then None else Some(Published(outcomes))
  }

  lemma PublishedStep(outcomes: seq<Outcome>, i: nat)
    requires i < |outcomes|
    ensures outcomes[..i + 1] == outcomes[..i] + [outcomes[i]]
    ensures Published(outcomes[..i + 1]) ==
              Published(outcomes[..i]) + (if outcomes[i].Publish? then [outcomes[i].device] else [])
  {
    assert outcomes[..i + 1][..i] == outcomes[..i];
  }

  // ---- passthrough functions ----------------------------------------------------

  function VfioDevice(sys: Sysfs, bus: string, info: SriovInfo, group: int): Device {
    Device(
      info.DeviceName(VfioDeviceName(bus)),
      info.SetAttributes(map[TypeKey := StringValue(TYPE_VFIO), PciBusID := StringValue(bus), IommuGroupKey := IntValue(group)]),
      sys.at(bus).extra)
  }

  function VfioOutcome(sys: Sysfs, known: set<string>, bus: string): Outcome {
    if !IsPciAddress(bus) then Ignore else
      var f := sys.at(bus);
      match IsRebellions(sys, known, bus)
      case Absent => Abort
      case Err => Abort
      case Ok(matches) =>
        if !matches then Ignore else
          match PciDriver(f)
          case Absent => Abort
          case Err => Abort
          case Ok(driver) =>
            if driver != VFIO_DRIVER then Ignore else
              match Trimmed(f.pciClass)
              case Absent => if EntryRemoved(f, f.pciClass) then Ignore else Abort
              case Err => Abort
              case Ok(code) => if code != NPU_CLASS then Ignore else VfioLayout(sys, bus)
  }

  /** The second half of a passthrough entry: its SR-IOV layout and IOMMU group. */
  function VfioLayout(sys: Sysfs, bus: string): Outcome {
    match ProbeSriov(sys, bus)
    case Failed => Abort
    case Unsupported => Ignore
    case Found(info) =>
      if info.IsHostingPF() then Ignore else
        match IsolatedGroup(sys.at(bus), bus)
        case Failed => Abort
        case Unsupported => Ignore
        case Found(group) => Publish(VfioDevice(sys, bus, info, group))
  }

  function VfioOutcomes(sys: Sysfs, known: set<string>, names: seq<string>): seq<Outcome> {
    seq(|names|, i requires 0 <= i < |names| => VfioOutcome(sys, known, names[i]))
  }

  function VfioDevices(sys: Sysfs, known: set<string>): Option<seq<Device>> {
    if !sys.entries.Ok? then None else Enumerated(VfioOutcomes(sys, known, sys.entries.value))
  }

  /** enumerateVfioDevices: stops at the first failed read, skips what it cannot use. */
  method EnumerateVfioDevices(sys: Sysfs, known: set<string>) returns (devices: Option<seq<Device>>)
    ensures devices == VfioDevices(sys, known)
  {
    if !sys.entries.Ok? {
      return None;
    }
    var names := sys.entries.value;
    ghost var outcomes := VfioOutcomes(sys, known, names);
    var found: seq<Device> := [];
    for i := 0 to |names|
      invariant Abort !in outcomes[..i]
      invariant found == Published(outcomes[..i])
    {
      var outcome := VfioOutcome(sys, known, names[i]);
      assert outcomes[i] == outcome;
      if outcome.Abort? {
        return None;
      }
      PublishedStep(outcomes, i);
      if outcome.Publish? {
        found := found + [outcome.device];
      }
    }
    assert outcomes[..|names|] == outcomes;
    return Some(found);
  }

  // ---- native candidates -------------------------------------------------------

  /** Whether one listed function makes rbln-smi worth running. */
  function Candidate(sys: Sysfs, known: set<string>, dir: string): Read<bool> {
    if !IsPciAddress(dir) then Ok(false) else
      match IsRebellions(sys, known, dir)
      case Absent => Err
      case Err => Err
      case Ok(matches) =>
        if !matches then Ok(false) else
          match PciDriver(sys.at(dir))
          case Absent => Err
          case Err => Err
          case Ok(driver) =>
            if driver != NATIVE_DRIVER then Ok(false) else
              match ReadNumVFs(sys.at(dir))
              case Err => Err
              case Absent => Ok(true)
              case Ok(n) => Ok(n == 0)
  }

  /** A required read fails: it ends in an error, or finds no file although the function is still there. */
  ghost predicate FailsPresent<T>(f: PciFunction, read: Read<T>) {
    read.Err? || (read.Absent? && !f.stat.Absent?)
  }

  /** What the candidate count asks of a natively bound function beyond what
      the native enumeration asks: a Rebellions vendor, and no VFs of its own. */
  ghost predicate CountsAsCandidate(f: PciFunction) {
    && f.vendor.Ok? && EqualFold(TrimSpace(f.vendor.value), RBLN_VENDOR)
    && (ReadNumVFs(f).Absent? || ReadNumVFs(f) == Ok(0))
  }

  /** A function that makes rbln-smi worth running: natively bound, Rebellions, without VFs of its own. */
  ghost predicate IsNativeCandidate(sys: Sysfs, dir: string) {
    IsPciAddress(dir) && sys.at(dir).driver == Ok(NATIVE_DRIVER) && CountsAsCandidate(sys.at(dir))
  }

  /** The candidate count cannot decide about a function: the vendor of a known
      NPU cannot be read, or the driver of a Rebellions function, or, if it is natively bound, its VF count. */
  ghost predicate CountFails(sys: Sysfs, known: set<string>, dir: string) {
    var f := sys.at(dir);
    && IsPciAddress(dir)
    && (|| (Lower(dir) in known && FailsPresent(f, f.vendor))
        || (f.vendor.Ok? && EqualFold(TrimSpace(f.vendor.value), RBLN_VENDOR) &&
            (f.driver.Err? || (f.driver == Ok(NATIVE_DRIVER) && ReadNumVFs(f).Err?))))
  }

  /** Exactly which functions the candidate count counts, skips, and fails on. */
  lemma CandidateExactly(sys: Sysfs, known: set<string>, dir: string)
    ensures Candidate(sys, known, dir) == Ok(true) <==> IsNativeCandidate(sys, dir)
    ensures Candidate(sys, known, dir).Err? <==> CountFails(sys, known, dir)
    ensures Candidate(sys, known, dir) == Ok(false) <==> !IsNativeCandidate(sys, dir) && !CountFails(sys, known, dir)
  {}

  predicate ReadableCandidates(sys: Sysfs, known: set<string>, names: seq<string>) {
    forall e | e in names :: Candidate(sys, known, e).Ok?
  }

  function CandidateCount(sys: Sysfs, known: set<string>, names: seq<string>): nat {
    if names == [] then 0 else
      var n := |names| - 1;
      CandidateCount(sys, known, names[..n]) + if Candidate(sys, known, names[n]) == Ok(true) then 1 else 0
  }

  /** countNativeCandidates: fails exactly when a required read does. */
  method CountNativeCandidates(sys: Sysfs, known: set<string>) returns (count: Option<nat>)
    ensures count == if sys.entries.Ok? && ReadableCandidates(sys, known, sys.entries.value)
                     then Some(CandidateCount(sys, known, sys.entries.value)) else None
    ensures count.Some? <==> sys.entries.Ok? && forall e :: e in sys.entries.value ==> !CountFails(sys, known, e)
    ensures count.Some? ==>
              var names := sys.entries.value;
              count.value == HowMany(|names|, (i: nat) => i < |names| && IsNativeCandidate(sys, names[i]))
  {
    if !sys.entries.Ok? {
      return None;
    }
    var names := sys.entries.value;
    var n := 0;
    for i := 0 to |names|
      invariant ReadableCandidates(sys, known, names[..i])
      invariant n == CandidateCount(sys, known, names[..i])
    {
      assert names[..i + 1][..i] == names[..i];
      var candidate := Candidate(sys, known, names[i]);
      if !candidate.Ok? {
        assert names[i] in names;
        CandidateExactly(sys, known, names[i]);
        assert CountFails(sys, known, names[i]);
        return None;
      }
      if candidate.value {
        n := n + 1;
      }
    }
    assert names[..|names|] == names;
    CountCounts(sys, known, names);
    forall e | e in names ensures !CountFails(sys, known, e) { CandidateExactly(sys, known, e); }
    return Some(n);
  }

  lemma {:induction false} CountCounts(sys: Sysfs, known: set<string>, names: seq<string>)
    ensures CandidateCount(sys, known, names) == HowMany(|names|, (i: nat) => i < |names| && IsNativeCandidate(sys, names[i]))
  {
    hide Candidate, IsNativeCandidate;
    if names != [] {
      var n := |names| - 1;
      var rest := names[..n];
      CountCounts(sys, known, rest);
      CandidateExactly(sys, known, names[n]);
      var here := (i: nat) => i < |names| && IsNativeCandidate(sys, names[i]);
      HowManySame(n, (i: nat) => i < n && IsNativeCandidate(sys, rest[i]), here);
      HowManyStep(n, here);
    }
  }

  /** The count is the number of listed functions that are candidates. */
  lemma {:induction false} CountIsCardinality(sys: Sysfs, known: set<string>, names: seq<string>)
    requires Distinct(names)
    ensures CandidateCount(sys, known, names) == |set e | e in names && Candidate(sys, known, e) == Ok(true)|
  {
    var p := (e: string) => Candidate(sys, known, e) == Ok(true);
    CountIsHaving(sys, known, names, p);
    assert Having(names, p) == set e | e in names && Candidate(sys, known, e) == Ok(true);
  }

  lemma {:induction false} CountIsHaving(sys: Sysfs, known: set<string>, names: seq<string>, p: string -> bool)
    requires Distinct(names) && forall e :: p(e) == (Candidate(sys, known, e) == Ok(true))
    ensures CandidateCount(sys, known, names) == |Having(names, p)|
  {
    hide Candidate, Having;
    if names == [] {
      NoneHaving(p);
    } else {
      var n := |names| - 1;
      var rest, last := names[..n], names[n];
      CountIsHaving(sys, known, rest, p);
      assert names == rest + [last] && last !in rest;
      HavingStep(rest, last, p);
    }
  }

  lemma {:induction false} CountPositive(sys: Sysfs, known: set<string>, names: seq<string>)
    ensures CandidateCount(sys, known, names) > 0 <==>
              exists j :: 0 <= j < |names| && Candidate(sys, known, names[j]) == Ok(true)
  {
    if names != [] {
      var n := |names| - 1;
      CountPositive(sys, known, names[..n]);
      assert forall j :: 0 <= j < n ==> names[..n][j] == names[j];
    }
  }

  /** The gate on rbln-smi: None when the count fails, otherwise whether it is positive. */
  function Gate(sys: Sysfs, known: set<string>): (r: Option<bool>)
    ensures r.Some? ==>
              && sys.entries.Ok?
              && (r.value <==> exists j :: 0 <= j < |sys.entries.value| && Candidate(sys, known, sys.entries.value[j]) == Ok(true))
  {
    if !sys.entries.Ok? || !ReadableCandidates(sys, known, sys.entries.value) then None
    else
      CountPositive(sys, known, sys.entries.value);
      Some(CandidateCount(sys, known, sys.entries.value) > 0)
  }

  // ---- native functions ------------------------------------------------------------

  /** One rbln-smi inventory entry. `extra` stands for its descriptive fields. */
  datatype SmiDevice = SmiDevice(name: string, bus: string, extra: string)

  function NativeDevice(sys: Sysfs, d: SmiDevice, info: SriovInfo): Device {
    Device(
      info.DeviceName(d.name),
      info.SetAttributes(map[
        DeviceNodeName := StringValue(d.name),
        TypeKey := StringValue(if info.IsVF() then TYPE_NPU_VF else TYPE_NPU),
        PciBusID := StringValue(d.bus)]),
      d.extra + sys.at(Lower(d.bus)).extra)
  }

  function NativeOutcome(sys: Sysfs, d: SmiDevice): Outcome {
    var f := sys.at(Lower(d.bus));
    match f.stat
    case Absent => Ignore
    case Err => Abort
    case Ok(_) =>
      match PciDriver(f)
      case Absent => Abort
      case Err => Abort
      case Ok(driver) =>
        if driver != NATIVE_DRIVER then Ignore else
          match ProbeSriov(sys, d.bus)
          case Failed => Abort
          case Unsupported => Ignore
          case Found(info) => if info.IsHostingPF() then Ignore else Publish(NativeDevice(sys, d, info))
  }

  function NativeOutcomes(sys: Sysfs, inventory: seq<SmiDevice>): seq<Outcome> {
    seq(|inventory|, i requires 0 <= i < |inventory| => NativeOutcome(sys, inventory[i]))
  }

  function NativeDevices(sys: Sysfs, inventory: seq<SmiDevice>): Option<seq<Device>> {
    Enumerated(NativeOutcomes(sys, inventory))
  }

  /** npuDevicesFromInventory. */
  method NpuDevicesFromInventory(sys: Sysfs, inventory: seq<SmiDevice>) returns (devices: Option<seq<Device>>)
    ensures devices == NativeDevices(sys, inventory)
  {
    ghost var outcomes := NativeOutcomes(sys, inventory);
    var found: seq<Device> := [];
    for i := 0 to |inventory|
      invariant Abort !in outcomes[..i]
      invariant found == Published(outcomes[..i])
    {
      var outcome := NativeOutcome(sys, inventory[i]);
      assert outcomes[i] == outcome;
      if outcome.Abort? {
        return None;
      }
      PublishedStep(outcomes, i);
      if outcome.Publish? {
        found := found + [outcome.device];
      }
    }
    assert outcomes[..|inventory|] == outcomes;
    return Some(found);
  }

  // ---- what an enumeration publishes ---------------------------------------------

  /** Every published device comes from a publishing outcome. */
  lemma {:induction false} PublishedFrom(outcomes: seq<Outcome>, d: Device)
    requires d in Published(outcomes)
    ensures exists i :: 0 <= i < |outcomes| && outcomes[i] == Publish(d)
  {
    var n := |outcomes| - 1;
    if outcomes[n] != Publish(d) {
      PublishedFrom(outcomes[..n], d);
      var i :| 0 <= i < n && outcomes[..n][i] == Publish(d);
      assert outcomes[i] == Publish(d);
    }
  }

  lemma {:induction false} PublishedHas(outcomes: seq<Outcome>, i: nat)
    requires i < |outcomes| && outcomes[i].Publish?
    ensures outcomes[i].device in Published(outcomes)
  {
    var n := |outcomes| - 1;
    if i < n {
      PublishedHas(outcomes[..n], i);
    }
  }

  /** The published devices are the publishing outcomes, each once and in order. */
  lemma {:induction false} PublishedInOrder(outcomes: seq<Outcome>) returns (pos: seq<nat>)
    ensures |pos| == |Published(outcomes)|
    ensures forall k, l :: 0 <= k < l < |pos| ==> pos[k] < pos[l]
    ensures forall k :: 0 <= k < |pos| ==> pos[k] < |outcomes| && outcomes[pos[k]] == Publish(Published(outcomes)[k])
    ensures forall i: nat :: i < |outcomes| && outcomes[i].Publish? ==> i in pos
  {
    pos := [];
    if outcomes != [] {
      var n := |outcomes| - 1;
      var rest := outcomes[..n];
      pos := PublishedInOrder(rest);
      assert forall i: nat :: i < n ==> rest[i] == outcomes[i];
      assert Published(outcomes) == Published(rest) + if outcomes[n].Publish? then [outcomes[n].device] else [];
      hide Published;
      if outcomes[n].Publish? {
        pos := pos + [n];
      }
    }
  }

  /** Distinct names going in are distinct names coming out. */
  lemma {:induction false} PublishedNamesDistinct(outcomes: seq<Outcome>)
    requires forall i, j :: 0 <= i < j < |outcomes| && outcomes[i].Publish? && outcomes[j].Publish? ==>
                              outcomes[i].device.name != outcomes[j].device.name
    ensures DistinctNames(Published(outcomes))
  {
    if outcomes != [] {
      var n := |outcomes| - 1;
      PublishedNamesDistinct(outcomes[..n]);
      forall d | d in Published(outcomes[..n]) && outcomes[n].Publish? ensures d.name != outcomes[n].device.name {
        PublishedFrom(outcomes[..n], d);
      }
    }
  }

  ghost predicate SameOutcome(o: Outcome, p: Outcome) {
    o.Publish? == p.Publish? && (o.Publish? ==> SameIdentity(o.device, p.device))
  }

  lemma {:induction false} SamePublished(os: seq<Outcome>, ps: seq<Outcome>)
    requires |os| == |ps| && forall i :: 0 <= i < |os| ==> SameOutcome(os[i], ps[i])
    ensures SameIdentities(Published(os), Published(ps))
  {
    if os != [] {
      SamePublished(os[..|os| - 1], ps[..|ps| - 1]);
    }
  }
}
