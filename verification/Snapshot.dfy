/** The in-memory inventory and how one scan replaces it as a whole. */
module Snapshot {
  import opened Text
  import opened Sysfs
  import opened Devices
  import opened Discovery

  datatype Resources = Resources(pool: string, devices: seq<Device>)

  datatype ScanStatus = ScanStatus(sysfsFailing: bool, npuFailing: bool)

  datatype Memory = Memory(
    nodeName: string,
    npu: seq<Device>,
    vfio: seq<Device>,
    allocatable: map<string, Device>,
    resources: Resources,
    status: ScanStatus)

  /** allocatable: devices by name, a later device replacing an earlier namesake. */
  function Index(devices: seq<Device>): map<string, Device> {
    if devices == [] then map[] else
      var last := devices[|devices| - 1];
      Index(devices[..|devices| - 1])[last.name := last]
  }

  /** The derived fields agree with the two device lists. */
  predicate Coherent(m: Memory) {
    && m.allocatable == Index(m.npu + m.vfio)
    && m.resources == Resources(m.nodeName, m.npu + m.vfio)
  }

  /** The memory of a node publishing the given pair. */
  function Publishing(nodeName: string, npu: seq<Device>, vfio: seq<Device>, status: ScanStatus): (m: Memory)
    ensures Coherent(m)
  {
    Memory(nodeName, npu, vfio, Index(npu + vfio), Resources(nodeName, npu + vfio), status)
  }

  /** The bus addresses, own and parent, of the published devices. */
  function KnownBuses(allocatable: map<string, Device>): set<string> {
    set name, key | name in allocatable && key in {PciBusID, ParentPciBusID} && StringAttr(allocatable[name], key) != ""
      :: Lower(StringAttr(allocatable[name], key))
  }

  /** What one scan observes: sysfs during the passthrough read, during the
      candidate count and during the native read, and the rbln-smi answer. The
      three sysfs states are unrelated, so any rebinding may happen in between. */
  datatype ScanEnv = ScanEnv(atVfio: Sysfs, atCount: Sysfs, inventory: Option<seq<SmiDevice>>, atNative: Sysfs)

  /** The native half of a scan once the gate has been decided. */
  function NativeHalf(candidates: bool, env: ScanEnv): Option<seq<Device>> {
    if !candidates then Some([])
    else if env.inventory.None? then None
    else NativeDevices(env.atNative, env.inventory.value)
  }

  /** The (native, passthrough) pair a scan commits, or None when it fails. */
  ghost function ScanPair(known: set<string>, env: ScanEnv): Option<(seq<Device>, seq<Device>)> {
    var vfio := VfioDevices(env.atVfio, known);
    var gate := Gate(env.atCount, known);
    if vfio.None? || gate.None? then None else
      var npu := NativeHalf(gate.value, env);
      if npu.None? || !DistinctBuses(npu.value + vfio.value) then None
      else Some((npu.value, vfio.value))
  }

  /** The failure flags after a scan: sysfs failing, or rbln-smi failing when it was asked. */
  ghost function StatusAfter(known: set<string>, env: ScanEnv, status: ScanStatus): ScanStatus {
    var gate := Gate(env.atCount, known);
    if VfioDevices(env.atVfio, known).None? || gate.None? then status.(sysfsFailing := true)
    else ScanStatus(false, NativeHalf(gate.value, env).None?)
  }

  /** RescanDevices: a successful scan publishes its pair, a failed one publishes nothing new. */
  ghost function Rescanned(m: Memory, env: ScanEnv): (r: Memory)
    ensures Coherent(m) ==> Coherent(r)
  {
    var known := KnownBuses(m.allocatable);
    var status := StatusAfter(known, env, m.status);
    match ScanPair(known, env)
    case None => m.(status := status)
    case Some((npu, vfio)) => Publishing(m.nodeName, npu, vfio, status)
  }

  /** NewDeviceState: either kind may be missing, and no duplicate check is made. */
  ghost function Started(nodeName: string, env: ScanEnv): (r: Memory)
    ensures Coherent(r)
  {
    var vfio := VfioDevices(env.atVfio, {});
    var npu := NativeHalf(Gate(env.atCount, {}) != Some(false), env);
    Publishing(nodeName,
               if npu.Some? then npu.value else [],
               if vfio.Some? then vfio.value else [],
               ScanStatus(false, npu.None?))
  }

  // ---- the index -------------------------------------------------------------------

  lemma {:induction false} IndexFrom(devices: seq<Device>, name: string)
    ensures name in Index(devices) ==> Index(devices)[name] in devices && Index(devices)[name].name == name
    ensures (exists d :: d in devices && d.name == name) ==> name in Index(devices)
  {
    if devices != [] {
      var n := |devices| - 1;
      IndexFrom(devices[..n], name);
      assert devices == devices[..n] + [devices[n]];
    }
  }

  /** The index holds the last device of each name. */
  lemma {:induction false} IndexIsLast(devices: seq<Device>, i: nat)
    requires i < |devices| && forall j :: i < j < |devices| ==> devices[j].name != devices[i].name
    ensures devices[i].name in Index(devices) && Index(devices)[devices[i].name] == devices[i]
  {
    var n := |devices| - 1;
    if i < n {
      IndexIsLast(devices[..n], i);
    }
  }

  /** With distinct names nothing is shadowed. */
  lemma {:induction false} IndexHas(devices: seq<Device>, d: Device)
    requires DistinctNames(devices) && d in devices
    ensures d.name in Index(devices) && Index(devices)[d.name] == d
  {
    var n := |devices| - 1;
    assert devices == devices[..n] + [devices[n]];
    if d != devices[n] {
      IndexHas(devices[..n], d);
    }
  }

  /** The known addresses are the own and parent addresses of the indexed devices, nothing else. */
  lemma KnownExactly(allocatable: map<string, Device>, bus: string)
    ensures bus in KnownBuses(allocatable) <==>
              exists name :: name in allocatable &&
                (|| (StringAttr(allocatable[name], PciBusID) != "" && Lower(StringAttr(allocatable[name], PciBusID)) == bus)
                 || (StringAttr(allocatable[name], ParentPciBusID) != "" && Lower(StringAttr(allocatable[name], ParentPciBusID)) == bus))
  {
    forall name, key | name in allocatable && key in {PciBusID, ParentPciBusID} && StringAttr(allocatable[name], key) != ""
        && Lower(StringAttr(allocatable[name], key)) == bus
      ensures bus in KnownBuses(allocatable)
    {}
  }

  /** What the driver publishes after startup: each kind that could be
      enumerated, and nothing of a kind that could not. rbln-smi is asked unless
      the candidate count was read and is zero. */
  lemma StartedExactly(nodeName: string, env: ScanEnv)
    ensures var m, vfio, gate := Started(nodeName, env), VfioDevices(env.atVfio, {}), Gate(env.atCount, {});
            && m.nodeName == nodeName
            && m.vfio == (if vfio.Some? then vfio.value else [])
            && (gate == Some(false) ==> m.npu == [] && !m.status.npuFailing)
            && (gate != Some(false) ==>
                  var native := if env.inventory.Some? then NativeDevices(env.atNative, env.inventory.value) else None;
                  m.npu == (if native.Some? then native.value else []) && (m.status.npuFailing <==> native.None?))
            && m.allocatable == Index(m.npu + m.vfio) && m.resources == Resources(nodeName, m.npu + m.vfio)
            && !m.status.sysfsFailing
  {}

  /** What a scan does to the memory: a failed scan changes only the failure
      flags, a successful one publishes exactly its pair. */
  lemma RescannedExactly(m: Memory, env: ScanEnv)
    ensures var known := KnownBuses(m.allocatable);
            var r, pair := Rescanned(m, env), ScanPair(known, env);
            && r.nodeName == m.nodeName
            && (pair.None? ==> r == m.(status := r.status))
            && (pair.Some? ==>
                  && r.npu == pair.value.0 && r.vfio == pair.value.1
                  && r.allocatable == Index(r.npu + r.vfio) && r.resources == Resources(m.nodeName, r.npu + r.vfio))
            && (var readable := VfioDevices(env.atVfio, known).Some? && Gate(env.atCount, known).Some?;
                && (r.status.sysfsFailing <==> !readable)
                && (r.status.npuFailing <==>
                      if readable then NativeHalf(Gate(env.atCount, known).value, env).None? else m.status.npuFailing))
  {}

  // ---- deviceNameDelta -------------------------------------------------------------

  function Names(devices: seq<Device>): seq<string> {
    seq(|devices|, i requires 0 <= i < |devices| => devices[i].name)
  }

  /** deviceNameDelta: how the next list differs from the previous one by name. */
  method DeviceNameDelta(prev: seq<Device>, next: seq<Device>)
    returns (added: seq<string>, removed: seq<string>, changed: seq<string>)
    ensures forall n :: n in added <==> n in Names(next) && n !in Names(prev)
    ensures forall n :: n in removed <==> n in Names(prev) && n !in Names(next)
    ensures forall n :: n in changed <==> exists d :: d in next && d.name == n && n in Index(prev) && Index(prev)[n] != d
  {
    var prevByName, nextByName := Index(prev), Index(next);
    forall n ensures n in prevByName <==> n in Names(prev) { IndexNames(prev, n); }
    forall n ensures n in nextByName <==> n in Names(next) { IndexNames(next, n); }
    added, removed, changed := [], [], [];
    for i := 0 to |next|
      invariant forall n :: n in added <==> n in Names(next)[..i] && n !in prevByName
      invariant forall n :: n in changed <==> exists d :: d in next[..i] && d.name == n && n in prevByName && prevByName[n] != d
    {
      var d := next[i];
      assert next[..i + 1] == next[..i] + [d];
      assert Names(next)[..i + 1] == Names(next)[..i] + [d.name];
      if d.name !in prevByName {
        added := added + [d.name];
      } else if prevByName[d.name] != d {
        changed := changed + [d.name];
      }
    }
    assert next[..|next|] == next && Names(next)[..|next|] == Names(next);
    for i := 0 to |prev|
      invariant forall n :: n in removed <==> n in Names(prev)[..i] && n !in nextByName
    {
      assert Names(prev)[..i + 1] == Names(prev)[..i] + [prev[i].name];
      if prev[i].name !in nextByName {
        removed := removed + [prev[i].name];
      }
    }
    assert Names(prev)[..|prev|] == Names(prev);
  }

  lemma IndexNames(devices: seq<Device>, n: string)
    ensures n in Index(devices) <==> n in Names(devices)
  {
    IndexFrom(devices, n);
    if n in Index(devices) {
      var i :| 0 <= i < |devices| && devices[i] == Index(devices)[n];
      assert Names(devices)[i] == n;
    }
    if n in Names(devices) {
      var i :| 0 <= i < |devices| && Names(devices)[i] == n;
      assert devices[i] in devices;
    }
  }
}
