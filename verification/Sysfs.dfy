/** The PCI part of sysfs as the driver reads it. Every read has one of three
    outcomes, and the driver gives a missing file and a failed read different
    meanings. */
module Sysfs {
  import opened Text

  datatype Read<+T> = Ok(value: T) | Absent | Err

  /** The directory of one PCI function. `extra` stands for the attributes the
      driver only passes on: device id, NUMA node, PCIe root. */
  datatype PciFunction = PciFunction(
    stat: Read<()>,
    vendor: Read<string>,
    driver: Read<string>,
    pciClass: Read<string>,
    physfnStat: Read<()>,
    physfn: Read<string>,
    numVFs: Read<string>,
    iommuGroup: Read<string>,
    iommuMembers: Read<seq<string>>,
    extra: string)

  /** `entries` is the listing of /sys/bus/pci/devices, `at` the directory under each name. */
  datatype Sysfs = Sysfs(entries: Read<seq<string>>, at: string -> PciFunction)

  const NATIVE_DRIVER := "rebellions"
  const VFIO_DRIVER := "vfio-pci"
  const RBLN_VENDOR := "0x1eff"
  const NPU_CLASS := "0x120000"

  predicate IsHex(c: char) {
    '0' <= c <= '9' || 'a' <= c <= 'f' || 'A' <= c <= 'F'
  }

  /** pciAddressRegexp. */
  predicate IsPciAddress(s: string) {
    |s| == 12 && s[4] == ':' && s[7] == ':' && s[10] == '.' && '0' <= s[11] <= '7' &&
    IsHex(s[0]) && IsHex(s[1]) && IsHex(s[2]) && IsHex(s[3]) &&
    IsHex(s[5]) && IsHex(s[6]) && IsHex(s[8]) && IsHex(s[9])
  }

  const HEX_DIGITS := "0123456789abcdefABCDEF"

  lemma HexExactly(c: char)
    ensures IsHex(c) <==> c in HEX_DIGITS
  {
    if IsHex(c) {
      var i := if c <= '9' then c as int - '0' as int else if c <= 'F' then 16 + (c as int - 'A' as int) else 10 + (c as int - 'a' as int);
      assert HEX_DIGITS[i] == c;
    }
  }

  ghost predicate AllHex(s: string, n: nat) {
    |s| == n && forall i :: 0 <= i < n ==> IsHex(s[i])
  }

  /** An address taken apart: domain, bus, device and function. */
  ghost predicate IsAddressOf(s: string, domain: string, bus: string, device: string, fn: string) {
    AllHex(domain, 4) && AllHex(bus, 2) && AllHex(device, 2) && s == domain + ":" + bus + ":" + device + "." + fn
  }

  lemma AddressParts(s: string) returns (domain: string, bus: string, device: string, fn: string)
    requires IsPciAddress(s)
    ensures IsAddressOf(s, domain, bus, device, fn) && |fn| == 1 && fn[0] in "01234567"
  {
    domain, bus, device, fn := s[..4], s[5..7], s[8..10], s[11..];
    assert s == domain + ":" + bus + ":" + device + "." + fn;
    hide IsHex;
    var i := fn[0] as int - '0' as int;
    assert "01234567"[i] == fn[0];
  }

  lemma AddressFromParts(s: string, domain: string, bus: string, device: string, fn: string)
    requires IsAddressOf(s, domain, bus, device, fn) && |fn| == 1 && fn[0] in "01234567"
    ensures IsPciAddress(s)
  {
    hide IsHex;
    assert s[..4] == domain && s[5..7] == bus && s[8..10] == device && s[11..] == fn;
    assert s[0] == domain[0] && s[1] == domain[1] && s[2] == domain[2] && s[3] == domain[3];
    assert s[5] == bus[0] && s[6] == bus[1] && s[8] == device[0] && s[9] == device[1] && s[11] == fn[0];
  }

  lemma LowerAddress(s: string)
    ensures IsPciAddress(Lower(s)) <==> IsPciAddress(s)
  {}

  function Trimmed(r: Read<string>): Read<string> {
    match r
    case Ok(text) => Ok(TrimSpace(text))
    case Absent => Absent
    case Err => Err
  }

  /** readPCIDriver: an absent link is an unbound function, not a failure. */
  function PciDriver(f: PciFunction): Read<string> {
    if f.driver.Absent? then Ok("") else f.driver
  }

  /** pciEntryRemoved: the read found no file and the whole entry is gone too. */
  predicate EntryRemoved<T>(f: PciFunction, r: Read<T>) {
    r.Absent? && f.stat.Absent?
  }

  /** isRebellionsPCI: a failed vendor read counts against a known NPU only. */
  function IsRebellions(sys: Sysfs, known: set<string>, dir: string): Read<bool> {
    match Trimmed(sys.at(dir).vendor)
    case Ok(vendor) => Ok(EqualFold(vendor, RBLN_VENDOR))
    case Absent => if Lower(dir) in known && !EntryRemoved(sys.at(dir), sys.at(dir).vendor) then Err else Ok(false)
    case Err => if Lower(dir) in known then Err else Ok(false)
  }

  /** readSRIOVNumVFs: an unparsable or negative count is a failed read. */
  function ReadNumVFs(f: PciFunction): (r: Read<nat>) {
    match Trimmed(f.numVFs)
    case Ok(raw) =>
      var n := ParseInt(raw);
      if n.Some? && n.value >= 0 then Ok(n.value) else Err
    case Absent => Absent
    case Err => Err
  }

  // ---- well-formed sysfs -----------------------------------------------------

  /** A function bound to the native driver is a readable Rebellions function
      and is listed. */
  ghost predicate NativeIsListed(sys: Sysfs, dir: string) {
    sys.at(dir).driver == Ok(NATIVE_DRIVER) ==>
      && sys.at(dir).vendor.Ok? && EqualFold(TrimSpace(sys.at(dir).vendor.value), RBLN_VENDOR)
      && sys.entries.Ok? && dir in sys.entries.value
  }

  /** What the kernel guarantees of a sysfs that does not change while it is
      read: addresses are listed once and in lower case, natively bound
      functions are listed Rebellions functions, and a virtual function has no
      VF count of its own. */
  ghost predicate WellFormed(sys: Sysfs) {
    && (sys.entries.Ok? ==>
          && Distinct(sys.entries.value)
          && forall e :: e in sys.entries.value && IsPciAddress(e) ==> Lower(e) == e)
    && (forall dir :: NativeIsListed(sys, dir))
    && (forall dir :: sys.at(dir).physfnStat.Ok? ==> sys.at(dir).numVFs.Absent?)
  }

  // ---- degraded reads ----------------------------------------------------------

  ghost predicate WorseRead<T>(before: Read<T>, after: Read<T>) {
    after == before || after.Err?
  }

  /** One function whose reads either answer as before or fail. */
  ghost predicate WorseFunction(f: PciFunction, g: PciFunction) {
    && WorseRead(f.stat, g.stat) && WorseRead(f.vendor, g.vendor) && WorseRead(f.driver, g.driver)
    && WorseRead(f.pciClass, g.pciClass) && WorseRead(f.physfnStat, g.physfnStat)
    && WorseRead(f.physfn, g.physfn) && WorseRead(f.numVFs, g.numVFs)
    && WorseRead(f.iommuGroup, g.iommuGroup) && WorseRead(f.iommuMembers, g.iommuMembers)
  }

  /** The later sysfs differs from the earlier one only by reads that fail. */
  ghost predicate Degraded(before: Sysfs, after: Sysfs) {
    && WorseRead(before.entries, after.entries)
    && forall dir :: WorseFunction(before.at(dir), after.at(dir))
  }
}
