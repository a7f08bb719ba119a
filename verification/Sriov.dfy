/** SR-IOV layout of a PCI function and the device names that encode it. */
module Sriov {
  import opened Text
  import opened Sysfs
  import opened Devices

  datatype SriovInfo = SriovInfo(parent: string, numVFs: nat) {
    predicate IsVF() { parent != "" }
    predicate IsHostingPF() { !IsVF() && numVFs > 0 }

    function PartitionMode(): string {
      if IsVF() then "vf" + Itoa(numVFs) else "none"
    }

    function DeviceName(base: string): string {
      if IsVF() then base + "-" + PartitionMode() else base
    }

    /** setAttributes: adds the layout to an attribute map. */
    function SetAttributes(attrs: map<Key, Attribute>): map<Key, Attribute> {
      var common := attrs[VfKey := BoolValue(IsVF())];
      var withParent := if IsVF() then common[ParentPciBusID := StringValue(parent)] else common;
      withParent[PartitionModeKey := StringValue(PartitionMode())][NumVFsKey := IntValue(numVFs)]
    }
  }

  /** A layout that was read but is not supported is omitted; a read that failed aborts discovery. */
  datatype Probe<+T> = Found(value: T) | Unsupported | Failed

  /** probeSRIOV. The lookup directory is lower case, the parent's as its link spells it. */
  function ProbeSriov(sys: Sysfs, bus: string): (r: Probe<SriovInfo>)
    ensures r.Found? ==> (r.value.IsVF() ==> r.value.numVFs in {1, 4} && IsPciAddress(r.value.parent))
    ensures r.Found? ==> IsPciAddress(bus)
  {
    var f := sys.at(Lower(bus));
    if !IsPciAddress(bus) || !f.stat.Ok? then Failed
    else match f.physfnStat
      case Err => Failed
      case Ok(_) =>
        if !f.physfn.Ok? then Failed
        else
          var parent := f.physfn.value;
          if !IsPciAddress(parent) || EqualFold(parent, bus) then Failed
          else (match ReadNumVFs(sys.at(parent))
                case Absent => Failed
                case Err => Failed
                case Ok(n) => if n != 1 && n != 4 then Unsupported else Found(SriovInfo(parent, n)))
      case Absent =>
        match ReadNumVFs(f)
        case Absent => Found(SriovInfo("", 0))
        case Err => Failed
        case Ok(n) => if n != 0 && n != 1 && n != 4 then Unsupported else Found(SriovInfo("", n))
  }

  /** isolatedIOMMUGroup: the group number, when the function is alone in it. */
  function IsolatedGroup(f: PciFunction, bus: string): Probe<int> {
    match f.iommuGroup
    case Absent => Unsupported
    case Err => Failed
    case Ok(base) =>
      var group := ParseInt(base);
      if group.None? || !f.iommuMembers.Ok? then Failed
      else
        var members := f.iommuMembers.value;
        if |members| != 1 || !EqualFold(members[0], bus) then Unsupported else Found(group.value)
  }

  // ---- exactly when a layout or a group is found ----------------------------------

  lemma VFCountExactly(f: PciFunction, n: nat)
    ensures ReadNumVFs(f) == Ok(n) <==> f.numVFs.Ok? && ParseInt(TrimSpace(f.numVFs.value)) == Some(n)
    ensures ReadNumVFs(f).Absent? <==> f.numVFs.Absent?
  {}

  /** The readable, valid parent link of a virtual function. */
  ghost predicate HasParent(f: PciFunction, bus: string) {
    f.physfnStat.Ok? && f.physfn.Ok? && IsPciAddress(f.physfn.value) && !EqualFold(f.physfn.value, bus)
  }

  /** Exactly which layout a function has: a virtual function carries the VF
      count of the function its link names, any other function its own. */
  lemma LayoutFoundExactly(sys: Sysfs, bus: string, info: SriovInfo)
    ensures var f := sys.at(Lower(bus));
            ProbeSriov(sys, bus) == Found(info) <==>
              && IsPciAddress(bus) && f.stat.Ok?
              && (|| (HasParent(f, bus) && info.parent == f.physfn.value
                      && ReadNumVFs(sys.at(f.physfn.value)) == Ok(info.numVFs) && info.numVFs in {1, 4})
                  || (f.physfnStat.Absent? && info.parent == ""
                      && ((f.numVFs.Absent? && info.numVFs == 0) || (ReadNumVFs(f) == Ok(info.numVFs) && info.numVFs in {0, 1, 4}))))
  {}

  /** Exactly when a layout was read but is not supported. */
  lemma LayoutUnsupportedExactly(sys: Sysfs, bus: string)
    ensures var f := sys.at(Lower(bus));
            ProbeSriov(sys, bus).Unsupported? <==>
              && IsPciAddress(bus) && f.stat.Ok?
              && (|| (HasParent(f, bus) && ReadNumVFs(sys.at(f.physfn.value)).Ok? && ReadNumVFs(sys.at(f.physfn.value)).value !in {1, 4})
                  || (f.physfnStat.Absent? && ReadNumVFs(f).Ok? && ReadNumVFs(f).value !in {0, 1, 4}))
  {}

  /** Exactly when an SR-IOV layout cannot be determined. For a virtual function
      a missing VF count of its parent is a failure, for any other function it means no VFs. */
  lemma LayoutFailsExactly(sys: Sysfs, bus: string)
    ensures var f := sys.at(Lower(bus));
            ProbeSriov(sys, bus).Failed? <==>
              || !IsPciAddress(bus) || !f.stat.Ok? || f.physfnStat.Err?
              || (f.physfnStat.Absent? && ReadNumVFs(f).Err?)
              || (f.physfnStat.Ok? && !(HasParent(f, bus) && ReadNumVFs(sys.at(f.physfn.value)).Ok?))
  {}

  /** Exactly which IOMMU group is exclusive to a function, when it has none
      that is, and when that cannot be determined. */
  lemma GroupExactly(f: PciFunction, bus: string, group: int)
    ensures var parsed := f.iommuGroup.Ok? && ParseInt(f.iommuGroup.value).Some?;
            && (IsolatedGroup(f, bus) == Found(group) <==>
                  && f.iommuGroup.Ok? && ParseInt(f.iommuGroup.value) == Some(group)
                  && f.iommuMembers.Ok? && |f.iommuMembers.value| == 1 && EqualFold(f.iommuMembers.value[0], bus))
            && (IsolatedGroup(f, bus).Failed? <==> !f.iommuGroup.Absent? && !(parsed && f.iommuMembers.Ok?))
  {}

  function Dashed(c: char): char { if c == ':' || c == '.' then '-' else c }

  function DashedAddress(bus: string): string {
    Lower(seq(|bus|, i requires 0 <= i < |bus| => Dashed(bus[i])))
  }

  /** vfioDeviceName. */
  function VfioDeviceName(bus: string): string {
    "vfio-" + DashedAddress(bus)
  }

  // ---- degraded reads never change an answer, they only withdraw it -----------

  lemma ProbeDegrades(before: Sysfs, after: Sysfs, bus: string)
    requires Degraded(before, after)
    ensures ProbeSriov(after, bus) == ProbeSriov(before, bus) || ProbeSriov(after, bus).Failed?
  {
    assert WorseFunction(before.at(Lower(bus)), after.at(Lower(bus)));
    if before.at(Lower(bus)).physfn.Ok? {
      var parent := before.at(Lower(bus)).physfn.value;
      assert WorseFunction(before.at(parent), after.at(parent));
    }
  }

  lemma GroupDegrades(f: PciFunction, g: PciFunction, bus: string)
    requires WorseFunction(f, g)
    ensures IsolatedGroup(g, bus) == IsolatedGroup(f, bus) || IsolatedGroup(g, bus).Failed?
  {}

  // ---- names are identities -----------------------------------------------------

  lemma DashedAt(a: string, i: nat)
    requires IsPciAddress(a) && i < 12
    ensures DashedAddress(a)[i] == if i == 4 || i == 7 || i == 10 then '-' else Lower(a)[i]
  {}

  lemma SeparatorAt(a: string)
    requires IsPciAddress(a)
    ensures Lower(a)[4] == ':' && Lower(a)[7] == ':' && Lower(a)[10] == '.'
  {}

  lemma VfioBaseInjective(a: string, b: string)
    requires IsPciAddress(a) && IsPciAddress(b)
    ensures |VfioDeviceName(a)| == 17
    ensures VfioDeviceName(a) == VfioDeviceName(b) <==> EqualFold(a, b)
  {
    var x, y := DashedAddress(a), DashedAddress(b);
    assert VfioDeviceName(a)[5..] == x && VfioDeviceName(b)[5..] == y;
    SeparatorAt(a);
    SeparatorAt(b);
    forall i: nat | i < 12 ensures x[i] == y[i] <==> Lower(a)[i] == Lower(b)[i] {
      DashedAt(a, i);
      DashedAt(b, i);
    }
    assert x == y <==> Lower(a) == Lower(b);
  }

  /** The supported layouts spelled out: mode and name of a virtual function carry its parent's VF count. */
  lemma NamesSpelledOut(info: SriovInfo, base: string)
    ensures info.parent == "" ==> info.PartitionMode() == "none" && info.DeviceName(base) == base
    ensures info.parent != "" && info.numVFs == 1 ==> info.PartitionMode() == "vf1" && info.DeviceName(base) == base + "-vf1"
    ensures info.parent != "" && info.numVFs == 4 ==> info.PartitionMode() == "vf4" && info.DeviceName(base) == base + "-vf4"
  {
    assert Itoa(1) == "1" && Itoa(4) == "4";
    assert base + "-" + "vf1" == base + "-vf1" && base + "-" + "vf4" == base + "-vf4";
  }

  /** Two layouts give a base the same name exactly when their partition modes agree. */
  lemma SuffixInjective(base: string, s: SriovInfo, t: SriovInfo)
    ensures s.DeviceName(base) == t.DeviceName(base) <==> s.PartitionMode() == t.PartitionMode()
  {
    if s.IsVF() && t.IsVF() {
      var n := |base| + 1;
      assert s.DeviceName(base)[n..] == s.PartitionMode();
      assert t.DeviceName(base)[n..] == t.PartitionMode();
    } else if s.IsVF() || t.IsVF() {
      assert ("vf" + Itoa(s.numVFs))[0] == 'v' && ("vf" + Itoa(t.numVFs))[0] == 'v' && "none"[0] == 'n';
      assert |s.DeviceName(base)| != |t.DeviceName(base)|;
    }
  }

  /** Published passthrough names are identities: equal exactly when the
      addresses agree up to case and the partition modes agree. */
  lemma VfioNameIdentity(a: string, s: SriovInfo, b: string, t: SriovInfo)
    requires IsPciAddress(a) && IsPciAddress(b)
    ensures s.DeviceName(VfioDeviceName(a)) == t.DeviceName(VfioDeviceName(b)) <==>
              EqualFold(a, b) && s.PartitionMode() == t.PartitionMode()
  {
    VfioBaseInjective(a, b);
    VfioBaseInjective(b, a);
    var x, y := s.DeviceName(VfioDeviceName(a)), t.DeviceName(VfioDeviceName(b));
    assert x[..17] == VfioDeviceName(a) && y[..17] == VfioDeviceName(b);
    if x == y || EqualFold(a, b) {
      SuffixInjective(VfioDeviceName(a), s, t);
    }
  }

  /** Same partition mode, same VF-ness; for virtual functions also the same count. */
  lemma ModeDeterminesCount(s: SriovInfo, t: SriovInfo)
    requires s.PartitionMode() == t.PartitionMode()
    ensures s.IsVF() == t.IsVF()
    ensures s.IsVF() ==> s.numVFs == t.numVFs
  {
    if s.IsVF() || t.IsVF() {
      assert ("vf" + Itoa(s.numVFs))[0] == 'v' && ("vf" + Itoa(t.numVFs))[0] == 'v' && "none"[0] == 'n';
    }
    if s.IsVF() && t.IsVF() {
      assert s.PartitionMode()[2..] == Itoa(s.numVFs) && t.PartitionMode()[2..] == Itoa(t.numVFs);
      ItoaInjective(s.numVFs, t.numVFs);
    }
  }
}
