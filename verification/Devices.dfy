/** Published devices, their attributes, and the DeviceClass selectors. */
module Devices {
  import opened Text

  /** The attribute keys that carry identity; the descriptive ones are in Device.extra. */
  datatype Key =
    | TypeKey | PciBusID | ParentPciBusID | PartitionModeKey
    | NumVFsKey | VfKey | IommuGroupKey | DeviceNodeName

  datatype Attribute = StringValue(text: string) | IntValue(number: int) | BoolValue(flag: bool)

  datatype Device = Device(name: string, attributes: map<Key, Attribute>, extra: string)

  const TYPE_NPU := "npu"
  const TYPE_NPU_VF := "npu-vf"
  const TYPE_VFIO := "vfio"

  /** deviceStringAttr: empty when the attribute is unset or not a string. */
  function StringAttr(d: Device, k: Key): string {
    if k in d.attributes && d.attributes[k].StringValue? then d.attributes[k].text else ""
  }

  function IntAttr(d: Device, k: Key): Option<int> {
    if k in d.attributes && d.attributes[k].IntValue? then Some(d.attributes[k].number) else None
  }

  function BoolAttr(d: Device, k: Key): Option<bool> {
    if k in d.attributes && d.attributes[k].BoolValue? then Some(d.attributes[k].flag) else None
  }

  predicate IsVfio(d: Device) {
    TypeKey in d.attributes && d.attributes[TypeKey] == StringValue(TYPE_VFIO)
  }

  /** The bus address up to case, the key of the duplicate check. */
  function Bus(d: Device): string {
    Lower(StringAttr(d, PciBusID))
  }

  /** Everything but the descriptive attributes. */
  ghost predicate SameIdentity(d: Device, e: Device) {
    d.name == e.name && d.attributes == e.attributes
  }

  ghost predicate SameIdentities(ds: seq<Device>, es: seq<Device>) {
    |ds| == |es| && forall i :: 0 <= i < |ds| ==> SameIdentity(ds[i], es[i])
  }

  ghost predicate DistinctNames(ds: seq<Device>) {
    forall i, j :: 0 <= i < j < |ds| ==> ds[i].name != ds[j].name
  }

  ghost predicate DistinctBuses(ds: seq<Device>) {
    forall i, j :: 0 <= i < j < |ds| ==> Bus(ds[i]) != Bus(ds[j])
  }

  // ---- DeviceClass selectors -----------------------------------------------

  datatype DeviceClass = Npu | NpuVF(vfs: nat) | VfioNpu | VfioNpuVF(vfs: nat)

  /** The six classes of the Helm chart. */
  const CLASSES: set<DeviceClass> := {Npu, NpuVF(1), NpuVF(4), VfioNpu, VfioNpuVF(1), VfioNpuVF(4)}

  /** The CEL selector of a class. */
  predicate Selects(c: DeviceClass, d: Device) {
    match c
    case Npu => StringAttr(d, TypeKey) == TYPE_NPU
    case NpuVF(n) => StringAttr(d, TypeKey) == TYPE_NPU_VF && StringAttr(d, PartitionModeKey) == "vf" + Itoa(n)
    case VfioNpu => StringAttr(d, TypeKey) == TYPE_VFIO && BoolAttr(d, VfKey) == Some(false)
    case VfioNpuVF(n) =>
      && StringAttr(d, TypeKey) == TYPE_VFIO && BoolAttr(d, VfKey) == Some(true)
      && StringAttr(d, PartitionModeKey) == "vf" + Itoa(n)
  }
}
