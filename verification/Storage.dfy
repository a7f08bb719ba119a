/** Everything the driver keeps outside its own memory: the checkpoint, the CDI
    specs, the KubeVirt metadata tree and the RSD groups. Every effect is one
    step that happens entirely or not at all, except that a write of an owner
    marker can be interrupted. */
module Storage {
  import opened Text
  import opened Devices

  // ---- what is stored ---------------------------------------------------------

  datatype Parent = ResourceClaims | ResourceClaimTemplates

  /** A directory two levels below the metadata base path. */
  datatype DirPath = DirPath(parent: Parent, name: string)

  /** The metadata file of one request in such a directory. */
  datatype FilePath = FilePath(dir: DirPath, request: string)

  datatype DeviceNode = DeviceNode(path: string, hostPath: string, permissions: string, uid: nat, gid: nat)

  /** A read-only bind mount of a metadata file. */
  datatype Mount = Mount(hostPath: FilePath, containerPath: FilePath)

  datatype Edits = Edits(nodes: seq<DeviceNode>, mounts: seq<Mount>)

  datatype PreparedDevice = PreparedDevice(
    requests: seq<string>, pool: string, device: string, cdiIDs: seq<string>, edits: Edits)

  /** The prepared claims of the checkpoint. A claim recorded with no devices
      reads back as a nil list and counts as not prepared. */
  type Claims = map<string, seq<PreparedDevice>>

  predicate IsPrepared(claims: Claims, uid: string) {
    uid in claims && claims[uid] != []
  }

  datatype CdiEdits = Injected(edits: Edits) | Runtime(umd: string)

  datatype CdiDevice = CdiDevice(name: string, edits: CdiEdits)

  /** A CDI spec of the driver's kind. */
  datatype Spec = Spec(devices: seq<CdiDevice>)

  datatype MetadataDevice = MetadataDevice(pool: string, name: string, attributes: map<Key, Attribute>)

  datatype MetadataFile = MetadataFile(podClaimName: Option<string>, request: string, devices: seq<MetadataDevice>)

  /** A metadata directory: its owner marker, and per request the temporary and the published file. */
  datatype ClaimDir = ClaimDir(marker: Option<string>, staged: map<string, MetadataFile>, files: map<string, MetadataFile>)

  const EMPTY_DIR := ClaimDir(None, map[], map[])

  /** The claim a directory's marker names. */
  function Owner(dir: ClaimDir): Option<string> {
    if dir.marker.Some? then Some(TrimSpace(dir.marker.value)) else None
  }

  // ---- the stores and their effects ------------------------------------------------

  /** `specs` is keyed by transient spec id and `groups` lists the RSD requests
      made so far. `faults` decides the coming effects: true fails, an
      exhausted list succeeds. A crash is a list that fails every remaining
      effect. The last three fields record what the driver itself does not
      remember: directories a cleanup passed over because their marker could not
      be read, claims whose rollback failed, and directories whose marker write
      was interrupted. An entry is dropped when a removal, a complete cleanup or a complete
      marker write settles it. */
  datatype Fs = Fs(
    checkpoint: Option<Claims>,
    specs: map<string, Spec>,
    tree: map<DirPath, ClaimDir>,
    groups: seq<seq<string>>,
    faults: seq<bool>,
    missed: set<DirPath>,
    abandoned: set<string>,
    torn: set<DirPath>)
  {
    predicate Fails() { faults != [] && faults[0] }

    /** No coming effect fails. */
    predicate Healthy() { true !in faults }

    function Next(): (r: Fs)
      ensures SameStores(r)
      ensures Healthy() ==> r.Healthy()
    {
      if faults == [] then this else this.(faults := faults[1..])
    }

    predicate SameStores(other: Fs) {
      this.(faults := other.faults) == other
    }

    predicate Owned(p: DirPath, uid: string) {
      p in tree && Owner(tree[p]) == Some(uid)
    }

    function ReadCheckpoint(): IO<Option<Claims>> {
      IO(Next(), if Fails() then None else checkpoint)
    }

    function WriteCheckpoint(claims: Claims): IO<bool> {
      if Fails() then IO(Next(), false) else IO(Next().(checkpoint := Some(claims)), true)
    }

    function WriteSpec(id: string, spec: Spec): IO<bool> {
      if Fails() then IO(Next(), false) else IO(Next().(specs := specs[id := spec]), true)
    }

    /** Removing a spec that does not exist succeeds. */
    function RemoveSpec(id: string): IO<bool> {
      if Fails() then IO(Next(), false) else IO(Next().(specs := specs - {id}), true)
    }

    /** The marker's text, or None when it is missing or cannot be read. */
    function ReadMarker(p: DirPath): IO<Option<string>> {
      IO(Next(), if Fails() || p !in tree then None else tree[p].marker)
    }

    function MkdirAll(p: DirPath): IO<bool> {
      if Fails() then IO(Next(), false)
      else IO(Next().(tree := if p in tree then tree else tree[p := EMPTY_DIR]), true)
    }

    /** Creates or empties the marker, then fills it. */
    function WriteMarker(p: DirPath, text: string, cut: nat): IO<bool>
      requires p in tree
    {
      if Fails() then IO(Next(), false)
      else Next().(tree := tree[p := tree[p].(marker := Some(""))], torn := torn + {p}).FillMarker(p, text, cut)
    }

    /** A failing write leaves the first `cut` characters. */
    function FillMarker(p: DirPath, text: string, cut: nat): IO<bool>
      requires p in tree
    {
      if Fails() then IO(Next().(tree := tree[p := tree[p].(marker := Some(FirstChars(text, cut)))]), false)
      else IO(Next().(tree := tree[p := tree[p].(marker := Some(text))], torn := torn - {p}), true)
    }

    function WriteStaged(p: DirPath, request: string, file: MetadataFile): IO<bool>
      requires p in tree
    {
      if Fails() then IO(Next(), false)
      else IO(Next().(tree := tree[p := tree[p].(staged := tree[p].staged[request := file])]), true)
    }

    /** Rename of the staged file over the published one. */
    function PublishStaged(p: DirPath, request: string): IO<bool>
      requires p in tree && request in tree[p].staged
    {
      if Fails() then IO(Next(), false)
      else
        var dir := tree[p];
        IO(Next().(tree := tree[p := dir.(staged := dir.staged - {request}, files := dir.files[request := dir.staged[request]])]),
           true)
    }

    /** The directory names below a parent; a missing parent lists nothing. */
    function List(parent: Parent): IO<Option<seq<string>>> {
      IO(Next(), if Fails() then None else Some(Listing(NamesIn(tree, parent))))
    }

    function RemoveAll(p: DirPath): IO<bool> {
      if Fails() then IO(Next(), false) else IO(Next().(tree := tree - {p}, missed := missed - {p}, torn := torn - {p}), true)
    }
  }

  function FirstChars(text: string, cut: nat): string {
    if cut <= |text| then text[..cut] else text
  }

  datatype IO<T> = IO(fs: Fs, value: T)

  function NamesIn(tree: map<DirPath, ClaimDir>, parent: Parent): set<string> {
    set p | p in tree && p.parent == parent :: p.name
  }

  // ---- CDI names ----------------------------------------------------------------------

  const COMMON := "common"
  const CDI_KIND := "k8s.npu.rebellions.ai/npu"

  function QualifiedName(device: string): string {
    CDI_KIND + "=" + device
  }

  function ClaimDeviceName(uid: string, device: string): string {
    uid + "-" + device
  }

  /** GetClaimDevices for one device. */
  function ClaimDeviceIDs(uid: string, device: string, includeCommon: bool): seq<string> {
    (if includeCommon then [QualifiedName(COMMON)] else []) + [QualifiedName(ClaimDeviceName(uid, device))]
  }

  function ClaimSpec(uid: string, devices: seq<PreparedDevice>): Spec {
    Spec(seq(|devices|, i requires 0 <= i < |devices| =>
      CdiDevice(ClaimDeviceName(uid, devices[i].device), Injected(devices[i].edits))))
  }

  /** CreateClaimSpecFile. */
  method CreateClaimSpecFile(fs: Fs, uid: string, devices: seq<PreparedDevice>) returns (r: IO<bool>)
    ensures r == fs.WriteSpec(uid, ClaimSpec(uid, devices))
    ensures r.value ==>
              && uid in r.fs.specs && |r.fs.specs[uid].devices| == |devices|
              && forall i :: 0 <= i < |devices| ==>
                   r.fs.specs[uid].devices[i] == CdiDevice(uid + "-" + devices[i].device, Injected(devices[i].edits))
  {
    var found: seq<CdiDevice> := [];
    for i := 0 to |devices|
      invariant found == ClaimSpec(uid, devices).devices[..i]
    {
      found := found + [CdiDevice(ClaimDeviceName(uid, devices[i].device), Injected(devices[i].edits))];
    }
    assert found == ClaimSpec(uid, devices).devices;
    r := fs.WriteSpec(uid, Spec(found));
  }

  /** The container runtime finds a qualified name in exactly one spec, at exactly one position. */
  ghost predicate Resolves(specs: map<string, Spec>, id: string) {
    exists k, i: nat ::
      && k in specs && i < |specs[k].devices| && QualifiedName(specs[k].devices[i].name) == id
      && forall other, j: nat :: other in specs && j < |specs[other].devices| && QualifiedName(specs[other].devices[j].name) == id ==>
           other == k && j == i
  }
}
