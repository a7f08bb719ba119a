/** The KubeVirt metadata tree: per-claim directories with an owner marker. */
module Metadata {
  import opened Text
  import opened Devices
  import opened Storage

  const DRIVER_NAME := "npu.rebellions.ai"

  datatype Allocated = Allocated(request: string, driver: string, pool: string, device: string)

  /** A resource claim. `podClaimName` is the pod-claim-name annotation. */
  datatype Claim = Claim(uid: string, name: string, podClaimName: Option<string>, allocation: Option<seq<Allocated>>)

  // ---- paths ---------------------------------------------------------------------------

  function UidDir(uid: string): DirPath {
    DirPath(ResourceClaims, ".uid-" + uid)
  }

  /** kubevirtMetadataRequestName: the main request of a "main/sub" request. */
  function MainRequest(a: Allocated): string {
    BeforeSlash(a.request)
  }

  /** A "main/sub" request is filed under the main request, any other under itself. */
  lemma MainRequestExactly(a: Allocated, main: string)
    ensures MainRequest(a) == main <==> IsHead(main, a.request)
  {
    BeforeSlashExactly(a.request, main);
  }

  function PodClaimName(claim: Claim): Option<string> {
    if claim.podClaimName == Some("") then None else claim.podClaimName
  }

  /** kubevirtMetadataContainerDirs. */
  function ContainerDirs(claim: Claim): seq<DirPath> {
    [DirPath(ResourceClaims, claim.name)] +
    (if PodClaimName(claim).Some? then [DirPath(ResourceClaimTemplates, PodClaimName(claim).value)] else [])
  }

  function MetadataMountsOf(claim: Claim, request: string): seq<Mount> {
    var dirs := ContainerDirs(claim);
    seq(|dirs|, i requires 0 <= i < |dirs| => Mount(FilePath(UidDir(claim.uid), request), FilePath(dirs[i], request)))
  }

  /** kubevirtMetadataMounts. */
  method KubevirtMetadataMounts(claim: Claim, request: string) returns (mounts: seq<Mount>)
    ensures mounts == MetadataMountsOf(claim, request)
  {
    var dirs := ContainerDirs(claim);
    mounts := [];
    for i := 0 to |dirs|
      invariant mounts == MetadataMountsOf(claim, request)[..i]
    {
      mounts := mounts + [Mount(FilePath(UidDir(claim.uid), request), FilePath(dirs[i], request))];
    }
  }

  /** The mounts of a request: its file in the claim's UID directory, seen
      under the claim's name and, for a pod claim with a name of its own, under that name too. */
  lemma MountsExactly(claim: Claim, request: string)
    ensures var file := FilePath(DirPath(ResourceClaims, ".uid-" + claim.uid), request);
            var byName := Mount(file, FilePath(DirPath(ResourceClaims, claim.name), request));
            MetadataMountsOf(claim, request) ==
            if claim.podClaimName.Some? && claim.podClaimName.value != ""
            then [byName, Mount(file, FilePath(DirPath(ResourceClaimTemplates, claim.podClaimName.value), request))]
            else [byName]
  {
    var mounts, dirs := MetadataMountsOf(claim, request), ContainerDirs(claim);
    var named := claim.podClaimName.Some? && claim.podClaimName.value != "";
    assert PodClaimName(claim) == if named then claim.podClaimName else None;
    assert |mounts| == |dirs| && dirs[0] == DirPath(ResourceClaims, claim.name);
    assert mounts[0] == Mount(FilePath(UidDir(claim.uid), request), FilePath(dirs[0], request));
    if named {
      assert |dirs| == 2 && dirs[1] == DirPath(ResourceClaimTemplates, claim.podClaimName.value);
      assert mounts[1] == Mount(FilePath(UidDir(claim.uid), request), FilePath(dirs[1], request));
      assert mounts == [mounts[0], mounts[1]];
    } else {
      assert |dirs| == 1;
      assert mounts == [mounts[0]];
    }
  }

  lemma UidDirInjective(a: string, b: string)
    ensures UidDir(a) == UidDir(b) <==> a == b
  {
    assert (".uid-" + a)[5..] == a && (".uid-" + b)[5..] == b;
  }

  // ---- ownership -------------------------------------------------------------------------

  /** claimMetadataOwnership: a readable marker decides; a directory whose
      marker is missing or unreadable is adopted. */
  function ClaimOwnership(fs: Fs, uid: string, cut: nat): IO<bool> {
    var p := UidDir(uid);
    var IO(afterRead, text) := fs.ReadMarker(p);
    if text.Some? then IO(afterRead, TrimSpace(text.value) == uid)
    else
      var IO(afterMkdir, made) := afterRead.MkdirAll(p);
      if !made then IO(afterMkdir, false) else afterMkdir.WriteMarker(p, uid + "\n", cut)
  }

  /** Exactly when a directory can be claimed while no effect fails: its marker
      is missing or names the claim. A present but empty marker, as an
      interrupted write leaves it, blocks the claim. */
  lemma OwnershipDecision(fs: Fs, uid: string, cut: nat)
    requires fs.Healthy()
    ensures ClaimOwnership(fs, uid, cut).value <==>
              UidDir(uid) !in fs.tree || Owner(fs.tree[UidDir(uid)]) in {None, Some(uid)}
  {}

  // ---- writing ---------------------------------------------------------------------------

  predicate InFile(a: Allocated, allocatable: map<string, Device>) {
    a.driver == DRIVER_NAME && a.device in allocatable
  }

  function FileDevice(a: Allocated, allocatable: map<string, Device>): MetadataDevice
    requires InFile(a, allocatable)
  {
    MetadataDevice(a.pool, a.device, allocatable[a.device].attributes)
  }

  /** The devices listed in the file of one main request, in allocation order. */
  function DevicesFor(results: seq<Allocated>, allocatable: map<string, Device>, request: string): seq<MetadataDevice> {
    if results == [] then [] else
      var last := results[|results| - 1];
      var before := DevicesFor(results[..|results| - 1], allocatable, request);
      if InFile(last, allocatable) && MainRequest(last) == request then before + [FileDevice(last, allocatable)] else before
  }

  function Requests(results: seq<Allocated>, allocatable: map<string, Device>): set<string> {
    set a | a in results && InFile(a, allocatable) :: MainRequest(a)
  }

  function DevicesByRequest(results: seq<Allocated>, allocatable: map<string, Device>): map<string, seq<MetadataDevice>> {
    map r | r in Requests(results, allocatable) :: DevicesFor(results, allocatable, r)
  }

  lemma RequestsStep(results: seq<Allocated>, allocatable: map<string, Device>, i: nat)
    requires i < |results|
    ensures Requests(results[..i + 1], allocatable) ==
            Requests(results[..i], allocatable) + if InFile(results[i], allocatable) then {MainRequest(results[i])} else {}
  {
    assert results[..i + 1] == results[..i] + [results[i]];
  }

  lemma DevicesForStep(results: seq<Allocated>, allocatable: map<string, Device>, i: nat, request: string)
    requires i < |results|
    ensures var before := DevicesFor(results[..i], allocatable, request);
            DevicesFor(results[..i + 1], allocatable, request) ==
            if InFile(results[i], allocatable) && MainRequest(results[i]) == request
            then before + [FileDevice(results[i], allocatable)] else before
  {
    assert results[..i + 1][..i] == results[..i];
  }

  lemma GroupStep(results: seq<Allocated>, allocatable: map<string, Device>, i: nat)
    requires i < |results|
    ensures var before, a := DevicesByRequest(results[..i], allocatable), results[i];
            DevicesByRequest(results[..i + 1], allocatable) ==
            if InFile(a, allocatable) then
              var r := MainRequest(a);
              before[r := (if r in before then before[r] else []) + [FileDevice(a, allocatable)]]
            else before
  {
    var a, before, after := results[i], DevicesByRequest(results[..i], allocatable), DevicesByRequest(results[..i + 1], allocatable);
    RequestsStep(results, allocatable, i);
    forall r | r in after ensures after[r] == Appended(before, a, allocatable, r) {
      DevicesForStep(results, allocatable, i, r);
      if r !in before {
        NoDevicesFor(results[..i], allocatable, r);
      }
    }
    AppendedMap(before, after, a, allocatable);
  }

  ghost function Appended(before: map<string, seq<MetadataDevice>>, a: Allocated, allocatable: map<string, Device>, r: string): seq<MetadataDevice> {
    var prior := if r in before then before[r] else [];
    if InFile(a, allocatable) && MainRequest(a) == r then prior + [FileDevice(a, allocatable)] else prior
  }

  lemma AppendedMap(before: map<string, seq<MetadataDevice>>, after: map<string, seq<MetadataDevice>>,
                    a: Allocated, allocatable: map<string, Device>)
    requires after.Keys == before.Keys + if InFile(a, allocatable) then {MainRequest(a)} else {}
    requires forall r :: r in after ==> after[r] == Appended(before, a, allocatable, r)
    ensures after == if InFile(a, allocatable) then
                       var r := MainRequest(a);
                       before[r := (if r in before then before[r] else []) + [FileDevice(a, allocatable)]]
                     else before
  {}

  /** The grouping loop of writeKubeVirtMetadata. */
  method GroupByRequest(results: seq<Allocated>, allocatable: map<string, Device>) returns (m: map<string, seq<MetadataDevice>>)
    ensures m == DevicesByRequest(results, allocatable)
  {
    m := map[];
    for i := 0 to |results|
      invariant m == DevicesByRequest(results[..i], allocatable)
    {
      GroupStep(results, allocatable, i);
      var a := results[i];
      if InFile(a, allocatable) {
        var r := MainRequest(a);
        m := m[r := (if r in m then m[r] else []) + [FileDevice(a, allocatable)]];
      }
    }
    assert results[..|results|] == results;
  }

  lemma {:induction false} NoDevicesFor(results: seq<Allocated>, allocatable: map<string, Device>, request: string)
    requires request !in Requests(results, allocatable)
    ensures DevicesFor(results, allocatable, request) == []
  {
    if results != [] {
      var n := |results| - 1;
      assert results[n] in results;
      NoDevicesFor(results[..n], allocatable, request);
    }
  }

  /** The result belongs in a request's file: it is the driver's, its device
      is in the inventory, and the request is its main request. */
  ghost predicate BelongsTo(a: Allocated, allocatable: map<string, Device>, request: string) {
    a.driver == DRIVER_NAME && a.device in allocatable && IsHead(request, a.request)
  }

  /** A request's file lists the devices allocated to that main request, each once, in allocation order. */
  lemma {:induction false} FileListsRequest(results: seq<Allocated>, allocatable: map<string, Device>, request: string)
    returns (pos: seq<nat>)
    ensures |pos| == |DevicesFor(results, allocatable, request)|
    ensures forall k, l :: 0 <= k < l < |pos| ==> pos[k] < pos[l]
    ensures forall k :: 0 <= k < |pos| ==>
              && pos[k] < |results| && BelongsTo(results[pos[k]], allocatable, request)
              && DevicesFor(results, allocatable, request)[k] ==
                   MetadataDevice(results[pos[k]].pool, results[pos[k]].device, allocatable[results[pos[k]].device].attributes)
    ensures forall i: nat :: i < |results| && BelongsTo(results[i], allocatable, request) ==> i in pos
  {
    pos := [];
    if results != [] {
      var n := |results| - 1;
      var rest, last := results[..n], results[n];
      pos := FileListsRequest(rest, allocatable, request);
      MainRequestExactly(last, request);
      assert forall i: nat :: i < n ==> rest[i] == results[i];
      var before := DevicesFor(rest, allocatable, request);
      assert DevicesFor(results, allocatable, request) ==
             if BelongsTo(last, allocatable, request) then before + [FileDevice(last, allocatable)] else before;
      hide DevicesFor, BelongsTo;
      if BelongsTo(last, allocatable, request) {
        pos := pos + [n];
      }
    }
  }

  /** There is a file for a request exactly if some result belongs in it. */
  lemma RequestsExactly(results: seq<Allocated>, allocatable: map<string, Device>, request: string)
    ensures request in Requests(results, allocatable) <==> exists a :: a in results && BelongsTo(a, allocatable, request)
  {
    forall a ensures MainRequest(a) == request <==> IsHead(request, a.request) { MainRequestExactly(a, request); }
    hide MainRequest, Text.IsHead;
  }

  /** One file: make its directory, write it aside, rename it into place. */
  function PublishFile(fs: Fs, p: DirPath, request: string, file: MetadataFile): (r: IO<bool>)
    requires p in fs.tree
    ensures r.fs.tree.Keys == fs.tree.Keys && r.fs.tree[p].marker == fs.tree[p].marker
    ensures r.fs.SameStores(fs.(tree := r.fs.tree, faults := r.fs.faults))
    ensures forall q :: q in fs.tree && q != p ==> r.fs.tree[q] == fs.tree[q]
    ensures forall k :: k in fs.tree[p].files && k != request ==> k in r.fs.tree[p].files && r.fs.tree[p].files[k] == fs.tree[p].files[k]
    ensures r.value ==> request in r.fs.tree[p].files && r.fs.tree[p].files[request] == file && request !in r.fs.tree[p].staged
    ensures fs.Healthy() ==> r.value && r.fs.Healthy()
  {
    var IO(afterMkdir, made) := fs.MkdirAll(p);
    if !made then IO(afterMkdir, false)
    else
      var IO(afterWrite, wrote) := afterMkdir.WriteStaged(p, request, file);
      if !wrote then IO(afterWrite, false) else afterWrite.PublishStaged(p, request)
  }

  /** The files of a claim's directory, written in the order the map is ranged over. */
  function PublishFiles(fs: Fs, p: DirPath, alias: Option<string>, order: seq<string>,
                        devices: map<string, seq<MetadataDevice>>): (r: IO<bool>)
    requires p in fs.tree && forall k :: k in order ==> k in devices
    ensures r.fs.tree.Keys == fs.tree.Keys && r.fs.tree[p].marker == fs.tree[p].marker
    ensures r.fs.SameStores(fs.(tree := r.fs.tree, faults := r.fs.faults))
    ensures forall q :: q in fs.tree && q != p ==> r.fs.tree[q] == fs.tree[q]
    ensures forall k :: k in fs.tree[p].files && k !in order ==> k in r.fs.tree[p].files && r.fs.tree[p].files[k] == fs.tree[p].files[k]
    ensures r.value ==> forall k :: k in order ==> k in r.fs.tree[p].files && r.fs.tree[p].files[k] == MetadataFile(alias, k, devices[k])
    ensures fs.Healthy() ==> r.value && r.fs.Healthy()
    decreases |order|
  {
    if order == [] then IO(fs, true)
    else
      var IO(next, ok) := PublishFile(fs, p, order[0], MetadataFile(alias, order[0], devices[order[0]]));
      if !ok then IO(next, false) else PublishFiles(next, p, alias, order[1..], devices)
  }

  /** writeKubeVirtMetadata. */
  function WriteMetadata(fs: Fs, claim: Claim, allocatable: map<string, Device>, order: seq<string>, cut: nat): IO<bool>
    requires claim.allocation.Some?
  {
    var devices := DevicesByRequest(claim.allocation.value, allocatable);
    var IO(owned, ok) := ClaimOwnership(fs, claim.uid, cut);
    if !ok then IO(owned, false)
    else PublishFiles(owned, UidDir(claim.uid), PodClaimName(claim), Arranged(order, devices.Keys), devices)
  }

  method WriteKubeVirtMetadata(fs: Fs, claim: Claim, allocatable: map<string, Device>, order: seq<string>, cut: nat) returns (r: IO<bool>)
    requires claim.allocation.Some?
    ensures r == WriteMetadata(fs, claim, allocatable, order, cut)
  {
    var devices := GroupByRequest(claim.allocation.value, allocatable);
    r := ClaimOwnership(fs, claim.uid, cut);
    if r.value {
      r := WriteFiles(r.fs, UidDir(claim.uid), PodClaimName(claim), Arranged(order, devices.Keys), devices);
    }
  }

  /** The file loop of writeKubeVirtMetadata. */
  method WriteFiles(fs: Fs, p: DirPath, alias: Option<string>, requests: seq<string>, devices: map<string, seq<MetadataDevice>>)
    returns (r: IO<bool>)
    requires p in fs.tree && forall k :: k in requests ==> k in devices
    ensures r == PublishFiles(fs, p, alias, requests, devices)
  {
    hide PublishFile;
    var cur := fs;
    for i := 0 to |requests|
      invariant p in cur.tree
      invariant PublishFiles(cur, p, alias, requests[i..], devices) == PublishFiles(fs, p, alias, requests, devices)
    {
      var request := requests[i];
      var IO(next, published) := PublishFile(cur, p, request, MetadataFile(alias, request, devices[request]));
      assert requests[i..][1..] == requests[i + 1..];
      if !published {
        return IO(next, false);
      }
      cur := next;
    }
    r := IO(cur, true);
  }

  // ---- cleanup ---------------------------------------------------------------------------

  /** The tree lost nothing but directories owned by the claim. */
  ghost predicate OnlyLost(fs: Fs, after: Fs, uid: string) {
    && (forall p :: p in after.tree ==> p in fs.tree && after.tree[p] == fs.tree[p])
    && (forall p :: p in fs.tree && !fs.Owned(p, uid) ==> p in after.tree)
  }

  /** Nothing but the tree, the fault schedule and the records changed. The
      records lose only directories that are gone. */
  ghost predicate CleanupFrame(fs: Fs, after: Fs) {
    && after.checkpoint == fs.checkpoint && after.specs == fs.specs && after.groups == fs.groups
    && (forall p :: p in fs.missed && p in after.tree ==> p in after.missed)
    && after.torn <= fs.torn && (forall p :: p in fs.torn && p in after.tree ==> p in after.torn)
    && (fs.Healthy() ==> after.Healthy() && after.missed <= fs.missed)
  }

  /** One listed directory: removed when its marker names the claim, passed over otherwise. */
  function CleanDir(fs: Fs, p: DirPath, uid: string): (r: IO<bool>)
    ensures CleanupFrame(fs, r.fs) && OnlyLost(fs, r.fs, uid) && r.fs.abandoned == fs.abandoned
    ensures r.value ==> !r.fs.Owned(p, uid) || p in r.fs.missed
    ensures fs.Healthy() ==> r.value && !r.fs.Owned(p, uid)
  {
    var IO(afterRead, text) := fs.ReadMarker(p);
    if text.None? || TrimSpace(text.value) != uid then
      IO(if fs.Fails() && fs.Owned(p, uid) then afterRead.(missed := fs.missed + {p}) else afterRead, true)
    else afterRead.RemoveAll(p)
  }

  function CleanDirs(fs: Fs, parent: Parent, names: seq<string>, uid: string): (r: IO<bool>)
    ensures CleanupFrame(fs, r.fs) && OnlyLost(fs, r.fs, uid) && r.fs.abandoned == fs.abandoned
    ensures r.value ==> forall n :: n in names ==> !r.fs.Owned(DirPath(parent, n), uid) || DirPath(parent, n) in r.fs.missed
    ensures fs.Healthy() ==> r.value && forall n :: n in names ==> !r.fs.Owned(DirPath(parent, n), uid)
    decreases |names|
  {
    if names == [] then IO(fs, true)
    else
      var IO(next, ok) := CleanDir(fs, DirPath(parent, names[0]), uid);
      if !ok then IO(next, false) else CleanDirs(next, parent, names[1..], uid)
  }

  function CleanParent(fs: Fs, parent: Parent, uid: string): (r: IO<bool>)
    ensures CleanupFrame(fs, r.fs) && OnlyLost(fs, r.fs, uid) && r.fs.abandoned == fs.abandoned
    ensures r.value ==> forall p :: r.fs.Owned(p, uid) && p.parent == parent ==> p in r.fs.missed
    ensures fs.Healthy() ==> r.value && forall p :: r.fs.Owned(p, uid) ==> p.parent != parent
  {
    hide CleanDirs;
    var IO(listed, names) := fs.List(parent);
    if names.None? then IO(listed, false)
    else
      assert forall p :: p in fs.tree && p.parent == parent ==> p.name in names.value && p == DirPath(parent, p.name);
      CleanDirs(listed, parent, names.value, uid)
  }

  /** removeKubeVirtMetadataForClaim: when it succeeds, the directories still
      owned by the claim are the ones whose marker could not be read. */
  function Cleanup(fs: Fs, uid: string): (r: IO<bool>)
    ensures CleanupFrame(fs, r.fs) && OnlyLost(fs, r.fs, uid)
    ensures r.fs.abandoned == if r.value then fs.abandoned - {uid} else fs.abandoned
    ensures r.value ==> forall p :: r.fs.Owned(p, uid) ==> p in r.fs.missed
    ensures fs.Healthy() ==> r.value && forall p :: !r.fs.Owned(p, uid)
  {
    hide CleanParent;
    var IO(first, ok) := CleanParent(fs, ResourceClaims, uid);
    if !ok then IO(first, false) else Settled(CleanParent(first, ResourceClaimTemplates, uid), uid)
  }

  /** A cleanup that went over everything settles an earlier failed rollback. */
  function Settled(r: IO<bool>, uid: string): IO<bool> {
    if r.value then r.(fs := r.fs.(abandoned := r.fs.abandoned - {uid})) else r
  }

  method RemoveKubeVirtMetadataForClaim(fs: Fs, uid: string) returns (r: IO<bool>)
    ensures r == Cleanup(fs, uid)
  {
    r := RemoveIn(fs, ResourceClaims, uid);
    if r.value {
      r := RemoveIn(r.fs, ResourceClaimTemplates, uid);
      r := Settled(r, uid);
    }
  }

  /** One pass of the outer loop of removeKubeVirtMetadataForClaim. */
  method RemoveIn(fs: Fs, parent: Parent, uid: string) returns (r: IO<bool>)
    ensures r == CleanParent(fs, parent, uid)
  {
    var IO(listed, names) := fs.List(parent);
    if names.None? {
      return IO(listed, false);
    }
    var cur := listed;
    for i := 0 to |names.value|
      invariant CleanDirs(cur, parent, names.value[i..], uid) == CleanDirs(listed, parent, names.value, uid)
    {
      var IO(next, ok) := CleanDir(cur, DirPath(parent, names.value[i]), uid);
      assert names.value[i..][1..] == names.value[i + 1..];
      if !ok {
        return IO(next, false);
      }
      cur := next;
    }
    r := IO(cur, true);
  }
}
