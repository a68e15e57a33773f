/** The worker's machine-image lookup with its status memory, over arbitrary profile changes. */
module ImageMemory {
  import opened Prelude
  import opened ImageTables

  const AMD64 := "amd64"

  /** An image as recorded in the worker status. */
  datatype Recorded = Recorded(name: string, project: string, version: string, path: string, architecture: Option<string>)

  /** What a pool asks for; the architecture is already defaulted. */
  datatype Key = Key(name: string, version: string, architecture: string)

  datatype Pool = Pool(imageName: string, imageVersion: string, architecture: Option<string>)

  function KeyOf(p: Pool): Key {
    Key(p.imageName, p.imageVersion, if p.architecture.Some? then p.architecture.value else AMD64)
  }

  function RecordKey(r: Recorded): Key {
    Key(r.name, r.version, if r.architecture.Some? then r.architecture.value else AMD64)
  }

  /** First recorded entry of the key. */
  function FindRecorded(rs: seq<Recorded>, k: Key): Option<Found> {
    if rs == [] then None
    else if RecordKey(rs[0]) == k then Some(Found(rs[0].path, rs[0].project))
    else FindRecorded(rs[1..], k)
  }

  /** An entry of this name, version and architecture; a missing architecture reads as "amd64". */
  predicate RecordedAt(rs: seq<Recorded>, i: nat, name: string, version: string, arch: string) {
    && i < |rs| && rs[i].name == name && rs[i].version == version
    && (if rs[i].architecture.Some? then rs[i].architecture.value else "amd64") == arch
  }

  /** The recorded lookup finds exactly the first such entry. */
  lemma {:induction false} RecordedExactly(rs: seq<Recorded>, k: Key)
    ensures match FindRecorded(rs, k)
      case Some(f) => exists i: nat :: RecordedAt(rs, i, k.name, k.version, k.architecture)
                        && f == Found(rs[i].path, rs[i].project)
                        && forall j: nat :: j < i ==> !RecordedAt(rs, j, k.name, k.version, k.architecture)
      case None => forall i: nat :: !RecordedAt(rs, i, k.name, k.version, k.architecture)
  {
    if rs != [] && !RecordedAt(rs, 0, k.name, k.version, k.architecture) {
      RecordedExactly(rs[1..], k);
      forall i: nat ensures RecordedAt(rs, i + 1, k.name, k.version, k.architecture) <==> RecordedAt(rs[1..], i, k.name, k.version, k.architecture) {}
      if FindRecorded(rs[1..], k).Some? {
        var i: nat :| RecordedAt(rs[1..], i, k.name, k.version, k.architecture)
          && FindRecorded(rs[1..], k) == Some(Found(rs[1..][i].path, rs[1..][i].project))
          && forall j: nat :: j < i ==> !RecordedAt(rs[1..], j, k.name, k.version, k.architecture);
        assert RecordedAt(rs, i + 1, k.name, k.version, k.architecture);
        forall j: nat | j < i + 1 ensures !RecordedAt(rs, j, k.name, k.version, k.architecture) {
          if j > 0 { assert !RecordedAt(rs[1..], j - 1, k.name, k.version, k.architecture); }
        }
      } else {
        forall i: nat ensures !RecordedAt(rs, i, k.name, k.version, k.architecture) {
          if i > 0 { assert !RecordedAt(rs[1..], i - 1, k.name, k.version, k.architecture); }
        }
      }
    } else if rs != [] {
      assert RecordedAt(rs, 0, k.name, k.version, k.architecture);
    }
  }

  function InProfile(profile: Table, k: Key): Option<Found> {
    FindImage(profile, k.name, k.version, k.architecture)
  }

  /** `findMachineImage`: the profile first, then the provider status if there is one. */
  function Lookup(profile: Table, status: Option<seq<Recorded>>, k: Key): Option<Found> {
    var found := InProfile(profile, k);
    if found.Some? then found
    else if status.Some? then FindRecorded(status.value, k)
    else None
  }

  predicate UniqueKeys(rs: seq<Recorded>) {
    forall i, j :: 0 <= i < j < |rs| ==> RecordKey(rs[i]) != RecordKey(rs[j])
  }

  lemma {:induction false} FindAppended(rs: seq<Recorded>, x: Recorded, k: Key)
    ensures FindRecorded(rs + [x], k) ==
      if FindRecorded(rs, k).Some? then FindRecorded(rs, k)
      else if RecordKey(x) == k then Some(Found(x.path, x.project)) else None
  {
    if rs == [] {
      assert rs + [x] == [x];
    } else {
      assert (rs + [x])[1..] == rs[1..] + [x];
      FindAppended(rs[1..], x, k);
    }
  }

  lemma {:induction false} FoundExactly(rs: seq<Recorded>, k: Key)
    ensures FindRecorded(rs, k).Some? <==> exists i :: 0 <= i < |rs| && RecordKey(rs[i]) == k
  {
    if rs != [] {
      FoundExactly(rs[1..], k);
      if i :| 0 <= i < |rs| && RecordKey(rs[i]) == k {
        if i > 0 { assert RecordKey(rs[1..][i - 1]) == k; }
      }
      if i :| 0 <= i < |rs[1..]| && RecordKey(rs[1..][i]) == k { assert RecordKey(rs[i + 1]) == k; }
    }
  }

  /** The worker delegate of one reconcile: the shared worker's status and its own image list. */
  class Delegate {
    const profile: Table
    const pools: seq<Pool>
    var status: Option<seq<Recorded>>
    var machineImages: Option<seq<Recorded>>

    constructor (profile: Table, pools: seq<Pool>, status: Option<seq<Recorded>>)
      ensures this.profile == profile && this.pools == pools && this.status == status && machineImages == None
    {
      this.profile, this.pools, this.status, machineImages := profile, pools, status, None;
    }

    /** Every pool's image, each key once; nothing is stored when one pool's image is not found. */
    method GenerateMachineImages() returns (ok: bool)
      modifies this`machineImages
      ensures ok <==> AllFound(profile, status, pools)
      ensures if ok then machineImages.Some? && Records(machineImages.value, profile, status, pools)
              else machineImages == old(machineImages)
    {
      var images: seq<Recorded> := [];
      for i := 0 to |pools|
        invariant machineImages == old(machineImages)
        invariant AllFound(profile, status, pools[..i]) && Records(images, profile, status, pools[..i])
      {
        var pool := pools[i];
        var k := KeyOf(pool);
        assert pools[..i + 1] == pools[..i] + [pool];
        var found := Lookup(profile, status, k);
        if found.None? {
          assert !AllFound(profile, status, pools) by { assert Lookup(profile, status, KeyOf(pools[i])).None?; }
          return false;
        }
        var image := Recorded(k.name, found.value.project, k.version, found.value.path, Some(k.architecture));
        RecordOneMore(images, profile, status, pools[..i], pool, image);
        images := AppendMachineImage(images, image);
      }
      assert pools[..|pools|] == pools;
      machineImages := Some(images);
      ok := true;
    }

    /** Writes the images to the stored status, generating them at most once per delegate; `persisted`
      * says whether the status patch succeeds. */
    method UpdateMachineImagesStatus(persisted: bool) returns (ok: bool)
      modifies this
      ensures old(machineImages).None? ==> (ok <==> persisted && AllFound(profile, old(status), pools))
      ensures old(machineImages).None? && ok ==> status.Some? && Records(status.value, profile, old(status), pools)
      ensures old(machineImages).Some? ==> ok == persisted && (ok ==> status == old(machineImages))
      ensures !ok ==> status == old(status)
    {
      if machineImages.None? {
        ok := GenerateMachineImages();
        if !ok { return; }
      }
      if persisted { status := machineImages; }
      ok := persisted;
    }
  }

  function AppendMachineImage(images: seq<Recorded>, x: Recorded): seq<Recorded> {
    if FindRecorded(images, RecordKey(x)).None? then images + [x] else images
  }

  predicate AllFound(profile: Table, status: Option<seq<Recorded>>, pools: seq<Pool>) {
    forall i :: 0 <= i < |pools| ==> Lookup(profile, status, KeyOf(pools[i])).Some?
  }

  predicate Uses(pools: seq<Pool>, k: Key) {
    exists i :: 0 <= i < |pools| && KeyOf(pools[i]) == k
  }

  /** One entry per key in use, holding what the lookup returned. */
  ghost predicate Records(images: seq<Recorded>, profile: Table, status: Option<seq<Recorded>>, pools: seq<Pool>) {
    && UniqueKeys(images)
    && forall k :: FindRecorded(images, k) == if Uses(pools, k) then Lookup(profile, status, k) else None
  }

  lemma RecordOneMore(images: seq<Recorded>, profile: Table, status: Option<seq<Recorded>>, pools: seq<Pool>, pool: Pool, x: Recorded)
    requires Records(images, profile, status, pools) && AllFound(profile, status, pools)
    requires RecordKey(x) == KeyOf(pool) && Lookup(profile, status, KeyOf(pool)) == Some(Found(x.path, x.project))
    ensures Records(AppendMachineImage(images, x), profile, status, pools + [pool])
    ensures AllFound(profile, status, pools + [pool])
  {
    var next, after := AppendMachineImage(images, x), pools + [pool];
    forall k ensures Uses(after, k) <==> Uses(pools, k) || KeyOf(pool) == k {
      if Uses(pools, k) {
        var i :| 0 <= i < |pools| && KeyOf(pools[i]) == k;
        assert KeyOf(after[i]) == k;
      }
      assert KeyOf(after[|pools|]) == KeyOf(pool);
    }
    forall k ensures FindRecorded(next, k) == if Uses(after, k) then Lookup(profile, status, k) else None {
      FindAppended(images, x, k);
    }
    FoundExactly(images, RecordKey(x));
  }

  ghost predicate FromStatus(rs: seq<Recorded>, k: Key, path: string, project: string) {
    exists i: nat :: RecordedAt(rs, i, k.name, k.version, k.architecture) && path == rs[i].path && project == rs[i].project
      && forall j: nat :: j < i ==> !RecordedAt(rs, j, k.name, k.version, k.architecture)
  }

  /** Path and project are those of the first place in the profile that maps the image, or, if there is
    * none, of the first entry of the status that records it. */
  ghost predicate FromTables(profile: Table, status: Option<seq<Recorded>>, k: Key, path: string, project: string) {
    if exists i: nat, j: nat :: MappedAt(profile, i, j, k.name, k.version, k.architecture) then
      exists i: nat, j: nat :: FirstMappedAt(profile, i, j, k.name, k.version, k.architecture)
        && path == profile[i].versions[j].path && project == (if profile[i].project == "" then "vm-system" else profile[i].project)
    else
      status.Some? && FromStatus(status.value, k, path, project)
  }

  lemma LookupExactly(profile: Table, status: Option<seq<Recorded>>, k: Key)
    ensures Lookup(profile, status, k).Some? ==>
      FromTables(profile, status, k, Lookup(profile, status, k).value.path, Lookup(profile, status, k).value.project)
    ensures Lookup(profile, status, k).None? ==> forall path, project :: !FromTables(profile, status, k, path, project)
  {
    FindExactly(profile, k.name, k.version, k.architecture);
    if status.Some? { RecordedExactly(status.value, k); }
  }

  /** Every pool's image is recorded under the name, version and architecture the pool asks for, a
    * missing architecture being "amd64", as found for exactly these. */
  lemma PoolsAreRecorded(images: seq<Recorded>, profile: Table, status: Option<seq<Recorded>>, pools: seq<Pool>, i: nat)
    requires Records(images, profile, status, pools) && AllFound(profile, status, pools) && i < |pools|
    ensures var arch := if pools[i].architecture.Some? then pools[i].architecture.value else "amd64";
      exists j: nat :: RecordedAt(images, j, pools[i].imageName, pools[i].imageVersion, arch)
        && FromTables(profile, status, Key(pools[i].imageName, pools[i].imageVersion, arch), images[j].path, images[j].project)
  {
    var k := KeyOf(pools[i]);
    assert Uses(pools, k);
    LookupExactly(profile, status, k);
    RecordedExactly(images, k);
  }

  // ---- runs of reconciles ----

  /** One reconcile: the profile as it is by then, the worker's pools, and whether the status patch
    * succeeds. */
  datatype Reconcile = Reconcile(profile: Table, pools: seq<Pool>, persisted: bool)

  predicate Succeeds(r: Reconcile, status: Option<seq<Recorded>>) { r.persisted && AllFound(r.profile, status, r.pools) }

  /** The reconcile took `status` to `next`, as `UpdateMachineImagesStatus` of a new delegate does. */
  ghost predicate Steps(status: Option<seq<Recorded>>, r: Reconcile, next: Option<seq<Recorded>>) {
    if Succeeds(r, status) then next.Some? && Records(next.value, r.profile, status, r.pools)
    else next == status
  }

  /** `trace[0]` is the status before the run, `trace[i + 1]` the one after reconcile `i`. */
  ghost predicate Run(trace: seq<Option<seq<Recorded>>>, rs: seq<Reconcile>) {
    |trace| == |rs| + 1 && forall i :: 0 <= i < |rs| ==> Steps(trace[i], rs[i], trace[i + 1])
  }

  /** The path and project that the last successful reconcile up to `n` recorded for the key. */
  ghost function LastRecorded(trace: seq<Option<seq<Recorded>>>, rs: seq<Reconcile>, k: Key, n: nat): Option<Found>
    requires Run(trace, rs) && n <= |rs|
  {
    if n == 0 then if trace[0].Some? then FindRecorded(trace[0].value, k) else None
    else if Succeeds(rs[n - 1], trace[n - 1]) then Lookup(rs[n - 1].profile, trace[n - 1], k)
    else LastRecorded(trace, rs, k, n - 1)
  }

  /** Main result: while every reconcile of the run uses the image and the status knows it at the
    * start, every later lookup succeeds, and when a profile lacks it the lookup returns what was
    * last recorded. */
  lemma {:induction false} ImageIsRemembered(trace: seq<Option<seq<Recorded>>>, rs: seq<Reconcile>, k: Key, n: nat)
    requires Run(trace, rs) && n <= |rs| && forall i :: 0 <= i < |rs| ==> Uses(rs[i].pools, k)
    requires trace[0].Some? && FindRecorded(trace[0].value, k).Some?
    ensures trace[n].Some? && FindRecorded(trace[n].value, k) == LastRecorded(trace, rs, k, n) && LastRecorded(trace, rs, k, n).Some?
    ensures forall profile ::
      Lookup(profile, trace[n], k) == (
        if InProfile(profile, k).Some? then InProfile(profile, k) else LastRecorded(trace, rs, k, n))
  {
    if n > 0 {
      ImageIsRemembered(trace, rs, k, n - 1);
      assert Steps(trace[n - 1], rs[n - 1], trace[n]) && Uses(rs[n - 1].pools, k);
      if Succeeds(rs[n - 1], trace[n - 1]) {
        var i :| 0 <= i < |rs[n - 1].pools| && KeyOf(rs[n - 1].pools[i]) == k;
        assert Lookup(rs[n - 1].profile, trace[n - 1], KeyOf(rs[n - 1].pools[i])).Some?;
      }
    }
  }

  /** A successful reconcile makes every image it uses known. */
  lemma SuccessIsRemembered(status: Option<seq<Recorded>>, r: Reconcile, next: Option<seq<Recorded>>, i: nat)
    requires Steps(status, r, next) && Succeeds(r, status) && i < |r.pools|
    ensures next.Some? && FindRecorded(next.value, KeyOf(r.pools[i])) == Lookup(r.profile, status, KeyOf(r.pools[i]))
    ensures FindRecorded(next.value, KeyOf(r.pools[i])).Some?
  {
    assert Uses(r.pools, KeyOf(r.pools[i]));
  }

  /** The status never holds two entries of one key. */
  lemma {:induction false} KeysStayUnique(trace: seq<Option<seq<Recorded>>>, rs: seq<Reconcile>, n: nat)
    requires Run(trace, rs) && n <= |rs| && (trace[0].Some? ==> UniqueKeys(trace[0].value))
    ensures trace[n].Some? ==> UniqueKeys(trace[n].value)
  {
    if n > 0 {
      KeysStayUnique(trace, rs, n - 1);
      assert Steps(trace[n - 1], rs[n - 1], trace[n]);
    }
  }
}
