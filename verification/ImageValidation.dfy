/** Admission of machine-image tables: a cloud profile's own table, and a namespaced profile's
  * table against its declarations and its parent. */
module ImageValidation {
  import opened Prelude
  import opened ImageTables

  const VALID_ARCHITECTURES := {"amd64", "arm64"}

  /** An image as a profile declares it: a name and version strings. */
  datatype Declared = Declared(name: string, versions: seq<string>)

  predicate Declares(ds: seq<Declared>, name: string, version: string) {
    exists i :: 0 <= i < |ds| && ds[i].name == name && version in ds[i].versions
  }

  predicate DeclaresName(ds: seq<Declared>, name: string) {
    exists i :: 0 <= i < |ds| && ds[i].name == name
  }

  predicate Maps(t: Table, name: string, version: string) {
    exists i, j :: 0 <= i < |t| && t[i].name == name && 0 <= j < |t[i].versions| && t[i].versions[j].version == version
  }

  // ---- the parent profile's own check ----

  function FirstImage(t: Table, name: string): Option<Image> {
    if t == [] then None else if t[0].name == name then Some(t[0]) else FirstImage(t[1..], name)
  }

  function FirstVersion(vs: seq<ImageVersion>, version: string): Option<ImageVersion> {
    if vs == [] then None else if vs[0].version == version then Some(vs[0]) else FirstVersion(vs[1..], version)
  }

  predicate GoodVersion(vs: seq<ImageVersion>, version: string) {
    var v := FirstVersion(vs, version);
    v.Some? && v.value.path != "" && v.value.architecture.Some? && v.value.architecture.value in {"amd64", "arm64"}
  }

  /** The first entry of the declared name maps every declared version; an absent entry is fine only
    * without versions. */
  predicate GoodImage(t: Table, d: Declared) {
    var image := FirstImage(t, d.name);
    if image.Some? then forall k :: 0 <= k < |d.versions| ==> GoodVersion(image.value.versions, d.versions[k])
    else d.versions == []
  }

  predicate ProfileAccepted(t: Table, ds: seq<Declared>) {
    forall i :: 0 <= i < |ds| ==> GoodImage(t, ds[i])
  }

  datatype Error =
    | NoImagePath | BadArchitecture | NoVersionMapping | NoImageMapping
    | UndefinedImage | UndefinedVersion | OverridesParent | UndeclaredImage | UndeclaredVersion

  /** The entry found for a declared version has an architecture. The code dereferences it unchecked
    * and panics where there is none. */
  predicate Dereferenceable(vs: seq<ImageVersion>, version: string) {
    FirstVersion(vs, version).Some? ==> FirstVersion(vs, version).value.architecture.Some?
  }

  predicate ImageDereferenceable(t: Table, d: Declared) {
    FirstImage(t, d.name).Some? ==>
      forall k :: 0 <= k < |d.versions| ==> Dereferenceable(FirstImage(t, d.name).value.versions, d.versions[k])
  }

  /** The inner loop with its `processed` flag; no error list when it panics. */
  method ValidateVersions(vs: seq<ImageVersion>, versions: seq<string>) returns (r: Option<seq<Error>>)
    ensures r.Some? <==> forall k :: 0 <= k < |versions| ==> Dereferenceable(vs, versions[k])
    ensures r == Some([]) <==> forall k :: 0 <= k < |versions| ==> GoodVersion(vs, versions[k])
  {
    var errs: seq<Error> := [];
    for k := 0 to |versions|
      invariant forall x :: 0 <= x < k ==> Dereferenceable(vs, versions[x])
      invariant errs == [] <==> forall x :: 0 <= x < k ==> GoodVersion(vs, versions[x])
    {
      var processed := false;
      ghost var before := errs;
      for j := 0 to |vs|
        invariant !processed && errs == before && FirstVersion(vs, versions[k]) == FirstVersion(vs[j..], versions[k])
      {
        if versions[k] == vs[j].version {
          assert FirstVersion(vs[j..], versions[k]) == Some(vs[j]);
          if vs[j].path == "" { errs := errs + [NoImagePath]; }
          if vs[j].architecture.None? {
            assert !Dereferenceable(vs, versions[k]) && !GoodVersion(vs, versions[k]);
            return None;
          }
          if vs[j].architecture.value !in VALID_ARCHITECTURES { errs := errs + [BadArchitecture]; }
          processed := true;
          break;
        }
      }
      if !processed { errs := errs + [NoVersionMapping]; }
    }
    r := Some(errs);
  }

  method ValidateProfile(t: Table, ds: seq<Declared>) returns (r: Option<seq<Error>>)
    ensures r.Some? <==> forall i :: 0 <= i < |ds| ==> ImageDereferenceable(t, ds[i])
    ensures r == Some([]) <==> ProfileAccepted(t, ds)
  {
    var errs: seq<Error> := [];
    for i := 0 to |ds|
      invariant forall x :: 0 <= x < i ==> ImageDereferenceable(t, ds[x])
      invariant errs == [] <==> forall x :: 0 <= x < i ==> GoodImage(t, ds[x])
    {
      var processed := false;
      ghost var before := errs;
      for j := 0 to |t|
        invariant !processed && errs == before && FirstImage(t, ds[i].name) == FirstImage(t[j..], ds[i].name)
      {
        if ds[i].name == t[j].name {
          assert FirstImage(t[j..], ds[i].name) == Some(t[j]);
          var more := ValidateVersions(t[j].versions, ds[i].versions);
          if more.None? {
            assert !ImageDereferenceable(t, ds[i]) && !GoodImage(t, ds[i]);
            return None;
          }
          errs := errs + more.value;
          processed := true;
          break;
        }
      }
      if !processed && |ds[i].versions| > 0 { errs := errs + [NoImageMapping]; }
    }
    r := Some(errs);
  }

  // ---- the namespaced profile's check ----

  type VersionSets = map<string, set<string>>

  /** The lookup map of a declaration list. */
  method SetsOfDeclared(ds: seq<Declared>) returns (m: VersionSets)
    ensures forall name :: name in m <==> DeclaresName(ds, name)
    ensures forall name, v :: name in m ==> (v in m[name] <==> Declares(ds, name, v))
  {
    m := map[];
    for i := 0 to |ds|
      invariant forall name :: name in m <==> DeclaresName(ds[..i], name)
      invariant forall name, v :: name in m ==> (v in m[name] <==> Declares(ds[..i], name, v))
    {
      ghost var before := m;
      var d := ds[i];
      if d.name !in m { m := m[d.name := {}]; }
      m := m[d.name := m[d.name] + set v | v in d.versions];
      DeclaredNext(ds, i);
    }
    assert ds[..|ds|] == ds;
  }

  lemma DeclaredNext(ds: seq<Declared>, i: nat)
    requires i < |ds|
    ensures forall name :: DeclaresName(ds[..i + 1], name) <==> DeclaresName(ds[..i], name) || ds[i].name == name
    ensures forall name, v :: Declares(ds[..i + 1], name, v) <==> Declares(ds[..i], name, v) || (ds[i].name == name && v in ds[i].versions)
  {
    var a, b := ds[..i], ds[..i + 1];
    assert b == a + [ds[i]];
    forall name | DeclaresName(a, name) ensures DeclaresName(b, name) {
      var k :| 0 <= k < |a| && a[k].name == name;
      assert b[k] == a[k];
    }
    assert b[i] == ds[i];
    forall name, v | Declares(a, name, v) ensures Declares(b, name, v) {
      var k :| 0 <= k < |a| && a[k].name == name && v in a[k].versions;
      assert b[k] == a[k];
    }
    forall name, v | ds[i].name == name && v in ds[i].versions ensures Declares(b, name, v) { assert b[i] == ds[i]; }
  }

  /** The declarations a table amounts to: names and version strings. */
  function AsDeclared(t: Table): (r: seq<Declared>)
    ensures |r| == |t| && forall i :: 0 <= i < |t| ==> r[i] == Declared(t[i].name, Versions(t[i].versions))
  {
    if t == [] then [] else [Declared(t[0].name, Versions(t[0].versions))] + AsDeclared(t[1..])
  }

  function Versions(vs: seq<ImageVersion>): (r: seq<string>)
    ensures |r| == |vs| && forall i :: 0 <= i < |vs| ==> r[i] == vs[i].version
  {
    if vs == [] then [] else [vs[0].version] + Versions(vs[1..])
  }

  lemma MapsIsDeclares(t: Table, name: string, version: string)
    ensures Maps(t, name, version) <==> Declares(AsDeclared(t), name, version)
  {
    if i, j :| 0 <= i < |t| && t[i].name == name && 0 <= j < |t[i].versions| && t[i].versions[j].version == version {
      assert AsDeclared(t)[i].versions[j] == version;
    }
    if i :| 0 <= i < |t| && AsDeclared(t)[i].name == name && version in AsDeclared(t)[i].versions {
      var j :| 0 <= j < |t[i].versions| && Versions(t[i].versions)[j] == version;
      assert t[i].versions[j].version == version;
    }
  }

  /** Every declared version is provided here or declared by the parent. */
  predicate Provided(t: Table, ds: seq<Declared>, parent: seq<Declared>) {
    forall i, k :: 0 <= i < |ds| && 0 <= k < |ds[i].versions| ==>
      Maps(t, ds[i].name, ds[i].versions[k]) || Declares(parent, ds[i].name, ds[i].versions[k])
  }

  predicate EntryGood(image: Image, ds: seq<Declared>, parent: seq<Declared>) {
    && DeclaresName(ds, image.name)
    && forall j :: 0 <= j < |image.versions| ==>
      && !Declares(parent, image.name, image.versions[j].version)
      && Declares(ds, image.name, image.versions[j].version)
      && image.versions[j].architecture.Some? && image.versions[j].architecture.value in {"amd64", "arm64"}
  }

  predicate Consistent(t: Option<Table>, ds: seq<Declared>, parent: seq<Declared>) {
    && Provided(if t.Some? then t.value else [], ds, parent)
    && (t.Some? ==> forall i :: 0 <= i < |t.value| ==> EntryGood(t.value[i], ds, parent))
  }

  /** First part: the declared images against the provider and the parent sets. */
  method CheckDeclared(ds: seq<Declared>, provider: VersionSets, parent: VersionSets) returns (errs: seq<Error>)
    ensures errs == [] <==> forall i, k :: 0 <= i < |ds| && 0 <= k < |ds[i].versions| ==>
      Has(provider, ds[i].name, ds[i].versions[k]) || Has(parent, ds[i].name, ds[i].versions[k])
  {
    errs := [];
    for i := 0 to |ds|
      invariant errs == [] <==> forall x, k :: 0 <= x < i && 0 <= k < |ds[x].versions| ==>
        Has(provider, ds[x].name, ds[x].versions[k]) || Has(parent, ds[x].name, ds[x].versions[k])
    {
      var name, versions := ds[i].name, ds[i].versions;
      ghost var before := errs;
      for j := 0 to |versions|
        invariant errs == [] <==> before == [] && forall k :: 0 <= k < j ==>
          Has(provider, name, versions[k]) || Has(parent, name, versions[k])
      {
        if name !in provider && name !in parent {
          assert !Has(provider, name, versions[j]) && !Has(parent, name, versions[j]);
          errs := errs + [UndefinedImage];
          continue;
        }
        if !Has(provider, name, versions[j]) && !Has(parent, name, versions[j]) {
          errs := errs + [UndefinedVersion];
        }
      }
    }
  }

  predicate Has(m: VersionSets, name: string, version: string) { name in m && version in m[name] }

  /** One entry of the provider's table, with the early `continue` for an undeclared image. */
  method CheckEntry(image: Image, profile: VersionSets, parent: VersionSets, ghost ds: seq<Declared>, ghost ps: seq<Declared>)
    returns (errs: seq<Error>)
    requires forall name :: name in profile <==> DeclaresName(ds, name)
    requires forall name, v :: Has(profile, name, v) <==> Declares(ds, name, v)
    requires forall name, v :: Has(parent, name, v) <==> Declares(ps, name, v)
    ensures errs == [] <==> EntryGood(image, ds, ps)
  {
    errs := [];
    if image.name in parent {
      for j := 0 to |image.versions|
        invariant errs == [] <==> forall k :: 0 <= k < j ==> !Declares(ps, image.name, image.versions[k].version)
      {
        assert Has(parent, image.name, image.versions[j].version) <==> Declares(ps, image.name, image.versions[j].version);
        if image.versions[j].version in parent[image.name] { errs := errs + [OverridesParent]; }
      }
    }
    assert errs == [] <==> forall k :: 0 <= k < |image.versions| ==> !Declares(ps, image.name, image.versions[k].version) by {
      if image.name !in parent {
        forall k | 0 <= k < |image.versions| ensures !Declares(ps, image.name, image.versions[k].version) {
          assert !Has(parent, image.name, image.versions[k].version);
        }
      }
    }
    if image.name !in profile {
      return errs + [UndeclaredImage];
    }
    ghost var before := errs;
    for j := 0 to |image.versions|
      invariant errs == [] <==> before == [] && forall k :: 0 <= k < j ==>
        Declares(ds, image.name, image.versions[k].version)
        && image.versions[k].architecture.Some? && image.versions[k].architecture.value in VALID_ARCHITECTURES
    {
      var version := image.versions[j];
      assert Has(profile, image.name, version.version) <==> Declares(ds, image.name, version.version);
      if version.version !in profile[image.name] { errs := errs + [UndeclaredVersion]; }
      if version.architecture.None? || version.architecture.value !in VALID_ARCHITECTURES { errs := errs + [BadArchitecture]; }
    }
  }

  /** Second part: every entry of the provider's table. */
  method CheckEntries(t: Table, profile: VersionSets, parent: VersionSets, ghost ds: seq<Declared>, ghost ps: seq<Declared>)
    returns (errs: seq<Error>)
    requires forall name :: name in profile <==> DeclaresName(ds, name)
    requires forall name, v :: Has(profile, name, v) <==> Declares(ds, name, v)
    requires forall name, v :: Has(parent, name, v) <==> Declares(ps, name, v)
    ensures errs == [] <==> forall i :: 0 <= i < |t| ==> EntryGood(t[i], ds, ps)
  {
    errs := [];
    for i := 0 to |t|
      invariant errs == [] <==> forall x :: 0 <= x < i ==> EntryGood(t[x], ds, ps)
    {
      var more := CheckEntry(t[i], profile, parent, ds, ps);
      errs := errs + more;
    }
  }

  lemma ProvidedBySets(t: Table, ds: seq<Declared>, ps: seq<Declared>, provider: VersionSets, parent: VersionSets)
    requires forall name, v :: Has(provider, name, v) <==> Declares(AsDeclared(t), name, v)
    requires forall name, v :: Has(parent, name, v) <==> Declares(ps, name, v)
    ensures Provided(t, ds, ps) <==> forall i, k :: 0 <= i < |ds| && 0 <= k < |ds[i].versions| ==>
      Has(provider, ds[i].name, ds[i].versions[k]) || Has(parent, ds[i].name, ds[i].versions[k])
  {
    forall name, v ensures Maps(t, name, v) <==> Has(provider, name, v) { MapsIsDeclares(t, name, v); }
  }

  /** Main result: no error exactly for consistent tables. */
  method ValidateMachineImages(t: Option<Table>, ds: seq<Declared>, ps: seq<Declared>) returns (errs: seq<Error>)
    ensures errs == [] <==> Consistent(t, ds, ps)
  {
    var table := if t.Some? then t.value else [];
    var provider := SetsOfDeclared(AsDeclared(table));
    var parent := SetsOfDeclared(ps);
    var profile := SetsOfDeclared(ds);
    SetsSay(AsDeclared(table), provider);
    SetsSay(ps, parent);
    SetsSay(ds, profile);
    errs := CheckDeclared(ds, provider, parent);
    ProvidedBySets(table, ds, ps, provider, parent);
    if t.Some? {
      var more := CheckEntries(table, profile, parent, ds, ps);
      errs := errs + more;
    }
  }

  lemma SetsSay(ds: seq<Declared>, m: VersionSets)
    requires forall name :: name in m <==> DeclaresName(ds, name)
    requires forall name, v :: name in m ==> (v in m[name] <==> Declares(ds, name, v))
    ensures forall name, v :: Has(m, name, v) <==> Declares(ds, name, v)
  {
    forall name, v | Declares(ds, name, v) ensures DeclaresName(ds, name) {}
  }

  // ---- every declared version resolves after the merge ----

  lemma {:induction false} FirstVersionFound(vs: seq<ImageVersion>, version: string)
    requires GoodVersion(vs, version)
    ensures exists a :: a in VALID_ARCHITECTURES && FindVersion(vs, version, a).Some?
  {
    if vs[0].version == version {
      assert FindVersion(vs, version, vs[0].architecture.value).Some?;
    } else {
      FirstVersionFound(vs[1..], version);
      var a :| a in VALID_ARCHITECTURES && FindVersion(vs[1..], version, a).Some?;
      assert FindVersion(vs, version, a) == FindVersion(vs[1..], version, a);
    }
  }

  lemma {:induction false} VersionFound(vs: seq<ImageVersion>, j: nat, arch: string)
    requires j < |vs| && vs[j].architecture == Some(arch)
    ensures FindVersion(vs, vs[j].version, arch).Some?
  {
    if j > 0 { VersionFound(vs[1..], j - 1, arch); }
  }

  lemma {:induction false} ImageFound(t: Table, i: nat, version: string, arch: string)
    requires i < |t| && FindVersion(t[i].versions, version, arch).Some?
    ensures FindImage(t, t[i].name, version, arch).Some?
  {
    if i > 0 { ImageFound(t[1..], i - 1, version, arch); }
  }

  lemma {:induction false} FirstImageAt(t: Table, name: string) returns (i: nat)
    requires FirstImage(t, name).Some?
    ensures i < |t| && t[i] == FirstImage(t, name).value && t[i].name == name
  {
    if t[0].name == name {
      i := 0;
    } else {
      var k := FirstImageAt(t[1..], name);
      i := k + 1;
    }
  }

  /** A version of the provider's consistent table is found there. */
  lemma ProviderResolves(t: Table, ds: seq<Declared>, ps: seq<Declared>, name: string, version: string)
    requires Consistent(Some(t), ds, ps) && Maps(t, name, version)
    ensures exists a :: a in VALID_ARCHITECTURES && FindImage(t, name, version, a).Some?
  {
    var i, j :| 0 <= i < |t| && t[i].name == name && 0 <= j < |t[i].versions| && t[i].versions[j].version == version;
    assert EntryGood(t[i], ds, ps);
    var a := t[i].versions[j].architecture.value;
    VersionFound(t[i].versions, j, a);
    ImageFound(t, i, version, a);
  }

  /** A version an accepted parent declares is found in the parent's table. */
  lemma ParentResolves(t: Table, ps: seq<Declared>, name: string, version: string)
    requires ProfileAccepted(t, ps) && Declares(ps, name, version)
    ensures exists a :: a in VALID_ARCHITECTURES && FindImage(t, name, version, a).Some?
  {
    var i :| 0 <= i < |ps| && ps[i].name == name && version in ps[i].versions;
    var k :| 0 <= k < |ps[i].versions| && ps[i].versions[k] == version;
    assert GoodImage(t, ps[i]);
    var j := FirstImageAt(t, name);
    FirstVersionFound(t[j].versions, version);
    var a :| a in VALID_ARCHITECTURES && FindVersion(t[j].versions, version, a).Some?;
    ImageFound(t, j, version, a);
  }

  lemma FoundInEither(t: Table, ds: seq<Declared>, parentTable: Table, ps: seq<Declared>, i: nat, k: nat) returns (a: string)
    requires Consistent(Some(t), ds, ps) && ProfileAccepted(parentTable, ps) && i < |ds| && k < |ds[i].versions|
    ensures a in VALID_ARCHITECTURES
    ensures FindImage(t, ds[i].name, ds[i].versions[k], a).Some? || FindImage(parentTable, ds[i].name, ds[i].versions[k], a).Some?
  {
    var name, version := ds[i].name, ds[i].versions[k];
    if Maps(t, name, version) {
      ProviderResolves(t, ds, ps, name, version);
      a :| a in VALID_ARCHITECTURES && FindImage(t, name, version, a).Some?;
    } else {
      ParentResolves(parentTable, ps, name, version);
      a :| a in VALID_ARCHITECTURES && FindImage(parentTable, name, version, a).Some?;
    }
  }

  lemma MergeResolves(t: Table, parentTable: Table, merged: Table, name: string, version: string, a: string)
    requires UniqueNames(t) && UniqueNames(parentTable) && IsMerge(t, parentTable, merged)
    requires FindImage(t, name, version, a).Some? || FindImage(parentTable, name, version, a).Some?
    ensures Resolves(merged, name, version, a)
  {
    MergedPathOfUnique(t, parentTable, merged, name, version, a);
    assert PathOf(FindImage(merged, name, version, a)).Some?;
    FoundResolves(merged, name, version, a);
  }

  /** Main result: with an accepted parent whose table is the inherited status, a consistent
    * namespaced table and unique names, every declared version resolves after the merge, to an entry
    * of that name, version and a valid architecture. */
  lemma EveryDeclaredVersionResolves(t: Table, ds: seq<Declared>, parentTable: Table, ps: seq<Declared>, merged: Table, i: nat, k: nat)
    requires Consistent(Some(t), ds, ps) && ProfileAccepted(parentTable, ps)
    requires UniqueNames(t) && UniqueNames(parentTable) && IsMerge(t, parentTable, merged)
    requires i < |ds| && k < |ds[i].versions|
    ensures exists a :: a in {"amd64", "arm64"} && Resolves(merged, ds[i].name, ds[i].versions[k], a)
  {
    var a := FoundInEither(t, ds, parentTable, ps, i, k);
    MergeResolves(t, parentTable, merged, ds[i].name, ds[i].versions[k], a);
  }
}
