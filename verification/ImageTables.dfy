/** Machine-image tables: lookup, and the merge of a namespaced profile's table into the table
  * inherited from its parent. */
module ImageTables {
  import opened Prelude

  const DEFAULT_PROJECT := "vm-system"

  datatype ImageVersion = ImageVersion(version: string, path: string, architecture: Option<string>)

  datatype Image = Image(name: string, project: string, versions: seq<ImageVersion>)

  type Table = seq<Image>

  datatype Found = Found(path: string, project: string)

  // ---- lookup ----

  function FindVersion(vs: seq<ImageVersion>, version: string, arch: string): Option<ImageVersion> {
    if vs == [] then None
    else if vs[0].version == version && vs[0].architecture == Some(arch) then Some(vs[0])
    else FindVersion(vs[1..], version, arch)
  }

  function ProjectOf(image: Image): string {
    if image.project != "" then image.project else DEFAULT_PROJECT
  }

  /** `findImageFromCloudProfile`: all entries of the name are searched in turn. */
  function FindImage(t: Table, name: string, version: string, arch: string): Option<Found> {
    if t == [] then None
    else
      var v := if t[0].name == name then FindVersion(t[0].versions, version, arch) else None;
      if v.Some? then Some(Found(v.value.path, ProjectOf(t[0]))) else FindImage(t[1..], name, version, arch)
  }

  /** The version `j` of entry `i` is mapped for this name, version and architecture. */
  predicate MappedAt(t: Table, i: nat, j: nat, name: string, version: string, arch: string) {
    && i < |t| && t[i].name == name && j < |t[i].versions|
    && t[i].versions[j].version == version && t[i].versions[j].architecture == Some(arch)
  }

  /** The first such place, entry by entry. */
  ghost predicate FirstMappedAt(t: Table, i: nat, j: nat, name: string, version: string, arch: string) {
    && MappedAt(t, i, j, name, version, arch)
    && forall x: nat, y: nat :: MappedAt(t, x, y, name, version, arch) ==> i < x || (i == x && j <= y)
  }

  lemma {:induction false} FindVersionExactly(vs: seq<ImageVersion>, version: string, arch: string)
    ensures match FindVersion(vs, version, arch)
      case Some(v) => exists j :: 0 <= j < |vs| && vs[j] == v && v.version == version && v.architecture == Some(arch)
                        && forall y :: 0 <= y < j ==> !(vs[y].version == version && vs[y].architecture == Some(arch))
      case None => forall y :: 0 <= y < |vs| ==> !(vs[y].version == version && vs[y].architecture == Some(arch))
  {
    if vs != [] && !(vs[0].version == version && vs[0].architecture == Some(arch)) {
      var rest := vs[1..];
      FindVersionExactly(rest, version, arch);
      assert forall y :: 1 <= y < |vs| ==> vs[y] == rest[y - 1];
      if FindVersion(rest, version, arch).Some? {
        var j :| 0 <= j < |rest| && rest[j] == FindVersion(rest, version, arch).value
          && forall y :: 0 <= y < j ==> !(rest[y].version == version && rest[y].architecture == Some(arch));
        assert vs[j + 1] == rest[j];
      }
    }
  }

  lemma MappedLater(t: Table, i: nat, j: nat, name: string, version: string, arch: string)
    requires t != []
    ensures MappedAt(t, i + 1, j, name, version, arch) <==> MappedAt(t[1..], i, j, name, version, arch)
  {
  }

  /** Main result: the lookup finds exactly the first place, entry by entry, that maps the name, the
    * version and the architecture, with the entry's project or the default one. */
  lemma {:induction false} FindExactly(t: Table, name: string, version: string, arch: string)
    ensures match FindImage(t, name, version, arch)
      case Some(f) => exists i: nat, j: nat :: FirstMappedAt(t, i, j, name, version, arch)
                        && f.path == t[i].versions[j].path && f.project == if t[i].project == "" then "vm-system" else t[i].project
      case None => forall i: nat, j: nat :: !MappedAt(t, i, j, name, version, arch)
  {
    if t != [] {
      FindVersionExactly(t[0].versions, version, arch);
      var v := FindVersion(t[0].versions, version, arch);
      if t[0].name == name && v.Some? {
        var j: nat :| j < |t[0].versions| && t[0].versions[j] == v.value
          && forall y :: 0 <= y < j ==> !(t[0].versions[y].version == version && t[0].versions[y].architecture == Some(arch));
        assert FirstMappedAt(t, 0, j, name, version, arch);
      } else {
        FindExactly(t[1..], name, version, arch);
        FindLater(t, name, version, arch);
      }
    }
  }

  /** The lookup succeeds, with the path of the first place that maps name, version and architecture. */
  ghost predicate Resolves(t: Table, name: string, version: string, arch: string) {
    exists i: nat, j: nat :: FirstMappedAt(t, i, j, name, version, arch)
      && PathOf(FindImage(t, name, version, arch)) == Some(t[i].versions[j].path)
  }

  lemma FoundResolves(t: Table, name: string, version: string, arch: string)
    ensures FindImage(t, name, version, arch).Some? <==> Resolves(t, name, version, arch)
  {
    FindExactly(t, name, version, arch);
  }

  lemma FindLater(t: Table, name: string, version: string, arch: string)
    requires t != [] && forall j: nat :: !MappedAt(t, 0, j, name, version, arch)
    ensures forall i: nat, j: nat :: FirstMappedAt(t[1..], i, j, name, version, arch) ==> FirstMappedAt(t, i + 1, j, name, version, arch)
    ensures (forall i: nat, j: nat :: !MappedAt(t[1..], i, j, name, version, arch)) ==>
      forall i: nat, j: nat :: !MappedAt(t, i, j, name, version, arch)
  {
    forall i: nat, j: nat | MappedAt(t, i, j, name, version, arch) ensures i > 0 && MappedAt(t[1..], i - 1, j, name, version, arch) {
      assert i > 0;
      MappedLater(t, i - 1, j, name, version, arch);
    }
  }

  function PathOf(f: Option<Found>): Option<string> { if f.Some? then Some(f.value.path) else None }

  lemma {:induction false} FindVersionAppend(a: seq<ImageVersion>, b: seq<ImageVersion>, version: string, arch: string)
    ensures FindVersion(a + b, version, arch) ==
      if FindVersion(a, version, arch).Some? then FindVersion(a, version, arch) else FindVersion(b, version, arch)
  {
    if a == [] {
      assert a + b == b;
    } else {
      assert (a + b)[1..] == a[1..] + b;
      FindVersionAppend(a[1..], b, version, arch);
    }
  }

  predicate UniqueNames(t: Table) {
    forall i, j :: 0 <= i < j < |t| ==> t[i].name != t[j].name
  }

  type Index = map<string, Image>

  /** The map built from a list by name: a later entry replaces an earlier namesake. */
  function IndexOf(t: Table): (m: Index)
    ensures forall x :: x in m ==> m[x].name == x && m[x] in t
    ensures forall e :: e in t ==> e.name in m
  {
    if t == [] then map[] else
      var n := |t| - 1;
      assert t == t[..n] + [t[n]];
      IndexOf(t[..n])[t[n].name := t[n]]
  }

  lemma IndexNext(t: Table, e: Image)
    ensures IndexOf(t + [e]) == IndexOf(t)[e.name := e]
  {
    assert (t + [e])[..|t|] == t;
  }

  lemma {:induction false} IndexIsLast(t: Table, x: string) returns (i: nat)
    requires x in IndexOf(t)
    ensures i < |t| && t[i] == IndexOf(t)[x] && t[i].name == x && forall j :: i < j < |t| ==> t[j].name != x
  {
    var n := |t| - 1;
    var before := t[..n];
    assert t == before + [t[n]];
    IndexNext(before, t[n]);
    i := n;
    if t[n].name != x {
      i := IndexIsLast(before, x);
      assert t[i] == before[i];
      forall j | i < j < n ensures t[j].name != x { assert t[j] == before[j]; }
    }
  }

  /** Lookup in the entry the index holds. */
  function FindIndexed(m: Index, name: string, version: string, arch: string): Option<Found> {
    if name !in m then None
    else
      var v := FindVersion(m[name].versions, version, arch);
      if v.Some? then Some(Found(v.value.path, ProjectOf(m[name]))) else None
  }

  lemma {:induction false} FindAbsent(t: Table, name: string, version: string, arch: string)
    requires forall e :: e in t ==> e.name != name
    ensures FindImage(t, name, version, arch) == None
  {
    if t != [] {
      assert t[0] in t;
      FindAbsent(t[1..], name, version, arch);
    }
  }

  lemma {:induction false} FindAmongUnique(t: Table, i: nat, version: string, arch: string)
    requires UniqueNames(t) && i < |t|
    ensures FindImage(t, t[i].name, version, arch) == FindIndexed(map[t[i].name := t[i]], t[i].name, version, arch)
  {
    if i == 0 {
      FindAbsent(t[1..], t[0].name, version, arch);
    } else {
      FindAmongUnique(t[1..], i - 1, version, arch);
    }
  }

  /** With unique names the linear search is the indexed lookup. */
  lemma FindIsIndexed(t: Table, name: string, version: string, arch: string)
    requires UniqueNames(t)
    ensures FindImage(t, name, version, arch) == FindIndexed(IndexOf(t), name, version, arch)
  {
    if name in IndexOf(t) {
      var i :| 0 <= i < |t| && t[i] == IndexOf(t)[name];
      FindAmongUnique(t, i, version, arch);
    } else {
      FindAbsent(t, name, version, arch);
    }
  }

  // ---- sorting by name ----

  /** Code-point order, which is the byte order of the encoded strings. */
  predicate Below(a: string, b: string) {
    b != [] && (a == [] || a[0] < b[0] || (a[0] == b[0] && Below(a[1..], b[1..])))
  }

  /** The order by name: at the first difference the smaller character, or the end of the text. */
  lemma {:induction false} BelowExactly(a: string, b: string)
    ensures Below(a, b) <==>
      exists i :: 0 <= i <= |a| && i < |b| && a[..i] == b[..i] && (i == |a| || a[i] as int < b[i] as int)
  {
    if a == [] {
      if b != [] { assert a[..0] == b[..0]; }
    } else if b != [] && a[0] == b[0] {
      var c, d := a[1..], b[1..];
      BelowExactly(c, d);
      if i :| 0 <= i <= |c| && i < |d| && c[..i] == d[..i] && (i == |c| || c[i] as int < d[i] as int) {
        assert a[..i + 1] == [a[0]] + c[..i] && b[..i + 1] == [b[0]] + d[..i];
      }
      if i :| 0 <= i <= |a| && i < |b| && a[..i] == b[..i] && (i == |a| || a[i] as int < b[i] as int) {
        assert i > 0 && c[..i - 1] == a[..i][1..] && d[..i - 1] == b[..i][1..];
      }
    } else if b != [] {
      assert a[..0] == b[..0];
      forall i | 0 < i <= |a| && i < |b| ensures a[..i] != b[..i] { assert a[..i][0] == a[0] && b[..i][0] == b[0]; }
    }
  }

  lemma {:induction false} BelowTotal(a: string, b: string)
    ensures Below(a, b) || Below(b, a) || a == b
  {
    if a != [] && b != [] && a[0] == b[0] {
      BelowTotal(a[1..], b[1..]);
      assert a == [a[0]] + a[1..] && b == [b[0]] + b[1..];
    }
  }

  lemma {:induction false} BelowIrreflexive(a: string)
    ensures !Below(a, a)
  {
    if a != [] { BelowIrreflexive(a[1..]); }
  }

  lemma {:induction false} BelowTransitive(a: string, b: string, c: string)
    requires Below(a, b) && Below(b, c)
    ensures Below(a, c)
  {
    if a != [] && a[0] == b[0] == c[0] { BelowTransitive(a[1..], b[1..], c[1..]); }
  }

  predicate StrictlySorted(t: Table) {
    forall i, j :: 0 <= i < j < |t| ==> Below(t[i].name, t[j].name)
  }

  lemma NotEmptyEither(a: Table, b: Table)
    requires b != [] && forall e :: e in a <==> e in b
    ensures a != []
  {
    assert b[0] in a;
  }

  /** A strictly sorted list is determined by its elements. */
  lemma {:induction false} SortedIsUnique(a: Table, b: Table)
    requires StrictlySorted(a) && StrictlySorted(b) && forall e :: e in a <==> e in b
    ensures a == b
  {
    if b != [] { NotEmptyEither(a, b); }
    if a != [] {
      assert a[0] in b;
      assert b != [] && b[0] in a;
      FirstIsFirst(a, b);
      FirstIsFirst(b, a);
      if Below(a[0].name, b[0].name) { BelowTransitive(a[0].name, b[0].name, a[0].name); BelowIrreflexive(a[0].name); }
      RestHas(a);
      RestHas(b);
      SortedIsUnique(a[1..], b[1..]);
      assert a == [a[0]] + a[1..] && b == [b[0]] + b[1..];
    }
  }

  /** The first element of `a` is the first of `b`, or comes after it. */
  lemma FirstIsFirst(a: Table, b: Table)
    requires a != [] && b != [] && StrictlySorted(b) && a[0] in b
    ensures a[0] == b[0] || Below(b[0].name, a[0].name)
  {
    var i :| 0 <= i < |b| && b[i] == a[0];
  }

  lemma RestHas(a: Table)
    requires a != [] && StrictlySorted(a)
    ensures forall e :: e in a[1..] <==> e in a && e != a[0]
  {
    BelowIrreflexive(a[0].name);
    assert a == [a[0]] + a[1..];
    forall e | e in a[1..] ensures e != a[0] {
      var i :| 0 <= i < |a[1..]| && a[1..][i] == e;
      assert Below(a[0].name, a[i + 1].name);
    }
  }

  lemma SortedHasUniqueNames(t: Table)
    requires StrictlySorted(t)
    ensures UniqueNames(t)
  {
    forall i, j | 0 <= i < j < |t| ensures t[i].name != t[j].name { BelowIrreflexive(t[i].name); }
  }

  /** The library sort, specified by its contract on distinct keys. */
  method SortByName(values: Table) returns (r: Table)
    requires UniqueNames(values)
    ensures StrictlySorted(r) && forall e :: e in r <==> e in values
  {
    r := [];
    for i := 0 to |values|
      invariant StrictlySorted(r) && forall e :: e in r <==> e in values[..i]
    {
      var x := values[i];
      assert values[..i + 1] == values[..i] + [x];
      forall e | e in r ensures e.name != x.name {
        var k :| 0 <= k < i && values[..i][k] == e;
        assert values[k].name != values[i].name;
      }
      r := Insert(r, x);
    }
    assert values[..|values|] == values;
  }

  function Insert(t: Table, x: Image): (r: Table)
    requires StrictlySorted(t) && forall e :: e in t ==> e.name != x.name
    ensures StrictlySorted(r) && forall e :: e in r <==> e in t || e == x
  {
    if t == [] then [x]
    else
      assert t == [t[0]] + t[1..];
      BelowTotal(x.name, t[0].name);
      if Below(x.name, t[0].name) then
        assert forall i :: 0 <= i < |t| ==> Below(x.name, t[i].name) by {
          forall i | 0 <= i < |t| ensures Below(x.name, t[i].name) {
            if i > 0 { BelowTransitive(x.name, t[0].name, t[i].name); }
          }
        }
        [x] + t
      else
        var rest := Insert(t[1..], x);
        assert forall i :: 0 <= i < |rest| ==> Below(t[0].name, rest[i].name) by {
          forall i | 0 <= i < |rest| ensures Below(t[0].name, rest[i].name) {
            assert rest[i] in rest;
            if rest[i] in t[1..] {
              var k :| 0 <= k < |t[1..]| && t[1..][k] == rest[i];
              assert t[k + 1] == rest[i];
            }
          }
        }
        [t[0]] + rest
  }

  // ---- merge ----

  /** An entry of both tables keeps the status versions first and no project. */
  function MergeEntry(spec: Index, status: Index, name: string): Image
    requires name in spec || name in status
  {
    if name !in status then spec[name]
    else if name !in spec then status[name]
    else Image(name, "", status[name].versions + spec[name].versions)
  }

  function MergedIndex(spec: Index, status: Index): Index {
    map name | name in spec.Keys + status.Keys :: MergeEntry(spec, status, name)
  }

  ghost predicate IterationOrder(order: seq<string>, m: Index) {
    Distinct(order) && forall k :: k in order <==> k in m
  }

  /** The status map when the spec images named in `done` are merged. */
  function PartlyMerged(spec: Index, status: Index, done: set<string>): Index
    requires done <= spec.Keys
  {
    map name | name in done + status.Keys :: if name in done then MergeEntry(spec, status, name) else status[name]
  }

  lemma MergeOneMore(spec: Index, status: Index, done: set<string>, name: string)
    requires done <= spec.Keys && name in spec && name !in done
    ensures PartlyMerged(spec, status, done + {name}) == PartlyMerged(spec, status, done)[name := MergeEntry(spec, status, name)]
    ensures name in PartlyMerged(spec, status, done) <==> name in status
    ensures name in status ==> PartlyMerged(spec, status, done)[name] == status[name]
  {
  }

  /** The loop over the spec map in order `specOrder`. */
  method MergeIntoStatus(spec: Table, status: Table, specOrder: seq<string>) returns (images: Index)
    requires IterationOrder(specOrder, IndexOf(spec))
    ensures images == MergedIndex(IndexOf(spec), IndexOf(status))
  {
    var specImages := IndexOf(spec);
    images := IndexOf(status);
    ghost var before, done: set<string> := images, {};
    for i := 0 to |specOrder|
      invariant forall k :: k in done <==> k in specOrder[..i]
      invariant done <= specImages.Keys && images == PartlyMerged(specImages, before, done)
    {
      var name := specOrder[i];
      assert specOrder[..i + 1] == specOrder[..i] + [name];
      MergeOneMore(specImages, before, done, name);
      images := MergeImage(images, specImages[name]);
      done := done + {name};
    }
    assert specOrder[..|specOrder|] == specOrder;
    assert done == specImages.Keys;
  }

  /** The loop body: a new entry, or one with the spec versions appended. */
  function MergeImage(images: Index, image: Image): Index {
    if image.name !in images then images[image.name := image]
    else images[image.name := Image(image.name, "", images[image.name].versions + image.versions)]
  }

  /** `mergeMachineImages`, with `outOrder` telling in which order the merged map is read out: the
    * result is strictly sorted by name and does not depend on either order. */
  method MergeMachineImages(spec: Table, status: Table, specOrder: seq<string>, outOrder: seq<string>) returns (r: Table)
    requires IterationOrder(specOrder, IndexOf(spec))
    requires IterationOrder(outOrder, MergedIndex(IndexOf(spec), IndexOf(status)))
    ensures IsMerge(spec, status, r)
  {
    var images := MergeIntoStatus(spec, status, specOrder);
    var values: Table := [];
    for i := 0 to |outOrder|
      invariant |values| == i && forall k :: 0 <= k < i ==> outOrder[k] in images && values[k] == images[outOrder[k]]
    {
      assert outOrder[i] in outOrder;
      values := values + [images[outOrder[i]]];
    }
    forall k | k in images ensures images[k].name == k && images[k] in values {
      var i :| 0 <= i < |outOrder| && outOrder[i] == k;
      assert values[i] == images[k];
    }
    r := SortByName(values);
  }

  /** Strictly sorted, with exactly the merged entries. */
  ghost predicate IsMerge(spec: Table, status: Table, r: Table) {
    var m := MergedIndex(IndexOf(spec), IndexOf(status));
    StrictlySorted(r) && (forall k :: k in m ==> m[k].name == k && m[k] in r) && (forall e :: e in r ==> e.name in m && m[e.name] == e)
  }

  lemma MergeIsUnique(spec: Table, status: Table, a: Table, b: Table)
    requires IsMerge(spec, status, a) && IsMerge(spec, status, b)
    ensures a == b
  {
    SortedIsUnique(a, b);
  }

  lemma FindInMerge(spec: Table, status: Table, r: Table, name: string, version: string, arch: string)
    requires IsMerge(spec, status, r)
    ensures FindImage(r, name, version, arch) == FindIndexed(MergedIndex(IndexOf(spec), IndexOf(status)), name, version, arch)
  {
    var m := MergedIndex(IndexOf(spec), IndexOf(status));
    SortedHasUniqueNames(r);
    if name in m {
      var i :| 0 <= i < |r| && r[i] == m[name];
      FindAmongUnique(r, i, version, arch);
    } else {
      FindAbsent(r, name, version, arch);
    }
  }

  /** Main result, for any two lists: the merged table finds the path of the last status entry of
    * the name, else that of the last spec entry. */
  lemma MergedPath(spec: Table, status: Table, r: Table, name: string, version: string, arch: string)
    requires IsMerge(spec, status, r)
    ensures PathOf(FindImage(r, name, version, arch)) ==
      var inStatus := PathOf(FindIndexed(IndexOf(status), name, version, arch));
      if inStatus.Some? then inStatus else PathOf(FindIndexed(IndexOf(spec), name, version, arch))
  {
    FindInMerge(spec, status, r, name, version, arch);
    var s, t := IndexOf(spec), IndexOf(status);
    if name in s && name in t { FindVersionAppend(t[name].versions, s[name].versions, version, arch); }
  }

  /** With unique names in each list these are the plain lookups in the two lists. */
  lemma MergedPathOfUnique(spec: Table, status: Table, r: Table, name: string, version: string, arch: string)
    requires IsMerge(spec, status, r) && UniqueNames(spec) && UniqueNames(status)
    ensures PathOf(FindImage(r, name, version, arch)) ==
      var inStatus := PathOf(FindImage(status, name, version, arch));
      if inStatus.Some? then inStatus else PathOf(FindImage(spec, name, version, arch))
  {
    MergedPath(spec, status, r, name, version, arch);
    FindIsIndexed(spec, name, version, arch);
    FindIsIndexed(status, name, version, arch);
  }

  /** The project is not kept for an image of both tables: it is found in the default project. */
  lemma MergedProject(spec: Table, status: Table, r: Table, name: string, version: string, arch: string)
    requires IsMerge(spec, status, r) && name in IndexOf(spec) && name in IndexOf(status)
    requires FindImage(r, name, version, arch).Some?
    ensures FindImage(r, name, version, arch).value.project == "vm-system"
  {
    FindInMerge(spec, status, r, name, version, arch);
  }
}
