/** The in-memory versioned store: versions are filtered in place in the object's own slice. */
module MockBucket {
  import opened Prelude
  import VersionPurge

  datatype Version = Version(id: Option<string>, data: seq<bv8>)

  /** `versions[..len]` is the object's slice; filtering reuses its backing array. */
  class Object {
    const versions: array<Version>
    var len: nat

    constructor (vs: array<Version>)
      ensures versions == vs && len == vs.Length
    {
      versions, len := vs, vs.Length;
    }
  }

  /** The contents of a bucket as values. */
  type Contents = map<string, seq<Version>>

  /** Versions that do not carry this id, in order. */
  function Dropped(vs: seq<Version>, id: string): seq<Version> {
    if vs == [] then [] else
      var n := |vs| - 1;
      Dropped(vs[..n], id) + if vs[n].id != Some(id) then [vs[n]] else []
  }

  lemma {:induction false} DroppedHas(vs: seq<Version>, id: string, v: Version)
    ensures v in Dropped(vs, id) <==> v in vs && v.id != Some(id)
  {
    if vs != [] {
      var n := |vs| - 1;
      DroppedHas(vs[..n], id, v);
      assert vs == vs[..n] + [vs[n]];
    }
  }

  /** One deletion: the whole object without a version id, else one version, and the object with
    * its last version. */
  function AfterDelete(m: Contents, key: string, id: Option<string>): Contents {
    if key !in m then m
    else if id.None? then m - {key}
    else
      var left := Dropped(m[key], id.value);
      if left == [] then m - {key} else m[key := left]
  }

  class Bucket {
    var objects: map<string, Object>
    /** Every backing array belongs to one key. */
    ghost var home: map<array<Version>, string>

    constructor ()
      ensures Valid() && Contents() == map[]
    {
      objects, home := map[], map[];
    }

    ghost function Arrays(): set<array<Version>>
      reads this, objects.Values
    {
      set o | o in objects.Values :: o.versions
    }

    ghost predicate Valid()
      reads this, objects.Values
    {
      forall k :: k in objects ==>
        objects[k].len <= objects[k].versions.Length && objects[k].versions in home && home[objects[k].versions] == k
    }

    ghost function Contents(): Contents
      requires Valid()
      reads this, objects.Values, Arrays()
    {
      map k | k in objects :: objects[k].versions[..objects[k].len]
    }

    method RemoveObject(key: string)
      requires Valid()
      modifies this`objects
      ensures Valid() && objects == old(objects) - {key} && Contents() == old(Contents()) - {key}
    {
      objects := objects - {key};
    }

    method FilterVersions(key: string, id: string)
      requires Valid() && key in objects
      modifies objects[key], objects[key].versions
      ensures Valid() && Contents() == old(Contents())[key := Dropped(old(Contents())[key], id)]
      ensures objects[key].len == |Contents()[key]|
    {
      ghost var before := Contents();
      FilterInPlace(objects[key], id);
      forall k | k in objects && k != key
        ensures objects[k].versions[..objects[k].len] == before[k]
      {
        assert objects[k].versions != objects[key].versions;
      }
    }

    method DeleteObject(key: string, id: Option<string>)
      requires Valid()
      modifies this, objects.Values, Arrays()
      ensures Valid() && objects.Values <= old(objects.Values)
      ensures Contents() == AfterDelete(old(Contents()), key, id)
    {
      if key !in objects { return; }
      if id.None? {
        RemoveObject(key);
        return;
      }
      ghost var before := Contents();
      ghost var left := Dropped(before[key], id.value);
      FilterVersions(key, id.value);
      if objects[key].len == 0 {
        RemoveObject(key);
        assert before[key := left] - {key} == before - {key};
      }
    }

    /** Reading runs ahead of writing, so the kept versions are the old ones. */
    static method FilterInPlace(item: Object, id: string)
      requires item.len <= item.versions.Length
      modifies item`len, item.versions
      ensures item.len <= item.versions.Length
      ensures item.versions[..item.len] == Dropped(old(item.versions[..item.len]), id)
    {
      var vs, n := item.versions, item.len;
      ghost var before := vs[..n];
      var kept := 0;
      for i := 0 to n
        invariant kept <= i && vs[..kept] == Dropped(before[..i], id)
        invariant forall k :: i <= k < n ==> vs[k] == before[k]
      {
        var version := vs[i];
        assert before[..i + 1][..i] == before[..i];
        if version.id.None? || version.id.value != id {
          vs[kept] := version;
          kept := kept + 1;
        }
      }
      assert before[..n] == before;
      item.len := kept;
    }

    /** The versions under the prefix, listed in some map order. */
    method Collect(prefix: string, order: seq<string>) returns (doomed: seq<Target>)
      requires Valid() && forall k :: k in order <==> k in objects
      ensures Targets(Contents(), prefix, doomed)
    {
      doomed := [];
      for i := 0 to |order|
        invariant forall t :: t in doomed ==> IsTarget(Contents(), prefix, t)
        invariant forall n, v :: 0 <= n < i && VersionPurge.HasPrefix(order[n], prefix) && v in Contents()[order[n]] ==>
          Target(order[n], v.id) in doomed
      {
        var key := order[i];
        if VersionPurge.HasPrefix(key, prefix) {
          var item := objects[key];
          var ids := Ids(item.versions[..item.len], key);
          assert item.versions[..item.len] == Contents()[key];
          doomed := doomed + ids;
        }
      }
    }

    method DeleteTargets(doomed: seq<Target>, ghost before: Contents, ghost prefix: string)
      requires Valid() && before == Contents() && forall t :: t in doomed ==> IsTarget(before, prefix, t)
      modifies this, objects.Values, Arrays()
      ensures Valid() && Progress(before, Contents(), prefix, doomed)
    {
      ghost var owned := objects.Values;
      for i := 0 to |doomed|
        invariant Valid() && objects.Values <= owned
        invariant Progress(before, Contents(), prefix, doomed[..i])
      {
        ProgressNext(before, Contents(), prefix, doomed, i);
        DeleteObject(doomed[i].key, doomed[i].id);
      }
      assert doomed[..|doomed|] == doomed;
    }

    /** Main result: exactly the versions under the prefix go; other objects, and objects without
      * any version, stay as they are. */
    method DeleteObjectVersionsWithPrefix(prefix: string, order: seq<string>)
      requires Valid() && forall k :: k in order <==> k in objects
      modifies this, objects.Values, Arrays()
      ensures Valid() && Contents() == Purged(old(Contents()), prefix)
    {
      ghost var before := Contents();
      var doomed := Collect(prefix, order);
      DeleteTargets(doomed, before, prefix);
      AllPurged(before, Contents(), prefix, doomed);
    }
  }

  datatype Target = Target(key: string, id: Option<string>)

  function Ids(vs: seq<Version>, key: string): (r: seq<Target>)
    ensures forall v :: v in vs ==> Target(key, v.id) in r
    ensures forall t :: t in r ==> t.key == key && exists v :: v in vs && v.id == t.id
  {
    if vs == [] then [] else
      assert vs == [vs[0]] + vs[1..];
      [Target(key, vs[0].id)] + Ids(vs[1..], key)
  }

  ghost predicate IsTarget(m: Contents, prefix: string, t: Target) {
    VersionPurge.HasPrefix(t.key, prefix) && t.key in m && exists v :: v in m[t.key] && v.id == t.id
  }

  ghost predicate Targets(m: Contents, prefix: string, ts: seq<Target>) {
    && (forall t :: t in ts ==> IsTarget(m, prefix, t))
    && forall k, v :: k in m && VersionPurge.HasPrefix(k, prefix) && v in m[k] ==> Target(k, v.id) in ts
  }

  /** The bucket without the versions under the prefix. */
  function Purged(m: Contents, prefix: string): Contents {
    map k | k in m && (!VersionPurge.HasPrefix(k, prefix) || m[k] == []) :: m[k]
  }

  /** Part of the targets are deleted, and nothing else changed. */
  ghost predicate Progress(before: Contents, m: Contents, prefix: string, done: seq<Target>) {
    && (forall k :: k in m ==> k in before && (forall v :: v in m[k] ==> v in before[k]) && (m[k] == [] ==> before[k] == []))
    && (forall k :: k in before && (!VersionPurge.HasPrefix(k, prefix) || before[k] == []) ==> k in m && m[k] == before[k])
    && (forall t :: t in done && t.key in m ==> t.id.Some? && forall v :: v in m[t.key] ==> v.id != t.id)
  }

  lemma ProgressNext(before: Contents, m: Contents, prefix: string, doomed: seq<Target>, i: nat)
    requires i < |doomed| && Progress(before, m, prefix, doomed[..i]) && IsTarget(before, prefix, doomed[i])
    ensures Progress(before, AfterDelete(m, doomed[i].key, doomed[i].id), prefix, doomed[..i + 1])
  {
    var t := doomed[i];
    assert doomed[..i + 1] == doomed[..i] + [t];
    if t.key in m && t.id.Some? {
      forall v ensures v in Dropped(m[t.key], t.id.value) <==> v in m[t.key] && v.id != t.id {
        DroppedHas(m[t.key], t.id.value, v);
      }
    }
  }

  lemma AllPurged(before: Contents, m: Contents, prefix: string, ts: seq<Target>)
    requires Progress(before, m, prefix, ts) && Targets(before, prefix, ts)
    ensures m == Purged(before, prefix)
  {
    forall k | k in m && VersionPurge.HasPrefix(k, prefix) ensures before[k] == [] {
      assert m[k] != [] ==> m[k][0] in before[k] && Target(k, m[k][0].id) in ts;
    }
  }

  /** The unknown-bucket error in front of both operations. */
  method DeleteObjectIn(buckets: map<string, Bucket>, fqn: string, key: string, id: Option<string>) returns (ok: bool)
    requires fqn in buckets ==> buckets[fqn].Valid()
    modifies if fqn in buckets then {buckets[fqn]} else {}
    modifies if fqn in buckets then buckets[fqn].objects.Values else {}
    modifies if fqn in buckets then buckets[fqn].Arrays() else {}
    ensures ok <==> fqn in buckets
    ensures ok ==> buckets[fqn].Valid() && buckets[fqn].Contents() == AfterDelete(old(buckets[fqn].Contents()), key, id)
  {
    ok := fqn in buckets;
    if ok { buckets[fqn].DeleteObject(key, id); }
  }

  method DeleteVersionsIn(buckets: map<string, Bucket>, fqn: string, prefix: string, order: seq<string>) returns (ok: bool)
    requires fqn in buckets ==> buckets[fqn].Valid() && forall k :: k in order <==> k in buckets[fqn].objects
    modifies if fqn in buckets then {buckets[fqn]} else {}
    modifies if fqn in buckets then buckets[fqn].objects.Values else {}
    modifies if fqn in buckets then buckets[fqn].Arrays() else {}
    ensures ok <==> fqn in buckets
    ensures ok ==> buckets[fqn].Valid() && buckets[fqn].Contents() == Purged(old(buckets[fqn].Contents()), prefix)
  {
    ok := fqn in buckets;
    if ok { buckets[fqn].DeleteObjectVersionsWithPrefix(prefix, order); }
  }
}
