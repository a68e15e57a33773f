/** The prefix under which one backup entry keeps its objects. */
module BackupPrefix {
  import opened VersionPurge

  const SOURCE_PREFIX := "source-"

  function TrimPrefix(s: string, prefix: string): string {
    if HasPrefix(s, prefix) then s[|prefix|..] else s
  }

  function EntryName(name: string): string { TrimPrefix(name, SOURCE_PREFIX) }

  function EntryPrefix(name: string): string { EntryName(name) + "/" }

  /** The entry's objects are under its name without a leading "source-", and a slash. */
  lemma EntryPrefixIs(name: string)
    ensures forall rest :: name == "source-" + rest ==> EntryPrefix(name) == rest + "/"
    ensures (forall rest :: name != "source-" + rest) ==> EntryPrefix(name) == name + "/"
  {
    forall rest | name == "source-" + rest ensures EntryPrefix(name) == rest + "/" {
      assert name[7..] == rest && name[..7] == "source-";
    }
  }

  ghost predicate ShareKey(a: string, b: string) {
    exists key :: HasPrefix(key, EntryPrefix(a)) && HasPrefix(key, EntryPrefix(b))
  }

  /** Two prefixes of one key are nested. */
  lemma NestedPrefixes(key: string, p: string, q: string)
    requires HasPrefix(key, p) && HasPrefix(key, q) && |p| <= |q|
    ensures HasPrefix(q, p)
  {
    assert key[..|q|][..|p|] == key[..|p|];
  }

  lemma SlashEnds(a: string, b: string)
    requires '/' !in b && HasPrefix(b + "/", a + "/")
    ensures a == b
  {
    assert (a + "/")[|a|] == (b + "/")[..|a| + 1][|a|] == (b + "/")[|a|];
    assert |a| >= |b|;
    assert (b + "/")[..|a| + 1] == b + "/";
    assert (a + "/")[..|a|] == a && (b + "/")[..|b|] == b;
  }

  /** Main result: for names without a slash (as object names are), two entries share a possible
    * key exactly when their trimmed names are equal. */
  lemma EntriesShareExactly(a: string, b: string)
    requires '/' !in a && '/' !in b
    ensures ShareKey(a, b) <==> EntryName(a) == EntryName(b)
  {
    if key :| HasPrefix(key, EntryPrefix(a)) && HasPrefix(key, EntryPrefix(b)) {
      if |EntryPrefix(a)| <= |EntryPrefix(b)| {
        NestedPrefixes(key, EntryPrefix(a), EntryPrefix(b));
        SlashEnds(EntryName(a), EntryName(b));
      } else {
        NestedPrefixes(key, EntryPrefix(b), EntryPrefix(a));
        SlashEnds(EntryName(b), EntryName(a));
      }
    }
    if EntryName(a) == EntryName(b) {
      assert HasPrefix(EntryPrefix(a), EntryPrefix(a)) && HasPrefix(EntryPrefix(a), EntryPrefix(b));
    }
  }

  /** What the actuator reaches before it deletes: the bucket, a missing bucket, or an error. */
  datatype Access = Reachable(bucket: Bucket) | Missing | Unreachable

  /** Deleting an entry purges its prefix: on success its own keys are gone, and in every case the
    * objects of any entry with a different trimmed name are untouched. A missing bucket is a success. */
  method Delete(access: Access, name: string) returns (ok: bool)
    requires access.Reachable? ==> Ordered(access.bucket.entries)
    modifies if access.Reachable? then {access.bucket} else {}
    ensures access.Missing? ==> ok
    ensures access.Unreachable? ==> !ok
    ensures access.Reachable? && (forall t :: access.bucket.faults(t).Fine?) ==> ok
    ensures access.Reachable? && ok ==> forall e :: e in access.bucket.entries ==> !HasPrefix(e.key, EntryPrefix(name))
    ensures access.Reachable? && '/' !in name ==> forall other: string, e: Entry ::
      '/' !in other && EntryName(other) != EntryName(name) && HasPrefix(e.key, EntryPrefix(other)) ==>
        (e in access.bucket.entries <==> e in old(access.bucket.entries))
  {
    if access.Unreachable? { return false; }
    if access.Missing? { return true; }
    var bucket := access.bucket;
    ghost var before := bucket.entries;
    ok := bucket.DeleteObjectVersionsWithPrefix(EntryPrefix(name));
    if '/' !in name {
      forall other: string, e: Entry
        | '/' !in other && EntryName(other) != EntryName(name) && HasPrefix(e.key, EntryPrefix(other))
        ensures e in bucket.entries <==> e in before
      {
        EntriesShareExactly(name, other);
        assert !Under(e, EntryPrefix(name));
        assert e in Outside(before, EntryPrefix(name)) <==> e in before;
      }
    }
  }
}
