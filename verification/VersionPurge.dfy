/** Deleting all object versions under a prefix while paging through a marker-based listing. */
module VersionPurge {

  predicate HasPrefix(s: string, prefix: string)
    ensures HasPrefix(s, prefix) <==> exists rest :: s == prefix + rest
  {
    assert |prefix| <= |s| && s[..|prefix|] == prefix ==> s == prefix + s[|prefix|..];
    |prefix| <= |s| && s[..|prefix|] == prefix
  }

  /** A version or delete marker. `position` is its place in the listing order, which deletions do
    * not disturb; a page marker names the position of the last entry returned. */
  datatype Entry = Entry(position: nat, key: string, version: string, deleteMarker: bool)

  predicate Ordered(s: seq<Entry>) {
    forall i, j :: 0 <= i < j < |s| ==> s[i].position < s[j].position
  }

  predicate Under(e: Entry, prefix: string) { HasPrefix(e.key, prefix) }

  function Filter(keep: Entry -> bool, s: seq<Entry>): (r: seq<Entry>)
    ensures forall e :: e in r <==> e in s && keep(e)
  {
    if s == [] then [] else
      assert s == [s[0]] + s[1..];
      var rest := Filter(keep, s[1..]);
      if keep(s[0]) then [s[0]] + rest else rest
  }

  lemma {:induction false} FilterOrdered(keep: Entry -> bool, s: seq<Entry>)
    requires Ordered(s)
    ensures Ordered(Filter(keep, s))
  {
    if s != [] {
      var rest := Filter(keep, s[1..]);
      FilterOrdered(keep, s[1..]);
      forall i | 0 <= i < |rest| ensures s[0].position < rest[i].position {
        assert rest[i] in rest;
      }
    }
  }

  lemma {:induction false} FilterShrinks(keep: Entry -> bool, s: seq<Entry>)
    ensures |Filter(keep, s)| <= |s|
    ensures (exists e :: e in s && !keep(e)) ==> |Filter(keep, s)| < |s|
  {
    if s != [] {
      FilterShrinks(keep, s[1..]);
      assert s == [s[0]] + s[1..];
    }
  }

  /** Filtering by a weaker condition first makes no difference. */
  lemma {:induction false} FilterTwice(weak: Entry -> bool, keep: Entry -> bool, s: seq<Entry>)
    requires forall e :: e in s && keep(e) ==> weak(e)
    ensures Filter(keep, Filter(weak, s)) == Filter(keep, s)
  {
    if s != [] {
      var rest := Filter(weak, s[1..]);
      FilterTwice(weak, keep, s[1..]);
      assert s[0] in s;
      if weak(s[0]) { assert ([s[0]] + rest)[1..] == rest; }
    }
  }

  function UnderAfter(prefix: string, after: int): Entry -> bool { (e: Entry) => Under(e, prefix) && e.position > after }

  function NotUnder(prefix: string): Entry -> bool { (e: Entry) => !Under(e, prefix) }

  function NotAt(dead: set<nat>): Entry -> bool { (e: Entry) => e.position !in dead }

  function IsMarker(markers: bool): Entry -> bool { (e: Entry) => e.deleteMarker == markers }

  /** The entries under the prefix after a marker, in listing order. */
  function Listing(s: seq<Entry>, prefix: string, after: int): (r: seq<Entry>)
    ensures forall e :: e in r <==> e in s && Under(e, prefix) && e.position > after
  {
    Filter(UnderAfter(prefix, after), s)
  }

  lemma ListingOrdered(s: seq<Entry>, prefix: string, after: int)
    requires Ordered(s)
    ensures Ordered(Listing(s, prefix, after))
  {
    FilterOrdered(UnderAfter(prefix, after), s);
  }

  function Outside(s: seq<Entry>, prefix: string): (r: seq<Entry>)
    ensures forall e :: e in r <==> e in s && !Under(e, prefix)
  {
    Filter(NotUnder(prefix), s)
  }

  function Without(s: seq<Entry>, dead: set<nat>): (r: seq<Entry>)
    ensures forall e :: e in r <==> e in s && e.position !in dead
  {
    Filter(NotAt(dead), s)
  }

  lemma WithoutKeeps(s: seq<Entry>, prefix: string, dead: set<nat>)
    requires Ordered(s) && forall e :: e in s && e.position in dead ==> Under(e, prefix)
    ensures Ordered(Without(s, dead)) && Outside(Without(s, dead), prefix) == Outside(s, prefix)
    ensures |Without(s, dead)| <= |s|
    ensures (exists e :: e in s && e.position in dead) ==> |Without(s, dead)| < |s|
  {
    FilterOrdered(NotAt(dead), s);
    FilterTwice(NotAt(dead), NotUnder(prefix), s);
    FilterShrinks(NotAt(dead), s);
    if e :| e in s && e.position in dead { assert !NotAt(dead)(e); }
  }

  function Positions(s: seq<Entry>): set<nat> { set e | e in s :: e.position }

  const MAX_KEYS := 1000

  /** What the service does with one request: a failing deletion may have removed some entries, and
    * a deletion may report that it kept some. */
  datatype Fault = Fine | Fails(removed: set<nat>) | Keeps(kept: set<nat>)

  datatype Request = ListPage | DeleteBatch(batch: seq<Entry>, clean: bool)

  class Bucket {
    var entries: seq<Entry>
    var tick: nat
    ghost var log: seq<Request>
    const faults: nat -> Fault
    const sizes: nat -> nat

    /** `sizes` says how many entries the service cares to return in a page. */
    constructor (es: seq<Entry>, f: nat -> Fault, sizes: nat -> nat)
      ensures entries == es && faults == f && this.sizes == sizes && log == [] && tick == 0
    {
      entries, tick, log, faults := es, 0, [], f;
      this.sizes := sizes;
    }

    /** A page is a prefix of what is left of the listing, of at most 1000 entries; the service may
      * stop earlier, but not before the first. */

    method List(prefix: string, after: int) returns (ok: bool, page: seq<Entry>, truncated: bool)
      modifies this
      ensures entries == old(entries) && log == old(log) + [ListPage]
      ensures ok <==> !faults(old(tick)).Fails?
      ensures ok ==> IsPage(Listing(entries, prefix, after), page, truncated)
    {
      log := log + [ListPage];
      ok := !faults(tick).Fails?;
      tick := tick + 1;
      var all := Listing(entries, prefix, after);
      var size := 1 + sizes(tick) % MAX_KEYS;
      truncated := |all| > size;
      page := if truncated then all[..size] else all;
    }

    /** `failed` is a failed request or a reported error on some object; `dead` is what was removed. */
    method DeleteObjects(batch: seq<Entry>) returns (failed: bool, ghost dead: set<nat>)
      modifies this
      ensures entries == Without(old(entries), dead)
      ensures dead <= Positions(batch) && (!failed ==> dead == Positions(batch))
      ensures log == old(log) + [DeleteBatch(batch, !failed)]
      ensures faults(old(tick)).Fine? ==> !failed
    {
      var fault := faults(tick);
      tick := tick + 1;
      var all := Positions(batch);
      var gone := match fault
        case Fine => all
        case Fails(removed) => all * removed
        case Keeps(kept) => all - kept;
      failed := fault.Fails? || gone != all;
      entries := Without(entries, gone);
      log := log + [DeleteBatch(batch, !failed)];
      dead := gone;
    }

    /** The page callback: versions first, then delete markers, in one batch. */
    method DeletePage(page: seq<Entry>, ghost prefix: string) returns (goOn: bool)
      requires Ordered(entries) && |page| <= 1000
      requires forall e :: e in page ==> e in entries && Under(e, prefix)
      modifies this
      ensures Ordered(entries) && Outside(entries, prefix) == Outside(old(entries), prefix)
      ensures forall e :: e in entries ==> e in old(entries)
      ensures goOn ==> forall e :: e in entries <==> e in old(entries) && e !in page
      ensures |entries| <= |old(entries)| && (goOn && page != [] ==> |entries| < |old(entries)|)
      ensures faults(old(tick)).Fine? ==> goOn
      ensures log == old(log) || (exists batch :: log == old(log) + [DeleteBatch(batch, goOn)] && |batch| <= 1000)
      ensures log == old(log) ==> goOn
    {
      var objects := Pick(page, false) + Pick(page, true);
      PickBoth(page);
      if objects == [] { return true; }
      ghost var before := entries;
      var failed, dead := DeleteObjects(objects);
      forall e | e in before && e.position in dead ensures e in page {
        var x :| x in objects && x.position == e.position;
        SamePosition(before, e, x);
      }
      WithoutKeeps(before, prefix, dead);
      if !failed && page != [] { assert page[0] in before && page[0].position in dead; }
      goOn := !failed;
    }

    /** One page: list, delete, and where to go on; `after` is the marker. */
    method PurgePage(prefix: string, after: int) returns (ok: bool, more: bool, marker: int)
      requires Ordered(entries) && forall e :: e in entries && Under(e, prefix) ==> e.position > after
      modifies this
      ensures Ordered(entries) && Outside(entries, prefix) == Outside(old(entries), prefix)
      ensures forall e :: e in entries ==> e in old(entries)
      ensures ok ==> forall e :: e in entries && Under(e, prefix) ==> more && e.position > marker
      ensures ok && more ==> |entries| < |old(entries)|
      ensures |entries| <= |old(entries)|
      ensures old(log) <= log && if ok then Clean(log[|old(log)|..]) else Disciplined(log[|old(log)|..])
      ensures (forall t :: faults(t).Fine?) ==> ok
    {
      ghost var before := entries;
      var page;
      ok, page, more := List(prefix, after);
      marker := after;
      if !ok { return; }
      if page != [] { marker := page[|page| - 1].position; }
      ok := DeletePage(page, prefix);
      if ok { PageLeavesTheRest(before, entries, prefix, after, page, more); }
    }

    /** Main result: success means nothing under the prefix is left; in every case entries outside
      * it are untouched, batches hold at most 1000 entries, and a failed deletion is the last
      * request. Without faults it succeeds. */
    method DeleteObjectVersionsWithPrefix(prefix: string) returns (ok: bool)
      requires Ordered(entries)
      modifies this
      ensures Outside(entries, prefix) == Outside(old(entries), prefix)
      ensures forall e :: e in entries ==> e in old(entries)
      ensures ok ==> forall e :: e in entries ==> !Under(e, prefix)
      ensures old(log) <= log && Disciplined(log[|old(log)|..])
      ensures (forall t :: faults(t).Fine?) ==> ok
    {
      var after: int, more := -1, true;
      ghost var n := |log|;
      ok := true;
      while more
        invariant Ordered(entries) && Outside(entries, prefix) == Outside(old(entries), prefix)
        invariant forall e :: e in entries ==> e in old(entries)
        invariant forall e :: e in entries && Under(e, prefix) ==> more && e.position > after
        invariant old(log) <= log && Clean(log[n..])
        decreases |entries|, more
      {
        ghost var so := log;
        ok, more, after := PurgePage(prefix, after);
        Extends(so, log, n);
        if !ok { return false; }
      }
      ok := true;
    }
  }

  predicate IsPage(all: seq<Entry>, page: seq<Entry>, truncated: bool) {
    page <= all && |page| <= 1000 && truncated == (|page| < |all|) && (truncated ==> page != [])
  }

  /** An entry of an ordered listing that is not on its first page comes after that page. */
  lemma BeyondPage(all: seq<Entry>, page: seq<Entry>, e: Entry)
    requires Ordered(all) && page <= all && e in all && e !in page
    ensures page != [] ==> e.position > page[|page| - 1].position
  {
    var i :| 0 <= i < |all| && all[i] == e;
    assert i >= |page|;
  }

  /** After a page was deleted, what is left under the prefix lies beyond it, and only if the
    * listing was truncated. */
  lemma PageLeavesTheRest(before: seq<Entry>, left: seq<Entry>, prefix: string, after: int, page: seq<Entry>, truncated: bool)
    requires Ordered(before) && forall e :: e in before && Under(e, prefix) ==> e.position > after
    requires IsPage(Listing(before, prefix, after), page, truncated)
    requires forall e :: e in left <==> e in before && e !in page
    ensures forall e :: e in left && Under(e, prefix) ==> truncated && page != [] && e.position > page[|page| - 1].position
  {
    var all := Listing(before, prefix, after);
    ListingOrdered(before, prefix, after);
    assert !truncated ==> page == all;
    forall e | e in left && Under(e, prefix) ensures truncated && page != [] && e.position > page[|page| - 1].position {
      assert e in all;
      BeyondPage(all, page, e);
    }
  }

  /** Every deletion so far was small and reported no error. */
  ghost predicate Clean(log: seq<Request>) {
    forall i :: 0 <= i < |log| && log[i].DeleteBatch? ==> |log[i].batch| <= 1000 && log[i].clean
  }

  /** Deletions are small, and nothing follows one that failed. */
  ghost predicate Disciplined(log: seq<Request>) {
    forall i :: 0 <= i < |log| && log[i].DeleteBatch? ==> |log[i].batch| <= 1000 && (!log[i].clean ==> i == |log| - 1)
  }

  lemma Extends(so: seq<Request>, log: seq<Request>, n: nat)
    requires n <= |so| && so <= log && Clean(so[n..])
    ensures Clean(log[|so|..]) ==> Clean(log[n..])
    ensures Disciplined(log[|so|..]) ==> Disciplined(log[n..])
  {
    assert log[n..] == so[n..] + log[|so|..];
  }

  /** The versions of a page, or its delete markers. */
  function Pick(page: seq<Entry>, markers: bool): (r: seq<Entry>)
    ensures forall e :: e in r <==> e in page && e.deleteMarker == markers
  {
    Filter(IsMarker(markers), page)
  }

  lemma {:induction false} PickBoth(page: seq<Entry>)
    ensures |Pick(page, false)| + |Pick(page, true)| == |page|
  {
    if page != [] { PickBoth(page[1..]); }
  }

  lemma SamePosition(s: seq<Entry>, x: Entry, y: Entry)
    requires Ordered(s) && x in s && y in s && x.position == y.position
    ensures x == y
  {
    var i :| 0 <= i < |s| && s[i] == x;
    var j :| 0 <= j < |s| && s[j] == y;
    assert i <= j && j <= i;
  }
}
