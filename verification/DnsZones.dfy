/** Choosing the managed DNS zone with the longest matching domain from an unordered map. */
module DnsZones {
  import opened Prelude

  predicate HasSuffix(s: string, t: string) { |t| <= |s| && s[|s| - |t|..] == t }

  predicate MatchesDomain(name: string, domain: string) {
    name == domain || HasSuffix(name, "." + domain)
  }

  /** Zone identifiers to DNS domains. */
  type Zones = map<string, string>

  /** One order in which the map may be iterated. */
  ghost predicate IterationOrder(order: seq<string>, zones: Zones) {
    Distinct(order) && forall k :: k in order <==> k in zones
  }

  predicate Candidate(zones: Zones, name: string, k: string) {
    k in zones && zones[k] != "" && MatchesDomain(name, zones[k])
  }

  ghost predicate Longest(zones: Zones, name: string, k: string) {
    Candidate(zones, name, k) && forall l :: Candidate(zones, name, l) ==> |zones[l]| <= |zones[k]|
  }

  /** The first key of the order with a longest matching domain, if any. */
  ghost predicate Chosen(order: seq<string>, zones: Zones, name: string, zone: string) {
    if exists k :: Candidate(zones, name, k) then
      exists i :: 0 <= i < |order| && order[i] == zone && Longest(zones, name, zone)
        && forall j :: 0 <= j < i ==> !Longest(zones, name, order[j])
    else zone == ""
  }

  method FindZoneWithLongestSuffix(zones: Zones, name: string, order: seq<string>) returns (zone: string)
    requires IterationOrder(order, zones)
    ensures Chosen(order, zones, name, zone)
    ensures
      if exists k :: k in zones && zones[k] != "" && DotSuffix(name, zones[k]) then
        && zone in zones && zones[zone] != "" && DotSuffix(name, zones[zone])
        && forall k :: k in zones && zones[k] != "" && DotSuffix(name, zones[k]) ==> |zones[k]| <= |zones[zone]|
      else zone == ""
  {
    var longest := "";
    zone := "";
    ghost var at := -1;
    for i := 0 to |order|
      invariant -1 <= at < i
      invariant at == -1 ==> longest == "" && zone == "" && forall j :: 0 <= j < i ==> !Candidate(zones, name, order[j])
      invariant at >= 0 ==> zone == order[at] && Candidate(zones, name, zone) && longest == zones[zone]
      invariant forall j :: 0 <= j < i && Candidate(zones, name, order[j]) ==> |zones[order[j]]| <= |longest|
      invariant forall j :: 0 <= j < at && Candidate(zones, name, order[j]) ==> |zones[order[j]]| < |longest|
    {
      var domain := zones[order[i]];
      if MatchesDomain(name, domain) && |domain| > |longest| {
        longest, zone := domain, order[i];
        at := i;
      }
    }
    if k :| Candidate(zones, name, k) {
      var i :| 0 <= i < |order| && order[i] == k;
      forall l | Candidate(zones, name, l) ensures |zones[l]| <= |zones[zone]| {
        var j :| 0 <= j < |order| && order[j] == l;
      }
      assert order[at] == zone && Longest(zones, name, zone);
    }
    ChosenMeans(order, zones, name, zone);
  }

  /** The choice, without the matching test: a zone whose non-empty domain is the name or follows one
    * of its dots, and none such is longer; the empty text if there is none. */
  lemma ChosenMeans(order: seq<string>, zones: Zones, name: string, zone: string)
    requires Chosen(order, zones, name, zone)
    ensures
      if exists k :: k in zones && zones[k] != "" && DotSuffix(name, zones[k]) then
        && zone in zones && zones[zone] != "" && DotSuffix(name, zones[zone])
        && forall k :: k in zones && zones[k] != "" && DotSuffix(name, zones[k]) ==> |zones[k]| <= |zones[zone]|
      else zone == ""
  {
    forall k | k in zones ensures Candidate(zones, name, k) <==> zones[k] != "" && DotSuffix(name, zones[k]) {
      MatchesExactly(name, zones[k]);
    }
  }

  /** The domain is the name, or the part of the name after one of its dots. */
  ghost predicate DotSuffix(name: string, domain: string) {
    name == domain || exists i :: 0 <= i < |name| && name[i] == '.' && name[i + 1..] == domain
  }

  lemma MatchesExactly(name: string, domain: string)
    ensures MatchesDomain(name, domain) <==> DotSuffix(name, domain)
  {
    var n := |name| - |domain| - 1;
    if HasSuffix(name, "." + domain) {
      assert name[n..][1..] == name[n + 1..] && ("." + domain)[1..] == domain;
      assert name[n] == name[n..][0] == '.';
    }
    if i :| 0 <= i < |name| && name[i] == '.' && name[i + 1..] == domain {
      assert name[i..] == [name[i]] + name[i + 1..];
    }
  }

  lemma DomainIsSuffix(name: string, domain: string)
    requires MatchesDomain(name, domain)
    ensures |domain| <= |name| && name[|name| - |domain|..] == domain
  {
    if name != domain {
      var n := |name| - |domain|;
      assert name[n - 1..][1..] == name[n..];
      assert ("." + domain)[1..] == domain;
    }
  }

  /** Two longest matches have the same domain: equal-length suffixes are equal. */
  lemma LongestDomainIsUnique(zones: Zones, name: string, k: string, l: string)
    requires Longest(zones, name, k) && Longest(zones, name, l)
    ensures zones[k] == zones[l]
  {
    DomainIsSuffix(name, zones[k]);
    DomainIsSuffix(name, zones[l]);
  }

  ghost function OrderOf(s: set<string>): (r: seq<string>)
    ensures Distinct(r) && forall k :: k in r <==> k in s
  {
    if s == {} then [] else
      var k :| k in s;
      [k] + OrderOf(s - {k})
  }

  ghost predicate OrderFree(zones: Zones, name: string) {
    forall a, b, x, y ::
      IterationOrder(a, zones) && IterationOrder(b, zones) && Chosen(a, zones, name, x) && Chosen(b, zones, name, y) ==> x == y
  }

  /** Any longest match can come first. */
  lemma CanBeChosen(zones: Zones, name: string, k: string) returns (order: seq<string>)
    requires Longest(zones, name, k)
    ensures IterationOrder(order, zones) && Chosen(order, zones, name, k)
  {
    order := [k] + OrderOf(zones.Keys - {k});
    assert order[0] == k;
  }

  lemma UniqueIsOrderFree(zones: Zones, name: string)
    requires forall k, l :: Longest(zones, name, k) && Longest(zones, name, l) ==> k == l
    ensures OrderFree(zones, name)
  {
    forall a, b, x, y
      | IterationOrder(a, zones) && IterationOrder(b, zones) && Chosen(a, zones, name, x) && Chosen(b, zones, name, y)
      ensures x == y
    {
      if exists k :: Candidate(zones, name, k) { assert Longest(zones, name, x) && Longest(zones, name, y); }
    }
  }

  /** Main result: the choice is independent of the map order exactly when only one zone carries
    * the longest matching domain. */
  lemma OrderFreeExactly(zones: Zones, name: string)
    ensures OrderFree(zones, name) <==> forall k, l :: Longest(zones, name, k) && Longest(zones, name, l) ==> k == l
  {
    if OrderFree(zones, name) {
      forall k, l | Longest(zones, name, k) && Longest(zones, name, l) ensures k == l {
        var a := CanBeChosen(zones, name, k);
        var b := CanBeChosen(zones, name, l);
      }
    } else if forall k, l :: Longest(zones, name, k) && Longest(zones, name, l) ==> k == l {
      UniqueIsOrderFree(zones, name);
    }
  }

  /** Pairwise distinct domains suffice. */
  lemma DistinctDomainsAreOrderFree(zones: Zones, name: string)
    requires forall k, l :: k in zones && l in zones && zones[k] == zones[l] ==> k == l
    ensures OrderFree(zones, name)
  {
    forall k, l | Longest(zones, name, k) && Longest(zones, name, l) ensures k == l {
      LongestDomainIsUnique(zones, name, k, l);
    }
    UniqueIsOrderFree(zones, name);
  }
}
