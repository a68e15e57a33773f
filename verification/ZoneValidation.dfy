/** Admission of an infrastructure configuration: node CIDR, zone names and zone CIDRs. */
module ZoneValidation {
  import opened Prelude
  import opened InfraConfig
  import opened Cidr
  import opened CidrSets

  datatype Error =
    | NodeCIDRMissing | NodeCIDRUnparsable | NodeCIDRNotCanonical | NodeCIDROutsideCluster
    | ParentMissing | ZonesMissing
    | NameMissing(i: nat) | NameNotAllowed(i: nat)
    | CidrMissing(i: nat) | CidrUnparsable(i: nat) | NotCanonical(i: nat) | Overlaps(i: nat) | OutsideNode(i: nat)

  // ---- what the check is for ----

  predicate ParentGiven(net: Networks) {
    net.parentSubnet != "" || (net.parentReference.Some? && net.parentReference.value.name != "")
  }

  predicate NameAllowed(zone: Zone, allowed: set<string>) { zone.name != "" && zone.name in allowed }

  /** The zone's CIDR can be compared with others. */
  predicate Comparable(parse: Parser, zone: Zone) { zone.cidr != "" && parse(zone.cidr).Some? }

  function BlockOf(parse: Parser, zone: Zone): Block
    requires Comparable(parse, zone)
  {
    parse(zone.cidr).value
  }

  ghost predicate ZoneGood(parse: Parser, zone: Zone, allowed: set<string>, node: Block) {
    && NameAllowed(zone, allowed) && Comparable(parse, zone)
    && Canonical(BlockOf(parse, zone)) && Within(BlockOf(parse, zone), node)
  }

  ghost predicate AllGood(parse: Parser, zones: seq<Zone>, allowed: set<string>, node: Block) {
    forall i :: 0 <= i < |zones| ==> ZoneGood(parse, zones[i], allowed, node)
  }

  lemma AllGoodNext(parse: Parser, zones: seq<Zone>, allowed: set<string>, node: Block, n: nat)
    requires n < |zones|
    ensures AllGood(parse, zones[..n + 1], allowed, node)
       <==> AllGood(parse, zones[..n], allowed, node) && ZoneGood(parse, zones[n], allowed, node)
  {
    assert zones[..n + 1] == zones[..n] + [zones[n]];
  }

  ghost predicate Meet(parse: Parser, net: Networks, i: nat, j: nat)
    requires i < |net.zones| && j < |net.zones|
  {
    && Comparable(parse, net.zones[i]) && Comparable(parse, net.zones[j])
    && ShareAddress(BlockOf(parse, net.zones[i]), BlockOf(parse, net.zones[j]))
  }

  ghost predicate Admissible(parse: Parser, net: Networks, allowed: set<string>, node: Block) {
    && ParentGiven(net) && net.zones != []
    && AllGood(parse, net.zones, allowed, node)
    && (forall i, j :: 0 <= i < j < |net.zones| ==> !Meet(parse, net, j, i))
  }

  // ---- the loop ----

  method NameErrors(zone: Zone, allowed: set<string>, index: nat) returns (errs: seq<Error>)
    ensures errs == [] <==> NameAllowed(zone, allowed)
    ensures forall e :: e in errs ==> !e.Overlaps?
  {
    if zone.name == "" { return [NameMissing(index)]; }
    if zone.name !in allowed { return [NameNotAllowed(index)]; }
    return [];
  }

  method MeetsAny(block: Block, kept: seq<Block>) returns (overlapping: bool)
    ensures overlapping <==> exists k :: 0 <= k < |kept| && ShareAddress(block, kept[k])
  {
    overlapping := false;
    for k := 0 to |kept|
      invariant forall x :: 0 <= x < k ==> !ShareAddress(block, kept[x])
    {
      OverlapExactly(block, kept[k]);
      if Overlap(block, kept[k]) { return true; }
    }
  }

  /** The zones reported as overlapping. */
  ghost function Flagged(errs: seq<Error>): set<nat> {
    set e | e in errs && e.Overlaps? :: e.i
  }

  lemma FlaggedAppend(a: seq<Error>, b: seq<Error>)
    ensures Flagged(a + b) == Flagged(a) + Flagged(b)
  {
    forall i | i in Flagged(a) + Flagged(b) ensures i in Flagged(a + b) {
      assert Overlaps(i) in a + b;
    }
  }

  /** One turn of the loop: the zone's errors, and its block if later zones are compared with it. */
  method CheckZone(parse: Parser, zone: Zone, index: nat, allowed: set<string>, node: Block, kept: seq<Block>)
    returns (errs: seq<Error>, keep: Option<Block>)
    ensures Flagged(errs) ==
      if Comparable(parse, zone) && exists k :: 0 <= k < |kept| && ShareAddress(BlockOf(parse, zone), kept[k]) then {index} else {}
    ensures errs == [] <==> ZoneGood(parse, zone, allowed, node) && Flagged(errs) == {}
    ensures keep == if Comparable(parse, zone) && Flagged(errs) == {} then Some(BlockOf(parse, zone)) else None
  {
    errs := NameErrors(zone, allowed, index);
    if zone.cidr == "" {
      return errs + [CidrMissing(index)], None;
    }
    if parse(zone.cidr).None? {
      return errs + [CidrUnparsable(index)], None;
    }
    var block := parse(zone.cidr).value;
    if !Canonical(block) { errs := errs + [NotCanonical(index)]; }
    var overlapping := MeetsAny(block, kept);
    if overlapping { errs := errs + [Overlaps(index)]; }
    CoversExactly(node, block);
    if !Covers(node, block) { errs := errs + [OutsideNode(index)]; }
    assert overlapping ==> Overlaps(index) in errs;
    keep := if overlapping then None else Some(block);
  }

  method CheckZones(parse: Parser, net: Networks, allowed: set<string>, node: Block) returns (errs: seq<Error>)
    ensures Greedy(parse, net, Flagged(errs), |net.zones|)
    ensures errs == [] <==> Flagged(errs) == {} && AllGood(parse, net.zones, allowed, node)
  {
    errs := [];
    var kept: seq<Block> := [];
    ghost var at: seq<nat> := [];
    for index := 0 to |net.zones|
      invariant Loop(parse, net, kept, at, Flagged(errs), index)
      invariant errs == [] <==> Flagged(errs) == {} && AllGood(parse, net.zones[..index], allowed, node)
    {
      var zoneErrs, keep := CheckZone(parse, net.zones[index], index, allowed, node, kept);
      at := Turn(parse, net, kept, at, Flagged(errs), index, Flagged(zoneErrs), keep);
      AllGoodNext(parse, net.zones, allowed, node, index);
      FlaggedAppend(errs, zoneErrs);
      errs := errs + zoneErrs;
      if keep.Some? { kept := kept + [keep.value]; }
    }
    assert net.zones[..|net.zones|] == net.zones;
  }

  /** No error exactly for admissible networks. Although an overlapping zone is dropped from the
    * list that later zones are compared with, a zone is reported as overlapping exactly when it
    * shares an address with an earlier zone that was not itself reported. */
  method Validate(parse: Parser, net: Networks, allowed: set<string>, node: Block) returns (errs: seq<Error>)
    ensures errs == [] <==> Admissible(parse, net, allowed, node)
    ensures Greedy(parse, net, Flagged(errs), |net.zones|)
  {
    errs := [];
    if net.parentSubnet == "" && (net.parentReference.None? || net.parentReference.value.name == "") {
      errs := [ParentMissing];
    }
    if net.zones == [] {
      return errs + [ZonesMissing];
    }
    var zoneErrs := CheckZones(parse, net, allowed, node);
    FlaggedAppend(errs, zoneErrs);
    errs := errs + zoneErrs;
    GreedyDecides(parse, net, Flagged(zoneErrs));
  }

  /** `kept` holds the blocks of the comparable zones below `n` outside `bad`; `at` says whose. */
  ghost predicate Aligned(parse: Parser, net: Networks, kept: seq<Block>, at: seq<nat>, bad: set<nat>, n: nat)
    requires n <= |net.zones|
  {
    && |kept| == |at|
    && (forall k :: 0 <= k < |at| ==>
          at[k] < n && at[k] !in bad && Comparable(parse, net.zones[at[k]]) && kept[k] == BlockOf(parse, net.zones[at[k]]))
    && (forall i: nat :: i < n && i !in bad && Comparable(parse, net.zones[i]) ==> i in at)
  }

  /** A zone below `n` is in `bad` exactly when it meets an earlier zone that is not. */
  ghost predicate Greedy(parse: Parser, net: Networks, bad: set<nat>, n: nat)
    requires n <= |net.zones|
  {
    && (forall i :: i in bad ==> i < n)
    && forall i: nat :: i < n ==> (i in bad <==> exists j: nat :: j < i && j !in bad && Meet(parse, net, i, j))
  }

  ghost predicate Loop(parse: Parser, net: Networks, kept: seq<Block>, at: seq<nat>, bad: set<nat>, n: nat)
    requires n <= |net.zones|
  {
    Aligned(parse, net, kept, at, bad, n) && Greedy(parse, net, bad, n)
  }

  lemma Turn(parse: Parser, net: Networks, kept: seq<Block>, at: seq<nat>, bad: set<nat>, n: nat, flagged: set<nat>, keep: Option<Block>)
    returns (at': seq<nat>)
    requires n < |net.zones| && Loop(parse, net, kept, at, bad, n)
    requires flagged ==
      if Comparable(parse, net.zones[n]) && exists k :: 0 <= k < |kept| && ShareAddress(BlockOf(parse, net.zones[n]), kept[k]) then {n} else {}
    requires keep == if Comparable(parse, net.zones[n]) && flagged == {} then Some(BlockOf(parse, net.zones[n])) else None
    ensures Loop(parse, net, if keep.Some? then kept + [keep.value] else kept, at', bad + flagged, n + 1)
  {
    if Comparable(parse, net.zones[n]) { KeptDecides(parse, net, kept, at, bad, n); }
    GreedyNext(parse, net, bad, n, flagged != {});
    AlignedNext(parse, net, kept, at, bad, n, flagged != {});
    at' := if keep.Some? then at + [n] else at;
  }

  lemma GreedyNext(parse: Parser, net: Networks, bad: set<nat>, n: nat, flagged: bool)
    requires n < |net.zones| && Greedy(parse, net, bad, n)
    requires flagged <==> exists j: nat :: j < n && j !in bad && Meet(parse, net, n, j)
    ensures Greedy(parse, net, if flagged then bad + {n} else bad, n + 1)
  {
  }

  lemma AlignedNext(parse: Parser, net: Networks, kept: seq<Block>, at: seq<nat>, bad: set<nat>, n: nat, flagged: bool)
    requires n < |net.zones| && Aligned(parse, net, kept, at, bad, n)
    requires forall i :: i in bad ==> i < n
    ensures
      if flagged || !Comparable(parse, net.zones[n]) then Aligned(parse, net, kept, at, if flagged then bad + {n} else bad, n + 1)
      else Aligned(parse, net, kept + [BlockOf(parse, net.zones[n])], at + [n], bad, n + 1)
  {
    if !flagged && Comparable(parse, net.zones[n]) {
      forall i: nat | i < n + 1 && i !in bad && Comparable(parse, net.zones[i]) ensures i in at + [n] {
        if i == n { assert (at + [n])[|at|] == n; }
      }
    }
  }

  /** No zone is bad exactly when no two zones meet. */
  lemma GreedyDecides(parse: Parser, net: Networks, bad: set<nat>)
    requires Greedy(parse, net, bad, |net.zones|)
    ensures bad == {} <==> forall i, j :: 0 <= i < j < |net.zones| ==> !Meet(parse, net, j, i)
  {
    if bad == {} {
      forall i, j | 0 <= i < j < |net.zones| ensures !Meet(parse, net, j, i) {
        assert j !in bad && i !in bad;
      }
    } else {
      var i :| i in bad;
      assert exists j: nat :: j < i && j !in bad && Meet(parse, net, i, j);
    }
  }

  lemma KeptDecides(parse: Parser, net: Networks, kept: seq<Block>, at: seq<nat>, bad: set<nat>, n: nat)
    requires n < |net.zones| && Aligned(parse, net, kept, at, bad, n) && Comparable(parse, net.zones[n])
    ensures (exists k :: 0 <= k < |kept| && ShareAddress(BlockOf(parse, net.zones[n]), kept[k]))
       <==> (exists j: nat :: j < n && j !in bad && Meet(parse, net, n, j))
  {
    if k :| 0 <= k < |kept| && ShareAddress(BlockOf(parse, net.zones[n]), kept[k]) {
      assert Meet(parse, net, n, at[k]);
    }
    if j: nat :| j < n && j !in bad && Meet(parse, net, n, j) {
      var k :| 0 <= k < |at| && at[k] == j;
      assert ShareAddress(BlockOf(parse, net.zones[n]), kept[k]);
    }
  }

  // ---- consequences ----

  ghost function Blocks(parse: Parser, zones: seq<Zone>): (r: seq<Block>)
    requires forall i :: 0 <= i < |zones| ==> Comparable(parse, zones[i])
    ensures |r| == |zones| && forall i :: 0 <= i < |r| ==> r[i] == BlockOf(parse, zones[i])
  {
    if zones == [] then [] else [BlockOf(parse, zones[0])] + Blocks(parse, zones[1..])
  }

  /** The zones of an admissible network hold at most as many addresses as the node CIDR. */
  lemma ZonesFitNode(parse: Parser, net: Networks, allowed: set<string>, node: Block)
    requires Admissible(parse, net, allowed, node)
    ensures forall i :: 0 <= i < |net.zones| ==> Comparable(parse, net.zones[i])
    ensures TotalSize(Blocks(parse, net.zones)) <= Size(node)
  {
    assert forall i :: 0 <= i < |net.zones| ==> ZoneGood(parse, net.zones[i], allowed, node);
    var blocks := Blocks(parse, net.zones);
    forall i, j | 0 <= i < j < |blocks| ensures !ShareAddress(blocks[i], blocks[j]) {
      assert !Meet(parse, net, j, i);
      if f, a :| In(blocks[i], f, a) && In(blocks[j], f, a) { assert ShareAddress(blocks[j], blocks[i]); }
    }
    DisjointBlocksFit(blocks, node);
  }

  /** The check compares CIDRs, not names: an admissible network may name one zone twice, and then
    * its zones ask for different CIDRs, so no reconcile of it can converge. */
  lemma DuplicateNamesConflict(parse: Parser, net: Networks, allowed: set<string>, node: Block, i: nat, j: nat)
    requires Admissible(parse, net, allowed, node) && i < j < |net.zones| && net.zones[i].name == net.zones[j].name
    ensures !ConsistentZones(net.zones)
  {
    assert ZoneGood(parse, net.zones[i], allowed, node) && ZoneGood(parse, net.zones[j], allowed, node);
    assert !Meet(parse, net, j, i);
    BaseAndLastIn(BlockOf(parse, net.zones[i]));
    assert ShareAddress(BlockOf(parse, net.zones[i]), BlockOf(parse, net.zones[i]));
  }

  /** Such networks exist, in either family: one zone name, two addresses. */
  lemma DuplicateNamesAdmitted(f: Family) returns (parse: Parser, net: Networks, allowed: set<string>, node: Block)
    ensures Admissible(parse, net, allowed, node)
    ensures |net.zones| == 2 && net.zones[0].name == net.zones[1].name && !ConsistentZones(net.zones)
  {
    var low, high, pair := TwoHalves(f);
    node := pair;
    parse := (text: string) => Some(if text == "low" then low else high);
    net := Networks("pair", "n", "", None, [Zone("a", "low"), Zone("a", "high")]);
    allowed := {"a"};
    assert "low"[0] != "high"[0];
    assert BlockOf(parse, net.zones[0]) == low && BlockOf(parse, net.zones[1]) == high;
    assert !Meet(parse, net, 1, 0);
    DuplicateNamesConflict(parse, net, allowed, node, 0, 1);
  }

  // ---- the whole configuration ----

  ghost predicate NodeGood(parse: Parser, nodeCIDR: string, cluster: Option<string>) {
    && nodeCIDR != "" && parse(nodeCIDR).Some? && Canonical(parse(nodeCIDR).value)
    && (cluster.Some? && parse(cluster.value).Some? ==> Within(parse(nodeCIDR).value, parse(cluster.value).value))
  }

  /** An unparsable cluster node range is not this check's concern and constrains nothing. */
  method ValidateInfrastructureConfig(parse: Parser, net: Networks, allowed: set<string>, cluster: Option<string>)
    returns (errs: seq<Error>)
    ensures errs == [] <==>
      NodeGood(parse, net.nodeCIDR, cluster) && Admissible(parse, net, allowed, parse(net.nodeCIDR).value)
  {
    if net.nodeCIDR == "" { return [NodeCIDRMissing]; }
    if parse(net.nodeCIDR).None? { return [NodeCIDRUnparsable]; }
    var node := parse(net.nodeCIDR).value;
    errs := [];
    if !Canonical(node) { errs := errs + [NodeCIDRNotCanonical]; }
    if cluster.Some? && parse(cluster.value).Some? {
      CoversExactly(parse(cluster.value).value, node);
      if !Covers(parse(cluster.value).value, node) { errs := errs + [NodeCIDROutsideCluster]; }
    }
    var zoneErrs := Validate(parse, net, allowed, node);
    errs := errs + zoneErrs;
  }
}
