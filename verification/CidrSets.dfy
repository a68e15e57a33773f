/** Several blocks together: how many addresses disjoint blocks hold. */
module CidrSets {
  import opened Prelude
  import opened Cidr

  // ---- a smallest example ----

  lemma SingleAddress(c: Block)
    requires c.len == Bits(c.family)
    ensures Size(c) == 1 && Base(c) == c.ip
  {
    assert Size(c) == Pow2(0);
  }

  lemma PairSize(c: Block)
    requires c.len == Bits(c.family) - 1 && c.ip == 0
    ensures Size(c) == 2 && Base(c) == 0
  {
    assert Size(c) == Pow2(1);
  }

  predicate Halves(low: Block, high: Block, pair: Block) {
    && low.family == high.family == pair.family && low.ip == pair.ip == 0 && high.ip == 1
    && low.len == high.len == pair.len + 1 == Bits(pair.family)
  }

  lemma HalvesMeasure(low: Block, high: Block, pair: Block)
    requires Halves(low, high, pair)
    ensures low.family == high.family == pair.family && Canonical(low) && Canonical(high)
    ensures Base(low) == Base(pair) == 0 && Base(high) == 1 && Size(low) == Size(high) == 1 && Size(pair) == 2
  {
    SingleAddress(low);
    SingleAddress(high);
    PairSize(pair);
  }

  lemma HalvesSplit(low: Block, high: Block, pair: Block)
    requires low.family == high.family == pair.family
    requires Base(low) == Base(pair) == 0 && Base(high) == 1 && Size(low) == Size(high) == 1 && Size(pair) == 2
    ensures Within(low, pair) && Within(high, pair) && !ShareAddress(low, high) && !ShareAddress(high, low)
  {
  }

  lemma SmallestPair(f: Family) returns (low: Block, high: Block, pair: Block)
    ensures Halves(low, high, pair)
  {
    var n := Bits(f);
    assert Pow2(n) == 2 * Pow2(n - 1);
    low, high, pair := Parsed(f, 0, n), Parsed(f, 1, n), Parsed(f, 0, n - 1);
  }

  /** A block of two addresses and its halves. */
  lemma TwoHalves(f: Family) returns (low: Block, high: Block, pair: Block)
    ensures Canonical(low) && Canonical(high) && Within(low, pair) && Within(high, pair)
    ensures !ShareAddress(low, high) && !ShareAddress(high, low)
  {
    low, high, pair := SmallestPair(f);
    HalvesMeasure(low, high, pair);
    HalvesSplit(low, high, pair);
  }

  // ---- counting addresses ----

  ghost function Interval(lo: nat, n: nat): (r: set<nat>)
    ensures |r| == n && forall a :: a in r <==> lo <= a < lo + n
  {
    if n == 0 then {} else Interval(lo, n - 1) + {lo + n - 1}
  }

  ghost function Addresses(c: Block): (r: set<nat>)
    ensures |r| == Size(c)
  {
    Interval(Base(c), Size(c))
  }

  ghost function TotalSize(cs: seq<Block>): nat {
    if cs == [] then 0 else TotalSize(cs[..|cs| - 1]) + Size(cs[|cs| - 1])
  }

  ghost predicate PairwiseDisjoint(cs: seq<Block>) {
    forall i, j :: 0 <= i < j < |cs| ==> !ShareAddress(cs[i], cs[j])
  }

  ghost function AllAddresses(cs: seq<Block>): set<nat> {
    if cs == [] then {} else AllAddresses(cs[..|cs| - 1]) + Addresses(cs[|cs| - 1])
  }

  lemma {:induction false} DisjointFromAll(cs: seq<Block>, b: Block)
    requires forall i :: 0 <= i < |cs| ==> cs[i].family == b.family && !ShareAddress(cs[i], b)
    ensures AllAddresses(cs) !! Addresses(b)
  {
    if cs != [] {
      var n := |cs| - 1;
      DisjointFromAll(cs[..n], b);
      forall a | a in Addresses(cs[n]) ensures a !in Addresses(b) {
        assert !ShareAddress(cs[n], b) && In(cs[n], b.family, a);
      }
    }
  }

  lemma {:induction false} DisjointTotal(cs: seq<Block>, f: Family)
    requires PairwiseDisjoint(cs) && forall i :: 0 <= i < |cs| ==> cs[i].family == f
    ensures |AllAddresses(cs)| == TotalSize(cs)
  {
    if cs != [] {
      var n := |cs| - 1;
      var last := cs[n];
      DisjointTotal(cs[..n], f);
      DisjointFromAll(cs[..n], last);
      assert |Addresses(last)| == Size(last);
    }
  }

  lemma {:induction false} AllInside(cs: seq<Block>, outer: Block)
    requires forall i :: 0 <= i < |cs| ==> cs[i].family == outer.family && Within(cs[i], outer)
    ensures AllAddresses(cs) <= Addresses(outer)
  {
    if cs != [] {
      var n := |cs| - 1;
      AllInside(cs[..n], outer);
      forall a | a in Addresses(cs[n]) ensures a in Addresses(outer) {
        assert In(cs[n], outer.family, a);
      }
    }
  }

  /** Disjoint blocks inside one block have at most its size in total. */
  lemma DisjointBlocksFit(cs: seq<Block>, outer: Block)
    requires PairwiseDisjoint(cs) && forall i :: 0 <= i < |cs| ==> Within(cs[i], outer)
    ensures TotalSize(cs) <= Size(outer)
  {
    forall i | 0 <= i < |cs| ensures cs[i].family == outer.family { BaseAndLastIn(cs[i]); }
    DisjointTotal(cs, outer.family);
    AllInside(cs, outer);
    SubsetCount(AllAddresses(cs), Addresses(outer));
  }
}
