/** Address blocks in prefix notation (section 3.1 of RFC 4632; likewise for 128-bit addresses).
  * A `Cidr` is a parsed text: the address as written, which may have bits below the prefix, and
  * the prefix length. Parsing itself is a parameter of whoever needs it. */
module Cidr {
  import opened Prelude

  datatype Family = V4 | V6

  function Bits(f: Family): nat { if f.V4? then 32 else 128 }

  function Pow2(n: nat): (r: nat)
    ensures r > 0
  {
    if n == 0 then 1 else 2 * Pow2(n - 1)
  }

  datatype Parsed = Parsed(family: Family, ip: nat, len: nat)

  type Block = c: Parsed | c.len <= Bits(c.family) && c.ip < Pow2(Bits(c.family)) witness Parsed(V4, 0, 0)

  type Parser = string -> Option<Block>

  function Size(c: Block): (r: nat)
    ensures r > 0
  {
    Pow2(Bits(c.family) - c.len)
  }

  /** The address under a mask that keeps the multiples of `m`: the largest one not above it. */
  function Masked(addr: nat, m: nat): (r: nat)
    requires m > 0
    ensures r <= addr < r + m
  {
    if addr < m then 0 else m + Masked(addr - m, m)
  }

  /** The address after masking, as the parser's network value carries it. */
  function Base(c: Block): nat { Masked(c.ip, Size(c)) }

  function Last(c: Block): nat { Base(c) + Size(c) - 1 }

  /** The library's containment test: equal under the mask, and never across families. */
  predicate Contains(c: Block, f: Family, addr: nat) {
    c.family == f && Masked(addr, Size(c)) == Base(c)
  }

  /** The addresses of the block. */
  predicate In(c: Block, f: Family, addr: nat) {
    c.family == f && Base(c) <= addr < Base(c) + Size(c)
  }

  predicate Canonical(c: Block) { c.ip == Base(c) }

  /** `cidrOverlap`, and the overlap test of the validation library. */
  predicate Overlap(a: Block, b: Block) {
    Contains(a, b.family, Base(b)) || Contains(b, a.family, Base(a))
  }

  /** The subset test of the validation library: both ends of the inner block. */
  predicate Covers(outer: Block, inner: Block) {
    Contains(outer, inner.family, Base(inner)) && Contains(outer, inner.family, Last(inner))
  }

  ghost predicate ShareAddress(a: Block, b: Block) {
    exists f, addr :: In(a, f, addr) && In(b, f, addr)
  }

  ghost predicate Within(inner: Block, outer: Block) {
    forall f, addr :: In(inner, f, addr) ==> In(outer, f, addr)
  }

  predicate Multiple(x: nat, m: nat)
    requires m > 0
  {
    x == 0 || (x >= m && Multiple(x - m, m))
  }

  /** Different multiples of `m` are at least `m` apart. */
  lemma {:induction false} MultiplesGap(x: nat, y: nat, m: nat)
    requires m > 0 && Multiple(x, m) && Multiple(y, m) && x < y
    ensures x + m <= y
  {
    if x > 0 { MultiplesGap(x - m, y - m, m); }
  }

  lemma {:induction false} MultipleOfSum(x: nat, y: nat, m: nat)
    requires m > 0 && Multiple(x, m) && Multiple(y, m)
    ensures Multiple(x + y, m)
  {
    if x > 0 { MultipleOfSum(x - m, y, m); }
  }

  lemma {:induction false} MultipleOfMultiple(x: nat, n: nat, m: nat)
    requires m > 0 && n > 0 && Multiple(x, n) && Multiple(n, m)
    ensures Multiple(x, m)
  {
    if x > 0 {
      MultipleOfMultiple(x - n, n, m);
      MultipleOfSum(x - n, n, m);
    }
  }

  lemma {:induction false} PowersNest(a: nat, b: nat)
    requires a <= b
    ensures Multiple(Pow2(b), Pow2(a))
  {
    if a < b {
      PowersNest(a, b - 1);
      MultipleOfSum(Pow2(b - 1), Pow2(b - 1), Pow2(a));
    }
  }

  lemma {:induction false} MaskedIsMultiple(addr: nat, m: nat)
    requires m > 0
    ensures Multiple(Masked(addr, m), m)
  {
    if addr >= m { MaskedIsMultiple(addr - m, m); }
  }

  lemma ContainsIsIn(c: Block, f: Family, addr: nat)
    ensures Contains(c, f, addr) <==> In(c, f, addr)
  {
    var m := Size(c);
    var x, y := Masked(addr, m), Base(c);
    MaskedIsMultiple(addr, m);
    MaskedIsMultiple(c.ip, m);
    if x < y { MultiplesGap(x, y, m); }
    if y < x { MultiplesGap(y, x, m); }
  }

  /** Aligned blocks are nested or disjoint: a smaller block that meets a larger one lies in it. */
  lemma Nested(a: Block, b: Block, addr: nat)
    requires a.family == b.family && a.len >= b.len && In(a, a.family, addr) && In(b, a.family, addr)
    ensures In(b, a.family, Base(a)) && In(b, a.family, Last(a))
  {
    var m, n := Size(a), Size(b);
    PowersNest(Bits(a.family) - a.len, Bits(a.family) - b.len);
    MaskedIsMultiple(a.ip, m);
    MaskedIsMultiple(b.ip, n);
    MultipleOfMultiple(Base(b), n, m);
    MultipleOfSum(Base(b), n, m);
    if Base(a) < Base(b) { MultiplesGap(Base(a), Base(b), m); }
    MultiplesGap(Base(a), Base(b) + n, m);
  }

  /** How many addresses a block has: one at full length, twice as many with every bit less. */
  lemma SizesDouble(c: Block)
    ensures c.len == (if c.family.V4? then 32 else 128) ==> Size(c) == 1
    ensures c.len < (if c.family.V4? then 32 else 128) ==> Size(c) == 2 * Size(c.(len := c.len + 1))
  {
  }

  /** A text is canonical when its address has no bits below the prefix. */
  lemma CanonicalExactly(c: Block)
    ensures Canonical(c) <==> Multiple(c.ip, Size(c))
  {
    MaskedIsMultiple(c.ip, Size(c));
    if Multiple(c.ip, Size(c)) && Base(c) < c.ip { MultiplesGap(Base(c), c.ip, Size(c)); }
  }

  lemma BaseAndLastIn(c: Block)
    ensures In(c, c.family, Base(c)) && In(c, c.family, Last(c))
  {
  }

  /** Main result: the two-sided base test decides whether two blocks share an address. */
  lemma OverlapExactly(a: Block, b: Block)
    ensures Overlap(a, b) <==> ShareAddress(a, b)
  {
    BaseAndLastIn(a);
    BaseAndLastIn(b);
    if Overlap(a, b) {
      ContainsIsIn(a, b.family, Base(b));
      ContainsIsIn(b, a.family, Base(a));
    }
    if ShareAddress(a, b) {
      var f, addr :| In(a, f, addr) && In(b, f, addr);
      if a.len >= b.len {
        Nested(a, b, addr);
        ContainsIsIn(b, a.family, Base(a));
      } else {
        Nested(b, a, addr);
        ContainsIsIn(a, b.family, Base(b));
      }
    }
  }

  /** Main result: testing both ends decides inclusion. */
  lemma CoversExactly(outer: Block, inner: Block)
    ensures Covers(outer, inner) <==> Within(inner, outer)
  {
    ContainsIsIn(outer, inner.family, Base(inner));
    ContainsIsIn(outer, inner.family, Last(inner));
    BaseAndLastIn(inner);
  }
}
