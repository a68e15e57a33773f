/** Normalisation of the comma-separated allow-projects annotation of a load-balancer service. */
module AllowProjects {
  import opened Prelude

  /** Characters `strings.TrimSpace` strips: Unicode white space. */
  predicate IsSpace(c: char) {
    c == ' ' || '\t' <= c <= '\r' || c == '\U{85}' || c == '\U{A0}' || c == '\U{1680}' || '\U{2000}' <= c <= '\U{200A}'
    || c == '\U{2028}' || c == '\U{2029}' || c == '\U{202F}' || c == '\U{205F}' || c == '\U{3000}'
  }

  function TrimLeft(s: string): string {
    if s != [] && IsSpace(s[0]) then TrimLeft(s[1..]) else s
  }

  function TrimRight(s: string): string {
    if s != [] && IsSpace(s[|s| - 1]) then TrimRight(s[..|s| - 1]) else s
  }

  function TrimSpace(s: string): string { TrimRight(TrimLeft(s)) }

  function Split(s: string): (r: seq<string>)
    ensures r != []
  {
    if s == [] then [[]]
    else if s[0] == ',' then [[]] + Split(s[1..])
    else var r := Split(s[1..]); [[s[0]] + r[0]] + r[1..]
  }

  function Join(xs: seq<string>): string {
    if xs == [] then [] else if |xs| == 1 then xs[0] else xs[0] + "," + Join(xs[1..])
  }

  predicate IsLower(c: char) { 'a' <= c <= 'z' }

  predicate IsLowerOrDigit(c: char) { IsLower(c) || '0' <= c <= '9' }

  /** A label of section 2.3.1 of RFC 1035, in lower case, of at most 63 characters. */
  predicate IsLabel(s: string) {
    && 1 <= |s| <= 63 && IsLower(s[0]) && IsLowerOrDigit(s[|s| - 1])
    && forall i :: 0 <= i < |s| ==> IsLowerOrDigit(s[i]) || s[i] == '-'
  }

  // ---- what these are, character by character ----

  predicate SpaceCode(c: int) {
    || 9 <= c <= 13 || c == 32 || c == 133 || c == 160 || c == 5760 || 8192 <= c <= 8202
    || c == 8232 || c == 8233 || c == 8239 || c == 8287 || c == 12288
  }

  predicate AllSpace(s: string) { forall i :: 0 <= i < |s| ==> SpaceCode(s[i] as int) }

  lemma SpaceCodes(c: char)
    ensures IsSpace(c) <==> SpaceCode(c as int)
  {
  }

  lemma {:induction false} TrimLeftIs(s: string) returns (a: string)
    ensures AllSpace(a) && s == a + TrimLeft(s) && (TrimLeft(s) != "" ==> !SpaceCode(TrimLeft(s)[0] as int))
  {
    a := "";
    if s != [] {
      SpaceCodes(s[0]);
      if IsSpace(s[0]) {
        var b := TrimLeftIs(s[1..]);
        a := [s[0]] + b;
      }
    }
  }

  lemma {:induction false} TrimRightIs(s: string) returns (b: string)
    ensures AllSpace(b) && s == TrimRight(s) + b
    ensures TrimRight(s) != "" ==> !SpaceCode(TrimRight(s)[|TrimRight(s)| - 1] as int)
  {
    b := "";
    if s != [] {
      SpaceCodes(s[|s| - 1]);
      if IsSpace(s[|s| - 1]) {
        var a := TrimRightIs(s[..|s| - 1]);
        b := a + [s[|s| - 1]];
      }
    }
  }

  /** Trimming takes exactly the white space around the text. */
  lemma TrimExactly(s: string) returns (a: string, b: string)
    ensures AllSpace(a) && AllSpace(b) && s == a + TrimSpace(s) + b
    ensures var t := TrimSpace(s); t != "" ==> !SpaceCode(t[0] as int) && !SpaceCode(t[|t| - 1] as int)
  {
    a := TrimLeftIs(s);
    b := TrimRightIs(TrimLeft(s));
    assert a + (TrimSpace(s) + b) == a + TrimSpace(s) + b;
  }

  /** A label: lower-case letters, digits and hyphens, starting with a letter and not ending in a
    * hyphen, of at most 63 characters. */
  lemma LabelExactly(s: string)
    ensures IsLabel(s) <==>
      && s != "" && |s| < 64 && 97 <= s[0] as int <= 122 && s[|s| - 1] != '-'
      && forall i :: 0 <= i < |s| ==> 97 <= s[i] as int <= 122 || 48 <= s[i] as int <= 57 || s[i] as int == 45
  {
  }

  // ---- what the loop computes ----

  /** The trimmed entries of the annotation. */
  function Names(val: string): seq<string> { MapSeq(TrimSpace, Split(val)) }

  predicate GoodName(n: string) { n == "*" || IsLabel(n) }

  predicate GoodNames(names: seq<string>) { forall i :: 0 <= i < |names| ==> GoodName(names[i]) }

  predicate Acceptable(val: string) { val != "" && GoodNames(Names(val)) }

  /** First occurrences in order, the wildcard left out. */
  function Firsts(names: seq<string>): seq<string> {
    if names == [] then [] else
      var n := |names| - 1;
      var before := Firsts(names[..n]);
      if names[n] == "*" || names[n] in before then before else before + [names[n]]
  }

  function Normal(val: string): string {
    if "*" in Names(val) then "*" else Join(Firsts(Names(val)))
  }

  lemma OneMoreName(names: seq<string>, i: nat)
    requires i < |names|
    ensures names[..i + 1] == names[..i] + [names[i]] && names[..i + 1][..i] == names[..i]
    ensures GoodNames(names[..i + 1]) <==> GoodNames(names[..i]) && GoodName(names[i])
    ensures Firsts(names[..i + 1]) ==
      Firsts(names[..i]) + if names[i] == "*" || names[i] in Firsts(names[..i]) then [] else [names[i]]
  {
    assert names[..i + 1] == names[..i] + [names[i]] && names[..i + 1][..i] == names[..i];
  }

  /** The loop over the split entries; no result when an entry is empty or not a label. */
  method Clean(projects: seq<string>) returns (ok: bool, cleaned: seq<string>, wildcard: bool)
    ensures var names := MapSeq(TrimSpace, projects);
      && (ok <==> GoodNames(names))
      && (ok ==> cleaned == Firsts(names) && (wildcard <==> "*" in names))
  {
    ghost var names := MapSeq(TrimSpace, projects);
    var seen: set<string> := {};
    cleaned, wildcard := [], false;
    for i := 0 to |projects|
      invariant cleaned == Firsts(names[..i]) && forall x :: x in seen <==> x in cleaned
      invariant wildcard <==> "*" in names[..i]
      invariant GoodNames(names[..i])
    {
      var trimmed := TrimSpace(projects[i]);
      OneMoreName(names, i);
      if trimmed == "" {
        assert !GoodName(names[i]);
        return false, [], false;
      }
      if trimmed == "*" {
        wildcard := true;
        continue;
      }
      if trimmed in seen {
        FirstsAreLabels(names[..i], trimmed);
      } else {
        seen := seen + {trimmed};
        cleaned := cleaned + [trimmed];
        if !IsLabel(trimmed) {
          assert !GoodName(names[i]);
          return false, [], false;
        }
      }
    }
    assert names[..|projects|] == names;
    ok := true;
  }

  method Normalize(val: string) returns (r: Result<string>)
    ensures r == if Acceptable(val) then Ok(Normal(val)) else Err
  {
    if val == "" { return Err; }
    var ok, cleaned, wildcard := Clean(Split(val));
    r := if !ok then Err else Ok(if wildcard then "*" else Join(cleaned));
  }

  // ---- properties of the normal form ----

  lemma FirstsAreLabels(names: seq<string>, x: string)
    requires GoodNames(names) && x in Firsts(names)
    ensures IsLabel(x)
  {
    FirstsOccur(names, x);
    var i :| 0 <= i < |names| && names[i] == x;
    assert GoodName(names[i]);
  }

  lemma {:induction false} FirstsOccur(names: seq<string>, x: string)
    ensures x in Firsts(names) <==> x in names && x != "*"
  {
    if names != [] {
      var n := |names| - 1;
      FirstsOccur(names[..n], x);
      assert names == names[..n] + [names[n]];
    }
  }

  function FirstIndex(names: seq<string>, x: string): (i: nat)
    requires x in names
    ensures i < |names| && names[i] == x && x !in names[..i]
  {
    if names[0] == x then 0
    else
      var i := FirstIndex(names[1..], x);
      assert names[..1 + i] == [names[0]] + names[1..][..i];
      1 + i
  }

  lemma FirstIndexOfPrefix(names: seq<string>, n: nat, x: string)
    requires n <= |names| && x in names[..n]
    ensures x in names && FirstIndex(names, x) == FirstIndex(names[..n], x)
  {
    var i, j := FirstIndex(names, x), FirstIndex(names[..n], x);
    assert names[..n][..j] == names[..j];
    forall k | 0 <= k < i ensures names[k] != x { assert names[..i][k] == names[k]; }
    forall k | 0 <= k < j ensures names[k] != x { assert names[..j][k] == names[k]; }
  }

  /** No duplicates, and in the order of first occurrence. */
  lemma {:induction false} FirstsInOrder(names: seq<string>, i: nat, j: nat)
    requires i < j < |Firsts(names)|
    ensures var d := Firsts(names); d[i] != d[j] && d[i] in names && d[j] in names && FirstIndex(names, d[i]) < FirstIndex(names, d[j])
  {
    var n := |names| - 1;
    var before, d := Firsts(names[..n]), Firsts(names);
    FirstsOccur(names, d[i]);
    FirstsOccur(names, d[j]);
    FirstsOccur(names[..n], d[i]);
    FirstIndexOfPrefix(names, n, d[i]);
    if j < |before| {
      FirstsInOrder(names[..n], i, j);
      FirstIndexOfPrefix(names, n, d[j]);
    } else {
      FirstsOccur(names[..n], d[j]);
      var k := FirstIndex(names, d[j]);
      if k < n { assert names[..n][k] == d[j]; }
    }
  }

  lemma {:induction false} SplitPrefix(x: string, rest: string)
    requires ',' !in x
    ensures Split(x + rest) == [x + Split(rest)[0]] + Split(rest)[1..]
  {
    if x == [] {
      assert x + rest == rest && x + Split(rest)[0] == Split(rest)[0];
    } else {
      assert (x + rest)[1..] == x[1..] + rest;
      SplitPrefix(x[1..], rest);
      assert [x[0]] + (x[1..] + Split(rest)[0]) == x + Split(rest)[0];
    }
  }

  /** The parts of a text have no separator, and joined they are the text. */
  lemma {:induction false} JoinOfSplit(s: string)
    ensures Join(Split(s)) == s && forall i :: 0 <= i < |Split(s)| ==> ',' !in Split(s)[i]
  {
    if s != [] {
      var r := Split(s[1..]);
      JoinOfSplit(s[1..]);
      if s[0] == ',' {
        assert Join([[]] + r) == [] + "," + Join(r) by { assert ([[]] + r)[1..] == r; }
        assert s == "," + s[1..];
      } else {
        JoinFirst(s[0], r);
        assert s == [s[0]] + s[1..];
      }
    }
  }

  lemma JoinFirst(c: char, r: seq<string>)
    requires r != []
    ensures Join([[c] + r[0]] + r[1..]) == [c] + Join(r)
  {
    var x := [[c] + r[0]] + r[1..];
    if |r| > 1 {
      assert x[1..] == r[1..];
      assert [c] + r[0] + "," + Join(r[1..]) == [c] + (r[0] + "," + Join(r[1..]));
    } else {
      assert x == [[c] + r[0]];
    }
  }

  /** Splitting a join gives the parts back when no part contains the separator. */
  lemma {:induction false} SplitOfJoin(xs: seq<string>)
    requires xs != [] && forall i :: 0 <= i < |xs| ==> ',' !in xs[i]
    ensures Split(Join(xs)) == xs
  {
    if |xs| == 1 {
      SplitPrefix(xs[0], "");
      assert xs[0] + "" == xs[0] && Split("") == [""];
    } else {
      SplitOfJoin(xs[1..]);
      var rest := "," + Join(xs[1..]);
      assert rest[1..] == Join(xs[1..]) && Split(rest) == [""] + xs[1..];
      assert xs[0] + "" == xs[0];
      SplitPrefix(xs[0], rest);
      assert xs[0] + "," + Join(xs[1..]) == xs[0] + rest;
    }
  }

  lemma LabelIsPlain(x: string)
    requires IsLabel(x)
    ensures TrimSpace(x) == x && ',' !in x && x != "*"
  {
  }

  lemma {:induction false} FirstsOfDistinct(xs: seq<string>)
    requires Distinct(xs) && "*" !in xs
    ensures Firsts(xs) == xs
  {
    if xs != [] {
      var n := |xs| - 1;
      FirstsOfDistinct(xs[..n]);
      assert xs == xs[..n] + [xs[n]];
    }
  }

  /** Without a wildcard the names read back from the normal form are the first occurrences. */
  lemma NormalReadsBack(val: string)
    requires Acceptable(val) && "*" !in Names(val)
    ensures Names(Normal(val)) == Firsts(Names(val))
  {
    var names, d := Names(val), Firsts(Names(val));
    forall i | 0 <= i < |d| ensures IsLabel(d[i]) && TrimSpace(d[i]) == d[i] && ',' !in d[i] {
      FirstsOccur(names, d[i]);
      LabelIsPlain(d[i]);
    }
    FirstsOccur(names, names[0]);
    SplitOfJoin(d);
  }

  lemma StarReadsBack()
    ensures Names("*") == ["*"]
  {
    SplitOfJoin(["*"]);
    assert TrimSpace("*") == "*";
  }

  /** Main result: normalising is idempotent, and the normal form is acceptable. */
  lemma NormalIsIdempotent(val: string)
    requires Acceptable(val)
    ensures Acceptable(Normal(val)) && Normal(Normal(val)) == Normal(val)
  {
    var names := Names(val);
    if "*" in names {
      StarReadsBack();
    } else {
      var d := Firsts(names);
      NormalReadsBack(val);
      forall i | 0 <= i < |d| ensures IsLabel(d[i]) { FirstsAreLabels(names, d[i]); }
      forall i, j | 0 <= i < j < |d| ensures d[i] != d[j] { FirstsInOrder(names, i, j); }
      FirstsOccur(names, names[0]);
      FirstsOfDistinct(d);
      if Normal(val) == "" { EmptyHasNoLabel(); }
    }
  }

  lemma EmptyHasNoLabel()
    ensures Names("") == [""] && !IsLabel("")
  {
    assert Split("") == [[]];
  }

  /** Main result: the set of names is kept, and a wildcard absorbs all of them. */
  lemma NormalKeepsNames(val: string, x: string)
    requires Acceptable(val)
    ensures "*" in Names(val) ==> Normal(val) == "*" && Names(Normal(val)) == ["*"]
    ensures "*" !in Names(val) ==> (x in Names(Normal(val)) <==> x in Names(val))
  {
    if "*" in Names(val) {
      StarReadsBack();
    } else {
      NormalReadsBack(val);
      FirstsOccur(Names(val), x);
    }
  }
}
