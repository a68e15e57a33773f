/** Escaping CEL keywords in a CRD's text: one regular-expression pass per keyword, `.kw` before a
  * word boundary becoming `.__kw__`. */
module KeywordEscape {
  import opened Prelude

  // the three parts only keep the proof about each small
  const KEYWORDS_A := ["true", "false", "null", "in", "as", "break", "const"]
  const KEYWORDS_B := ["continue", "else", "for", "function", "if", "import", "let"]
  const KEYWORDS_C := ["loop", "package", "namespace", "return", "var", "void", "while"]
  const KEYWORDS := KEYWORDS_A + KEYWORDS_B + KEYWORDS_C

  /** The word characters of the expression's `\b`. */
  predicate IsWord(c: char) {
    'a' <= c <= 'z' || 'A' <= c <= 'Z' || '0' <= c <= '9' || c == '_'
  }

  predicate WordOnly(s: string) { forall i :: 0 <= i < |s| ==> IsWord(s[i]) }

  function Escaped(w: string): string { "__" + w + "__" }

  // ---- one pass, as the regular expression reads ----

  /** The text starts with `.kw`, and a word boundary follows. */
  predicate MatchHere(kw: string, s: string) {
    |s| > |kw| && s[0] == '.' && s[1..1 + |kw|] == kw && (|s| == 1 + |kw| || !IsWord(s[1 + |kw|]))
  }

  predicate MatchString(kw: string, s: string) {
    s != [] && (MatchHere(kw, s) || MatchString(kw, s[1..]))
  }

  /** Leftmost, non-overlapping replacement. */
  function ReplaceAll(kw: string, s: string): string {
    if s == [] then []
    else if MatchHere(kw, s) then "." + Escaped(kw) + ReplaceAll(kw, s[1 + |kw|..])
    else [s[0]] + ReplaceAll(kw, s[1..])
  }

  // ---- one simultaneous rewrite ----

  /** The maximal word run at the start of the text. */
  function Run(s: string): (r: string)
    ensures |r| <= |s| && r == s[..|r|] && WordOnly(r) && (|r| == |s| || !IsWord(s[|r|]))
  {
    if s == [] || !IsWord(s[0]) then [] else [s[0]] + Run(s[1..])
  }

  /** What a rewrite does to a word run. */
  type WordMap = string -> string

  ghost predicate Proper(f: WordMap) { forall w :: WordOnly(w) ==> WordOnly(f(w)) }

  /** A dot, a word run, and what follows. */
  function Dot(w: string, rest: string): string { "." + (w + rest) }

  /** Every dot is followed by a maximal word run `w`; all of them become `f(w)` at once. */
  function Rewrite(f: WordMap, s: string): string {
    if s == [] then []
    else if s[0] == '.' then var w := Run(s[1..]); Dot(f(w), Rewrite(f, s[1 + |w|..]))
    else [s[0]] + Rewrite(f, s[1..])
  }

  /** The word runs that follow the dots, in order. */
  function Fields(s: string): seq<string> {
    if s == [] then []
    else if s[0] == '.' then var w := Run(s[1..]); [w] + Fields(s[1 + |w|..])
    else Fields(s[1..])
  }

  lemma {:induction false} RunIs(w: string, rest: string)
    requires WordOnly(w) && (rest == [] || !IsWord(rest[0]))
    ensures Run(w + rest) == w
  {
    if w == [] {
      assert w + rest == rest;
    } else {
      assert (w + rest)[1..] == w[1..] + rest;
      RunIs(w[1..], rest);
    }
  }

  /** The text is empty or starts with a non-word character. */
  predicate NoRun(s: string) { s == [] || !IsWord(s[0]) }

  /** A text splits into a run and what follows in one way. */
  lemma SplitsOnce(w: string, rest: string, v: string, tail: string)
    requires WordOnly(w) && NoRun(rest) && WordOnly(v) && NoRun(tail)
    ensures Dot(w, rest) == Dot(v, tail) <==> w == v && rest == tail
  {
    if Dot(w, rest) == Dot(v, tail) {
      DotParts(w, rest);
      DotParts(v, tail);
    }
  }

  lemma DotParts(w: string, rest: string)
    requires WordOnly(w) && NoRun(rest)
    ensures var t := Dot(w, rest); t != [] && t[0] == '.' && Run(t[1..]) == w && t[1 + |w|..] == rest
  {
    RunIs(w, rest);
    assert Dot(w, rest)[1..] == w + rest;
  }

  lemma ReadDot(s: string) returns (w: string, rest: string)
    requires s != [] && s[0] == '.'
    ensures w == Run(s[1..]) && rest == s[1 + |w|..] && s == Dot(w, rest) && WordOnly(w) && NoRun(rest) && |rest| < |s|
  {
    w := Run(s[1..]);
    rest := s[1 + |w|..];
    Cut(s, |w|);
  }

  lemma Cut(s: string, n: nat)
    requires 1 + n <= |s|
    ensures s[1..][n..] == s[1 + n..]
    ensures s == [s[0]] + (s[1..][..n] + s[1 + n..])
  {
  }

  /** What follows a run starts with a non-word character, and a rewrite keeps that. */
  lemma RewriteStarts(f: WordMap, s: string)
    requires NoRun(s)
    ensures NoRun(Rewrite(f, s))
  {
  }

  lemma StepOverRun(f: WordMap, s: string) returns (w: string, rest: string)
    requires Proper(f) && s != [] && s[0] == '.'
    ensures w == Run(s[1..]) && rest == s[1 + |w|..] && s == Dot(w, rest) && WordOnly(w) && NoRun(rest) && |rest| < |s|
    ensures NoRun(Rewrite(f, rest))
    ensures var t := Rewrite(f, s);
      t == Dot(f(w), Rewrite(f, rest)) && t != [] && t[0] == '.' && Run(t[1..]) == f(w) && t[1 + |f(w)|..] == Rewrite(f, rest)
  {
    w, rest := ReadDot(s);
    RewriteStarts(f, rest);
    DotParts(f(w), Rewrite(f, rest));
  }

  lemma Cons(c: char, t: string)
    ensures ([c] + t)[0] == c && ([c] + t)[1..] == t
  {
  }

  /** Rewrites compose word by word. */
  lemma {:induction false} RewriteComposes(f: WordMap, g: WordMap, h: WordMap, s: string)
    requires Proper(f) && forall w :: WordOnly(w) ==> h(w) == g(f(w))
    ensures Rewrite(g, Rewrite(f, s)) == Rewrite(h, s)
    decreases |s|
  {
    if s == [] {
    } else if s[0] == '.' {
      var w, rest := StepOverRun(f, s);
      RewriteComposes(f, g, h, rest);
    } else {
      RewriteComposes(f, g, h, s[1..]);
      Cons(s[0], Rewrite(f, s[1..]));
    }
  }

  lemma {:induction false} RewriteMapsFields(f: WordMap, s: string)
    requires Proper(f)
    ensures Fields(Rewrite(f, s)) == MapSeq(f, Fields(s))
    decreases |s|
  {
    if s == [] {
    } else if s[0] == '.' {
      var w, rest := StepOverRun(f, s);
      RewriteMapsFields(f, rest);
      assert ([w] + Fields(rest))[1..] == Fields(rest);
    } else {
      RewriteMapsFields(f, s[1..]);
      Cons(s[0], Rewrite(f, s[1..]));
    }
  }

  /** The text without its fields. */
  function Skeleton(s: string): string {
    if s == [] then []
    else if s[0] == '.' then "." + Skeleton(s[1 + |Run(s[1..])|..])
    else [s[0]] + Skeleton(s[1..])
  }

  lemma {:induction false} RewriteKeepsSkeleton(f: WordMap, s: string)
    requires Proper(f)
    ensures Skeleton(Rewrite(f, s)) == Skeleton(s)
    decreases |s|
  {
    if s == [] {
    } else if s[0] == '.' {
      var _, rest := StepOverRun(f, s);
      RewriteKeepsSkeleton(f, rest);
    } else {
      RewriteKeepsSkeleton(f, s[1..]);
      Cons(s[0], Rewrite(f, s[1..]));
    }
  }

  lemma PartsAtDot(s: string) returns (w: string, rest: string)
    requires s != [] && s[0] == '.'
    ensures s == Dot(w, rest) && |rest| < |s|
    ensures Fields(s) != [] && Fields(s)[0] == w && Fields(s)[1..] == Fields(rest)
    ensures Skeleton(s)[1..] == Skeleton(rest)
  {
    w, rest := ReadDot(s);
  }

  /** A text is determined by its skeleton and its fields, so `RewriteMapsFields` and
    * `RewriteKeepsSkeleton` say everything about a rewrite. */
  lemma {:induction false} TextFromParts(s: string, t: string)
    requires Skeleton(s) == Skeleton(t) && Fields(s) == Fields(t)
    ensures s == t
    decreases |s|
  {
    if s != [] && t != [] {
      assert s[0] == Skeleton(s)[0] == Skeleton(t)[0] == t[0];
      if s[0] == '.' {
        var w, a := PartsAtDot(s);
        var v, b := PartsAtDot(t);
        TextFromParts(a, b);
      } else {
        Cons(s[0], Skeleton(s[1..]));
        Cons(t[0], Skeleton(t[1..]));
        TextFromParts(s[1..], t[1..]);
        assert s == [s[0]] + s[1..] && t == [t[0]] + t[1..];
      }
    }
  }

  /** A text is unchanged exactly when each of its fields is. */
  lemma {:induction false} UnchangedExactly(f: WordMap, s: string)
    requires Proper(f)
    ensures Rewrite(f, s) == s <==> forall w :: w in Fields(s) ==> f(w) == w
    decreases |s|
  {
    if s == [] {
    } else if s[0] == '.' {
      var w, rest := StepOverRun(f, s);
      UnchangedExactly(f, rest);
      SplitsOnce(f(w), Rewrite(f, rest), w, rest);
      assert Fields(s) == [w] + Fields(rest);
    } else {
      UnchangedExactly(f, s[1..]);
      Cons(s[0], Rewrite(f, s[1..]));
      Cons(s[0], s[1..]);
      assert s == [s[0]] + s[1..];
    }
  }

  // ---- a pass is a rewrite ----

  function EscapeMap(keys: set<string>): WordMap {
    w => if w in keys then Escaped(w) else w
  }

  lemma EscapeIsProper(keys: set<string>)
    ensures Proper(EscapeMap(keys))
  {
  }

  lemma {:induction false} WordsPassThrough(kw: string, w: string, rest: string)
    requires WordOnly(w)
    ensures ReplaceAll(kw, w + rest) == w + ReplaceAll(kw, rest)
    ensures MatchString(kw, w + rest) <==> MatchString(kw, rest)
  {
    if w == [] {
      assert w + rest == rest;
    } else {
      assert (w + rest)[1..] == w[1..] + rest;
      WordsPassThrough(kw, w[1..], rest);
      assert [w[0]] + (w[1..] + ReplaceAll(kw, rest)) == w + ReplaceAll(kw, rest);
    }
  }

  lemma MatchIsRun(kw: string, s: string)
    requires s != [] && s[0] == '.' && WordOnly(kw)
    ensures MatchHere(kw, s) <==> Run(s[1..]) == kw
  {
    var w := Run(s[1..]);
    if MatchHere(kw, s) {
      var rest := s[1 + |kw|..];
      assert s[1..] == kw + rest;
      RunIs(kw, rest);
    }
  }

  lemma PassAtDot(kw: string, s: string) returns (w: string, rest: string)
    requires s != [] && s[0] == '.' && WordOnly(kw)
    ensures w == Run(s[1..]) && rest == s[1 + |w|..] && |rest| < |s|
    ensures ReplaceAll(kw, s) == Dot(EscapeMap({kw})(w), ReplaceAll(kw, rest))
    ensures MatchString(kw, s) <==> w == kw || MatchString(kw, rest)
  {
    w, rest := ReadDot(s);
    MatchIsRun(kw, s);
    assert s[1..] == w + rest;
    WordsPassThrough(kw, w, rest);
    assert "." + Escaped(kw) + ReplaceAll(kw, rest) == Dot(Escaped(kw), ReplaceAll(kw, rest));
  }

  lemma {:induction false} PassIsRewrite(kw: string, s: string)
    requires WordOnly(kw)
    ensures ReplaceAll(kw, s) == Rewrite(EscapeMap({kw}), s)
    ensures MatchString(kw, s) <==> kw in Fields(s)
    decreases |s|
  {
    if s == [] {
    } else if s[0] == '.' {
      var _, rest := PassAtDot(kw, s);
      PassIsRewrite(kw, rest);
    } else {
      PassIsRewrite(kw, s[1..]);
    }
  }

  // ---- all passes ----

  /** A keyword has word characters only and does not start with an underscore. */
  predicate Keyword(k: string) { k != "" && WordOnly(k) && k[0] != '_' }

  predicate Keywords(keys: set<string>) { forall k :: k in keys ==> Keyword(k) }

  lemma EscapedIsNoKeyword(w: string)
    ensures !Keyword(Escaped(w))
  {
  }

  function Passes(kws: seq<string>, s: string): string {
    if kws == [] then s else ReplaceAll(kws[|kws| - 1], Passes(kws[..|kws| - 1], s))
  }

  function Set(kws: seq<string>): set<string> { set k | k in kws }

  lemma RewriteNothing(s: string)
    ensures Rewrite(EscapeMap({}), s) == s
  {
    EscapeIsProper({});
    UnchangedExactly(EscapeMap({}), s);
  }

  lemma EscapesCompose(keys: set<string>, kw: string, w: string)
    requires Keywords(keys) && Keyword(kw)
    ensures EscapeMap(keys + {kw})(w) == EscapeMap({kw})(EscapeMap(keys)(w))
    ensures EscapeMap(keys)(w) == kw <==> kw !in keys && w == kw
  {
    EscapedIsNoKeyword(w);
  }

  lemma PassAfterRewrite(keys: set<string>, kw: string, s: string)
    requires Keywords(keys) && Keyword(kw)
    ensures ReplaceAll(kw, Rewrite(EscapeMap(keys), s)) == Rewrite(EscapeMap(keys + {kw}), s)
  {
    var f, g, h := EscapeMap(keys), EscapeMap({kw}), EscapeMap(keys + {kw});
    PassIsRewrite(kw, Rewrite(f, s));
    EscapeIsProper(keys);
    forall w ensures h(w) == g(f(w)) { EscapesCompose(keys, kw, w); }
    RewriteComposes(f, g, h, s);
  }

  lemma MatchAfterRewrite(keys: set<string>, kw: string, s: string)
    requires Keywords(keys) && Keyword(kw)
    ensures MatchString(kw, Rewrite(EscapeMap(keys), s)) <==> kw !in keys && kw in Fields(s)
  {
    var f := EscapeMap(keys);
    var fields, after := Fields(s), Fields(Rewrite(f, s));
    PassIsRewrite(kw, Rewrite(f, s));
    EscapeIsProper(keys);
    RewriteMapsFields(f, s);
    forall i | 0 <= i < |fields| ensures after[i] == kw <==> kw !in keys && fields[i] == kw {
      EscapesCompose(keys, kw, fields[i]);
    }
  }

  /** Main result: the passes, one keyword after another, are one simultaneous rewrite. */
  lemma {:induction false} PassesAreOneRewrite(kws: seq<string>, s: string)
    requires Keywords(Set(kws))
    ensures Passes(kws, s) == Rewrite(EscapeMap(Set(kws)), s)
  {
    if kws == [] {
      assert Set(kws) == {};
      RewriteNothing(s);
    } else {
      var n := |kws| - 1;
      PassesAreOneRewrite(kws[..n], s);
      PassAfterRewrite(Set(kws[..n]), kws[n], s);
      assert Set(kws) == Set(kws[..n]) + {kws[n]};
    }
  }

  lemma PassOrderDoesNotMatter(a: seq<string>, b: seq<string>, s: string)
    requires Keywords(Set(a)) && Set(a) == Set(b)
    ensures Passes(a, s) == Passes(b, s)
  {
    PassesAreOneRewrite(a, s);
    PassesAreOneRewrite(b, s);
  }

  /** Escaping twice is escaping once, and no keyword field is left. */
  lemma EscapeSettles(keys: set<string>, s: string)
    requires Keywords(keys)
    ensures var t := Rewrite(EscapeMap(keys), s);
      Rewrite(EscapeMap(keys), t) == t && forall w :: w in Fields(t) ==> w !in keys
  {
    var f, t := EscapeMap(keys), Rewrite(EscapeMap(keys), s);
    EscapeIsProper(keys);
    RewriteMapsFields(f, s);
    forall w | w in Fields(t) ensures w !in keys {
      var i :| 0 <= i < |Fields(t)| && Fields(t)[i] == w;
      EscapedIsNoKeyword(Fields(s)[i]);
    }
    UnchangedExactly(f, t);
  }

  // ---- undoing ----

  function Inner(w: string): string { if |w| >= 4 then w[2..|w| - 2] else "" }

  predicate PreEscaped(keys: set<string>, w: string) { Inner(w) in keys && w == Escaped(Inner(w)) }

  function UnescapeMap(keys: set<string>): WordMap {
    w => if PreEscaped(keys, w) then Inner(w) else w
  }

  lemma UnescapeUndoes(keys: set<string>, w: string)
    requires Keywords(keys)
    ensures UnescapeMap(keys)(EscapeMap(keys)(w)) == UnescapeMap(keys)(w)
    ensures UnescapeMap(keys)(w) == w <==> !PreEscaped(keys, w)
  {
    assert Inner(Escaped(w)) == w;
    if w in keys { EscapedIsNoKeyword(Inner(w)); }
  }

  /** Main result: unescaping restores exactly the texts without an already escaped keyword. */
  lemma UndoExactly(keys: set<string>, s: string)
    requires Keywords(keys)
    ensures Rewrite(UnescapeMap(keys), Rewrite(EscapeMap(keys), s)) == s
       <==> forall w :: w in Fields(s) ==> !PreEscaped(keys, w)
  {
    var f, g := EscapeMap(keys), UnescapeMap(keys);
    EscapeIsProper(keys);
    forall w ensures g(f(w)) == g(w) && (g(w) == w <==> !PreEscaped(keys, w)) { UnescapeUndoes(keys, w); }
    RewriteComposes(f, g, g, s);
    UnchangedExactly(g, s);
  }

  // ---- the keyword loop ----

  lemma PartA() ensures Keywords(Set(KEYWORDS_A)) {}

  lemma PartB() ensures Keywords(Set(KEYWORDS_B)) {}

  lemma PartC() ensures Keywords(Set(KEYWORDS_C)) {}

  lemma OneMoreKeyword(keywords: seq<string>, i: nat, text: string)
    requires Keywords(Set(keywords)) && i < |keywords|
    ensures var out := Rewrite(EscapeMap(Set(keywords[..i])), text);
      && ReplaceAll(keywords[i], out) == Rewrite(EscapeMap(Set(keywords[..i + 1])), text)
      && (MatchString(keywords[i], out) <==> keywords[i] !in keywords[..i] && keywords[i] in Fields(text))
      && (!MatchString(keywords[i], out) ==> ReplaceAll(keywords[i], out) == out)
    ensures keywords[..i + 1] == keywords[..i] + [keywords[i]]
  {
    var before, kw := Set(keywords[..i]), keywords[i];
    PassAfterRewrite(before, kw, text);
    MatchAfterRewrite(before, kw, text);
    assert keywords[..i + 1] == keywords[..i] + [kw];
    assert Set(keywords[..i + 1]) == before + {kw};
    var out := Rewrite(EscapeMap(before), text);
    if !MatchString(kw, out) { NothingToReplace(kw, out); }
  }

  /** The keyword loop over a text, with its `mutated` flag. */
  method ReplaceKeywords(keywords: seq<string>, text: string) returns (out: string, mutated: bool)
    requires Keywords(Set(keywords))
    ensures out == Rewrite(EscapeMap(Set(keywords)), text)
    ensures mutated <==> exists w :: w in Fields(text) && w in keywords
  {
    out, mutated := text, false;
    assert Set(keywords[..0]) == {};
    RewriteNothing(text);
    for i := 0 to |keywords|
      invariant out == Rewrite(EscapeMap(Set(keywords[..i])), text)
      invariant mutated <==> exists w :: w in Fields(text) && w in keywords[..i]
    {
      OneMoreKeyword(keywords, i, text);
      if MatchString(keywords[i], out) {
        out := ReplaceAll(keywords[i], out);
        mutated := true;
      }
    }
    assert keywords[..|keywords|] == keywords;
  }

  lemma NothingToReplace(kw: string, s: string)
    requires WordOnly(kw) && !MatchString(kw, s)
    ensures ReplaceAll(kw, s) == s
  {
    PassIsRewrite(kw, s);
    EscapeIsProper({kw});
    UnchangedExactly(EscapeMap({kw}), s);
  }

  lemma WordsA() ensures Set(KEYWORDS_A) == {"true", "false", "null", "in", "as", "break", "const"} {}

  lemma WordsB() ensures Set(KEYWORDS_B) == {"continue", "else", "for", "function", "if", "import", "let"} {}

  lemma WordsC() ensures Set(KEYWORDS_C) == {"loop", "package", "namespace", "return", "var", "void", "while"} {}

  lemma PartsTogether()
    ensures Set(KEYWORDS) == Set(KEYWORDS_A) + Set(KEYWORDS_B) + Set(KEYWORDS_C)
  {
  }

  lemma KeywordsAre()
    ensures Set(KEYWORDS) == {"true", "false", "null", "in", "as", "break", "const"}
      + {"continue", "else", "for", "function", "if", "import", "let"}
      + {"loop", "package", "namespace", "return", "var", "void", "while"}
  {
    WordsA();
    WordsB();
    WordsC();
    PartsTogether();
  }

  lemma KeywordsTogether()
    ensures Set(KEYWORDS) ==
      var words := {"true", "false", "null", "in", "as", "break", "const", "continue", "else", "for", "function",
                    "if", "import", "let", "loop", "package", "namespace", "return", "var", "void", "while"};
      words
  {
    KeywordsAre();
  }

  /** Field by field, the escaping of the keywords. */
  lemma EscapedFields(text: string)
    ensures var out := Rewrite(EscapeMap(Set(KEYWORDS)), text);
      && Skeleton(out) == Skeleton(text) && |Fields(out)| == |Fields(text)|
      && forall i :: 0 <= i < |Fields(text)| ==>
           Fields(out)[i] == if Fields(text)[i] in Set(KEYWORDS) then "__" + Fields(text)[i] + "__" else Fields(text)[i]
  {
    EscapeIsProper(Set(KEYWORDS));
    RewriteMapsFields(EscapeMap(Set(KEYWORDS)), text);
    RewriteKeepsSkeleton(EscapeMap(Set(KEYWORDS)), text);
  }

  lemma KeywordsAreKeywords()
    ensures Keywords(Set(KEYWORDS))
  {
    PartA();
    PartB();
    PartC();
    PartsTogether();
  }

  /** `Mutate` on the marshalled text: of the fields those that are one of the 21 words get two
    * underscores on either side, everything else of the text stays, and the flag says whether there
    * was such a field. */
  method Mutate(text: string) returns (out: string, mutated: bool)
    ensures Skeleton(out) == Skeleton(text) && |Fields(out)| == |Fields(text)|
    ensures
      var words := {"true", "false", "null", "in", "as", "break", "const", "continue", "else", "for", "function",
                    "if", "import", "let", "loop", "package", "namespace", "return", "var", "void", "while"};
      && (forall i :: 0 <= i < |Fields(text)| ==>
            Fields(out)[i] == if Fields(text)[i] in words then "__" + Fields(text)[i] + "__" else Fields(text)[i])
      && (mutated <==> exists i :: 0 <= i < |Fields(text)| && Fields(text)[i] in words)
    ensures out == Rewrite(EscapeMap(Set(KEYWORDS)), text)
    ensures mutated <==> out != text
  {
    KeywordsAreKeywords();
    out, mutated := ReplaceKeywords(KEYWORDS, text);
    EscapeIsProper(Set(KEYWORDS));
    UnchangedExactly(EscapeMap(Set(KEYWORDS)), text);
    EscapedFields(text);
    KeywordsTogether();
    InSet(KEYWORDS, Fields(text));
  }

  lemma InSet(kws: seq<string>, fields: seq<string>)
    ensures (exists w :: w in fields && w in kws) <==> exists i :: 0 <= i < |fields| && fields[i] in Set(kws)
  {
  }

  // ---- what a field is, position by position ----

  /** An ASCII digit, letter or underscore. */
  predicate WordCode(c: int) { 48 <= c <= 57 || 65 <= c <= 90 || c == 95 || 97 <= c <= 122 }

  /** At `i` there is a dot, then the characters `w`, all of them word characters, and then the end of
    * the text or another character. */
  ghost predicate FieldAt(s: string, i: nat, w: string) {
    && i + 1 + |w| <= |s| && s[i] == '.' && s[i + 1..][..|w|] == w
    && (forall k :: 0 <= k < |w| ==> WordCode(w[k] as int))
    && (i + 1 + |w| < |s| ==> !WordCode(s[i + 1 + |w|] as int))
  }

  lemma WordCodes(c: char)
    ensures IsWord(c) <==> WordCode(c as int)
  {
  }

  lemma FieldAtDot(s: string, w: string)
    requires s != [] && s[0] == '.'
    ensures FieldAt(s, 0, w) <==> w == Run(s[1..])
  {
    forall c: char ensures IsWord(c) <==> WordCode(c as int) { WordCodes(c); }
    if FieldAt(s, 0, w) {
      var rest := s[1..][|w|..];
      assert s[1..] == w + rest;
      RunIs(w, rest);
    }
  }

  lemma FieldAtLater(s: string, n: nat, i: nat, w: string)
    requires n <= |s|
    ensures FieldAt(s, n + i, w) <==> FieldAt(s[n..], i, w)
  {
    if n + i + 1 + |w| <= |s| { assert s[n + i + 1..] == s[n..][i + 1..]; }
  }

  ghost predicate HasField(s: string, w: string) { exists i: nat :: FieldAt(s, i, w) }

  /** Where the first `n` characters start no field, the fields are those of what follows. */
  lemma FieldsLater(s: string, n: nat, w: string)
    requires n <= |s| && forall i: nat :: i < n ==> !FieldAt(s, i, w)
    ensures HasField(s, w) <==> HasField(s[n..], w)
  {
    if i: nat :| FieldAt(s, i, w) { FieldAtLater(s, n, i - n, w); }
    if i: nat :| FieldAt(s[n..], i, w) {
      FieldAtLater(s, n, i, w);
      assert FieldAt(s, n + i, w);
    }
  }

  lemma FieldsAtDot(s: string, v: string, rest: string, w: string)
    requires s != [] && s[0] == '.' && v == Run(s[1..]) && rest == s[1 + |v|..]
    ensures HasField(s, w) <==> w == v || HasField(rest, w)
  {
    FieldAtDot(s, w);
    if w == v {
      assert FieldAt(s, 0, w);
    } else {
      forall i: nat | i < 1 + |v| ensures !FieldAt(s, i, w) {
        if i > 0 { assert s[i] == s[1..][i - 1] == v[i - 1]; }
      }
      FieldsLater(s, 1 + |v|, w);
    }
  }

  /** Main result: the fields of a text are the maximal word runs after its dots. */
  lemma {:induction false} FieldsAre(s: string, w: string)
    ensures w in Fields(s) <==> HasField(s, w)
    decreases |s|
  {
    if s == [] {
    } else if s[0] == '.' {
      var v, rest := ReadDot(s);
      FieldsAtDot(s, v, rest, w);
      FieldsAre(rest, w);
    } else {
      FieldsLater(s, 1, w);
      FieldsAre(s[1..], w);
    }
  }
}
