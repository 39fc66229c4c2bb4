/** Which LIKE patterns a dictionary scan can answer (qsbridge/classifier.go): against LIKE
    as the row evaluator matches it, where a backslash is a character like any other
    (qsfixture/runtime.go), and against the LIKE of SQL dialects in which a backslash
    escapes the character after it and stands for itself at the very end of a pattern. */
module LikePatterns {

  datatype Class = Unsupported | Exact | Prefix | Contains

  /** simpleLikePattern. */
  function Classify(pattern: string): Class {
    if pattern == "" || '_' in pattern then Unsupported
    else if '%' !in pattern then Exact
    else if pattern[|pattern| - 1] == '%' && '%' !in pattern[..|pattern| - 1] then Prefix
    else if |pattern| >= 2 && pattern[0] == '%' && pattern[|pattern| - 1] == '%'
      && '%' !in pattern[1..|pattern| - 1] then Contains
    else Unsupported
  }

  // ----- LIKE -----

  datatype Token = Lit(c: char) | Any | One

  function Tokens(pattern: string): seq<Token> {
    if pattern == "" then []
    else if pattern[0] == '\\' && |pattern| > 1 then [Lit(pattern[1])] + Tokens(pattern[2..])
    else if pattern[0] == '%' then [Any] + Tokens(pattern[1..])
    else if pattern[0] == '_' then [One] + Tokens(pattern[1..])
    else [Lit(pattern[0])] + Tokens(pattern[1..])
  }

  predicate Match(ts: seq<Token>, s: string)
    decreases |ts|, |s|
  {
    if ts == [] then s == ""
    else if ts[0].Any? then Match(ts[1..], s) || (s != "" && Match(ts, s[1..]))
    else s != "" && (ts[0].One? || ts[0].c == s[0]) && Match(ts[1..], s[1..])
  }

  /** The tokens when no character is an escape. */
  function PlainTokens(pattern: string): seq<Token> {
    if pattern == "" then [] else [PlainToken(pattern[0])] + PlainTokens(pattern[1..])
  }

  function PlainToken(c: char): Token {
    if c == '%' then Any else if c == '_' then One else Lit(c)
  }

  predicate PlainLike(pattern: string, s: string) {
    Match(PlainTokens(pattern), s)
  }

  predicate Like(pattern: string, s: string) {
    Match(Tokens(pattern), s)
  }

  // ----- What the scans look for -----

  ghost predicate Within(needle: string, s: string) {
    exists i | 0 <= i <= |s| :: needle <= s[i..]
  }

  /** The values that the scan of a classified pattern finds. */
  ghost predicate Scan(pattern: string, s: string) {
    match Classify(pattern)
    case Exact => s == pattern
    case Prefix => pattern[..|pattern| - 1] <= s
    case Contains => Within(pattern[1..|pattern| - 1], s)
    case Unsupported => false
  }

  // ----- Literal tokens -----

  function Lits(w: string): seq<Token> {
    if w == "" then [] else [Lit(w[0])] + Lits(w[1..])
  }

  /** Literal tokens, and then perhaps a wildcard. */
  lemma {:induction false} MatchLits(w: string, open: bool, s: string)
    ensures Match(Lits(w) + (if open then [Any] else []), s) <==> if open then w <= s else s == w
    decreases |w|
  {
    var rest := if open then [Any] else [];
    if w == "" {
      assert Lits(w) + rest == rest;
      if open {
        MatchAny(s);
      }
    } else {
      assert (Lits(w) + rest)[1..] == Lits(w[1..]) + rest;
      if s != "" {
        MatchLits(w[1..], open, s[1..]);
        assert s == [s[0]] + s[1..] && w == [w[0]] + w[1..];
      }
    }
  }

  lemma {:induction false} MatchAny(s: string)
    ensures Match([Any], s)
    decreases |s|
  {
    if s != "" {
      MatchAny(s[1..]);
    }
  }

  /** A leading wildcard skips any number of characters. */
  lemma {:induction false} MatchSkip(ts: seq<Token>, s: string)
    ensures Match([Any] + ts, s) <==> exists i | 0 <= i <= |s| :: Match(ts, s[i..])
    decreases |s|
  {
    assert ([Any] + ts)[1..] == ts;
    assert s[0..] == s;
    if s != "" {
      MatchSkip(ts, s[1..]);
      if Match([Any] + ts, s[1..]) {
        var i :| 0 <= i <= |s[1..]| && Match(ts, s[1..][i..]);
        assert s[1..][i..] == s[i + 1..];
      }
      if exists i | 0 <= i <= |s| :: Match(ts, s[i..]) {
        var i :| 0 <= i <= |s| && Match(ts, s[i..]);
        if i > 0 {
          assert s[1..][i - 1..] == s[i..];
        }
      }
    }
  }

  // ----- LIKE without escapes -----

  lemma {:induction false} PlainPieces(q: string)
    requires Wildless(q)
    ensures PlainTokens(q) == Lits(q) && PlainTokens(q + "%") == Lits(q) + [Any]
  {
    if q == "" {
      assert q + "%" == "%";
    } else {
      assert q[0] in q && (q + "%")[1..] == q[1..] + "%";
      PlainPieces(q[1..]);
    }
  }

  /** Every supported pattern is answered exactly by its scan: equality, prefix or
      substring. */
  lemma ScanAnswersPlain(pattern: string, s: string)
    requires !Classify(pattern).Unsupported?
    ensures Scan(pattern, s) <==> PlainLike(pattern, s)
  {
    var q := Needle(pattern);
    NeedleShape(pattern);
    PlainPieces(q);
    if Classify(pattern).Contains? {
      assert pattern[1..] == q + "%";
      assert PlainTokens(pattern) == [Any] + PlainTokens(q + "%");
    }
    hide Match, PlainTokens;
    match Classify(pattern)
    case Exact =>
      MatchLits(q, false, s);
      assert Lits(q) + [] == Lits(q);
    case Prefix =>
      MatchLits(q, true, s);
    case Contains =>
      MatchSkip(PlainTokens(q + "%"), s);
      forall i | 0 <= i <= |s| ensures Match(PlainTokens(q + "%"), s[i..]) <==> q <= s[i..] {
        MatchLits(q, true, s[i..]);
      }
  }

  /** Several wildcards in a row are one. */
  lemma AnyTwice(ts: seq<Token>, s: string)
    ensures Match([Any] + ([Any] + ts), s) <==> Match([Any] + ts, s)
  {
    hide Match;
    MatchSkip([Any] + ts, s);
    MatchSkip(ts, s);
    assert s[0..] == s;
    if exists i | 0 <= i <= |s| :: Match([Any] + ts, s[i..]) {
      var i :| 0 <= i <= |s| && Match([Any] + ts, s[i..]);
      MatchSkip(ts, s[i..]);
      var k :| 0 <= k <= |s[i..]| && Match(ts, s[i..][k..]);
      assert s[i..][k..] == s[i + k..];
    }
  }

  lemma PlainStep(pattern: string, i: nat)
    requires i < |pattern|
    ensures PlainTokens(pattern[i..]) == [PlainToken(pattern[i])] + PlainTokens(pattern[i + 1..])
  {
    assert pattern[i..][1..] == pattern[i + 1..];
  }

  /** runtimeFixtureLikeMatchAt: a loop over the pattern that recurs at every place of the
      text where the rest behind a run of wildcards could match. */
  method MatchAt(text: string, pattern: string, textStart: nat, patternStart: nat) returns (matched: bool)
    requires textStart <= |text| && patternStart <= |pattern|
    ensures matched <==> PlainLike(pattern[patternStart..], text[textStart..])
    decreases |pattern| - patternStart, 0
  {
    hide Match, PlainTokens;
    var t, p := textStart, patternStart;
    while p < |pattern|
      invariant textStart <= t <= |text| && patternStart <= p <= |pattern|
      invariant PlainLike(pattern[patternStart..], text[textStart..]) <==> PlainLike(pattern[p..], text[t..])
    {
      PlainStep(pattern, p);
      if pattern[p] == '%' {
        p := SkipWildcards(text, pattern, t, p);
        if p == |pattern| {
          NothingLeft(pattern, text[t..]);
          return true;
        }
        matched := MatchSomewhere(text, pattern, t, p);
        return;
      }
      MatchOne(PlainToken(pattern[p]), PlainTokens(pattern[p + 1..]), text[t..]);
      if t == |text| || (pattern[p] != '_' && text[t] != pattern[p]) {
        return false;
      }
      assert text[t..][1..] == text[t + 1..];
      t, p := t + 1, p + 1;
    }
    NothingLeft(pattern, text[t..]);
    return t == |text|;
  }

  /** The candidates behind a wildcard. */
  method MatchSomewhere(text: string, pattern: string, t: nat, p: nat) returns (matched: bool)
    requires t <= |text| && p <= |pattern|
    ensures matched <==> Match([Any] + PlainTokens(pattern[p..]), text[t..])
    decreases |pattern| - p, 1
  {
    hide Match, PlainTokens;
    MatchSkip(PlainTokens(pattern[p..]), text[t..]);
    for candidate := t to |text| + 1
      invariant forall k | t <= k < candidate :: !PlainLike(pattern[p..], text[k..])
    {
      matched := MatchAt(text, pattern, candidate, p);
      if matched {
        assert text[t..][candidate - t..] == text[candidate..];
        return;
      }
    }
    NoCandidate(text, PlainTokens(pattern[p..]), t);
    return false;
  }

  /** The inner loop of a wildcard: `next` is behind the run, and one wildcard before what
      follows stands for all of the run. */
  method SkipWildcards(text: string, pattern: string, t: nat, p: nat) returns (next: nat)
    requires t <= |text| && p < |pattern| && pattern[p] == '%'
    ensures p < next <= |pattern|
    ensures PlainLike(pattern[p..], text[t..]) <==> Match([Any] + PlainTokens(pattern[next..]), text[t..])
  {
    hide Match, PlainTokens;
    PlainStep(pattern, p);
    next := p + 1;
    while next < |pattern| && pattern[next] == '%'
      invariant p < next <= |pattern|
      invariant PlainLike(pattern[p..], text[t..]) <==> Match([Any] + PlainTokens(pattern[next..]), text[t..])
    {
      PlainStep(pattern, next);
      AnyTwice(PlainTokens(pattern[next + 1..]), text[t..]);
      next := next + 1;
    }
  }

  lemma NothingLeft(pattern: string, s: string)
    ensures PlainTokens(pattern[|pattern|..]) == [] && Match([Any] + [], s) && (Match([], s) <==> s == "")
  {
    MatchAny(s);
    assert [Any] + [] == [Any];
  }

  lemma MatchOne(token: Token, ts: seq<Token>, s: string)
    requires !token.Any?
    ensures Match([token] + ts, s) <==> s != "" && (token.One? || token.c == s[0]) && Match(ts, s[1..])
  {
    assert ([token] + ts)[1..] == ts;
  }

  lemma NoCandidate(text: string, ts: seq<Token>, t: nat)
    requires t <= |text| && forall k | t <= k <= |text| :: !Match(ts, text[k..])
    ensures forall i | 0 <= i <= |text[t..]| :: !Match(ts, text[t..][i..])
  {
    forall i | 0 <= i <= |text[t..]| ensures !Match(ts, text[t..][i..]) {
      assert text[t..][i..] == text[t + i..];
    }
  }

  // ----- LIKE with escapes -----

  /** The literal text of a piece of pattern, and whether it ends in a lone backslash. */
  function Body(q: string): string {
    if q == "" then ""
    else if q[0] == '\\' then if |q| == 1 then "" else [q[1]] + Body(q[2..])
    else [q[0]] + Body(q[1..])
  }

  predicate OpenEnd(q: string) {
    if q == "" then false
    else if q[0] == '\\' then |q| == 1 || OpenEnd(q[2..])
    else OpenEnd(q[1..])
  }

  predicate Wildless(q: string) {
    '%' !in q && '_' !in q
  }

  /** A piece of pattern without wildcards, at the end or before a final '%'. */
  lemma {:induction false} TokensOf(q: string)
    requires Wildless(q)
    ensures Tokens(q) == Lits(if OpenEnd(q) then Body(q) + "\\" else Body(q))
    ensures Tokens(q + "%") == if OpenEnd(q) then Lits(Body(q) + "%") else Lits(Body(q)) + [Any]
  {
    hide Tokens, Lits;
    EndTokens();
    if q == "" {
      assert q + "%" == "%";
      assert [] + [Any] == [Any];
    } else if q[0] == '\\' && |q| == 1 {
      assert q == "\\" && q + "%" == "\\%" && "" + "\\" == "\\" && "" + "%" == "%";
    } else {
      var c, n := if q[0] == '\\' then q[1] else q[0], if q[0] == '\\' then 2 else 1;
      assert q[0] in q && (q + "%")[n..] == q[n..] + "%";
      FirstToken(q);
      FirstToken(q + "%");
      TokensOf(q[n..]);
      LitsFront(c, Body(q[n..]));
    }
  }

  lemma EndTokens()
    ensures Tokens("") == [] && Tokens("%") == [Any] && Tokens("\\") == [Lit('\\')] && Tokens("\\%") == [Lit('%')]
    ensures Lits("") == [] && Lits("\\") == [Lit('\\')] && Lits("%") == [Lit('%')]
  {
  }

  /** The first token of a pattern that begins with a literal character or an escape. */
  lemma FirstToken(p: string)
    requires p != "" && (if p[0] == '\\' then |p| > 1 else p[0] != '%' && p[0] != '_')
    ensures Tokens(p) == if p[0] == '\\' then [Lit(p[1])] + Tokens(p[2..]) else [Lit(p[0])] + Tokens(p[1..])
  {
  }

  lemma LitsFront(c: char, w: string)
    ensures Lits([c] + w) == [Lit(c)] + Lits(w)
    ensures Lits([c] + w + "\\") == [Lit(c)] + Lits(w + "\\")
    ensures Lits([c] + w + "%") == [Lit(c)] + Lits(w + "%")
  {
    LitsCons(c, w);
    LitsCons(c, w + "\\");
    LitsCons(c, w + "%");
    assert [c] + (w + "\\") == [c] + w + "\\" && [c] + (w + "%") == [c] + w + "%";
  }

  lemma LitsCons(c: char, w: string)
    ensures Lits([c] + w) == [Lit(c)] + Lits(w)
  {
    assert ([c] + w)[1..] == w;
  }

  /** Without escapes the text is the piece itself; every escape makes it shorter. */
  lemma {:induction false} BodyShorter(q: string)
    ensures |Body(q)| <= |q| && (|Body(q)| == |q| ==> Body(q) == q && '\\' !in q)
    ensures '\\' !in q ==> Body(q) == q && !OpenEnd(q)
    ensures OpenEnd(q) ==> |Body(q)| < |q| && q[|q| - 1] == '\\'
  {
    if q != "" {
      if q[0] == '\\' && |q| > 1 {
        BodyShorter(q[2..]);
      } else if q[0] != '\\' {
        BodyShorter(q[1..]);
        assert q == [q[0]] + q[1..];
      }
    }
  }

  // ----- When the scan answers LIKE -----

  /** A backslash with a character after it. */
  predicate HasEscape(pattern: string) {
    pattern != "" && '\\' in pattern[..|pattern| - 1]
  }

  /** The wildcard-free text that the scan of a supported pattern looks for. */
  function Needle(pattern: string): string
    requires !Classify(pattern).Unsupported?
  {
    match Classify(pattern)
    case Exact => pattern
    case Prefix => pattern[..|pattern| - 1]
    case Contains => pattern[1..|pattern| - 1]
  }

  lemma NeedleShape(pattern: string)
    requires !Classify(pattern).Unsupported?
    ensures Wildless(Needle(pattern))
    ensures Classify(pattern).Prefix? ==> pattern == Needle(pattern) + "%"
    ensures Classify(pattern).Contains? ==> pattern == "%" + (Needle(pattern) + "%")
    ensures HasEscape(pattern) ==> '\\' in Needle(pattern)
  {
    if Classify(pattern).Contains? {
      assert pattern[1..] == Needle(pattern) + "%";
      assert pattern[..|pattern| - 1] == "%" + Needle(pattern);
    }
  }

  /** Exactly these patterns are supported: a text without wildcards, such a text before one
      '%', and such a text between two. */
  lemma ClassifyIff(pattern: string)
    ensures Classify(pattern).Exact? <==> pattern != "" && Wildless(pattern)
    ensures Classify(pattern).Prefix? <==> exists q :: Wildless(q) && pattern == q + "%"
    ensures Classify(pattern).Contains? <==> exists q :: Wildless(q) && pattern == "%" + q + "%"
  {
    if exists q :: Wildless(q) && pattern == q + "%" {
      var q :| Wildless(q) && pattern == q + "%";
      assert pattern[..|pattern| - 1] == q;
      assert '_' !in pattern;
    }
    if exists q :: Wildless(q) && pattern == "%" + q + "%" {
      var q :| Wildless(q) && pattern == "%" + q + "%";
      assert pattern[1..|pattern| - 1] == q && pattern[0] == '%' && pattern[0] in pattern[..|pattern| - 1];
      assert '_' !in pattern;
    }
    if Classify(pattern).Prefix? || Classify(pattern).Contains? {
      NeedleShape(pattern);
      assert "%" + Needle(pattern) + "%" == "%" + (Needle(pattern) + "%");
    }
  }

  lemma LikeExact(pattern: string, s: string)
    requires Classify(pattern).Exact?
    ensures Like(pattern, s) <==> s == if OpenEnd(pattern) then Body(pattern) + "\\" else Body(pattern)
  {
    hide Tokens, Match;
    NeedleShape(pattern);
    TokensOf(pattern);
    var w := if OpenEnd(pattern) then Body(pattern) + "\\" else Body(pattern);
    MatchLits(w, false, s);
    assert Lits(w) + [] == Lits(w);
  }

  lemma LikePrefix(pattern: string, s: string)
    requires Classify(pattern).Prefix?
    ensures var q := Needle(pattern);
            Like(pattern, s) <==> if OpenEnd(q) then s == Body(q) + "%" else Body(q) <= s
  {
    hide Tokens, Match;
    var q := Needle(pattern);
    NeedleShape(pattern);
    TokensOf(q);
    if OpenEnd(q) {
      MatchLits(Body(q) + "%", false, s);
      assert Lits(Body(q) + "%") + [] == Lits(Body(q) + "%");
    } else {
      MatchLits(Body(q), true, s);
    }
  }

  lemma LikeContains(pattern: string, s: string)
    requires Classify(pattern).Contains?
    ensures var q := Needle(pattern);
            Like(pattern, s) <==> exists i | 0 <= i <= |s| ::
              if OpenEnd(q) then s[i..] == Body(q) + "%" else Body(q) <= s[i..]
  {
    var q := Needle(pattern);
    NeedleShape(pattern);
    assert pattern[1..] == q + "%";
    assert Tokens(pattern) == [Any] + Tokens(q + "%");
    hide Tokens, Match;
    TokensOf(q);
    MatchSkip(Tokens(q + "%"), s);
    forall i | 0 <= i <= |s|
      ensures Match(Tokens(q + "%"), s[i..]) <==> if OpenEnd(q) then s[i..] == Body(q) + "%" else Body(q) <= s[i..]
    {
      if OpenEnd(q) {
        MatchLits(Body(q) + "%", false, s[i..]);
        assert Lits(Body(q) + "%") + [] == Lits(Body(q) + "%");
      } else {
        MatchLits(Body(q), true, s[i..]);
      }
    }
  }

  /** A supported pattern without an escape is answered exactly by its scan. */
  lemma ScanAnswersLike(pattern: string, s: string)
    requires !Classify(pattern).Unsupported? && !HasEscape(pattern)
    ensures Scan(pattern, s) <==> Like(pattern, s)
  {
    hide Like;
    NoEscapeBody(pattern);
    match Classify(pattern)
    case Exact => LikeExact(pattern, s);
    case Prefix => LikePrefix(pattern, s);
    case Contains => LikeContains(pattern, s);
  }

  lemma NoEscapeBody(pattern: string)
    requires !Classify(pattern).Unsupported? && !HasEscape(pattern)
    ensures !Classify(pattern).Exact? ==> Body(Needle(pattern)) == Needle(pattern) && !OpenEnd(Needle(pattern))
    ensures Classify(pattern).Exact? ==> pattern == if OpenEnd(pattern) then Body(pattern) + "\\" else Body(pattern)
  {
    var q := Needle(pattern);
    if Classify(pattern).Exact? {
      var front := pattern[..|pattern| - 1];
      BodyShorter(front);
      assert pattern == front + [pattern[|pattern| - 1]];
      BodyAppend(front, pattern[|pattern| - 1]);
    } else {
      if Classify(pattern).Prefix? {
        assert q == pattern[..|pattern| - 1];
      } else {
        assert q == pattern[..|pattern| - 1][1..];
      }
      BodyShorter(q);
    }
  }

  lemma {:induction false} BodyAppend(q: string, c: char)
    requires '\\' !in q
    ensures Body(q + [c]) == if c == '\\' then q else q + [c]
    ensures OpenEnd(q + [c]) <==> c == '\\'
  {
    if q != "" {
      assert (q + [c])[1..] == q[1..] + [c];
      BodyAppend(q[1..], c);
      assert q == [q[0]] + q[1..];
    }
  }

  /** A string on which the scan and LIKE differ. */
  function Misjudged(pattern: string): string
    requires !Classify(pattern).Unsupported?
  {
    var q := Needle(pattern);
    if !OpenEnd(q) then Body(q) else Body(q) + if Classify(pattern).Exact? then "\\" else "%"
  }

  /** With an escape the scan is wrong: LIKE matches the unescaped text, which is shorter
      than what the scan looks for. */
  lemma EscapeMisjudged(pattern: string)
    requires !Classify(pattern).Unsupported? && HasEscape(pattern)
    ensures Like(pattern, Misjudged(pattern)) && !Scan(pattern, Misjudged(pattern))
  {
    hide Like, Body, OpenEnd;
    var q, s := Needle(pattern), Misjudged(pattern);
    NeedleShape(pattern);
    BodyShorter(q);
    assert s[0..] == s;
    match Classify(pattern)
    case Exact =>
      LikeExact(pattern, s);
      if OpenEnd(pattern) {
        EscapedShorter(pattern);
      }
    case Prefix => LikePrefix(pattern, s);
    case Contains => LikeContains(pattern, s);
  }

  lemma {:induction false} EscapedShorter(q: string)
    requires OpenEnd(q)
    ensures |Body(q)| + 1 <= |q| && (|Body(q)| + 1 == |q| ==> '\\' !in q[..|q| - 1])
  {
    if |q| > 1 {
      if q[0] == '\\' {
        EscapedShorter(q[2..]);
      } else {
        EscapedShorter(q[1..]);
        assert q[..|q| - 1] == [q[0]] + q[1..][..|q| - 2];
      }
    }
  }

  /** So the scan answers LIKE on every string exactly for patterns without an escape. */
  lemma SoundIff(pattern: string)
    requires !Classify(pattern).Unsupported?
    ensures (forall s :: Scan(pattern, s) <==> Like(pattern, s)) <==> !HasEscape(pattern)
  {
    hide Like, Scan, Classify;
    if HasEscape(pattern) {
      EscapeMisjudged(pattern);
    } else {
      forall s ensures Scan(pattern, s) <==> Like(pattern, s) {
        ScanAnswersLike(pattern, s);
      }
    }
  }
}
