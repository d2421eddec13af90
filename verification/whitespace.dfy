/** Whitespace handling shared by the text utilities: Python's `str.strip()`
    and the substitution `re.sub(r"\s+", " ", s)`, together with `str.split()`
    and `" ".join(...)`, the reference that the substitution is proved against. */
module Whitespace {
  import opened CharClasses

  predicate AllSpace(s: string) {
    forall i :: 0 <= i < |s| ==> IsSpace(s[i])
  }

  predicate NoSpace(s: string) {
    forall i :: 0 <= i < |s| ==> !IsSpace(s[i])
  }

  /** A whitespace run, as a slice. */
  lemma SpaceRun(s: string, from: nat)
    requires from <= |s|
    ensures AllSpace(s[from..from + Span(IsSpace, s, from)])
  {
    var run := SpanSlice(IsSpace, s, from);
  }

  /** The leading whitespace run, as a slice. */
  lemma LeadingSpaceRun(s: string)
    ensures AllSpace(s[..Span(IsSpace, s, 0)])
  {
    SpaceRun(s, 0);
    assert s[..Span(IsSpace, s, 0)] == s[0..Span(IsSpace, s, 0)];
  }

  /** No whitespace at either end. */
  predicate IsStripped(s: string) {
    s == [] || (!IsSpace(s[0]) && !IsSpace(s[|s| - 1]))
  }

  /** Every whitespace character is a plain space and is not followed by
      another whitespace character. */
  predicate SingleSpaced(s: string) {
    forall i :: 0 <= i < |s| && IsSpace(s[i]) ==> s[i] == ' ' && (i + 1 < |s| ==> !IsSpace(s[i + 1]))
  }

  /** The whitespace normal form: stripped, and single-spaced inside. */
  predicate SpaceNormal(s: string) {
    IsStripped(s) && SingleSpaced(s)
  }

  /** Number of whitespace characters at the end of `s`. */
  function TrailingSpaces(s: string): (n: nat)
    ensures n <= |s|
    ensures n < |s| ==> !IsSpace(s[|s| - n - 1])
  {
    if s == [] || !IsSpace(s[|s| - 1]) then 0
    else
      var t := s[..|s| - 1];
      var m := TrailingSpaces(t);
      assert m < |t| ==> s[|s| - m - 2] == t[|t| - m - 1];
      1 + m
  }

  /** The characters `TrailingSpaces` counts are all whitespace. */
  lemma {:induction false} TrailingRun(s: string)
    ensures AllSpace(s[|s| - TrailingSpaces(s)..])
    decreases |s|
  {
    if s != [] && IsSpace(s[|s| - 1]) {
      var t := s[..|s| - 1];
      var n := TrailingSpaces(s);
      TrailingRun(t);
      assert s[|s| - n..] == t[|t| - (n - 1)..] + [s[|s| - 1]];
    }
  }

  /** `str.strip()`: the result is the slice of `s` that starts right after its
      leading whitespace, has no whitespace at either end, and is followed in
      `s` by whitespace only. */
  function Strip(s: string): (r: string)
    ensures IsStripped(r)
    ensures Span(IsSpace, s, 0) + |r| <= |s|
    ensures r == s[Span(IsSpace, s, 0)..Span(IsSpace, s, 0) + |r|]
    ensures AllSpace(s[Span(IsSpace, s, 0) + |r|..])
  {
    var t := s[Span(IsSpace, s, 0)..];
    TrailingRun(t);
    t[..|t| - TrailingSpaces(t)]
  }

  /** Trailing whitespace is counted exactly, whatever precedes it, provided
      the character before it is not whitespace. */
  lemma {:induction false} TrailingSpacesConcat(a: string, b: string)
    requires AllSpace(b)
    requires a != [] ==> !IsSpace(a[|a| - 1])
    ensures TrailingSpaces(a + b) == |b|
    decreases |b|
  {
    if b == [] {
      assert a + b == a;
    } else {
      assert (a + b)[..|a + b| - 1] == a + b[..|b| - 1];
      TrailingSpacesConcat(a, b[..|b| - 1]);
    }
  }

  /** Stripping removes exactly the surrounding whitespace: whatever whitespace
      is wrapped around a stripped string, `Strip` gives that string back. */
  lemma StripExact(a: string, m: string, b: string)
    requires AllSpace(a) && AllSpace(b) && IsStripped(m)
    ensures Strip(a + m + b) == m
  {
    if m == [] {
      assert a + m + b == a + b;
      StripAllSpace(a + b);
    } else {
      assert a + m + b == a + (m + b);
      StripFront(a, m + b);
      StripBack(m, b);
    }
  }

  /** A string of whitespace strips to nothing. */
  lemma StripAllSpace(s: string)
    requires AllSpace(s)
    ensures Strip(s) == []
  {
    assert s == s + [];
    SpanConcat(IsSpace, s, [], 0);
  }

  /** Leading whitespace in front of a non-space goes. */
  lemma StripFront(a: string, u: string)
    requires AllSpace(a) && u != [] && !IsSpace(u[0])
    ensures Strip(a + u) == Strip(u)
  {
    SpanConcat(IsSpace, a, u, 0);
    SpanExact(IsSpace, u, 0, 0);
    assert (a + u)[|a|..] == u;
  }

  /** Trailing whitespace after a stripped non-empty string goes. */
  lemma StripBack(m: string, b: string)
    requires AllSpace(b) && IsStripped(m) && m != []
    ensures Strip(m + b) == m
  {
    SpanExact(IsSpace, m + b, 0, 0);
    assert (m + b)[0..] == m + b;
    TrailingSpacesConcat(m, b);
    assert (m + b)[..|m|] == m;
  }

  /** A string that ends in whitespace loses at least one character. */
  lemma StripShortens(s: string)
    requires s != [] && IsSpace(s[|s| - 1])
    ensures |Strip(s)| < |s|
  {
  }

  /** `re.sub(r"\s+", " ", s)`: every maximal whitespace run becomes a single
      space; the text between runs is copied unchanged. */
  function CollapseSpaces(s: string): (r: string)
    ensures |r| <= |s|
    ensures r == [] <==> s == []
    ensures s != [] ==> (IsSpace(r[0]) <==> IsSpace(s[0]))
    decreases |s|
  {
    if s == [] then []
    else if IsSpace(s[0]) then
      var n := Span(IsSpace, s, 0);
      " " + CollapseSpaces(s[n..])
    else
      var n := Span(IsNonSpace, s, 0);
      s[..n] + CollapseSpaces(s[n..])
  }

  /** After `CollapseSpaces` every whitespace character is a plain space with
      no whitespace after it. */
  lemma {:induction false} CollapseSingleSpaced(s: string)
    ensures SingleSpaced(CollapseSpaces(s))
    decreases |s|
  {
    if s == [] {
    } else if IsSpace(s[0]) {
      var n := Span(IsSpace, s, 0);
      var rest := CollapseSpaces(s[n..]);
      CollapseSingleSpaced(s[n..]);
      SpacePrefixSingle(rest);
    } else {
      var n := Span(IsNonSpace, s, 0);
      var rest := CollapseSpaces(s[n..]);
      CollapseSingleSpaced(s[n..]);
      SpanAll(IsNonSpace, s, 0);
      WordPrefixSingle(s[..n], rest);
    }
  }

  lemma SpacePrefixSingle(rest: string)
    requires SingleSpaced(rest) && (rest != [] ==> !IsSpace(rest[0]))
    ensures SingleSpaced(" " + rest)
  {
    var r := " " + rest;
    assert forall i :: 0 < i < |r| ==> r[i] == rest[i - 1];
  }

  lemma WordPrefixSingle(w: string, rest: string)
    requires NoSpace(w) && SingleSpaced(rest)
    ensures SingleSpaced(w + rest)
  {
    var r := w + rest;
    assert forall i :: 0 <= i < |w| ==> r[i] == w[i];
    assert forall i :: |w| <= i < |r| ==> r[i] == rest[i - |w|];
  }

  /** The whitespace pass of `clean_transcript`: collapse, then strip. */
  function NormalizeSpaces(s: string): (r: string)
    ensures SpaceNormal(r)
    ensures |r| <= |s|
  {
    var c := CollapseSpaces(s);
    CollapseSingleSpaced(s);
    var r := Strip(c);
    SingleSpacedSlice(c, Span(IsSpace, c, 0), Span(IsSpace, c, 0) + |r|);
    r
  }

  /** `str.split()` with no argument: the maximal runs of non-whitespace. */
  function Tokens(s: string): (ts: seq<string>)
    ensures forall i :: 0 <= i < |ts| ==> ts[i] != [] && NoSpace(ts[i])
    decreases |s|
  {
    if s == [] then []
    else if IsSpace(s[0]) then Tokens(s[Span(IsSpace, s, 0)..])
    else
      var n := Span(IsNonSpace, s, 0);
      SpanAll(IsNonSpace, s, 0);
      [s[..n]] + Tokens(s[n..])
  }

  /** `" ".join(ts)`. */
  function JoinWords(ts: seq<string>): (s: string)
    ensures ts != [] ==> |s| >= |ts[0]| && s[..|ts[0]|] == ts[0]
  {
    if ts == [] then []
    else if |ts| == 1 then ts[0]
    else ts[0] + " " + JoinWords(ts[1..])
  }

  /** One leading whitespace character does not change the tokens. */
  lemma TokensDropSpace(s: string)
    requires s != [] && IsSpace(s[0])
    ensures Tokens(s) == Tokens(s[1..])
  {
    var n := Span(IsSpace, s, 0);
    var t := s[1..];
    SpanAll(IsSpace, s, 0);
    SpanExact(IsSpace, t, 0, n - 1);
    assert t[n - 1..] == s[n..];
    if t != [] && IsSpace(t[0]) {
      assert Tokens(t) == Tokens(t[n - 1..]);
    } else {
      assert n == 1;
    }
  }

  /** Leading whitespace does not change the tokens. */
  lemma {:induction false} TokensSkipSpaces(a: string, u: string)
    requires AllSpace(a)
    ensures Tokens(a + u) == Tokens(u)
  {
    if a != [] {
      TokensDropSpace(a + u);
      assert (a + u)[1..] == a[1..] + u;
      TokensSkipSpaces(a[1..], u);
      calc {
        Tokens(a + u);
        Tokens((a + u)[1..]);
        Tokens(a[1..] + u);
        Tokens(u);
      }
    } else {
      assert a + u == u;
    }
  }

  /** A token followed by nothing or by whitespace is split off as it is. */
  lemma TokensFront(t: string, u: string)
    requires t != [] && NoSpace(t)
    requires u != [] ==> IsSpace(u[0])
    ensures Tokens(t + u) == [t] + Tokens(u)
  {
    SpanConcat(IsNonSpace, t, u, 0);
    assert (t + u)[..|t|] == t;
    assert (t + u)[|t|..] == u;
  }

  /** A token in front that ends inside `u` is split off the same way
      whatever follows `u`. */
  lemma TokensRun(u: string, w: string, n: nat)
    requires 0 < n < |u| && n == Span(IsNonSpace, u, 0)
    ensures Tokens(u + w) == [u[..n]] + Tokens(u[n..] + w)
  {
    SpanAll(IsNonSpace, u, 0);
    SpanConcat(IsNonSpace, u[..n], u[n..] + w, 0);
    assert u + w == u[..n] + (u[n..] + w);
    assert (u + w)[..n] == u[..n];
    assert (u + w)[n..] == u[n..] + w;
  }

  /** The token step of TokensTrailingSpaces, given the claim for the rest. */
  lemma TokensTrailingRun(u: string, w: string, n: nat)
    requires 0 < n < |u| && n == Span(IsNonSpace, u, 0)
    requires Tokens(u[n..] + w) == Tokens(u[n..])
    ensures Tokens(u + w) == Tokens(u)
  {
    TokensRun(u, w, n);
    TokensRun(u, [], n);
    assert u + [] == u && u[n..] + [] == u[n..];
  }

  /** Trailing whitespace does not change the tokens. */
  lemma {:induction false} TokensTrailingSpaces(u: string, w: string)
    requires AllSpace(w)
    ensures Tokens(u + w) == Tokens(u)
    decreases |u|
  {
    if u == [] {
      assert u + w == w;
      TokensSkipSpaces(w, []);
      assert w + [] == w;
    } else if IsSpace(u[0]) {
      TokensDropSpace(u + w);
      TokensDropSpace(u);
      assert (u + w)[1..] == u[1..] + w;
      TokensTrailingSpaces(u[1..], w);
    } else {
      var n := Span(IsNonSpace, u, 0);
      if n == |u| {
        SpanAll(IsNonSpace, u, 0);
        TokensFront(u, w);
        TokensSkipSpaces(w, []);
        assert w + [] == w;
        assert u[..n] == u && u[n..] == [];
      } else {
        TokensTrailingSpaces(u[n..], w);
        TokensTrailingRun(u, w, n);
      }
    }
  }

  /** Collapsing whitespace runs keeps the tokens. */
  lemma {:induction false} TokensCollapse(s: string)
    ensures Tokens(CollapseSpaces(s)) == Tokens(s)
    decreases |s|
  {
    if s == [] {
    } else if IsSpace(s[0]) {
      var n := Span(IsSpace, s, 0);
      var rest := CollapseSpaces(s[n..]);
      TokensCollapse(s[n..]);
      TokensSkipSpaces(" ", rest);
    } else {
      var n := Span(IsNonSpace, s, 0);
      var rest := CollapseSpaces(s[n..]);
      TokensCollapse(s[n..]);
      SpanAll(IsNonSpace, s, 0);
      TokensFront(s[..n], rest);
    }
  }

  /** Stripping keeps the tokens. */
  lemma TokensStrip(s: string)
    ensures Tokens(Strip(s)) == Tokens(s)
  {
    var k := Span(IsSpace, s, 0);
    var r := Strip(s);
    assert s == s[..k] + (r + s[k + |r|..]);
    SpanAll(IsSpace, s, 0);
    TokensSkipSpaces(s[..k], r + s[k + |r|..]);
    TokensTrailingSpaces(r, s[k + |r|..]);
  }

  /** Every suffix of a single-spaced string is single-spaced. */
  lemma SingleSpacedSuffix(s: string, j: nat)
    requires SingleSpaced(s) && j <= |s|
    ensures SingleSpaced(s[j..])
  {
    SingleSpacedSlice(s, j, |s|);
    assert s[j..|s|] == s[j..];
  }

  /** Any slice of a single-spaced string is single-spaced. */
  lemma SingleSpacedSlice(s: string, j: nat, k: nat)
    requires SingleSpaced(s) && j <= k <= |s|
    ensures SingleSpaced(s[j..k])
  {
    var t := s[j..k];
    forall i | 0 <= i < |t| && IsSpace(t[i])
      ensures t[i] == ' ' && (i + 1 < |t| ==> !IsSpace(t[i + 1]))
    {
      assert t[i] == s[j + i];
      if i + 1 < |t| {
        assert t[i + 1] == s[j + i + 1];
      }
    }
  }

  /** In a string in whitespace normal form, the first token is followed by
      nothing, or by one space and the rest of the string in normal form. */
  lemma NormalFormSplit(s: string) returns (n: nat)
    requires SpaceNormal(s) && s != []
    ensures n == Span(IsNonSpace, s, 0) && 0 < n && NoSpace(s[..n])
    ensures n < |s| ==> n + 1 < |s| && s[n..] == " " + s[n + 1..] && SpaceNormal(s[n + 1..]) && !IsSpace(s[n + 1])
  {
    n := Span(IsNonSpace, s, 0);
    SpanAll(IsNonSpace, s, 0);
    if n < |s| {
      assert s[n] == ' ';
      var rest := s[n + 1..];
      assert rest[0] == s[n + 1] && rest[|rest| - 1] == s[|s| - 1];
      SingleSpacedSuffix(s, n + 1);
    }
  }

  /** The step of NormalFormIsJoin for a word followed by a space and more
      text, given the claim for that text. */
  lemma NormalFormJoinStep(s: string, n: nat)
    requires 0 < n && n + 1 < |s| && NoSpace(s[..n]) && s[n..] == " " + s[n + 1..]
    requires JoinWords(Tokens(s[n + 1..])) == s[n + 1..]
    ensures JoinWords(Tokens(s)) == s
  {
    var word, rest := s[..n], s[n + 1..];
    assert s == word + s[n..];
    TokensFront(word, s[n..]);
    TokensSkipSpaces(" ", rest);
    var ts := Tokens(rest);
    assert ts != [];
    assert ([word] + ts)[1..] == ts;
    assert JoinWords([word] + ts) == word + " " + JoinWords(ts);
  }

  /** A string in whitespace normal form is the single-space join of its tokens. */
  lemma {:induction false} NormalFormIsJoin(s: string)
    requires SpaceNormal(s)
    ensures JoinWords(Tokens(s)) == s
    decreases |s|
  {
    if s != [] {
      var n := NormalFormSplit(s);
      if n == |s| {
        assert s == s + [];
        TokensFront(s, []);
      } else {
        NormalFormIsJoin(s[n + 1..]);
        NormalFormJoinStep(s, n);
      }
    }
  }

  /** Splitting the single-space join of non-empty, space-free tokens gives
      the tokens back. */
  lemma {:induction false} TokensOfJoin(ts: seq<string>)
    requires forall i :: 0 <= i < |ts| ==> ts[i] != [] && NoSpace(ts[i])
    ensures Tokens(JoinWords(ts)) == ts
  {
    if |ts| == 1 {
      assert ts[0] == ts[0] + [];
      TokensFront(ts[0], []);
    } else if |ts| > 1 {
      var tail := ts[1..];
      var joined := JoinWords(tail);
      assert JoinWords(ts) == ts[0] + (" " + joined);
      TokensOfJoin(tail);
      TokensSkipSpaces(" ", joined);
      TokensFront(ts[0], " " + joined);
      assert ts == [ts[0]] + tail;
    }
  }

  /** The whitespace pass equals Python's `" ".join(s.split())`. */
  lemma NormalizeSpacesIsJoinOfSplit(s: string)
    ensures NormalizeSpaces(s) == JoinWords(Tokens(s))
  {
    var r := NormalizeSpaces(s);
    TokensStrip(CollapseSpaces(s));
    TokensCollapse(s);
    NormalFormIsJoin(r);
  }

  /** The whitespace pass leaves a string unchanged exactly when the string is
      already in whitespace normal form; in particular it is idempotent. */
  lemma NormalizeSpacesFixedPoint(s: string)
    ensures NormalizeSpaces(s) == s <==> SpaceNormal(s)
    ensures NormalizeSpaces(NormalizeSpaces(s)) == NormalizeSpaces(s)
  {
    if SpaceNormal(s) {
      NormalizeSpacesIsJoinOfSplit(s);
      NormalFormIsJoin(s);
    }
    var r := NormalizeSpaces(s);
    NormalizeSpacesIsJoinOfSplit(r);
    NormalFormIsJoin(r);
  }
}
