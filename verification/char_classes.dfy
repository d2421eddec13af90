/** Character classes of Python's `re` module (str patterns) and `str.lower()`,
    as used by the transcript text utilities, plus the "maximal run" scanner
    that every greedy `X+` / `X*` in those patterns reduces to. */
module CharClasses {

  /** `\s` on a str pattern, which is exactly the set of characters for which
      `str.isspace()` holds (and which `str.strip()` removes). */
  predicate IsSpace(c: char) {
    || ('\t' <= c <= '\r')
    || ('\U{1C}' <= c <= '\U{1F}')
    || c == ' '
    || c == '\U{85}'
    || c == '\U{A0}'
    || c == '\U{1680}'
    || ('\U{2000}' <= c <= '\U{200A}')
    || c == '\U{2028}'
    || c == '\U{2029}'
    || c == '\U{202F}'
    || c == '\U{205F}'
    || c == '\U{3000}'
  }

  predicate IsNonSpace(c: char) {
    !IsSpace(c)
  }

  /** `\d`, restricted to the ASCII digits. */
  predicate IsDigit(c: char) {
    '0' <= c <= '9'
  }

  predicate IsUpper(c: char) {
    'A' <= c <= 'Z'
  }

  /** `\w`, restricted to ASCII: letters, digits and the underscore. */
  predicate IsWord(c: char) {
    IsDigit(c) || 'a' <= c <= 'z' || IsUpper(c) || c == '_'
  }

  /** One or more word characters: what `\w+` matches. */
  predicate IsWordRun(s: string) {
    s != [] && forall i :: 0 <= i < |s| ==> IsWord(s[i])
  }

  /** `str.lower()` on one character, restricted to ASCII letters. */
  function Lower(c: char): (r: char)
    ensures !IsUpper(r)
    ensures IsUpper(c) ==> r == "abcdefghijklmnopqrstuvwxyz"[c as int - 'A' as int]
    ensures IsUpper(c) ==> r != c && IsWord(r)
    ensures !IsUpper(c) ==> r == c
    ensures IsWord(r) == IsWord(c)
    ensures IsSpace(r) == IsSpace(c)
  {
    if IsUpper(c) then (c as int + 32) as char else c
  }

  /** `str.lower()` on a string. */
  function LowerString(s: string): (r: string)
    ensures |r| == |s|
    ensures forall i :: 0 <= i < |r| ==> r[i] == Lower(s[i])
    ensures forall i :: 0 <= i < |r| ==> Lower(r[i]) == r[i]
  {
    seq(|s|, i requires 0 <= i < |s| => Lower(s[i]))
  }

  /** Length of the longest run of characters satisfying `p` that starts at
      index `from` of `s`: what a greedy `p*` consumes when it starts there. */
  function Span(p: char -> bool, s: string, from: nat): (n: nat)
    requires from <= |s|
    ensures from + n <= |s|
    ensures from + n < |s| ==> !p(s[from + n])
    decreases |s| - from
  {
    if from == |s| || !p(s[from]) then 0 else 1 + Span(p, s, from + 1)
  }

  /** Every character of the run satisfies `p`. */
  lemma {:induction false} SpanAll(p: char -> bool, s: string, from: nat)
    requires from <= |s|
    ensures forall i :: from <= i < from + Span(p, s, from) ==> p(s[i])
    decreases |s| - from
  {
    if from < |s| && p(s[from]) {
      SpanAll(p, s, from + 1);
    }
  }

  /** The run itself, as a slice of `s`: every character of it satisfies `p`. */
  lemma SpanSlice(p: char -> bool, s: string, from: nat) returns (run: string)
    requires from <= |s|
    ensures from + |run| <= |s| && |run| == Span(p, s, from)
    ensures run == s[from..from + |run|]
    ensures forall i :: 0 <= i < |run| ==> p(run[i])
  {
    SpanAll(p, s, from);
    run := s[from..from + Span(p, s, from)];
    assert forall i :: 0 <= i < |run| ==> run[i] == s[from + i];
  }

  /** A run is exactly as long as the part of `a` that satisfies `p`, whatever
      follows it, provided the next character does not satisfy `p`. */
  lemma {:induction false} SpanConcat(p: char -> bool, a: string, b: string, from: nat)
    requires from <= |a|
    requires forall i :: from <= i < |a| ==> p(a[i])
    requires b != [] ==> !p(b[0])
    ensures Span(p, a + b, from) == |a| - from
    decreases |a| - from
  {
    if from < |a| {
      assert (a + b)[from] == a[from];
      SpanConcat(p, a, b, from + 1);
    } else if b != [] {
      assert (a + b)[from] == b[0];
    }
  }

  /** A run that is a whole middle part `x` of `pre + x + u` is measured
      exactly, provided `u` does not continue it. */
  lemma SpanMiddle(p: char -> bool, pre: string, x: string, u: string)
    requires forall i :: 0 <= i < |x| ==> p(x[i])
    requires u != [] ==> !p(u[0])
    ensures Span(p, pre + x + u, |pre|) == |x|
  {
    var px := pre + x;
    assert forall i :: |pre| <= i < |px| ==> px[i] == x[i - |pre|];
    SpanConcat(p, px, u, |pre|);
  }

  /** The run starting at `from` is exactly `k` long when the `k` characters
      there satisfy `p` and the next one, if any, does not. */
  lemma {:induction false} SpanExact(p: char -> bool, s: string, from: nat, k: nat)
    requires from + k <= |s|
    requires forall i :: from <= i < from + k ==> p(s[i])
    requires from + k < |s| ==> !p(s[from + k])
    ensures Span(p, s, from) == k
    decreases k
  {
    if k > 0 {
      SpanExact(p, s, from + 1, k - 1);
    }
  }
}
