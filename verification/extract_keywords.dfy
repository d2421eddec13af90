/** `extract_keywords(text, max_keywords)` of src/utils/text_processing.py:
    lower-case the text, cut it into words, count the words longer than three
    characters, sort them by descending count (stably, so ties keep the
    order of first occurrence) and keep the first `max_keywords`. */
module Keywords {
  import opened CharClasses

  predicate NoWord(s: string) {
    forall i :: 0 <= i < |s| ==> !IsWord(s[i])
  }

  predicate Distinct<T(==)>(s: seq<T>) {
    forall i, j :: 0 <= i < j < |s| ==> s[i] != s[j]
  }

  // ---------------------------------------------------------------------------
  // Words: re.findall(r"\b\w+\b", s)
  // ---------------------------------------------------------------------------

  /** Line 73, `re.findall(r"\b\w+\b", s)`: the maximal runs of word
      characters, in order. A match cannot start inside a run (no `\b` there)
      and the greedy `\w+` runs to the end of it. */
  function Words(s: string): (ws: seq<string>)
    ensures forall i :: 0 <= i < |ws| ==> IsWordRun(ws[i])
    decreases |s|
  {
    if s == [] then []
    else if !IsWord(s[0]) then Words(s[1..])
    else
      var n := Span(IsWord, s, 0);
      SpanAll(IsWord, s, 0);
      [s[..n]] + Words(s[n..])
  }

  /** Every character of a word comes from the text. */
  lemma {:induction false} WordsFromText(s: string)
    ensures forall i, j :: 0 <= i < |Words(s)| && 0 <= j < |Words(s)[i]| ==> Words(s)[i][j] in s
    decreases |s|
  {
    if s == [] {
    } else if !IsWord(s[0]) {
      WordsFromText(s[1..]);
      assert forall c :: c in s[1..] ==> c in s;
    } else {
      var n := Span(IsWord, s, 0);
      WordsFromText(s[n..]);
      assert forall c :: c in s[n..] ==> c in s;
      assert forall c :: c in s[..n] ==> c in s;
      var ws := Words(s);
      assert ws == [s[..n]] + Words(s[n..]);
      forall i, j | 0 <= i < |ws| && 0 <= j < |ws[i]|
        ensures ws[i][j] in s
      {
        if i == 0 {
          assert ws[i][j] in s[..n];
        } else {
          assert ws[i] == Words(s[n..])[i - 1];
        }
      }
    }
  }

  /** No word character touches the stretch of `n` characters at `k` of `s`,
      on either side: what the two `\b` of the pattern demand. */
  predicate Bounded(s: string, k: nat, n: nat) {
    (0 < k <= |s| ==> !IsWord(s[k - 1])) && (k + n < |s| ==> !IsWord(s[k + n]))
  }

  /** `w` is a whole run of word characters of `s`: it occurs at some position
      with no word character right before or right after it. */
  ghost predicate WholeRunIn(w: string, s: string) {
    exists k: nat :: k <= |s| && w <= s[k..] && Bounded(s, k, |w|)
  }

  /** A whole run of `s[d..]` is one of `s` too, when it cannot have used the
      boundary at `d`: the character before `d` or the one at `d` is not a
      word character. */
  lemma RunShift(w: string, s: string, d: nat)
    requires 0 < d <= |s| && IsWordRun(w) && WholeRunIn(w, s[d..])
    requires !IsWord(s[d - 1]) || (d < |s| ==> !IsWord(s[d]))
    ensures WholeRunIn(w, s)
  {
    var t := s[d..];
    var k: nat :| k <= |t| && w <= t[k..] && Bounded(t, k, |w|);
    assert t[k..] == s[k + d..];
    assert w[0] == s[k + d];
    assert k + d + |w| < |s| ==> s[k + d + |w|] == t[k + |w|];
    assert 0 < k ==> s[k + d - 1] == t[k - 1];
    assert Bounded(s, k + d, |w|);
  }

  /** The run at the front of `s` is a whole run of it. */
  lemma FirstRun(s: string, n: nat)
    requires n <= |s| && (n < |s| ==> !IsWord(s[n]))
    ensures WholeRunIn(s[..n], s)
  {
    assert s[..n] <= s[0..];
    assert Bounded(s, 0, n);
  }

  /** Each word `re.findall` returns is a whole run of word characters of the
      text, taken from it as it stands. */
  lemma {:induction false} WordsAreRuns(s: string)
    ensures forall i :: 0 <= i < |Words(s)| ==> WholeRunIn(Words(s)[i], s)
    decreases |s|
  {
    if s == [] {
    } else if !IsWord(s[0]) {
      WordsAreRuns(s[1..]);
      var ws := Words(s[1..]);
      assert Words(s) == ws;
      forall i | 0 <= i < |ws|
        ensures WholeRunIn(ws[i], s)
      {
        assert WholeRunIn(ws[i], s[1..]);
        RunShift(ws[i], s, 1);
      }
    } else {
      var n := Span(IsWord, s, 0);
      WordsAreRuns(s[n..]);
      var ws := Words(s);
      assert ws == [s[..n]] + Words(s[n..]);
      forall i | 0 <= i < |ws|
        ensures WholeRunIn(ws[i], s)
      {
        if i == 0 {
          FirstRun(s, n);
        } else {
          assert ws[i] == Words(s[n..])[i - 1];
          assert WholeRunIn(ws[i], s[n..]);
          RunShift(ws[i], s, n);
        }
      }
    }
  }

  /** Text without word characters has no words. */
  lemma {:induction false} WordsOfGap(s: string)
    requires NoWord(s)
    ensures Words(s) == []
    decreases |s|
  {
    if s != [] {
      WordsOfGap(s[1..]);
    }
  }

  /** A single run of word characters is one word. */
  lemma WordsOfWord(w: string)
    requires IsWordRun(w)
    ensures Words(w) == [w]
  {
    assert w == w + [];
    SpanConcat(IsWord, w, [], 0);
    assert w[|w|..] == [];
  }

  /** A non-word character in front is skipped. */
  lemma WordsSkip(a: string, b: string)
    requires a != [] && !IsWord(a[0])
    ensures Words(a + b) == Words(a[1..] + b)
    ensures Words(a) == Words(a[1..])
  {
    assert (a + b)[0] == a[0];
    assert (a + b)[1..] == a[1..] + b;
  }

  /** A run of word characters in front that ends inside `a` is one word. */
  lemma WordsRun(a: string, b: string, m: nat)
    requires 0 < m < |a| && m == Span(IsWord, a, 0)
    ensures Words(a + b) == [a[..m]] + Words(a[m..] + b)
    ensures Words(a) == [a[..m]] + Words(a[m..])
  {
    var s := a + b;
    SpanAll(IsWord, a, 0);
    assert forall i :: 0 <= i < m ==> s[i] == a[i];
    assert s[m] == a[m];
    SpanExact(IsWord, s, 0, m);
    assert s[..m] == a[..m];
    assert s[m..] == a[m..] + b;
  }

  /** A text that is one run of word characters, followed by a non-word
      character or nothing, gives that word first. */
  lemma WordsWhole(a: string, b: string)
    requires IsWordRun(a) && (b != [] ==> !IsWord(b[0]))
    ensures Words(a + b) == [a] + Words(b)
  {
    var s := a + b;
    assert s[0] == a[0];
    SpanConcat(IsWord, a, b, 0);
    assert s[..|a|] == a;
    assert s[|a|..] == b;
  }

  /** The word-run step of WordsConcat, given the claim for the rest. */
  lemma WordsConcatRun(a: string, b: string, m: nat)
    requires 0 < m < |a| && m == Span(IsWord, a, 0)
    requires Words(a[m..] + b) == Words(a[m..]) + Words(b)
    ensures Words(a + b) == Words(a) + Words(b)
  {
    WordsRun(a, b, m);
    var w, wa, wb := a[..m], Words(a[m..]), Words(b);
    assert [w] + (wa + wb) == ([w] + wa) + wb;
  }

  /** Words split at a word boundary: the words of `a + b` are those of `a`
      followed by those of `b` when `a` and `b` do not meet inside a word. */
  lemma {:induction false} WordsConcat(a: string, b: string)
    requires a == [] || b == [] || !IsWord(a[|a| - 1]) || !IsWord(b[0])
    ensures Words(a + b) == Words(a) + Words(b)
    decreases |a|
  {
    if a == [] {
      assert a + b == b;
    } else if !IsWord(a[0]) {
      WordsSkip(a, b);
      WordsConcat(a[1..], b);
    } else {
      var m := Span(IsWord, a, 0);
      if m < |a| {
        assert a[m..][|a[m..]| - 1] == a[|a| - 1];
        WordsConcat(a[m..], b);
        WordsConcatRun(a, b, m);
      } else {
        SpanAll(IsWord, a, 0);
        WordsWhole(a, b);
        WordsOfWord(a);
      }
    }
  }

  // ---------------------------------------------------------------------------
  // Counting: the dict `word_counts` of lines 75-78
  // ---------------------------------------------------------------------------

  /** A Python dict from words to counts: `keys` is its insertion order. */
  datatype Counter = Counter(keys: seq<string>, count: map<string, nat>)

  predicate Valid(c: Counter) {
    && Distinct(c.keys)
    && (forall w :: w in c.keys ==> w in c.count)
    && (forall w :: w in c.count ==> w in c.keys)
  }

  /** `word_counts[word] = word_counts.get(word, 0) + 1`: an existing key keeps
      its place, a new key goes last. */
  function Add(c: Counter, w: string): (r: Counter)
    requires Valid(c)
    ensures Valid(r)
    ensures r.count.Keys == c.count.Keys + {w}
    ensures r.count[w] == (if w in c.count then c.count[w] else 0) + 1
    ensures forall v :: v in c.count && v != w ==> r.count[v] == c.count[v]
    ensures w in c.count ==> r.keys == c.keys
    ensures w !in c.count ==> r.keys == c.keys + [w]
  {
    if w in c.count then Counter(c.keys, c.count[w := c.count[w] + 1])
    else Counter(c.keys + [w], c.count[w := 1])
  }

  /** Whether line 77 lets `w` be counted. */
  predicate IsLong(w: string) {
    |w| > 3
  }

  /** Lines 75-78: the counts of the long words, built in order. */
  function CountLong(words: seq<string>): (c: Counter)
    ensures Valid(c)
    decreases |words|
  {
    if words == [] then Counter([], map[])
    else
      var c := CountLong(words[..|words| - 1]);
      var w := words[|words| - 1];
      if IsLong(w) then Add(c, w) else c
  }

  /** The index of the first occurrence of `w` in `s`. */
  function FirstIndex(s: seq<string>, w: string): (i: nat)
    requires w in s
    ensures i < |s| && s[i] == w && w !in s[..i]
  {
    if s[0] == w then 0
    else
      assert s[1..][..FirstIndex(s[1..], w)] == s[1..FirstIndex(s[1..], w) + 1];
      1 + FirstIndex(s[1..], w)
  }

  /** The first occurrence is the only one with no occurrence before it. */
  lemma {:induction false} FirstIndexUnique(s: seq<string>, w: string, i: nat)
    requires i < |s| && s[i] == w && w !in s[..i]
    ensures FirstIndex(s, w) == i
  {
    if i > 0 {
      assert s[0] in s[..i];
      assert s[1..][..i - 1] == s[1..i];
      assert s[..i] == [s[0]] + s[1..i];
      FirstIndexUnique(s[1..], w, i - 1);
    }
  }

  /** A longer text keeps the first occurrences it had. */
  lemma FirstIndexSnoc(s: seq<string>, x: string, w: string)
    requires w in s
    ensures w in s + [x] && FirstIndex(s + [x], w) == FirstIndex(s, w)
  {
    var i := FirstIndex(s, w);
    var t := s + [x];
    assert t[..i] == s[..i];
    FirstIndexUnique(t, w, i);
  }

  /** The dict holds exactly the long words of the text. */
  lemma {:induction false} CountLongKeys(words: seq<string>)
    ensures forall w :: w in CountLong(words).count <==> w in words && IsLong(w)
    decreases |words|
  {
    if words != [] {
      var init := words[..|words| - 1];
      var w := words[|words| - 1];
      assert words == init + [w];
      CountLongKeys(init);
    } else {
      assert CountLong(words).count == map[];
    }
  }

  /** Each long word is counted once per occurrence. */
  lemma {:induction false} CountLongCounts(words: seq<string>)
    ensures forall w :: w in CountLong(words).count ==> CountLong(words).count[w] == multiset(words)[w]
    decreases |words|
  {
    if words != [] {
      var init := words[..|words| - 1];
      var w := words[|words| - 1];
      assert words == init + [w];
      CountLongCounts(init);
      CountLongKeys(init);
      var c := CountLong(init);
      var r := CountLong(words);
      forall v | v in r.count
        ensures r.count[v] == multiset(words)[v]
      {
        assert multiset(words) == multiset(init) + multiset{w};
        if v != w {
          assert v in c.count;
        }
      }
    } else {
      assert CountLong(words).count == map[];
    }
  }

  /** `keys` are words of `words`, listed in the order they first occur. */
  predicate InFirstOrder(keys: seq<string>, words: seq<string>) {
    forall i, j :: 0 <= i < j < |keys| ==> FirstBefore(words, keys[i], keys[j])
  }

  /** `x` and `y` occur in `words`, `x` first. */
  predicate FirstBefore(words: seq<string>, x: string, y: string) {
    x in words && y in words && FirstIndex(words, x) < FirstIndex(words, y)
  }

  /** Appending a word keeps the order of the words seen so far. */
  lemma FirstOrderSnoc(keys: seq<string>, words: seq<string>, w: string)
    requires InFirstOrder(keys, words)
    ensures InFirstOrder(keys, words + [w])
  {
    forall i, j | 0 <= i < j < |keys|
      ensures FirstBefore(words + [w], keys[i], keys[j])
    {
      assert FirstBefore(words, keys[i], keys[j]);
      FirstIndexSnoc(words, w, keys[i]);
      FirstIndexSnoc(words, w, keys[j]);
    }
  }

  /** A word not seen before goes last in first-occurrence order. */
  lemma FirstOrderSnocNew(keys: seq<string>, words: seq<string>, w: string)
    requires InFirstOrder(keys, words)
    requires forall k :: k in keys ==> k in words
    requires w !in words
    ensures InFirstOrder(keys + [w], words + [w])
  {
    var t := words + [w];
    var r := keys + [w];
    assert FirstIndex(t, w) == |words| by {
      assert t[..|words|] == words;
      FirstIndexUnique(t, w, |words|);
    }
    FirstOrderSnoc(keys, words, w);
    forall i, j | 0 <= i < j < |r|
      ensures FirstBefore(t, r[i], r[j])
    {
      assert r[i] == keys[i] && keys[i] in words;
      FirstIndexSnoc(words, w, r[i]);
      if j < |keys| {
        assert r[j] == keys[j];
        assert FirstBefore(t, keys[i], keys[j]);
      } else {
        assert r[j] == w;
      }
    }
  }

  /** The insertion order of the dict is the order of first occurrence. */
  lemma {:induction false} CountLongOrder(words: seq<string>)
    ensures InFirstOrder(CountLong(words).keys, words)
    decreases |words|
  {
    if words != [] {
      var init := words[..|words| - 1];
      var w := words[|words| - 1];
      assert words == init + [w];
      CountLongOrder(init);
      CountLongKeys(init);
      var c := CountLong(init);
      if IsLong(w) && w !in c.count {
        assert forall k :: k in c.keys ==> k in init;
        FirstOrderSnocNew(c.keys, init, w);
      } else {
        FirstOrderSnoc(c.keys, init, w);
      }
    } else {
      assert CountLong(words).keys == [];
    }
  }

  // ---------------------------------------------------------------------------
  // Sorting: sorted(word_counts.items(), key=lambda x: x[1], reverse=True)
  // ---------------------------------------------------------------------------

  /** One `(word, count)` pair of `word_counts.items()`. */
  datatype Item = Item(word: string, count: nat)

  /** `word_counts.items()`, in insertion order. */
  function Items(c: Counter): (r: seq<Item>)
    requires Valid(c)
    ensures |r| == |c.keys|
    ensures forall i :: 0 <= i < |r| ==> r[i].word == c.keys[i] && r[i].count == c.count[c.keys[i]]
  {
    seq(|c.keys|, i requires 0 <= i < |c.keys| => Item(c.keys[i], c.count[c.keys[i]]))
  }

  predicate NonIncreasing(s: seq<Item>) {
    forall i, j :: 0 <= i < j < |s| ==> s[i].count >= s[j].count
  }

  /** The items with count `n`, in order. */
  function WithCount(s: seq<Item>, n: nat): seq<Item> {
    if s == [] then []
    else if s[0].count == n then [s[0]] + WithCount(s[1..], n)
    else WithCount(s[1..], n)
  }

  /** Insert `x` after the items with a larger count and before the rest. */
  function Insert(x: Item, s: seq<Item>): (r: seq<Item>)
    ensures multiset(r) == multiset(s) + multiset{x}
  {
    if s == [] || s[0].count <= x.count then [x] + s
    else
      assert s == [s[0]] + s[1..];
      [s[0]] + Insert(x, s[1..])
  }

  /** Inserting into a list sorted by descending count keeps it sorted. */
  lemma {:induction false} InsertSorted(x: Item, s: seq<Item>)
    requires NonIncreasing(s)
    ensures NonIncreasing(Insert(x, s))
  {
    var r := Insert(x, s);
    if s == [] || s[0].count <= x.count {
      forall i, j | 0 <= i < j < |r|
        ensures r[i].count >= r[j].count
      {
        if i == 0 {
          assert r[j] == s[j - 1];
          assert s[0].count >= s[j - 1].count;
        } else {
          assert r[i] == s[i - 1] && r[j] == s[j - 1];
        }
      }
    } else {
      var t := Insert(x, s[1..]);
      assert NonIncreasing(s[1..]) by {
        forall i, j | 0 <= i < j < |s[1..]|
          ensures s[1..][i].count >= s[1..][j].count
        {
          assert s[1..][i] == s[i + 1] && s[1..][j] == s[j + 1];
        }
      }
      InsertSorted(x, s[1..]);
      InsertBelowHead(x, s);
    }
  }

  /** A bound on every count survives inserting an item within it. */
  lemma {:induction false} InsertBounded(x: Item, s: seq<Item>, b: nat)
    requires x.count <= b && forall j :: 0 <= j < |s| ==> s[j].count <= b
    ensures forall j :: 0 <= j < |Insert(x, s)| ==> Insert(x, s)[j].count <= b
  {
    if s != [] && s[0].count > x.count {
      InsertBounded(x, s[1..], b);
      assert Insert(x, s) == [s[0]] + Insert(x, s[1..]);
    }
  }

  /** An item of smaller count goes below the head: the head stays on top of
      the sorted rest. */
  lemma InsertBelowHead(x: Item, s: seq<Item>)
    requires s != [] && s[0].count > x.count
    requires NonIncreasing(s) && NonIncreasing(Insert(x, s[1..]))
    ensures NonIncreasing(Insert(x, s))
  {
    var t := Insert(x, s[1..]);
    var r := Insert(x, s);
    assert r == [s[0]] + t;
    InsertBounded(x, s[1..], s[0].count);
    forall i, j | 0 <= i < j < |r|
      ensures r[i].count >= r[j].count
    {
      assert r[j] == t[j - 1];
      if i > 0 {
        assert r[i] == t[i - 1];
      }
    }
  }

  /** The sort of line 80: Python's sort is stable, also with `reverse=True`,
      so items with equal counts keep their order. */
  function SortByCount(s: seq<Item>): (r: seq<Item>)
    ensures multiset(r) == multiset(s)
    ensures NonIncreasing(r)
  {
    if s == [] then [] else
      assert s == [s[0]] + s[1..];
      InsertSorted(s[0], SortByCount(s[1..]));
      Insert(s[0], SortByCount(s[1..]))
  }

  /** An item inserted goes in front of the items with the same count. */
  lemma {:induction false} InsertWithCount(x: Item, s: seq<Item>, n: nat)
    ensures WithCount(Insert(x, s), n) == (if x.count == n then [x] else []) + WithCount(s, n)
  {
    if s == [] || s[0].count <= x.count {
      assert ([x] + s)[1..] == s;
    } else {
      InsertWithCount(x, s[1..], n);
      assert ([s[0]] + Insert(x, s[1..]))[1..] == Insert(x, s[1..]);
    }
  }

  /** The sort is stable: the items of each count are in their original
      order. */
  lemma {:induction false} SortByCountStable(s: seq<Item>, n: nat)
    ensures WithCount(SortByCount(s), n) == WithCount(s, n)
  {
    if s != [] {
      SortByCountStable(s[1..], n);
      InsertWithCount(s[0], SortByCount(s[1..]), n);
    }
  }

  /** Two items of equal count appear in `WithCount` in the order they have
      in `s`. */
  lemma {:induction false} WithCountOrder(s: seq<Item>, i: nat, j: nat) returns (p: nat, q: nat)
    requires i < j < |s| && s[i].count == s[j].count
    ensures p < q < |WithCount(s, s[i].count)|
    ensures WithCount(s, s[i].count)[p] == s[i] && WithCount(s, s[i].count)[q] == s[j]
  {
    var n := s[i].count;
    if i == 0 {
      var q' := WithCountIndex(s[1..], j - 1, n);
      p, q := 0, q' + 1;
    } else {
      var p', q' := WithCountOrder(s[1..], i - 1, j - 1);
      if s[0].count == n {
        p, q := p' + 1, q' + 1;
      } else {
        p, q := p', q';
      }
    }
  }

  /** Where an item of count `n` lands in `WithCount(s, n)`. */
  lemma {:induction false} WithCountIndex(s: seq<Item>, i: nat, n: nat) returns (p: nat)
    requires i < |s| && s[i].count == n
    ensures p < |WithCount(s, n)| && WithCount(s, n)[p] == s[i]
  {
    if i == 0 {
      p := 0;
    } else {
      var p' := WithCountIndex(s[1..], i - 1, n);
      p := if s[0].count == n then p' + 1 else p';
    }
  }

  /** Conversely, where an item of `WithCount(s, n)` sits in `s`, keeping the
      order. */
  lemma {:induction false} WithCountSource(s: seq<Item>, n: nat, p: nat, q: nat) returns (i: nat, j: nat)
    requires p < q < |WithCount(s, n)|
    ensures i < j < |s| && s[i] == WithCount(s, n)[p] && s[j] == WithCount(s, n)[q]
  {
    if s[0].count == n {
      if p == 0 {
        var j' := WithCountSourceOne(s[1..], n, q - 1);
        i, j := 0, j' + 1;
      } else {
        var i', j' := WithCountSource(s[1..], n, p - 1, q - 1);
        i, j := i' + 1, j' + 1;
      }
    } else {
      var i', j' := WithCountSource(s[1..], n, p, q);
      i, j := i' + 1, j' + 1;
    }
  }

  /** Where one item of `WithCount(s, n)` sits in `s`. */
  lemma {:induction false} WithCountSourceOne(s: seq<Item>, n: nat, p: nat) returns (i: nat)
    requires p < |WithCount(s, n)|
    ensures i < |s| && s[i] == WithCount(s, n)[p]
  {
    if s[0].count == n {
      if p == 0 {
        i := 0;
      } else {
        var i' := WithCountSourceOne(s[1..], n, p - 1);
        i := i' + 1;
      }
    } else {
      var i' := WithCountSourceOne(s[1..], n, p);
      i := i' + 1;
    }
  }

  // ---------------------------------------------------------------------------
  // The result: lines 80-82
  // ---------------------------------------------------------------------------

  /** Python's slice `s[:k]`: a negative `k` counts from the end. */
  function Take<T>(s: seq<T>, k: int): (r: seq<T>)
    ensures k >= 0 ==> |r| == if k <= |s| then k else |s|
    ensures k < 0 ==> |r| == if |s| + k >= 0 then |s| + k else 0
    ensures r == s[..|r|]
  {
    var end := if k >= 0 then k else |s| + k;
    if end <= 0 then [] else if end >= |s| then s else s[..end]
  }

  /** The words of the items. */
  function WordsOf(s: seq<Item>): (r: seq<string>)
    ensures |r| == |s| && forall i :: 0 <= i < |s| ==> r[i] == s[i].word
  {
    seq(|s|, i requires 0 <= i < |s| => s[i].word)
  }

  /** The long words of the text, most frequent first, ties in order of first
      occurrence: the whole sorted list before `max_keywords` cuts it. */
  function Ranked(text: string): (r: seq<Item>)
    ensures NonIncreasing(r)
    ensures multiset(r) == multiset(Items(CountLong(Words(LowerString(text)))))
  {
    SortByCount(Items(CountLong(Words(LowerString(text)))))
  }

  /** `extract_keywords(text, max_keywords)`, lines 61-82. */
  function ExtractKeywords(text: string, maxKeywords: int := 10): (r: seq<string>)
    ensures maxKeywords >= 0 ==> |r| <= maxKeywords
  {
    WordsOf(Take(Ranked(text), maxKeywords))
  }

  /** A limit at least the number of ranked words keeps them all, as
      `sorted_words[:None]` does for `max_keywords=None`. */
  lemma ExtractKeywordsUnlimited(text: string, maxKeywords: int)
    requires maxKeywords >= |Ranked(text)|
    ensures ExtractKeywords(text, maxKeywords) == WordsOf(Ranked(text))
  {
  }

  /** Number of occurrences of `w` among the words of the lower-cased text. */
  function Occurrences(text: string, w: string): nat {
    multiset(Words(LowerString(text)))[w]
  }

  lemma {:induction false} AtMostOnce<T>(s: seq<T>, x: T)
    requires Distinct(s)
    ensures multiset(s)[x] <= 1
  {
    if s != [] {
      assert s == [s[0]] + s[1..];
      assert Distinct(s[1..]) by {
        forall i, j | 0 <= i < j < |s[1..]|
          ensures s[1..][i] != s[1..][j]
        {
          assert s[1..][i] == s[i + 1] && s[1..][j] == s[j + 1];
        }
      }
      AtMostOnce(s[1..], x);
      if x == s[0] {
        forall k | 0 <= k < |s[1..]|
          ensures s[1..][k] != x
        {
          assert s[1..][k] == s[k + 1];
        }
      }
    }
  }

  lemma Twice<T>(s: seq<T>, i: nat, j: nat)
    requires i < j < |s| && s[i] == s[j]
    ensures multiset(s)[s[i]] >= 2
  {
    assert s == s[..j] + s[j..];
    assert s[i] in s[..j];
    assert s[j..][0] == s[j];
  }

  /** The item each ranked item was sorted from. */
  lemma RankedSource(text: string, i: nat) returns (m: nat)
    requires i < |Ranked(text)|
    ensures m < |CountLong(Words(LowerString(text))).keys|
    ensures Ranked(text)[i] == Items(CountLong(Words(LowerString(text))))[m]
  {
    var items := Items(CountLong(Words(LowerString(text))));
    assert Ranked(text)[i] in multiset(items);
    m :| 0 <= m < |items| && items[m] == Ranked(text)[i];
  }

  /** Every ranked word is a long word of the text, ranked with its number of
      occurrences. */
  lemma RankedMembers(text: string)
    ensures forall i :: 0 <= i < |Ranked(text)| ==>
              Ranked(text)[i].word in Words(LowerString(text)) && IsLong(Ranked(text)[i].word)
              && Ranked(text)[i].count == Occurrences(text, Ranked(text)[i].word)
  {
    var words := Words(LowerString(text));
    var c := CountLong(words);
    CountLongKeys(words);
    CountLongCounts(words);
    forall i | 0 <= i < |Ranked(text)|
      ensures Ranked(text)[i].word in words && IsLong(Ranked(text)[i].word)
      ensures Ranked(text)[i].count == Occurrences(text, Ranked(text)[i].word)
    {
      var m := RankedSource(text, i);
      assert c.keys[m] in c.count;
    }
  }

  /** Every long word of the text is ranked. */
  lemma RankedComplete(text: string)
    ensures forall v :: v in Words(LowerString(text)) && IsLong(v) ==> v in WordsOf(Ranked(text))
  {
    var words := Words(LowerString(text));
    var c := CountLong(words);
    var items := Items(c);
    var ranked := Ranked(text);
    CountLongKeys(words);
    forall v | v in words && IsLong(v)
      ensures v in WordsOf(ranked)
    {
      assert v in c.keys;
      var m :| 0 <= m < |c.keys| && c.keys[m] == v;
      assert items[m] in multiset(ranked);
      var t :| 0 <= t < |ranked| && ranked[t] == items[m];
      assert WordsOf(ranked)[t] == v;
    }
  }

  /** No word is ranked twice. */
  lemma RankedDistinct(text: string)
    ensures Distinct(WordsOf(Ranked(text)))
  {
    var c := CountLong(Words(LowerString(text)));
    var items := Items(c);
    var ranked := Ranked(text);
    assert Distinct(items) by {
      forall i, j | 0 <= i < j < |items|
        ensures items[i] != items[j]
      {
        assert c.keys[i] != c.keys[j];
      }
    }
    forall i, j | 0 <= i < j < |ranked|
      ensures WordsOf(ranked)[i] != WordsOf(ranked)[j]
    {
      if ranked[i].word == ranked[j].word {
        var m1 := RankedSource(text, i);
        var m2 := RankedSource(text, j);
        assert c.keys[m1] == c.keys[m2];
        Twice(ranked, i, j);
        AtMostOnce(items, ranked[i]);
        assert false;
      }
    }
  }

  /** Ranked words of equal count are in the order of their first
      occurrence in the text: the sort is stable and the dict's order is the
      order of first occurrence. */
  lemma RankedTies(text: string)
    ensures forall i, j :: 0 <= i < j < |Ranked(text)| && Ranked(text)[i].count == Ranked(text)[j].count ==>
              Ranked(text)[i].word in Words(LowerString(text)) && Ranked(text)[j].word in Words(LowerString(text)) &&
              FirstIndex(Words(LowerString(text)), Ranked(text)[i].word)
                < FirstIndex(Words(LowerString(text)), Ranked(text)[j].word)
  {
    var words := Words(LowerString(text));
    var c := CountLong(words);
    var items := Items(c);
    var ranked := Ranked(text);
    CountLongOrder(words);
    forall i, j | 0 <= i < j < |ranked| && ranked[i].count == ranked[j].count
      ensures ranked[i].word in words && ranked[j].word in words
      ensures FirstIndex(words, ranked[i].word) < FirstIndex(words, ranked[j].word)
    {
      var n := ranked[i].count;
      var p, q := WithCountOrder(ranked, i, j);
      SortByCountStable(items, n);
      var i', j' := WithCountSource(items, n, p, q);
      assert items[i'].word == c.keys[i'] && items[j'].word == c.keys[j'];
    }
  }

  /** A long word of the text. */
  predicate Qualifies(text: string, v: string) {
    v in Words(LowerString(text)) && IsLong(v)
  }

  /** The keywords are the words of the first ranked items: all of them when
      `max_keywords` is non-negative and at least their number. */
  lemma KeywordsArePrefix(text: string, maxKeywords: int)
    ensures |ExtractKeywords(text, maxKeywords)| <= |Ranked(text)|
    ensures forall i :: 0 <= i < |ExtractKeywords(text, maxKeywords)| ==>
              ExtractKeywords(text, maxKeywords)[i] == Ranked(text)[i].word
    ensures maxKeywords >= 0 && |ExtractKeywords(text, maxKeywords)| != maxKeywords ==>
              |ExtractKeywords(text, maxKeywords)| == |Ranked(text)|
  {
    var t := Take(Ranked(text), maxKeywords);
    assert forall i :: 0 <= i < |t| ==> t[i] == Ranked(text)[i];
  }

  /** The keywords are distinct lower-case words of the text longer than
      three characters. */
  lemma ExtractKeywordsWords(text: string, maxKeywords: int)
    ensures var r := ExtractKeywords(text, maxKeywords);
      && Distinct(r)
      && (forall i :: 0 <= i < |r| ==> Qualifies(text, r[i]))
      && (forall i, j :: 0 <= i < |r| && 0 <= j < |r[i]| ==> IsWord(r[i][j]) && Lower(r[i][j]) == r[i][j])
  {
    var lower := LowerString(text);
    var words := Words(lower);
    var r := ExtractKeywords(text, maxKeywords);
    KeywordsArePrefix(text, maxKeywords);
    RankedMembers(text);
    RankedDistinct(text);
    WordsFromText(lower);
    assert forall i :: 0 <= i < |r| ==> r[i] == WordsOf(Ranked(text))[i];
    forall i, j | 0 <= i < |r| && 0 <= j < |r[i]|
      ensures IsWord(r[i][j]) && Lower(r[i][j]) == r[i][j]
    {
      var m :| 0 <= m < |words| && words[m] == r[i];
      assert r[i][j] in lower;
    }
  }

  /** There are `max_keywords` keywords (for a non-negative `max_keywords`),
      unless fewer words qualify, and then every qualifying word is one. */
  lemma ExtractKeywordsCount(text: string, maxKeywords: int)
    ensures var r := ExtractKeywords(text, maxKeywords);
      maxKeywords >= 0 ==> |r| == maxKeywords || forall v :: Qualifies(text, v) ==> v in r
  {
    var r := ExtractKeywords(text, maxKeywords);
    KeywordsArePrefix(text, maxKeywords);
    if maxKeywords >= 0 && |r| != maxKeywords {
      RankedComplete(text);
      assert r == WordsOf(Ranked(text));
    }
  }

  /** The keywords come most frequent first, and keywords of equal frequency
      come in the order of their first occurrence. */
  lemma ExtractKeywordsOrder(text: string, maxKeywords: int)
    ensures var r := ExtractKeywords(text, maxKeywords);
      forall i, j :: 0 <= i < j < |r| ==> Occurrences(text, r[i]) >= Occurrences(text, r[j])
    ensures var r := ExtractKeywords(text, maxKeywords);
      var words := Words(LowerString(text));
      forall i, j :: 0 <= i < j < |r| && Occurrences(text, r[i]) == Occurrences(text, r[j]) ==>
        r[i] in words && r[j] in words && FirstIndex(words, r[i]) < FirstIndex(words, r[j])
  {
    KeywordsArePrefix(text, maxKeywords);
    RankedMembers(text);
    RankedTies(text);
  }

  /** No qualifying word left out of the keywords occurs more often than any
      keyword. */
  lemma ExtractKeywordsTopK(text: string, maxKeywords: int)
    ensures var r := ExtractKeywords(text, maxKeywords);
      forall w, v :: w in r && Qualifies(text, v) && v !in r ==> Occurrences(text, v) <= Occurrences(text, w)
  {
    var ranked := Ranked(text);
    var r := ExtractKeywords(text, maxKeywords);
    KeywordsArePrefix(text, maxKeywords);
    RankedMembers(text);
    RankedComplete(text);
    forall w, v | w in r && Qualifies(text, v) && v !in r
      ensures Occurrences(text, v) <= Occurrences(text, w)
    {
      var i :| 0 <= i < |r| && r[i] == w;
      var t :| 0 <= t < |ranked| && WordsOf(ranked)[t] == v;
      assert t >= |r|;
      assert ranked[i].count >= ranked[t].count;
    }
  }
}
