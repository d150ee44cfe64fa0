/** Models of the calls into Go's `strings` package made by closure.go,
    each specialised to the arguments closure.go passes. */
module GoStrings {

  /** `strings.TrimLeft(s, cutset)` for a one-character cutset `c`:
      drops the maximal leading run of `c`. */
  function TrimLeft(s: string, c: char): (r: string)
    ensures |r| <= |s| && r == s[|s| - |r|..]
    ensures forall k :: 0 <= k < |s| - |r| ==> s[k] == c
    ensures r == [] || r[0] != c
    decreases |s|
  {
    if |s| > 0 && s[0] == c then
      var r := TrimLeft(s[1..], c);
      assert forall k :: 1 <= k < |s| - |r| ==> s[k] == s[1..][k - 1];
      r
    else s
  }

  /** `strings.TrimRight(s, cutset)` for a one-character cutset `c`:
      drops the maximal trailing run of `c`. */
  function TrimRight(s: string, c: char): (r: string)
    ensures |r| <= |s| && r == s[..|r|]
    ensures forall k :: |r| <= k < |s| ==> s[k] == c
    ensures r == [] || r[|r| - 1] != c
    decreases |s|
  {
    if |s| > 0 && s[|s| - 1] == c then
      var r := TrimRight(s[..|s| - 1], c);
      assert forall k :: |r| <= k < |s| - 1 ==> s[k] == s[..|s| - 1][k];
      r
    else s
  }

  /** `strings.Trim(s, cutset)` for a one-character cutset: both end runs
      of `c` go; which end is trimmed first makes no difference. */
  function Trim(s: string, c: char): (r: string)
    ensures |r| <= |s|
    ensures c !in s ==> r == s
  {
    var l := TrimLeft(s, c);
    assert |l| < |s| ==> s[0] == c;
    TrimRight(l, c)
  }

  /** Trim removes exactly the maximal runs of `c` at both ends: whatever
      decomposition `p + m + q` has all-`c` ends and a middle that neither
      starts nor ends with `c` yields `m`. */
  lemma TrimUnique(p: string, m: string, q: string, c: char)
    requires forall k :: 0 <= k < |p| ==> p[k] == c
    requires forall k :: 0 <= k < |q| ==> q[k] == c
    requires m == [] || (m[0] != c && m[|m| - 1] != c)
    ensures Trim(p + m + q, c) == m
  {
    var s := p + m + q;
    var l := TrimLeft(s, c);
    var i := |s| - |l|;
    assert forall k :: 0 <= k < |p| ==> s[k] == c;
    assert forall k :: |p| + |m| <= k < |s| ==> s[k] == c;
    if m == [] {
      assert l == [];
    } else {
      assert s[|p|] == m[0];
      assert l != [] ==> l[0] == s[i];
      assert i == |p|;
      assert l == m + q;
      var r := TrimRight(l, c);
      assert l[|m| - 1] == m[|m| - 1];
      assert forall k :: |m| <= k < |l| ==> l[k] == c;
      assert r != [] ==> r[|r| - 1] == l[|r| - 1];
      assert |r| == |m|;
      assert r == l[..|m|] == m;
    }
  }

  /** `strings.Replace(s, "\\\"", "\"", -1)`: scanning left to right without
      overlap, every backslash followed by a double quote becomes a double
      quote. The result equals the input exactly when there is no such pair. */
  function UnescapeQuotes(s: string): (r: string)
    ensures |r| <= |s|
    ensures r == s <==> forall i :: 0 <= i < |s| - 1 ==> !(s[i] == '\\' && s[i + 1] == '"')
    decreases |s|
  {
    if |s| >= 2 && s[0] == '\\' && s[1] == '"' then
      "\"" + UnescapeQuotes(s[2..])
    else if s == [] then
      s
    else
      var t := UnescapeQuotes(s[1..]);
      assert forall i :: 1 <= i < |s| - 1 ==> s[i] == s[1..][i - 1] && s[i + 1] == s[1..][i];
      [s[0]] + t
  }

  /** Unescaping works piece by piece: it distributes over a concatenation
      unless the cut separates a backslash from the quote after it. With
      `UnescapeQuotesPieces` this fixes the result on every input. */
  lemma {:induction false} UnescapeQuotesConcat(a: string, b: string)
    requires !(a != [] && a[|a| - 1] == '\\' && b != [] && b[0] == '"')
    ensures UnescapeQuotes(a + b) == UnescapeQuotes(a) + UnescapeQuotes(b)
    decreases |a|
  {
    var ab := a + b;
    if a == [] {
      assert ab == b;
    } else if |a| >= 2 && a[0] == '\\' && a[1] == '"' {
      assert ab[0] == '\\' && ab[1] == '"' && ab[2..] == a[2..] + b;
      UnescapeQuotesConcat(a[2..], b);
      calc {
        UnescapeQuotes(ab);
        "\"" + UnescapeQuotes(a[2..] + b);
        "\"" + (UnescapeQuotes(a[2..]) + UnescapeQuotes(b));
        { ConcatAssoc("\"", UnescapeQuotes(a[2..]), UnescapeQuotes(b)); }
        ("\"" + UnescapeQuotes(a[2..])) + UnescapeQuotes(b);
        UnescapeQuotes(a) + UnescapeQuotes(b);
      }
    } else if |a| == 1 {
      assert ab == [a[0]] + b && ab[1..] == b;
      assert !(|ab| >= 2 && ab[0] == '\\' && ab[1] == '"');
      assert UnescapeQuotes(ab) == [a[0]] + UnescapeQuotes(b);
      assert UnescapeQuotes(a) == [a[0]] + UnescapeQuotes(a[1..]);
      assert a[1..] == [];
    } else {
      assert ab[0] == a[0] && ab[1] == a[1] && ab[1..] == a[1..] + b;
      assert a[1..][|a| - 2] == a[|a| - 1];
      UnescapeQuotesConcat(a[1..], b);
      calc {
        UnescapeQuotes(ab);
        [a[0]] + UnescapeQuotes(a[1..] + b);
        [a[0]] + (UnescapeQuotes(a[1..]) + UnescapeQuotes(b));
        { ConcatAssoc([a[0]], UnescapeQuotes(a[1..]), UnescapeQuotes(b)); }
        ([a[0]] + UnescapeQuotes(a[1..])) + UnescapeQuotes(b);
        UnescapeQuotes(a) + UnescapeQuotes(b);
      }
    }
  }

  /** Helper: concatenation is associative. */
  lemma ConcatAssoc(x: string, y: string, z: string)
    ensures x + (y + z) == (x + y) + z
  {
  }

  /** The pieces: a backslash-quote pair becomes a quote, and any single
      character stays as it is. */
  lemma UnescapeQuotesPieces(c: char)
    ensures UnescapeQuotes("\\\"") == "\""
    ensures UnescapeQuotes([c]) == [c]
  {
  }

  /** An escaped quote right after a bare one: `a"\"b` becomes `a""b`. */
  lemma UnescapeQuotesAfterBareQuote()
    ensures UnescapeQuotes("a\"\\\"b") == "a\"\"b"
  {
    UnescapeQuotesPieces('a');
    UnescapeQuotesPieces('b');
    UnescapeQuotesPieces('"');
    UnescapeQuotesConcat("\\\"", "b");
    UnescapeQuotesConcat("\"", "\\\"b");
    UnescapeQuotesConcat("a", "\"\\\"b");
    assert "a\"\\\"b" == "a" + ("\"" + ("\\\"" + "b"));
    assert "a\"\"b" == "a" + ("\"" + ("\"" + "b"));
  }

  /** `strings.HasPrefix`. */
  predicate HasPrefix(s: string, prefix: string) {
    |prefix| <= |s| && s[..|prefix|] == prefix
  }

  /** `strings.TrimPrefix`: removes `prefix` once when `s` starts with it. */
  function TrimPrefix(s: string, prefix: string): (r: string)
    ensures HasPrefix(s, prefix) ==> prefix + r == s
    ensures !HasPrefix(s, prefix) ==> r == s
  {
    if HasPrefix(s, prefix) then s[|prefix|..] else s
  }

  /** Number of occurrences of `c` in `s`. */
  function Count(s: string, c: char): nat
    decreases |s|
  {
    if s == [] then 0 else (if s[0] == c then 1 else 0) + Count(s[1..], c)
  }

  /** Occurrences add up over a concatenation. */
  lemma {:induction false} CountConcat(a: string, b: string, c: char)
    ensures Count(a + b, c) == Count(a, c) + Count(b, c)
    decreases |a|
  {
    if a != [] {
      assert (a + b)[0] == a[0];
      assert (a + b)[1..] == a[1..] + b;
      calc {
        Count(a + b, c);
        (if a[0] == c then 1 else 0) + Count(a[1..] + b, c);
        { CountConcat(a[1..], b, c); }
        (if a[0] == c then 1 else 0) + Count(a[1..], c) + Count(b, c);
      }
    } else {
      assert a + b == b;
    }
  }

  /** A string without `c` has no occurrence of it. */
  lemma {:induction false} CountAbsent(s: string, c: char)
    requires c !in s
    ensures Count(s, c) == 0
    decreases |s|
  {
    if s != [] {
      assert forall x :: x in s[1..] ==> x in s;
      CountAbsent(s[1..], c);
    }
  }

  /** `strings.Join(parts, string(sep))`, the inverse of Split. */
  function Join(parts: seq<string>, sep: char): string
    requires |parts| >= 1
    decreases |parts|
  {
    if |parts| == 1 then parts[0] else parts[0] + [sep] + Join(parts[1..], sep)
  }

  /** `strings.Split(s, string(sep))`: the maximal `sep`-free pieces of `s`,
      in order; there is always one more piece than there are separators. */
  function Split(s: string, sep: char): (parts: seq<string>)
    ensures |parts| == Count(s, sep) + 1
    ensures forall p :: p in parts ==> sep !in p
    ensures Join(parts, sep) == s
    decreases |s|
  {
    if s == [] then [[]]
    else
      var tail := Split(s[1..], sep);
      if s[0] == sep then
        assert s == [sep] + s[1..];
        [[]] + tail
      else
        var parts := [[s[0]] + tail[0]] + tail[1..];
        assert tail[0] in tail;
        assert forall p :: p in tail[1..] ==> p in tail;
        JoinExtendFirst(tail, s[0], sep);
        assert s == [s[0]] + s[1..];
        parts
  }

  /** Prepending a character to the first piece prepends it to the join. */
  lemma JoinExtendFirst(parts: seq<string>, x: char, sep: char)
    requires |parts| >= 1
    ensures Join([[x] + parts[0]] + parts[1..], sep) == [x] + Join(parts, sep)
  {
    var extended := [[x] + parts[0]] + parts[1..];
    if |parts| > 1 {
      assert extended[1..] == parts[1..];
      calc {
        Join(extended, sep);
        ([x] + parts[0]) + [sep] + Join(parts[1..], sep);
        [x] + (parts[0] + [sep] + Join(parts[1..], sep));
      }
    }
  }

  /** Splitting off the last piece of a join. */
  lemma {:induction false} JoinLast(parts: seq<string>, sep: char)
    requires |parts| >= 2
    ensures Join(parts, sep) == Join(parts[..|parts| - 1], sep) + [sep] + parts[|parts| - 1]
    decreases |parts|
  {
    var n := |parts|;
    if n > 2 {
      JoinLast(parts[1..], sep);
      assert parts[1..][..n - 2] == parts[..n - 1][1..];
      assert parts[1..][n - 2] == parts[n - 1];
    }
  }

  /** `d` is the text of `s` before its first `sep`, and `s` contains `sep`. */
  predicate IsFirstSegment(s: string, d: string, sep: char) {
    |d| < |s| && s[..|d|] == d && s[|d|] == sep && sep !in d
  }

  /** `v` is the text of `s` after its last `sep`, and `s` contains `sep`. */
  predicate IsLastSegment(s: string, v: string, sep: char) {
    |v| < |s| && s[|s| - |v|..] == v && s[|s| - |v| - 1] == sep && sep !in v
  }

  /** With at least three pieces, the first piece is the text before the first
      separator, the last is the text after the last one, and they do not
      overlap: at least two separators lie between them. */
  lemma SplitEnds(s: string, sep: char)
    requires |Split(s, sep)| >= 3
    ensures IsFirstSegment(s, Split(s, sep)[0], sep)
    ensures IsLastSegment(s, Split(s, sep)[|Split(s, sep)| - 1], sep)
    ensures |Split(s, sep)[0]| + |Split(s, sep)[|Split(s, sep)| - 1]| + 2 <= |s|
  {
    JoinEnds(Split(s, sep), s, sep);
  }

  /** Helper: the ends of a join of at least three pieces whose first and
      last pieces hold no separator. */
  lemma JoinEnds(parts: seq<string>, s: string, sep: char)
    requires |parts| >= 3 && s == Join(parts, sep)
    requires forall p :: p in parts ==> sep !in p
    ensures IsFirstSegment(s, parts[0], sep)
    ensures IsLastSegment(s, parts[|parts| - 1], sep)
    ensures |parts[0]| + |parts[|parts| - 1]| + 2 <= |s|
  {
    var n := |parts|;
    assert parts[0] in parts && parts[n - 1] in parts;
    var tail := parts[1..];
    JoinLast(tail, sep);
    assert tail[n - 2] == parts[n - 1];
    var mid := Join(tail[..n - 2], sep);
    SegmentsOfJoin(s, parts[0], mid, parts[n - 1], sep);
  }

  /** Helper: the ends of `first sep mid sep last`. */
  lemma SegmentsOfJoin(s: string, first: string, mid: string, last: string, sep: char)
    requires sep !in first && sep !in last
    requires s == first + [sep] + (mid + [sep] + last)
    ensures IsFirstSegment(s, first, sep)
    ensures IsLastSegment(s, last, sep)
    ensures |first| + |last| + 2 <= |s|
  {
    assert s == first + ([sep] + mid + [sep] + last);
    assert s[..|first|] == first;
    assert s == (first + [sep] + mid + [sep]) + last;
    assert s[|s| - |last|..] == last;
  }

  /** There is only one text before the first separator. */
  lemma FirstSegmentUnique(s: string, a: string, b: string, sep: char)
    requires IsFirstSegment(s, a, sep) && IsFirstSegment(s, b, sep)
    ensures a == b
  {
    assert forall k :: 0 <= k < |a| ==> s[k] != sep;
    assert forall k :: 0 <= k < |b| ==> s[k] != sep;
  }

  /** There is only one text after the last separator. */
  lemma LastSegmentUnique(s: string, a: string, b: string, sep: char)
    requires IsLastSegment(s, a, sep) && IsLastSegment(s, b, sep)
    ensures a == b
  {
    assert forall k :: |s| - |a| <= k < |s| ==> s[k] != sep;
    assert forall k :: |s| - |b| <= k < |s| ==> s[k] != sep;
  }
}
