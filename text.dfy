/**
 * The string operations the lookup engine relies on: whitespace trimming
 * (Python's str.strip()), whitespace splitting (str.split() with no
 * separator) and substring containment (the `in` operator on strings).
 * Strings are sequences of code points.
 */
module Text {

  /** The code points for which Python's str.isspace() holds; strip() and split() use this set. */
  predicate IsWhitespace(c: char) {
    var n := c as int;
    (9 <= n <= 13) || (28 <= n <= 32) || n == 0x85 || n == 0xA0 || n == 0x1680
    || (0x2000 <= n <= 0x200A) || n == 0x2028 || n == 0x2029 || n == 0x202F
    || n == 0x205F || n == 0x3000
  }

  predicate AllWhitespace(s: string) {
    forall i | 0 <= i < |s| :: IsWhitespace(s[i])
  }

  predicate NoWhitespace(s: string) {
    forall i | 0 <= i < |s| :: !IsWhitespace(s[i])
  }

  // ---------------------------------------------------------------- strip

  /** Drops the leading whitespace (str.lstrip()). */
  function TrimStart(s: string): (r: string)
    ensures |r| <= |s|
  {
    if s != [] && IsWhitespace(s[0]) then TrimStart(s[1..]) else s
  }

  /** What TrimStart drops is all whitespace, and what it keeps does not start with whitespace. */
  lemma {:induction false} TrimStartSpec(s: string)
    ensures var r := TrimStart(s);
      r == s[|s| - |r|..] && AllWhitespace(s[..|s| - |r|]) && (r == [] || !IsWhitespace(r[0]))
    decreases |s|
  {
    if s != [] && IsWhitespace(s[0]) {
      TrimStartSpec(s[1..]);
      var r := TrimStart(s);
      assert s[1..][|s| - 1 - |r|..] == s[|s| - |r|..];
      forall k | 0 <= k < |s| - |r| ensures IsWhitespace(s[k]) {
        if k > 0 { assert s[k] == s[1..][..|s| - 1 - |r|][k - 1]; }
      }
    }
  }

  /** Drops the trailing whitespace (str.rstrip()). */
  function TrimEnd(s: string): (r: string)
    ensures |r| <= |s|
  {
    if s != [] && IsWhitespace(s[|s| - 1]) then TrimEnd(s[..|s| - 1]) else s
  }

  /** What TrimEnd drops is all whitespace, and what it keeps does not end with whitespace. */
  lemma {:induction false} TrimEndSpec(s: string)
    ensures var r := TrimEnd(s);
      r == s[..|r|] && AllWhitespace(s[|r|..]) && (r == [] || !IsWhitespace(r[|r| - 1]))
    decreases |s|
  {
    if s != [] && IsWhitespace(s[|s| - 1]) {
      var p := s[..|s| - 1];
      TrimEndSpec(p);
      var r := TrimEnd(s);
      assert p[..|r|] == s[..|r|];
      forall k | |r| <= k < |s| ensures IsWhitespace(s[k]) {
        if k < |s| - 1 { assert s[k] == p[|r|..][k - |r|]; }
      }
    }
  }

  /** Number of leading whitespace characters that strip() removes. */
  function StripOffset(s: string): nat {
    |s| - |TrimStart(s)|
  }

  /** str.strip(): the query with the whitespace at both ends removed. */
  function Strip(s: string): (r: string)
    ensures StripOffset(s) + |r| <= |s|
  {
    TrimEnd(TrimStart(s))
  }

  /**
   * The stripped string is a contiguous piece of the input framed by
   * whitespace only, and it neither starts nor ends with whitespace.
   */
  lemma StripSpec(s: string)
    ensures var r, i := Strip(s), StripOffset(s);
      r == s[i..i + |r|] && AllWhitespace(s[..i]) && AllWhitespace(s[i + |r|..])
      && (r == [] || (!IsWhitespace(r[0]) && !IsWhitespace(r[|r| - 1])))
  {
    var t := TrimStart(s);
    var r := TrimEnd(t);
    var i := |s| - |t|;
    TrimStartSpec(s);
    TrimEndSpec(t);
    assert t == s[i..];
    assert r == t[..|r|] == s[i..i + |r|];
    assert s[i + |r|..] == t[|r|..];
    if r != [] {
      assert r[0] == t[0];
    }
  }

  /** Stripping twice is stripping once. */
  lemma StripIdempotent(s: string)
    ensures Strip(Strip(s)) == Strip(s)
  {
    StripSpec(s);
    var r := Strip(s);
    assert TrimStart(r) == r;
    assert TrimEnd(r) == r;
  }

  /** Strip yields the empty string exactly on all-whitespace input. */
  lemma StripEmptyIff(s: string)
    ensures Strip(s) == [] <==> AllWhitespace(s)
  {
    StripSpec(s);
    TrimStartSpec(s);
    var t := TrimStart(s);
    if Strip(s) == [] {
      assert AllWhitespace(t[0..]);
      assert t == [];
      assert s[..|s|] == s;
    } else {
      assert s[StripOffset(s)] == Strip(s)[0];
    }
  }

  // ---------------------------------------------------------------- substring

  /**
   * `needle in hay` for Python strings: the needle is a prefix of the
   * haystack or of one of its suffixes.
   */
  function Contains(hay: string, needle: string): (found: bool)
    ensures needle <= hay ==> found
    ensures found ==> |needle| <= |hay|
    decreases |hay|
  {
    if needle <= hay then true
    else if hay == [] then false
    else Contains(hay[1..], needle)
  }

  /** The needle occurs at some offset of the haystack exactly when Contains holds. */
  lemma {:induction false} ContainsIff(hay: string, needle: string)
    ensures Contains(hay, needle) <==> exists i | 0 <= i <= |hay| :: needle <= hay[i..]
    decreases |hay|
  {
    if needle <= hay {
      assert needle <= hay[0..];
    } else if hay == [] {
    } else {
      ContainsIff(hay[1..], needle);
      assert forall i | 1 <= i <= |hay| :: hay[1..][i - 1..] == hay[i..];
      if exists i | 0 <= i <= |hay| :: needle <= hay[i..] {
        var i :| 0 <= i <= |hay| && needle <= hay[i..];
        assert i != 0;
        assert needle <= hay[1..][i - 1..];
      }
    }
  }

  /** The empty string occurs in every string. */
  lemma ContainsEmpty(hay: string)
    ensures Contains(hay, [])
  {
    assert [] <= hay;
  }

  /** A substring of a substring is a substring. */
  lemma ContainsTransitive(a: string, b: string, c: string)
    requires Contains(a, b) && Contains(b, c)
    ensures Contains(a, c)
  {
    ContainsIff(a, b);
    ContainsIff(b, c);
    ContainsIff(a, c);
    var i :| 0 <= i <= |a| && b <= a[i..];
    var j :| 0 <= j <= |b| && c <= b[j..];
    assert c <= a[i + j..] by {
      forall k | 0 <= k < |c| ensures c[k] == a[i + j..][k] {
        assert c[k] == b[j + k] == a[i..][j + k];
      }
    }
  }

  /** An occurrence of a whitespace-free needle covers no whitespace of the haystack. */
  lemma OccurrenceAvoidsWhitespace(s: string, t: string, i: nat, p: nat)
    requires i <= |s| && t <= s[i..] && NoWhitespace(t)
    requires p < |s| && IsWhitespace(s[p])
    ensures p < i || i + |t| <= p
  {
  }

  /** An occurrence that ends before `b` starts lies in `a`. */
  lemma OccurrenceInLeft(a: string, b: string, t: string, i: nat)
    requires i + |t| <= |a| && t <= (a + b)[i..]
    ensures Contains(a, t)
  {
    assert t <= a[i..] by {
      forall k | 0 <= k < |t| ensures t[k] == a[i..][k] {
        assert (a + b)[i + k] == a[i + k];
      }
    }
    ContainsIff(a, t);
  }

  /** Both parts occur in `a + " " + b`. */
  lemma JoinHoldsParts(a: string, b: string)
    ensures Contains(a + " " + b, a) && Contains(a + " " + b, b)
  {
    var s := a + " " + b;
    assert b <= s[|a| + 1..];
    ContainsIff(s, b);
  }

  /** An occurrence of a whitespace-free word in `a + " " + b` lies in `a` or in `b`. */
  lemma JoinOccurrence(a: string, b: string, t: string)
    requires NoWhitespace(t) && Contains(a + " " + b, t)
    ensures Contains(a, t) || Contains(b, t)
  {
    var s := a + " " + b;
    var sb := " " + b;
    assert s == a + sb;
    ContainsIff(s, t);
    var i :| 0 <= i <= |s| && t <= s[i..];
    OccurrenceAvoidsWhitespace(s, t, i, |a|);
    if i + |t| <= |a| {
      OccurrenceInLeft(a, sb, t, i);
    } else {
      assert sb[1..] == b;
      assert s[i..] == b[i - |a| - 1..];
      ContainsIff(b, t);
    }
  }

  /** A whitespace-free word occurs in `a + " " + b` exactly when it occurs in `a` or in `b`. */
  lemma ContainsInJoin(a: string, b: string, t: string)
    requires NoWhitespace(t)
    ensures Contains(a + " " + b, t) <==> Contains(a, t) || Contains(b, t)
  {
    var s := a + " " + b;
    JoinHoldsParts(a, b);
    if Contains(a, t) {
      ContainsTransitive(s, a, t);
    }
    if Contains(b, t) {
      ContainsTransitive(s, b, t);
    }
    if Contains(s, t) {
      JoinOccurrence(a, b, t);
    }
  }

  /** The stripped query is a substring of the raw query. */
  lemma ContainsStrip(s: string)
    ensures Contains(s, Strip(s))
  {
    StripSpec(s);
    var r := Strip(s);
    var i := StripOffset(s);
    assert r <= s[i..];
    ContainsIff(s, r);
  }

  // ---------------------------------------------------------------- split

  /** Length of the longest whitespace-free prefix: the extent of the word that starts the string. */
  function WordEnd(s: string): (n: nat)
    ensures n <= |s|
    ensures NoWhitespace(s[..n])
    ensures n == |s| || IsWhitespace(s[n])
  {
    if s == [] || IsWhitespace(s[0]) then 0 else 1 + WordEnd(s[1..])
  }

  /**
   * str.split() with no separator: the maximal whitespace-free runs of the
   * string, in order.
   */
  function Split(s: string): (words: seq<string>)
    ensures |words| <= |s|
    decreases |s|
  {
    if s == [] then []
    else if IsWhitespace(s[0]) then Split(s[1..])
    else
      var n := WordEnd(s);
      [s[..n]] + Split(s[n..])
  }

  /** No word of a split is empty and no word holds whitespace. */
  lemma {:induction false} SplitWords(s: string)
    ensures forall w | w in Split(s) :: w != [] && NoWhitespace(w)
    decreases |s|
  {
    if s != [] {
      if IsWhitespace(s[0]) {
        SplitWords(s[1..]);
      } else {
        SplitWords(s[WordEnd(s)..]);
      }
    }
  }

  /** A word runs to the end of a string that holds no whitespace. */
  lemma {:induction false} WordEndWhole(w: string)
    requires NoWhitespace(w)
    ensures WordEnd(w) == |w|
    decreases |w|
  {
    if w != [] {
      assert NoWhitespace(w[1..]) by {
        forall k | 0 <= k < |w| - 1 ensures !IsWhitespace(w[1..][k]) {
          assert w[1..][k] == w[k + 1];
        }
      }
      WordEndWhole(w[1..]);
    }
  }

  /**
   * A non-empty run without whitespace is one word: words are maximal runs.
   * With SplitConcat and SplitAfterWhitespace this fixes Split on every string.
   */
  lemma SplitWord(w: string)
    requires w != [] && NoWhitespace(w)
    ensures Split(w) == [w]
  {
    WordEndWhole(w);
    assert w[..|w|] == w;
    assert w[|w|..] == [];
  }

  /** An all-whitespace string splits into no words, and only such a string does. */
  lemma {:induction false} SplitEmptyIff(s: string)
    ensures Split(s) == [] <==> AllWhitespace(s)
    decreases |s|
  {
    if s != [] {
      if IsWhitespace(s[0]) {
        SplitEmptyIff(s[1..]);
        if AllWhitespace(s[1..]) {
          forall k | 0 <= k < |s| ensures IsWhitespace(s[k]) {
            if k > 0 { assert s[k] == s[1..][k - 1]; }
          }
        }
      }
    }
  }

  /** A split point at whitespace: the words of `a + b` are those of `a` followed by those of `b`. */
  lemma {:induction false} SplitConcat(a: string, b: string)
    requires b == [] || IsWhitespace(b[0])
    ensures Split(a + b) == Split(a) + Split(b)
    decreases |a|
  {
    if a == [] {
      assert a + b == b;
    } else if IsWhitespace(a[0]) {
      SplitSpaceStep(a, b);
      SplitConcat(a[1..], b);
    } else {
      var n := SplitWordStep(a, b);
      SplitConcat(a[n..], b);
      ConsAssociative(a[..n], Split(a[n..]), Split(b));
    }
  }

  lemma ConsAssociative<T>(x: T, xs: seq<T>, ys: seq<T>)
    ensures [x] + (xs + ys) == [x] + xs + ys
  {
  }

  /** A leading whitespace character of `a` is skipped in `a` and in `a + b` alike. */
  lemma SplitSpaceStep(a: string, b: string)
    requires a != [] && IsWhitespace(a[0])
    ensures Split(a) == Split(a[1..])
    ensures Split(a + b) == Split(a[1..] + b)
  {
    assert (a + b)[0] == a[0];
    assert (a + b)[1..] == a[1..] + b;
  }

  /** The first word of `a + b` is the first word of `a` when `b` starts at whitespace. */
  lemma SplitWordStep(a: string, b: string) returns (n: nat)
    requires a != [] && !IsWhitespace(a[0])
    requires b == [] || IsWhitespace(b[0])
    ensures 0 < n <= |a|
    ensures Split(a) == [a[..n]] + Split(a[n..])
    ensures Split(a + b) == [a[..n]] + Split(a[n..] + b)
  {
    n := WordEnd(a);
    var ab := a + b;
    assert ab[0] == a[0];
    WordEndConcat(a, b);
    assert ab[..n] == a[..n];
    assert ab[n..] == a[n..] + b;
  }

  lemma {:induction false} WordEndConcat(a: string, b: string)
    requires b == [] || IsWhitespace(b[0])
    ensures WordEnd(a + b) == WordEnd(a)
    decreases |a|
  {
    if a != [] && !IsWhitespace(a[0]) {
      assert (a + b)[1..] == a[1..] + b;
      WordEndConcat(a[1..], b);
    } else if a == [] {
      assert a + b == b;
    }
  }

  /** Leading whitespace produces no words. */
  lemma {:induction false} SplitAfterWhitespace(p: string, s: string)
    requires AllWhitespace(p)
    ensures Split(p + s) == Split(s)
    decreases |p|
  {
    if p == [] {
      assert p + s == s;
    } else {
      assert (p + s)[0] == p[0];
      assert (p + s)[1..] == p[1..] + s;
      SplitAfterWhitespace(p[1..], s);
    }
  }

  /** Whitespace around a string adds no words. */
  lemma SplitPadded(head: string, r: string, tail: string)
    requires AllWhitespace(head) && AllWhitespace(tail)
    ensures Split(head + r + tail) == Split(r)
  {
    assert head + r + tail == head + (r + tail);
    SplitAfterWhitespace(head, r + tail);
    assert tail == [] || IsWhitespace(tail[0]);
    SplitConcat(r, tail);
    SplitEmptyIff(tail);
  }

  /** Splitting the stripped string gives the same words as splitting the raw one. */
  lemma SplitStrip(s: string)
    ensures Split(Strip(s)) == Split(s)
  {
    StripSpec(s);
    var r := Strip(s);
    var i, j := StripOffset(s), StripOffset(s) + |Strip(s)|;
    SliceJoin(s, i, j);
    SplitPadded(s[..i], s[i..j], s[j..]);
  }

  lemma SliceJoin(s: string, i: nat, j: nat)
    requires i <= j <= |s|
    ensures s == s[..i] + s[i..j] + s[j..]
  {
  }

  /** Joining two strings with a space concatenates their words. */
  lemma SplitStripJoin(q: string, w: string)
    ensures Split(Strip(q + " " + w)) == Split(Strip(q)) + Split(Strip(w))
  {
    var sw := " " + w;
    var joined := q + " " + w;
    assert joined == q + sw;
    SplitStrip(joined);
    SplitStrip(q);
    SplitStrip(w);
    SplitJoinSpace(q, w);
  }

  /** A space between two strings separates their words. */
  lemma SplitJoinSpace(q: string, w: string)
    ensures Split(q + (" " + w)) == Split(q) + Split(w)
  {
    var sw := " " + w;
    assert sw[0] == ' ';
    SplitConcat(q, sw);
    assert AllWhitespace(" ");
    SplitAfterWhitespace(" ", w);
  }
}
