/**
 * String helpers the source takes from Go's standard library: the `<`
 * operator on strings, `strings.ToLower` (ASCII part), `strings.TrimSpace`,
 * `strings.Split` and `strings.Join`.
 */
module Text {
  import opened Sorting

  /**
   * Go's `a < b` on strings: lexicographic, a proper prefix first. Go compares
   * UTF-8 bytes, whose order agrees with the order of the code points.
   */
  predicate Less(a: string, b: string)
    decreases |a|
  {
    if |a| == 0 then |b| > 0
    else if |b| == 0 then false
    else if a[0] != b[0] then a[0] < b[0]
    else Less(a[1..], b[1..])
  }

  /** `a <= b` on strings. */
  predicate LessEq(a: string, b: string) {
    a == b || Less(a, b)
  }

  lemma {:induction false} LessIrreflexive(a: string)
    ensures !Less(a, a)
    decreases |a|
  {
    if |a| > 0 {
      LessIrreflexive(a[1..]);
    }
  }

  lemma {:induction false} LessAsymmetric(a: string, b: string)
    requires Less(a, b)
    ensures !Less(b, a)
    decreases |a|
  {
    if |a| > 0 && |b| > 0 && a[0] == b[0] {
      LessAsymmetric(a[1..], b[1..]);
    }
  }

  lemma {:induction false} LessTransitive(a: string, b: string, c: string)
    requires Less(a, b) && Less(b, c)
    ensures Less(a, c)
    decreases |a|
  {
    if |a| > 0 && a[0] == b[0] && b[0] == c[0] {
      LessTransitive(a[1..], b[1..], c[1..]);
    }
  }

  lemma {:induction false} LessTotal(a: string, b: string)
    requires a != b
    ensures Less(a, b) || Less(b, a)
    decreases |a|
  {
    if |a| > 0 && |b| > 0 && a[0] == b[0] {
      assert a == [a[0]] + a[1..] && b == [b[0]] + b[1..];
      LessTotal(a[1..], b[1..]);
    }
  }

  /** `<=` on strings is a total order, so `sort.Strings` has one possible outcome. */
  lemma LessEqTotalOrder()
    ensures TotalOrder(LessEq)
  {
    forall a, b | LessEq(a, b) && LessEq(b, a)
      ensures a == b
    {
      if a != b {
        LessAsymmetric(a, b);
      }
    }
    forall a, b, c | LessEq(a, b) && LessEq(b, c)
      ensures LessEq(a, c)
    {
      if a != b && b != c {
        LessTransitive(a, b, c);
      }
    }
    forall a, b
      ensures LessEq(a, b) || LessEq(b, a)
    {
      if a != b {
        LessTotal(a, b);
      }
    }
  }

  /** ASCII lower-casing of one character. */
  function LowerChar(c: char): char {
    if IsUpper(c) then (c as int - 'A' as int + 'a' as int) as char else c
  }

  predicate IsUpper(c: char) {
    'A' <= c <= 'Z'
  }

  /**
   * `strings.ToLower`, restricted to the ASCII letters: no upper-case letter
   * is left, each one becomes its lower-case partner 32 code points on, and
   * every other character is kept.
   */
  function Lower(s: string): (r: string)
    ensures |r| == |s|
    ensures forall i :: 0 <= i < |r| ==> !IsUpper(r[i])
    ensures forall i :: 0 <= i < |s| && IsUpper(s[i]) ==> r[i] as int == s[i] as int + 32
    ensures forall i :: 0 <= i < |s| && !IsUpper(s[i]) ==> r[i] == s[i]
  {
    seq(|s|, i requires 0 <= i < |s| => LowerChar(s[i]))
  }

  /** Lower-casing a lower-cased string changes nothing. */
  lemma LowerIdempotent(s: string)
    ensures Lower(Lower(s)) == Lower(s)
  {
  }

  /** Go's `unicode.IsSpace`: the characters `strings.TrimSpace` strips. */
  predicate IsSpace(c: char) {
    var n := c as int;
    || n == 0x09 || n == 0x0A || n == 0x0B || n == 0x0C || n == 0x0D || n == 0x20
    || n == 0x85 || n == 0xA0 || n == 0x1680
    || (0x2000 <= n <= 0x200A)
    || n == 0x2028 || n == 0x2029 || n == 0x202F || n == 0x205F || n == 0x3000
  }

  predicate AllSpace(s: string) {
    forall i :: 0 <= i < |s| ==> IsSpace(s[i])
  }

  /**
   * `strings.TrimSpace`: strips white space from both ends, leaving the
   * longest infix that neither starts nor ends with white space; empty exactly
   * when `s` is all white space.
   */
  function TrimSpace(s: string): (r: string)
    ensures |r| <= |s|
    ensures forall c :: c in r ==> c in s
    ensures |r| == 0 <==> AllSpace(s)
    ensures IsTrimmed(r)
  {
    if |s| == 0 then s
    else if IsSpace(s[0]) then TrimSpace(s[1..])
    else if IsSpace(s[|s| - 1]) then TrimSpace(s[..|s| - 1])
    else s
  }

  /** `r` is `s[i..j]`, with only white space before and after it. */
  predicate StrippedAt(s: string, r: string, i: int, j: int) {
    0 <= i <= j <= |s| && r == s[i..j] && AllSpace(s[..i]) && AllSpace(s[j..])
  }

  lemma StripFront(s: string, r: string, i: int, j: int)
    requires |s| > 0 && IsSpace(s[0]) && StrippedAt(s[1..], r, i, j)
    ensures StrippedAt(s, r, i + 1, j + 1)
  {
    assert s[1..][i..j] == s[i + 1..j + 1];
    assert s[..i + 1] == [s[0]] + s[1..][..i];
    assert s[j + 1..] == s[1..][j..];
  }

  lemma StripBack(s: string, r: string, i: int, j: int)
    requires |s| > 0 && IsSpace(s[|s| - 1]) && StrippedAt(s[..|s| - 1], r, i, j)
    ensures StrippedAt(s, r, i, j)
  {
    var n := |s| - 1;
    assert s[..n][i..j] == s[i..j];
    assert s[..n][..i] == s[..i];
    assert s[j..] == s[..n][j..] + [s[n]];
  }

  /**
   * What trimming removes: the result is an infix of `s` with only white
   * space before and after it. With `IsTrimmed`, this fixes the result.
   */
  lemma {:induction false} TrimSpaceStrips(s: string)
    ensures exists i, j :: StrippedAt(s, TrimSpace(s), i, j)
  {
    if |s| == 0 {
      assert StrippedAt(s, TrimSpace(s), 0, 0);
    } else if IsSpace(s[0]) {
      TrimSpaceStrips(s[1..]);
      var i, j :| StrippedAt(s[1..], TrimSpace(s[1..]), i, j);
      StripFront(s, TrimSpace(s[1..]), i, j);
      assert TrimSpace(s) == TrimSpace(s[1..]);
      assert StrippedAt(s, TrimSpace(s), i + 1, j + 1);
    } else if IsSpace(s[|s| - 1]) {
      TrimSpaceStrips(s[..|s| - 1]);
      var i, j :| StrippedAt(s[..|s| - 1], TrimSpace(s[..|s| - 1]), i, j);
      StripBack(s, TrimSpace(s[..|s| - 1]), i, j);
      assert TrimSpace(s) == TrimSpace(s[..|s| - 1]);
      assert StrippedAt(s, TrimSpace(s), i, j);
    } else {
      assert s[..0] == [] && s[|s|..] == [] && s[0..|s|] == s;
      assert StrippedAt(s, TrimSpace(s), 0, |s|);
    }
  }

  /** Neither starts nor ends with white space. */
  predicate IsTrimmed(s: string) {
    |s| == 0 || (!IsSpace(s[0]) && !IsSpace(s[|s| - 1]))
  }

  /** A string without white space at either end is its own trimming. */
  lemma TrimSpaceOfTrimmed(s: string)
    requires IsTrimmed(s)
    ensures TrimSpace(s) == s
  {
  }

  /** Trimming yields a trimmed string, so trimming twice is trimming once. */
  lemma TrimSpaceIdempotent(s: string)
    ensures IsTrimmed(TrimSpace(s))
    ensures TrimSpace(TrimSpace(s)) == TrimSpace(s)
  {
    TrimSpaceOfTrimmed(TrimSpace(s));
  }

  /** `strings.Join(parts, sep)`. */
  function Join(parts: seq<string>, sep: string): string
  {
    if |parts| == 0 then ""
    else if |parts| == 1 then parts[0]
    else parts[0] + sep + Join(parts[1..], sep)
  }

  /**
   * `strings.Split(s, sep)` for a one-character separator: the pieces between
   * separators, in order; there is always at least one (`Split("", c) == [""]`).
   */
  function Split(s: string, sep: char): (pieces: seq<string>)
    ensures |pieces| >= 1
    ensures forall i :: 0 <= i < |pieces| ==> sep !in pieces[i]
    ensures Join(pieces, [sep]) == s
  {
    if |s| == 0 then [""]
    else
      var rest := Split(s[1..], sep);
      if s[0] == sep then
        assert ([""] + rest)[1..] == rest;
        [""] + rest
      else
        var pieces := [[s[0]] + rest[0]] + rest[1..];
        assert pieces[1..] == rest[1..];
        assert s == [s[0]] + s[1..];
        pieces
  }

  /** Splitting a separator-free string yields that string alone. */
  lemma {:induction false} SplitNoSeparator(s: string, sep: char)
    requires sep !in s
    ensures Split(s, sep) == [s]
    decreases |s|
  {
    if |s| > 0 {
      SplitNoSeparator(s[1..], sep);
    }
  }

  /** Splitting `a + sep + b`, with no separator in `a`, yields `a` followed by the pieces of `b`. */
  lemma {:induction false} SplitAfterPiece(a: string, sep: char, b: string)
    requires sep !in a
    ensures Split(a + [sep] + b, sep) == [a] + Split(b, sep)
    decreases |a|
  {
    if |a| == 0 {
      assert a + [sep] + b == [sep] + b;
      assert ([sep] + b)[1..] == b;
    } else {
      assert (a + [sep] + b)[1..] == a[1..] + [sep] + b;
      SplitAfterPiece(a[1..], sep, b);
      assert [a[0]] + a[1..] == a;
    }
  }

  /** Split inverts Join when no piece contains the separator. */
  lemma {:induction false} SplitJoin(parts: seq<string>, sep: char)
    requires |parts| >= 1
    requires forall i :: 0 <= i < |parts| ==> sep !in parts[i]
    ensures Split(Join(parts, [sep]), sep) == parts
    decreases |parts|
  {
    if |parts| == 1 {
      SplitNoSeparator(parts[0], sep);
    } else {
      SplitJoin(parts[1..], sep);
      SplitAfterPiece(parts[0], sep, Join(parts[1..], [sep]));
      assert parts == [parts[0]] + parts[1..];
    }
  }
}
