/** ASCII string helpers that stand in for the Python string methods the
    models use: `upper`, `strip`, `strip(string.letters)`, `int`, `str`,
    `<` on strings and the `in` substring test. */
module Text {
  import opened Results

  predicate IsDigit(c: char) { '0' <= c <= '9' }

  predicate IsLetter(c: char) { 'a' <= c <= 'z' || 'A' <= c <= 'Z' }

  predicate IsLower(c: char) { 'a' <= c <= 'z' }

  /** The characters Python 2's `unicode.strip()` removes (form values are
      `unicode`): the ASCII controls tab to carriage return, the separators
      U+001C to U+001F, space, U+0085, U+00A0, and the Unicode space
      separators U+1680, U+180E, U+2000 to U+200A, U+2028, U+2029, U+202F,
      U+205F and U+3000. */
  predicate IsSpace(c: char)
    ensures IsSpace(c) ==> !IsDigit(c) && !IsLetter(c)
  {
    var n := c as int;
    || 9 <= n <= 13 || 0x1C <= n <= 0x20 || n == 0x85 || n == 0xA0
    || n == 0x1680 || n == 0x180E || 0x2000 <= n <= 0x200A
    || n == 0x2028 || n == 0x2029 || n == 0x202F || n == 0x205F || n == 0x3000
  }

  predicate AllDigits(s: string) { forall i :: 0 <= i < |s| ==> IsDigit(s[i]) }

  predicate NoLower(s: string) { forall i :: 0 <= i < |s| ==> !IsLower(s[i]) }

  // ---------------------------------------------------------------------------
  // Case conversion

  function UpperChar(c: char): (r: char)
    ensures !IsLower(r)
    ensures IsSpace(r) <==> IsSpace(c)
    ensures !IsLower(c) ==> r == c
  {
    if IsLower(c) then (c as int - 32) as char else c
  }

  /** `str.upper()` restricted to ASCII. */
  function Upper(s: string): (r: string)
    ensures |r| == |s|
    ensures NoLower(r)
    ensures forall i :: 0 <= i < |s| ==> r[i] == UpperChar(s[i])
  {
    seq(|s|, i requires 0 <= i < |s| => UpperChar(s[i]))
  }

  lemma UpperOfUpperCase(s: string)
    requires NoLower(s)
    ensures Upper(s) == s
  {
  }

  // ---------------------------------------------------------------------------
  // Stripping

  /** Drops the leading characters satisfying `p`. */
  function LStripBy(s: string, p: char -> bool): (r: string)
    ensures |r| <= |s| && r == s[|s| - |r|..]
    ensures forall i :: 0 <= i < |s| - |r| ==> p(s[i])
    ensures r != [] ==> !p(r[0])
    decreases |s|
  {
    if s != [] && p(s[0]) then LStripBy(s[1..], p) else s
  }

  /** `s[i..j]` is what remains of `s` once the characters satisfying `p`
      are dropped from both ends: everything outside the slice satisfies
      `p`, and a non-empty slice neither starts nor ends with such a character. */
  predicate StripBounds(s: string, p: char -> bool, i: int, j: int)
  {
    && 0 <= i <= j <= |s|
    && (forall k :: 0 <= k < i ==> p(s[k]))
    && (forall k :: j <= k < |s| ==> p(s[k]))
    && (i < j ==> !p(s[i]) && !p(s[j - 1]))
  }

  /** The first index at or after `i` whose character does not satisfy `p`,
      or `|s|` when there is none (see `LeftEndSkips`). */
  function LeftEnd(s: string, p: char -> bool, i: nat): (k: nat)
    requires i <= |s|
    ensures i <= k <= |s|
    decreases |s| - i
  {
    if i < |s| && p(s[i]) then LeftEnd(s, p, i + 1) else i
  }

  lemma {:induction false} LeftEndSkips(s: string, p: char -> bool, i: nat)
    requires i <= |s|
    ensures forall m :: i <= m < LeftEnd(s, p, i) ==> p(s[m])
    ensures LeftEnd(s, p, i) < |s| ==> !p(s[LeftEnd(s, p, i)])
    decreases |s| - i
  {
    if i < |s| && p(s[i]) {
      LeftEndSkips(s, p, i + 1);
    }
  }

  /** The end of `s[lo..j]` once the trailing characters satisfying `p` are
      dropped (see `RightEndSkips`). */
  function RightEnd(s: string, p: char -> bool, lo: nat, j: nat): (k: nat)
    requires lo <= j <= |s|
    ensures lo <= k <= j
    decreases j - lo
  {
    if lo < j && p(s[j - 1]) then RightEnd(s, p, lo, j - 1) else j
  }

  lemma {:induction false} RightEndSkips(s: string, p: char -> bool, lo: nat, j: nat)
    requires lo <= j <= |s|
    ensures forall m :: RightEnd(s, p, lo, j) <= m < j ==> p(s[m])
    ensures lo < RightEnd(s, p, lo, j) ==> !p(s[RightEnd(s, p, lo, j) - 1])
    decreases j - lo
  {
    if lo < j && p(s[j - 1]) {
      RightEndSkips(s, p, lo, j - 1);
    }
  }

  /** Drops characters satisfying `p` from both ends. */
  function StripBy(s: string, p: char -> bool): (r: string)
    ensures exists i, j :: StripBounds(s, p, i, j) && r == s[i..j]
    ensures r != [] ==> !p(r[0]) && !p(r[|r| - 1])
  {
    var i := LeftEnd(s, p, 0);
    var j := RightEnd(s, p, i, |s|);
    LeftEndSkips(s, p, 0);
    RightEndSkips(s, p, i, |s|);
    assert StripBounds(s, p, i, j);
    s[i..j]
  }

  /** A strip is empty exactly when every character satisfies `p`. */
  lemma StripEmptyIff(s: string, p: char -> bool, i: int, j: int)
    requires StripBounds(s, p, i, j)
    ensures i < j <==> exists k :: 0 <= k < |s| && !p(s[k])
  {
    if i < j {
      assert !p(s[i]);
    }
  }

  /** The strip of a string is unique: any two strip bounds give the same text. */
  lemma StripBoundsUnique(s: string, p: char -> bool, i1: int, j1: int, i2: int, j2: int)
    requires StripBounds(s, p, i1, j1) && StripBounds(s, p, i2, j2)
    ensures s[i1..j1] == s[i2..j2]
  {
    StripEmptyIff(s, p, i1, j1);
    StripEmptyIff(s, p, i2, j2);
    if i1 < j1 {
      assert i1 == i2 && j1 == j2;
    }
  }

  /** A string that neither starts nor ends with a character satisfying `p`
      is its own strip. */
  lemma StripNothing(s: string, p: char -> bool)
    requires s != [] ==> !p(s[0]) && !p(s[|s| - 1])
    ensures StripBy(s, p) == s
  {
    assert LeftEnd(s, p, 0) == 0;
    assert RightEnd(s, p, 0, |s|) == |s|;
    assert s[0..|s|] == s;
  }

  lemma StripIdempotent(s: string, p: char -> bool)
    ensures StripBy(StripBy(s, p), p) == StripBy(s, p)
  {
    StripNothing(StripBy(s, p), p);
  }

  /** `str.strip()`: removes surrounding whitespace. */
  function Strip(s: string): (r: string)
    ensures exists i, j :: StripBounds(s, IsSpace, i, j) && r == s[i..j]
  {
    StripBy(s, IsSpace)
  }

  /** `s.upper().strip()`, the normalisation both catalogue `save` hooks
      apply: the upper-cased text between the leading and trailing
      whitespace of `s`. */
  function UpperStrip(s: string): (r: string)
    ensures NoLower(r)
    ensures exists i, j :: StripBounds(s, IsSpace, i, j) && r == Upper(s[i..j])
  {
    var u := Upper(s);
    var r := Strip(u);
    var i, j :| StripBounds(u, IsSpace, i, j) && r == u[i..j];
    UpperSlice(s, i, j);
    assert StripBounds(s, IsSpace, i, j);
    r
  }

  /** The contract of `UpperStrip` determines it: the upper-cased text
      inside any strip bounds of `s` is `UpperStrip(s)`. */
  lemma UpperStripDetermined(s: string, i: int, j: int)
    requires StripBounds(s, IsSpace, i, j)
    ensures UpperStrip(s) == Upper(s[i..j])
  {
    var i', j' :| StripBounds(s, IsSpace, i', j') && UpperStrip(s) == Upper(s[i'..j']);
    StripBoundsUnique(s, IsSpace, i, j, i', j');
  }

  lemma UpperSlice(s: string, i: nat, j: nat)
    requires i <= j <= |s|
    ensures Upper(s)[i..j] == Upper(s[i..j])
  {
    var a, b := Upper(s)[i..j], Upper(s[i..j]);
    assert |a| == |b|;
    forall k | 0 <= k < |a| ensures a[k] == b[k] {
      assert a[k] == UpperChar(s[i + k]);
    }
  }

  lemma UpperStripIdempotent(s: string)
    ensures UpperStrip(UpperStrip(s)) == UpperStrip(s)
  {
    var t := UpperStrip(s);
    UpperOfUpperCase(t);
    assert Upper(t) == t;
    StripIdempotent(Upper(s), IsSpace);
  }

  // ---------------------------------------------------------------------------
  // Decimal numbers

  function DigitChar(d: nat): (c: char)
    requires d < 10
    ensures IsDigit(c)
  {
    ('0' as int + d) as char
  }

  function DigitValue(c: char): (d: nat)
    requires IsDigit(c)
    ensures d < 10
  {
    c as int - '0' as int
  }

  /** `str(n)` for a non-negative integer: canonical, so only "0" itself
      starts with a zero. */
  function Decimal(n: nat): (r: string)
    ensures |r| > 0 && AllDigits(r)
    ensures n > 0 ==> r[0] != '0'
    ensures |r| > 1 ==> r[0] != '0'
    decreases n
  {
    if n < 10 then [DigitChar(n)]
    else
      var high := Decimal(n / 10);
      assert (high + [DigitChar(n % 10)])[0] == high[0];
      high + [DigitChar(n % 10)]
  }

  /** The value of a string of decimal digits. */
  function DigitsValue(s: string): nat
    requires AllDigits(s)
    decreases |s|
  {
    if s == [] then 0 else DigitsValue(s[..|s| - 1]) * 10 + DigitValue(s[|s| - 1])
  }

  /** `int(s)` on a string of ASCII digits; `None` stands for the `ValueError`
      Python raises on anything else. */
  function ParseNat(s: string): (r: Option<nat>)
    ensures r.Some? <==> |s| > 0 && AllDigits(s)
  {
    if |s| > 0 && AllDigits(s) then Some(DigitsValue(s)) else None
  }

  lemma {:induction false} DigitsValueOfDecimal(n: nat)
    ensures DigitsValue(Decimal(n)) == n
    decreases n
  {
    if n >= 10 {
      DigitsValueOfDecimal(n / 10);
      var s := Decimal(n);
      assert s[..|s| - 1] == Decimal(n / 10);
    }
  }

  /** Printing and parsing a natural number round-trip. */
  lemma ParseDecimal(n: nat)
    ensures ParseNat(Decimal(n)) == Some(n)
  {
    DigitsValueOfDecimal(n);
  }

  // ---------------------------------------------------------------------------
  // Lexicographic order on strings (Python's `<` on `str`)

  predicate LexLess(a: string, b: string)
    decreases |a|
  {
    if a == [] then b != []
    else if b == [] then false
    else a[0] < b[0] || (a[0] == b[0] && LexLess(a[1..], b[1..]))
  }

  /** `a` and `b` agree before index `k` and `a` has the smaller character at `k`. */
  predicate FirstDifference(a: string, b: string, k: int)
  {
    0 <= k < |a| && k < |b| && a[..k] == b[..k] && a[k] < b[k]
  }

  /** A non-empty prefix is the first character followed by a prefix of the tail. */
  lemma PrefixCons(s: string, n: int)
    requires 0 < n <= |s|
    ensures s[..n] == [s[0]] + s[1..][..n - 1]
    ensures s[..n][1..] == s[1..][..n - 1]
  {
    assert s[..n] == [s[0]] + s[1..][..n - 1];
  }

  /** Python's `<` on strings: `a` is a proper prefix of `b`, or at the first
      index where they differ `a` has the smaller character. */
  lemma {:induction false} LexLessIff(a: string, b: string)
    ensures LexLess(a, b) <==> (|a| < |b| && a == b[..|a|]) || exists k :: FirstDifference(a, b, k)
    decreases |a|
  {
    if a != [] && b != [] {
      LexLessIff(a[1..], b[1..]);
      if a[0] < b[0] {
        assert FirstDifference(a, b, 0);
      }
      if a[0] == b[0] {
        PrefixCons(a, |a|);
        if |a| < |b| {
          PrefixCons(b, |a|);
        }
        if k :| FirstDifference(a[1..], b[1..], k) {
          PrefixCons(a, k + 1);
          PrefixCons(b, k + 1);
          assert FirstDifference(a, b, k + 1);
        }
        if k :| FirstDifference(a, b, k) {
          if k > 0 {
            PrefixCons(a, k);
            PrefixCons(b, k);
            assert FirstDifference(a[1..], b[1..], k - 1);
          }
        }
      }
    } else if a == [] && b != [] {
      assert a == b[..0];
    }
  }

  lemma {:induction false} LexLessIrreflexive(a: string)
    ensures !LexLess(a, a)
    decreases |a|
  {
    if a != [] {
      LexLessIrreflexive(a[1..]);
    }
  }

  lemma {:induction false} LexLessAsymmetric(a: string, b: string)
    ensures LexLess(a, b) ==> !LexLess(b, a)
    decreases |a|
  {
    if a != [] && b != [] && a[0] == b[0] {
      LexLessAsymmetric(a[1..], b[1..]);
    }
  }

  lemma {:induction false} LexLessTransitive(a: string, b: string, c: string)
    requires LexLess(a, b) && LexLess(b, c)
    ensures LexLess(a, c)
    decreases |a|
  {
    if a != [] && b != [] && c != [] && a[0] == b[0] && b[0] == c[0] {
      LexLessTransitive(a[1..], b[1..], c[1..]);
    }
  }

  lemma {:induction false} LexLessTotal(a: string, b: string)
    ensures a == b || LexLess(a, b) || LexLess(b, a)
    decreases |a|
  {
    if a != [] && b != [] && a[0] == b[0] {
      LexLessTotal(a[1..], b[1..]);
      if a[1..] == b[1..] {
        assert a == [a[0]] + a[1..] && b == [b[0]] + b[1..];
      }
    }
  }

  // ---------------------------------------------------------------------------
  // Substrings

  predicate StartsWith(s: string, prefix: string)
  {
    |prefix| <= |s| && s[..|prefix|] == prefix
  }

  /** Python's `sub in s`. */
  predicate Contains(s: string, sub: string)
    decreases |s|
  {
    StartsWith(s, sub) || (s != [] && Contains(s[1..], sub))
  }

  lemma ContainsPrefixOf(s: string, sub: string)
    requires StartsWith(s, sub)
    ensures Contains(s, sub)
  {
  }

  /** `sub` occurs in `s` starting at index `i`. */
  predicate OccursAt(s: string, sub: string, i: int)
  {
    0 <= i && i + |sub| <= |s| && s[i..i + |sub|] == sub
  }

  /** `Contains` is the substring test: `sub` occurs somewhere in `s`. */
  lemma {:induction false} ContainsIff(s: string, sub: string)
    ensures Contains(s, sub) <==> exists i :: OccursAt(s, sub, i)
    decreases |s|
  {
    if StartsWith(s, sub) {
      assert OccursAt(s, sub, 0);
    }
    if s != [] {
      ContainsIff(s[1..], sub);
      if Contains(s[1..], sub) {
        var i :| OccursAt(s[1..], sub, i);
        assert s[i + 1..i + 1 + |sub|] == s[1..][i..i + |sub|];
        assert OccursAt(s, sub, i + 1);
      }
      if i :| OccursAt(s, sub, i) {
        if i == 0 {
          assert StartsWith(s, sub);
        } else {
          assert s[1..][i - 1..i - 1 + |sub|] == s[i..i + |sub|];
          assert OccursAt(s[1..], sub, i - 1);
        }
      }
    } else if i :| OccursAt(s, sub, i) {
      assert StartsWith(s, sub);
    }
  }

  // ---------------------------------------------------------------------------
  // Joined strings

  /** Index of the first `c` in `s`, or `|s|` when there is none. */
  function FirstIndex(s: string, c: char): (i: nat)
    ensures i <= |s|
    decreases |s|
  {
    if s == [] || s[0] == c then 0 else 1 + FirstIndex(s[1..], c)
  }

  /** Index of the last `c` in `s`, or -1 when there is none. */
  function LastIndex(s: string, c: char): (i: int)
    ensures -1 <= i < |s|
    decreases |s|
  {
    if s == [] then -1
    else if s[|s| - 1] == c then |s| - 1
    else LastIndex(s[..|s| - 1], c)
  }

  lemma {:induction false} FirstIndexOfJoin(a: string, b: string, sep: char)
    requires sep !in a
    ensures FirstIndex(a + [sep] + b, sep) == |a|
    decreases |a|
  {
    if a != [] {
      assert (a + [sep] + b)[1..] == a[1..] + [sep] + b;
      FirstIndexOfJoin(a[1..], b, sep);
    }
  }

  lemma {:induction false} LastIndexOfJoin(a: string, b: string, sep: char)
    requires sep !in b
    ensures LastIndex(a + [sep] + b, sep) == |a|
    decreases |b|
  {
    var s := a + [sep] + b;
    if b != [] {
      assert s[..|s| - 1] == a + [sep] + b[..|b| - 1];
      LastIndexOfJoin(a, b[..|b| - 1], sep);
    }
  }

  /** A string joined around a separator absent from the left part splits
      back into the same two parts. */
  lemma JoinInjectiveLeft(a1: string, b1: string, a2: string, b2: string, sep: char)
    requires sep !in a1 && sep !in a2
    requires a1 + [sep] + b1 == a2 + [sep] + b2
    ensures a1 == a2 && b1 == b2
  {
    var s := a1 + [sep] + b1;
    FirstIndexOfJoin(a1, b1, sep);
    FirstIndexOfJoin(a2, b2, sep);
    assert a1 == s[..|a1|] && a2 == s[..|a2|];
    assert b1 == s[|a1| + 1..] && b2 == s[|a2| + 1..];
  }

  /** A string joined around a separator absent from the right part splits
      back into the same two parts. */
  lemma JoinInjectiveRight(a1: string, b1: string, a2: string, b2: string, sep: char)
    requires sep !in b1 && sep !in b2
    requires a1 + [sep] + b1 == a2 + [sep] + b2
    ensures a1 == a2 && b1 == b2
  {
    var s := a1 + [sep] + b1;
    LastIndexOfJoin(a1, b1, sep);
    LastIndexOfJoin(a2, b2, sep);
    assert a1 == s[..|a1|] && a2 == s[..|a2|];
    assert b1 == s[|a1| + 1..] && b2 == s[|a2| + 1..];
  }
}
