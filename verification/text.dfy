/**
 Strings as the program sees them: Rust's `String` ordering (lexicographic by
 code point), ASCII decimal digits, and fixed-width "digit templates" in which
 the character '#' stands for one digit `[0-9]` and every other character
 stands for itself. The rotation regexes and the timestamp format are both
 such templates.
 */
module Text {

  /** `[0-9]` in a regular expression. */
  predicate IsDigit(c: char) {
    '0' <= c <= '9'
  }

  predicate AllDigits(s: string) {
    forall i :: 0 <= i < |s| ==> IsDigit(s[i])
  }

  /** No element occurs twice, as the entries of one directory. */
  predicate Distinct<T(==)>(s: seq<T>) {
    forall i, j :: 0 <= i < j < |s| ==> s[i] != s[j]
  }

  /** A sequence with a new first element has no repeats exactly when the
      tail has none and does not hold the new element. */
  lemma DistinctCons<T>(x: T, s: seq<T>)
    ensures Distinct([x] + s) <==> x !in s && Distinct(s)
  {
    var t := [x] + s;
    if x !in s && Distinct(s) {
      forall i, j | 0 <= i < j < |t|
        ensures t[i] != t[j]
      {
        assert t[j] == s[j - 1];
        if i > 0 {
          assert t[i] == s[i - 1];
        }
      }
    }
    if Distinct(t) {
      assert t[1..] == s;
      forall i, j | 0 <= i < j < |s|
        ensures s[i] != s[j]
      {
        assert s[i] == t[i + 1] && s[j] == t[j + 1];
      }
      forall j | 0 <= j < |s|
        ensures s[j] != x
      {
        assert t[0] == x && t[j + 1] == s[j];
      }
    }
  }

  /** Two sequences without repeats and without a common element join into
      one without repeats. */
  lemma DistinctConcat<T>(a: seq<T>, b: seq<T>)
    requires Distinct(a) && Distinct(b)
    requires forall x :: x in a ==> x !in b
    ensures Distinct(a + b)
  {
    var t := a + b;
    forall i, j | 0 <= i < j < |t|
      ensures t[i] != t[j]
    {
      if j < |a| {
        assert t[i] == a[i] && t[j] == a[j];
      } else if i < |a| {
        assert t[i] == a[i] && t[j] == b[j - |a|];
        assert t[j] in b;
      } else {
        assert t[i] == b[i - |a|] && t[j] == b[j - |a|];
      }
    }
  }

  /** Strict lexicographic order, the order of Rust's `Ord for String` and
      therefore of the keys of a `BTreeMap<String, _>`. */
  predicate Less(a: string, b: string)
    decreases |a|
  {
    if |a| == 0 then |b| > 0
    else |b| > 0 && (a[0] < b[0] || (a[0] == b[0] && Less(a[1..], b[1..])))
  }

  lemma {:induction false} LessIrreflexive(a: string)
    ensures !Less(a, a)
    decreases |a|
  {
    if |a| > 0 {
      LessIrreflexive(a[1..]);
    }
  }

  lemma {:induction false} LessTransitive(a: string, b: string, c: string)
    requires Less(a, b) && Less(b, c)
    ensures Less(a, c)
    decreases |a|
  {
    if |a| > 0 && a[0] == b[0] && b[0] == c[0] {
      LessTransitive(a[1..], b[1..], c[1..]);
    }
  }

  /** Any two distinct strings are ordered one way or the other. */
  lemma {:induction false} LessTotal(a: string, b: string)
    ensures a == b || Less(a, b) || Less(b, a)
    decreases |a|
  {
    if |a| > 0 && |b| > 0 && a[0] == b[0] {
      LessTotal(a[1..], b[1..]);
      if a[1..] == b[1..] {
        assert a == [a[0]] + a[1..] && b == [b[0]] + b[1..];
      }
    }
  }

  lemma {:induction false} LessAsymmetric(a: string, b: string)
    requires Less(a, b)
    ensures !Less(b, a)
  {
    if Less(b, a) {
      LessTransitive(a, b, a);
      LessIrreflexive(a);
    }
  }

  /** Comparing two strings that start with blocks of equal width compares the
      blocks first and the remainders only when the blocks agree. */
  lemma {:induction false} LessAppend(a: string, b: string, x: string, y: string)
    requires |a| == |b|
    ensures Less(a + x, b + y) <==> Less(a, b) || (a == b && Less(x, y))
    decreases |a|
  {
    if |a| > 0 {
      assert (a + x)[0] == a[0] && (b + y)[0] == b[0];
      assert (a + x)[1..] == a[1..] + x && (b + y)[1..] == b[1..] + y;
      LessAppend(a[1..], b[1..], x, y);
      if a[0] == b[0] && a[1..] == b[1..] {
        assert a == b by {
          assert a == [a[0]] + a[1..] && b == [b[0]] + b[1..];
        }
      }
    } else {
      assert a + x == x && b + y == y;
    }
  }

  /** One character against one pattern character. */
  predicate CharFits(c: char, p: char) {
    if p == '#' then IsDigit(c) else c == p
  }

  /** `s` has exactly the shape of `pattern`: a digit wherever the pattern has
      '#', and the pattern's own character everywhere else. */
  predicate Fits(s: string, pattern: string)
    decreases |s|
  {
    && |s| == |pattern|
    && (|s| == 0 || (CharFits(s[0], pattern[0]) && Fits(s[1..], pattern[1..])))
  }

  lemma {:induction false} FitsAt(s: string, pattern: string, i: nat)
    requires Fits(s, pattern) && i < |s|
    ensures CharFits(s[i], pattern[i])
    decreases i
  {
    if i > 0 {
      FitsAt(s[1..], pattern[1..], i - 1);
    }
  }

  lemma {:induction false} FitsConcat(a: string, p: string, b: string, q: string)
    requires Fits(a, p) && Fits(b, q)
    ensures Fits(a + b, p + q)
    decreases |a|
  {
    if |a| > 0 {
      assert (a + b)[1..] == a[1..] + b && (p + q)[1..] == p[1..] + q;
      FitsConcat(a[1..], p[1..], b, q);
    } else {
      assert a + b == b && p + q == q;
    }
  }

  lemma {:induction false} FitsSlice(s: string, pattern: string, i: nat, j: nat)
    requires Fits(s, pattern) && i <= j <= |s|
    ensures Fits(s[i..j], pattern[i..j])
    decreases j
  {
    if i < j {
      FitsSlice(s, pattern, i, j - 1);
      FitsAt(s, pattern, j - 1);
      FitsConcat(s[i..j - 1], pattern[i..j - 1], [s[j - 1]], [pattern[j - 1]]);
      assert s[i..j] == s[i..j - 1] + [s[j - 1]];
      assert pattern[i..j] == pattern[i..j - 1] + [pattern[j - 1]];
    }
  }

  lemma FitsPrefix(s: string, pattern: string, k: nat)
    requires Fits(s, pattern) && k <= |pattern|
    ensures Fits(s[..k], pattern[..k])
  {
    FitsSlice(s, pattern, 0, k);
    assert s[..k] == s[0..k] && pattern[..k] == pattern[0..k];
  }

  /** A run of '#' is fitted exactly by the digit strings of its length. */
  lemma {:induction false} FitsDigits(s: string, pattern: string)
    requires |s| == |pattern|
    requires forall i :: 0 <= i < |pattern| ==> pattern[i] == '#'
    ensures Fits(s, pattern) <==> AllDigits(s)
    decreases |s|
  {
    if |s| > 0 {
      FitsDigits(s[1..], pattern[1..]);
      assert AllDigits(s) <==> IsDigit(s[0]) && AllDigits(s[1..]);
    }
  }

  function Pow10(n: nat): (r: nat)
    ensures r >= 1
  {
    if n == 0 then 1 else 10 * Pow10(n - 1)
  }

  function DigitChar(d: nat): (c: char)
    requires d < 10
    ensures IsDigit(c)
  {
    ('0' as int + d) as char
  }

  function DigitOf(c: char): (d: nat)
    requires IsDigit(c)
    ensures d < 10 && DigitChar(d) == c
  {
    c as int - '0' as int
  }

  /** The `w` least significant decimal digits of `n`, most significant first:
      chrono's zero-padded numeric fields (`%Y`, `%m`, ..., `%.9f`). */
  function Pad(n: nat, w: nat): (s: string)
    ensures |s| == w && AllDigits(s)
  {
    if w == 0 then [] else Pad(n / 10, w - 1) + [DigitChar(n % 10)]
  }

  /** The number a string of decimal digits denotes. */
  function ValueOf(s: string): nat
    requires AllDigits(s)
  {
    if |s| == 0 then 0 else 10 * ValueOf(s[..|s| - 1]) + DigitOf(s[|s| - 1])
  }

  lemma {:induction false} PadValue(n: nat, w: nat)
    requires n < Pow10(w)
    ensures ValueOf(Pad(n, w)) == n
  {
    if w > 0 {
      var s := Pad(n, w);
      assert s[..w - 1] == Pad(n / 10, w - 1);
      PadValue(n / 10, w - 1);
      assert DigitOf(s[w - 1]) == n % 10;
    }
  }

  lemma {:induction false} ValuePad(s: string)
    requires AllDigits(s)
    ensures ValueOf(s) < Pow10(|s|)
    ensures Pad(ValueOf(s), |s|) == s
  {
    if |s| > 0 {
      var init := s[..|s| - 1];
      ValuePad(init);
      var v := ValueOf(s);
      assert v / 10 == ValueOf(init) && v % 10 == DigitOf(s[|s| - 1]);
      assert s == init + [s[|s| - 1]];
    }
  }

  /** Zero-padding to a common width makes string order agree with number order. */
  lemma {:induction false} PadLess(n: nat, m: nat, w: nat)
    requires n < Pow10(w) && m < Pow10(w)
    ensures Less(Pad(n, w), Pad(m, w)) <==> n < m
  {
    if w == 0 {
    } else {
      PadLess(n / 10, m / 10, w - 1);
      LessAppend(Pad(n / 10, w - 1), Pad(m / 10, w - 1), [DigitChar(n % 10)], [DigitChar(m % 10)]);
      if Pad(n / 10, w - 1) == Pad(m / 10, w - 1) {
        PadValue(n / 10, w - 1);
        PadValue(m / 10, w - 1);
      }
    }
  }

  lemma PadInjective(n: nat, m: nat, w: nat)
    requires n < Pow10(w) && m < Pow10(w)
    requires Pad(n, w) == Pad(m, w)
    ensures n == m
  {
    PadValue(n, w);
    PadValue(m, w);
  }
}
