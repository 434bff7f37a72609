/**
 * The parts of Python's `str` behaviour the solver and the grid formatter
 * rely on: the ordering `<` used by `min` and `sorted`, `sorted` itself on a
 * set of strings, `str(int)`, `int(str)` and splitting at a separator.
 */
module Strings {
  import opened Wrappers

  /** Python's `a < b` on `str`: lexicographic by code point, a proper prefix first. */
  predicate LexLess(a: string, b: string)
    decreases |a|
  {
    if |a| == 0 then |b| > 0
    else if |b| == 0 then false
    else if a[0] != b[0] then a[0] < b[0]
    else LexLess(a[1..], b[1..])
  }

  lemma {:induction false} LexLessIrreflexive(a: string)
    ensures !LexLess(a, a)
  {
    if |a| > 0 {
      LexLessIrreflexive(a[1..]);
    }
  }

  lemma {:induction false} LexLessTransitive(a: string, b: string, c: string)
    requires LexLess(a, b) && LexLess(b, c)
    ensures LexLess(a, c)
  {
    if |a| > 0 && |b| > 0 && |c| > 0 && a[0] == b[0] && b[0] == c[0] {
      LexLessTransitive(a[1..], b[1..], c[1..]);
    }
  }

  lemma {:induction false} LexLessTotal(a: string, b: string)
    ensures a == b || LexLess(a, b) || LexLess(b, a)
  {
    if |a| > 0 && |b| > 0 && a[0] == b[0] {
      LexLessTotal(a[1..], b[1..]);
      if a[1..] == b[1..] {
        assert a == [a[0]] + a[1..] && b == [b[0]] + b[1..];
      }
    }
  }

  lemma LexLessAsymmetric(a: string, b: string)
    requires LexLess(a, b)
    ensures !LexLess(b, a)
  {
    if LexLess(b, a) {
      LexLessTransitive(a, b, a);
      LexLessIrreflexive(a);
    }
  }

  /** Every string in `s` other than `m` is greater than `m`. */
  predicate IsLeast(m: string, s: set<string>)
  {
    m in s && forall x :: x in s && x != m ==> LexLess(m, x)
  }

  lemma {:induction false} LeastExists(s: set<string>)
    requires s != {}
    ensures exists m :: IsLeast(m, s)
  {
    var y :| y in s;
    if s == {y} {
      assert IsLeast(y, s);
    } else {
      LeastExists(s - {y});
      var m' :| IsLeast(m', s - {y});
      LexLessTotal(y, m');
      if LexLess(y, m') {
        forall x | x in s && x != y
          ensures LexLess(y, x)
        {
          if x != m' {
            LexLessTransitive(y, m', x);
          }
        }
        assert IsLeast(y, s);
      } else {
        assert IsLeast(m', s);
      }
    }
  }

  lemma LeastUnique(s: set<string>)
    ensures forall m, n :: IsLeast(m, s) && IsLeast(n, s) ==> m == n
  {
    forall m, n | IsLeast(m, s) && IsLeast(n, s)
      ensures m == n
    {
      if m != n {
        LexLessAsymmetric(m, n);
      }
    }
  }

  /** Python's `min(s)` on a non-empty set of strings. */
  function Least(s: set<string>): (m: string)
    requires s != {}
    ensures IsLeast(m, s)
  {
    LeastExists(s);
    LeastUnique(s);
    var m :| IsLeast(m, s);
    m
  }

  /** Strictly increasing under Python's string order (hence free of duplicates). */
  predicate StrictlyAscending(r: seq<string>)
  {
    forall i, j :: 0 <= i < j < |r| ==> LexLess(r[i], r[j])
  }

  /** Python's `sorted(s)` for a set of strings. */
  function SortStrings(s: set<string>): (r: seq<string>)
    ensures |r| == |s|
    ensures forall x :: x in r <==> x in s
    ensures StrictlyAscending(r)
    decreases s
  {
    if s == {} then []
    else
      var m := Least(s);
      [m] + SortStrings(s - {m})
  }

  lemma {:induction false} AscendingDistinct(r: seq<string>)
    requires StrictlyAscending(r)
    ensures forall i, j :: 0 <= i < |r| && 0 <= j < |r| && i != j ==> r[i] != r[j]
  {
    forall i, j | 0 <= i < |r| && 0 <= j < |r| && i != j
      ensures r[i] != r[j]
    {
      if i < j {
        LexLessIrreflexive(r[i]);
      } else {
        LexLessIrreflexive(r[j]);
      }
    }
  }

  /** `sorted` puts the least element first. */
  lemma SortStringsHead(s: set<string>, m: string)
    requires IsLeast(m, s)
    ensures SortStrings(s) == [m] + SortStrings(s - {m})
  {
    LeastUnique(s);
  }

  /** The head of a strictly ascending sequence is the least of its elements. */
  lemma AscendingHead(r: seq<string>, s: set<string>)
    requires StrictlyAscending(r) && r != []
    requires forall x :: x in r <==> x in s
    ensures IsLeast(r[0], s)
  {
    forall x | x in s && x != r[0]
      ensures LexLess(r[0], x)
    {
      var j :| 0 <= j < |r| && r[j] == x;
      assert j != 0;
    }
  }

  /** Dropping the head of a strictly ascending sequence drops its least element. */
  lemma AscendingTail(r: seq<string>, s: set<string>)
    requires StrictlyAscending(r) && r != []
    requires forall x :: x in r <==> x in s
    ensures StrictlyAscending(r[1..])
    ensures forall x :: x in r[1..] <==> x in s - {r[0]}
  {
    AscendingDistinct(r);
    forall x
      ensures x in r[1..] <==> x in s - {r[0]}
    {
      if x in r[1..] {
        var j :| 1 <= j < |r| && r[j] == x;
      }
      if x in s - {r[0]} {
        var j :| 0 <= j < |r| && r[j] == x;
        assert j != 0;
        assert r[1..][j - 1] == x;
      }
    }
  }

  /**
   * A strictly ascending sequence is determined by its elements: `sorted`
   * is the only such arrangement of a set.
   */
  lemma {:induction false} AscendingUnique(r: seq<string>, s: set<string>)
    requires StrictlyAscending(r)
    requires forall x :: x in r <==> x in s
    ensures r == SortStrings(s)
    decreases |r|
  {
    if r == [] {
      assert s == {};
    } else {
      AscendingHead(r, s);
      AscendingTail(r, s);
      AscendingUnique(r[1..], s - {r[0]});
      SortStringsHead(s, r[0]);
      assert r == [r[0]] + r[1..];
    }
  }

  // ---------------------------------------------------------------- numerals

  predicate IsDigit(c: char)
  {
    '0' <= c <= '9'
  }

  function DigitChar(d: nat): (c: char)
    requires d < 10
    ensures IsDigit(c)
  {
    "0123456789"[d]
  }

  /** Decimal digits of `n`, most significant first, no leading zeros. */
  function NatToString(n: nat): (s: string)
    ensures |s| > 0 && forall i :: 0 <= i < |s| ==> IsDigit(s[i])
    decreases n
  {
    if n < 10 then [DigitChar(n)] else NatToString(n / 10) + [DigitChar(n % 10)]
  }

  /** Python's `str(n)` for an `int`. */
  function IntToString(n: int): (s: string)
    ensures |s| > 0 && IsDigit(s[|s| - 1])
    ensures forall i :: 0 <= i < |s| ==> IsDigit(s[i]) || s[i] == '-'
  {
    if n < 0 then "-" + NatToString(-n) else NatToString(n)
  }

  predicate AllDigits(s: string)
  {
    |s| > 0 && forall i :: 0 <= i < |s| ==> IsDigit(s[i])
  }

  function DigitsValue(s: string): nat
    requires forall i :: 0 <= i < |s| ==> IsDigit(s[i])
    decreases |s|
  {
    if s == [] then 0
    else
      assert IsDigit(s[|s| - 1]);
      DigitsValue(s[..|s| - 1]) * 10 + (s[|s| - 1] as int - '0' as int)
  }

  /** The characters Python's `int()` strips around its argument (`str.isspace`). */
  predicate IsSpace(c: char)
  {
    || '\t' <= c <= '\r'
    || '\U{1c}' <= c <= ' '
    || c == '\U{85}' || c == '\U{a0}' || c == '\U{1680}'
    || '\U{2000}' <= c <= '\U{200a}'
    || c == '\U{2028}' || c == '\U{2029}' || c == '\U{202f}' || c == '\U{205f}' || c == '\U{3000}'
  }

  function StripLeft(s: string): (r: string)
    ensures |r| <= |s|
    ensures |r| > 0 ==> !IsSpace(r[0])
    decreases |s|
  {
    if |s| > 0 && IsSpace(s[0]) then StripLeft(s[1..]) else s
  }

  function StripRight(s: string): (r: string)
    ensures |r| <= |s|
    ensures |r| > 0 ==> !IsSpace(r[|r| - 1])
    decreases |s|
  {
    if |s| > 0 && IsSpace(s[|s| - 1]) then StripRight(s[..|s| - 1]) else s
  }

  /**
   * Python's `int(s)` on a `str`: optional surrounding whitespace, an
   * optional sign, then one or more decimal digits; `None` where Python
   * raises `ValueError`.
   */
  function ParseInt(s: string): Option<int>
  {
    ParseSigned(StripRight(StripLeft(s)))
  }

  function ParseSigned(t: string): Option<int>
  {
    if |t| > 0 && (t[0] == '+' || t[0] == '-') then
      if AllDigits(t[1..]) then
        var magnitude: int := DigitsValue(t[1..]);
        Some(if t[0] == '-' then -magnitude else magnitude)
      else None
    else if AllDigits(t) then Some(DigitsValue(t))
    else None
  }

  lemma {:induction false} NatToStringValue(n: nat)
    ensures DigitsValue(NatToString(n)) == n
    decreases n
  {
    var s := NatToString(n);
    if n >= 10 {
      NatToStringValue(n / 10);
      assert s[..|s| - 1] == NatToString(n / 10);
    }
  }

  lemma StripUnpadded(s: string)
    requires |s| > 0 && !IsSpace(s[0]) && !IsSpace(s[|s| - 1])
    ensures StripRight(StripLeft(s)) == s
  {
    assert StripLeft(s) == s;
  }

  lemma ParseDigits(t: string)
    requires AllDigits(t)
    ensures ParseSigned(t) == Some(DigitsValue(t))
  {
    assert IsDigit(t[0]);
  }

  lemma ParseNegative(t: string)
    requires |t| > 1 && t[0] == '-' && AllDigits(t[1..])
    ensures ParseSigned(t) == Some(0 - DigitsValue(t[1..]))
  {
  }

  /** `int(str(n)) == n`: the house number printed in a row reads back as itself. */
  lemma IntToStringRoundTrip(n: int)
    ensures ParseInt(IntToString(n)) == Some(n)
  {
    var s := IntToString(n);
    StripUnpadded(s);
    if n < 0 {
      var d := NatToString(-n);
      NatToStringValue(-n);
      assert s == "-" + d;
      assert s[1..] == d;
      ParseNegative(s);
    } else {
      NatToStringValue(n);
      ParseDigits(s);
    }
  }

  // ---------------------------------------------------------------- splitting

  /**
   * Splitting at the first occurrence of `sep`, as `s.split(sep, 1)` does;
   * `None` when `sep` does not occur.
   */
  function SplitFirst(s: string, sep: char): (r: Option<(string, string)>)
    ensures r.None? <==> sep !in s
    ensures r.Some? ==> s == r.value.0 + [sep] + r.value.1 && sep !in r.value.0
    decreases |s|
  {
    if s == [] then None
    else if s[0] == sep then Some(([], s[1..]))
    else match SplitFirst(s[1..], sep)
      case None => None
      case Some((l, rest)) => Some(([s[0]] + l, rest))
  }

  /** The split is determined: any `l + [sep] + r` with no `sep` in `l` splits back into `l` and `r`. */
  lemma {:induction false} SplitFirstJoin(l: string, sep: char, r: string)
    requires sep !in l
    ensures SplitFirst(l + [sep] + r, sep) == Some((l, r))
    decreases |l|
  {
    var s := l + [sep] + r;
    if l == [] {
      assert s[0] == sep && s[1..] == r;
    } else {
      assert s[0] == l[0] && s[1..] == l[1..] + [sep] + r;
      SplitFirstJoin(l[1..], sep, r);
      assert [l[0]] + l[1..] == l;
    }
  }
}
