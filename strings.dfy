/** Text helpers the pipeline relies on: Python's string order, ASCII
    lower-casing, `str.endswith`, the last `/`-separated component,
    `os.path.join` on relative names, and `%0Nd` zero-padded formatting. */
module Strings {

  /** Python's `a <= b` on `str`: lexicographic on code points, a proper
      prefix sorting first. */
  predicate Le(a: string, b: string)
  {
    |a| == 0 || (|b| > 0 && (a[0] < b[0] || (a[0] == b[0] && Le(a[1..], b[1..]))))
  }

  /** Python's `a < b` on `str`. */
  predicate Lt(a: string, b: string)
  {
    Le(a, b) && a != b
  }

  lemma {:induction false} LeRefl(a: string)
    ensures Le(a, a)
  {
    if |a| > 0 { LeRefl(a[1..]); }
  }

  lemma {:induction false} LeTotal(a: string, b: string)
    ensures Le(a, b) || Le(b, a)
  {
    if |a| > 0 && |b| > 0 && a[0] == b[0] { LeTotal(a[1..], b[1..]); }
  }

  lemma {:induction false} LeAntisymmetric(a: string, b: string)
    requires Le(a, b) && Le(b, a)
    ensures a == b
  {
    if |a| > 0 && |b| > 0 {
      LeAntisymmetric(a[1..], b[1..]);
      assert a == [a[0]] + a[1..] && b == [b[0]] + b[1..];
    }
  }

  lemma {:induction false} LeTransitive(a: string, b: string, c: string)
    requires Le(a, b) && Le(b, c)
    ensures Le(a, c)
  {
    if |a| > 0 && |b| > 0 && |c| > 0 && a[0] == b[0] && b[0] == c[0] {
      LeTransitive(a[1..], b[1..], c[1..]);
    }
  }

  lemma LtLeTransitive(a: string, b: string, c: string)
    requires Lt(a, b) && Le(b, c)
    ensures Lt(a, c)
  {
    LeTransitive(a, b, c);
    if a == c { LeAntisymmetric(a, b); }
  }

  /** Among strings of equal length the first difference decides, whatever follows. */
  lemma {:induction false} LtExtend(a: string, b: string, x: string, y: string)
    requires |a| == |b| && Lt(a, b)
    ensures Lt(a + x, b + y)
  {
    assert |a| > 0;
    if a[0] == b[0] {
      assert a == [a[0]] + a[1..] && b == [b[0]] + b[1..];
      LtExtend(a[1..], b[1..], x, y);
      assert (a + x)[1..] == a[1..] + x && (b + y)[1..] == b[1..] + y;
    }
  }

  /** A common prefix does not change the order. */
  lemma {:induction false} LeCommonPrefix(c: string, x: string, y: string)
    ensures Le(c + x, c + y) <==> Le(x, y)
  {
    if |c| > 0 {
      assert (c + x)[0] == c[0] && (c + y)[0] == c[0];
      assert (c + x)[1..] == c[1..] + x && (c + y)[1..] == c[1..] + y;
      LeCommonPrefix(c[1..], x, y);
    } else {
      assert c + x == x && c + y == y;
    }
  }

  /** A string is never after the strings it is a prefix of. */
  lemma {:induction false} LePrefix(c: string, x: string)
    ensures Le(c, c + x)
  {
    if |c| > 0 {
      assert (c + x)[1..] == c[1..] + x;
      LePrefix(c[1..], x);
    }
  }

  /** ASCII `str.lower` on one character. */
  function LowerChar(c: char): char
  {
    if 'A' <= c <= 'Z' then (c as int + 32) as char else c
  }

  /** `s.lower()`, restricted to ASCII letters. */
  function Lower(s: string): (r: string)
    ensures |r| == |s|
    ensures forall i :: 0 <= i < |s| ==> r[i] == LowerChar(s[i])
  {
    if |s| == 0 then [] else Lower(s[..|s| - 1]) + [LowerChar(s[|s| - 1])]
  }

  lemma LowerSnoc(s: string, c: char)
    ensures Lower(s + [c]) == Lower(s) + [LowerChar(c)]
  {
    assert (s + [c])[..|s|] == s;
  }

  /** `s.endswith(suffix)`. */
  predicate EndsWith(s: string, suffix: string)
  {
    |suffix| <= |s| && s[|s| - |suffix|..] == suffix
  }

  /** Appending a character to a string and to a suffix. */
  lemma EndsWithSnoc(s: string, c: char, suffix: string, d: char)
    ensures EndsWith(s + [c], suffix + [d]) <==> c == d && EndsWith(s, suffix)
  {
    var t, e := s + [c], suffix + [d];
    if |suffix| <= |s| {
      var u := t[|t| - |e|..];
      assert u == s[|s| - |suffix|..] + [c];
      if u == e {
        assert u[|suffix|] == c && e[|suffix|] == d;
        assert u[..|suffix|] == s[|s| - |suffix|..] && e[..|suffix|] == suffix;
      }
    }
  }

  /** Two strings that agree on ending with `suffix` agree on ending with
      `suffix + [d]` once the same character is appended to both. */
  lemma EndsWithSnocIff(s: string, t: string, c: char, suffix: string, d: char)
    requires EndsWith(s, suffix) <==> EndsWith(t, suffix)
    ensures EndsWith(s + [c], suffix + [d]) <==> EndsWith(t + [c], suffix + [d])
  {
    EndsWithSnoc(s, c, suffix, d);
    EndsWithSnoc(t, c, suffix, d);
  }

  /** `s.split('/')[-1]`: everything after the last `/`, or all of `s`. */
  function LastComponent(s: string): (r: string)
    ensures '/' !in r
    ensures |r| <= |s| && s[|s| - |r|..] == r
    ensures |r| < |s| ==> s[|s| - |r| - 1] == '/'
  {
    if |s| == 0 || s[|s| - 1] == '/' then []
    else LastComponent(s[..|s| - 1]) + [s[|s| - 1]]
  }

  /** `os.path.join(a, b)` for a relative `b`. */
  function Join(a: string, b: string): string
  {
    if |a| == 0 then b
    else if a[|a| - 1] == '/' then a + b
    else a + "/" + b
  }

  /** `os.path.join(a, b)` for any `b`: an absolute `b` discards `a`. */
  function PathJoin(a: string, b: string): string
  {
    if |b| > 0 && b[0] == '/' then b else Join(a, b)
  }

  /** Joining onto the same directory keeps different names apart. */
  lemma JoinInjective(a: string, x: string, y: string)
    requires Join(a, x) == Join(a, y)
    ensures x == y
  {
    var p := if |a| == 0 then "" else if a[|a| - 1] == '/' then a else a + "/";
    assert Join(a, x) == p + x && Join(a, y) == p + y;
    assert x == (p + x)[|p|..] && y == (p + y)[|p|..];
  }

  /** A name without `/` is its own last component, also after a `/`. */
  lemma {:induction false} LastComponentAfterSlash(x: string, b: string)
    requires '/' !in b
    ensures LastComponent(b) == b
    ensures LastComponent(x + "/" + b) == b
  {
    var s := x + "/" + b;
    if |b| > 0 {
      var b' := b[..|b| - 1];
      var c := b[|b| - 1];
      assert b == b' + [c];
      LastComponentAfterSlash(x, b');
      assert s[|s| - 1] == c && c != '/';
      assert s[..|s| - 1] == x + "/" + b';
      assert LastComponent(s) == LastComponent(x + "/" + b') + [c];
      assert LastComponent(b) == LastComponent(b') + [c];
    } else {
      assert s == x + "/";
      assert s[|s| - 1] == '/';
    }
  }

  /** The last component of a joined name is the name joined, when that has no `/`. */
  lemma LastComponentOfJoin(a: string, b: string)
    requires '/' !in b
    ensures LastComponent(Join(a, b)) == b
  {
    if |a| == 0 {
      assert Join(a, b) == b;
      LastComponentAfterSlash(a, b);
    } else if a[|a| - 1] == '/' {
      var x := a[..|a| - 1];
      assert a == x + "/";
      assert Join(a, b) == x + "/" + b;
      LastComponentAfterSlash(x, b);
    } else {
      assert Join(a, b) == a + "/" + b;
      LastComponentAfterSlash(a, b);
    }
  }

  /** The character for a decimal digit. */
  function DigitChar(d: nat): (c: char)
    requires d < 10
    ensures '0' <= c <= '9'
  {
    ('0' as int + d) as char
  }

  function Pow10(n: nat): (r: nat)
    ensures r >= 1
  {
    if n == 0 then 1 else 10 * Pow10(n - 1)
  }

  /** Python's `'%0' + str(width) + 'd' % n` for `n >= 0`: the decimal digits
      of `n`, left-padded with `0` to at least `width` characters. With
      `width <= 1` this is `'%d' % n`. */
  function Pad(n: nat, width: nat): string
    decreases n + width
  {
    if n < 10 && width <= 1 then [DigitChar(n)]
    else Pad(n / 10, if width == 0 then 0 else width - 1) + [DigitChar(n % 10)]
  }

  /** The decimal value of a digit string (the inverse of `Pad`). */
  function Value(s: string): nat
  {
    if |s| == 0 then 0
    else 10 * Value(s[..|s| - 1]) + (if '0' <= s[|s| - 1] <= '9' then s[|s| - 1] as int - '0' as int else 0)
  }

  lemma ValueAppend(p: string, d: char)
    requires '0' <= d <= '9'
    ensures Value(p + [d]) == 10 * Value(p) + (d as int - '0' as int)
  {
    assert (p + [d])[..|p|] == p;
  }

  predicate AllDigits(s: string)
  {
    forall i :: 0 <= i < |s| ==> '0' <= s[i] <= '9'
  }

  /** `%0Nd` writes only digits and reads back as the number written. */
  lemma {:induction false} PadValue(n: nat, width: nat)
    ensures AllDigits(Pad(n, width))
    ensures Value(Pad(n, width)) == n
    decreases n + width
  {
    if !(n < 10 && width <= 1) {
      var w := if width == 0 then 0 else width - 1;
      PadValue(n / 10, w);
      var p := Pad(n / 10, w);
      var d := DigitChar(n % 10);
      assert Pad(n, width) == p + [d];
      ValueAppend(p, d);
      assert d as int - '0' as int == n % 10;
      assert 10 * (n / 10) + n % 10 == n;
    } else {
      assert Pad(n, width) == [DigitChar(n)];
      assert [DigitChar(n)][..0] == [];
    }
  }

  /** Numbers below `10^width` are written in exactly `width` characters. */
  lemma {:induction false} PadLength(n: nat, width: nat)
    requires 1 <= width && n < Pow10(width)
    ensures |Pad(n, width)| == width
  {
    if width > 1 {
      PadLength(n / 10, width - 1);
    }
  }

  /** Different numbers are written differently. */
  lemma PadInjective(n: nat, m: nat, width: nat)
    requires Pad(n, width) == Pad(m, width)
    ensures n == m
  {
    PadValue(n, width);
    PadValue(m, width);
  }

  /** Below `10^width`, the string order of `%0Nd` agrees with the number order. */
  lemma {:induction false} PadOrder(n: nat, m: nat, width: nat)
    requires 1 <= width && n < m < Pow10(width)
    ensures Lt(Pad(n, width), Pad(m, width))
  {
    if width == 1 {
      assert Pad(n, 1) == [DigitChar(n)] && Pad(m, 1) == [DigitChar(m)];
    } else {
      assert Pad(n, width) == Pad(n / 10, width - 1) + [DigitChar(n % 10)];
      assert Pad(m, width) == Pad(m / 10, width - 1) + [DigitChar(m % 10)];
      PadLength(n / 10, width - 1);
      PadLength(m / 10, width - 1);
      if n / 10 < m / 10 {
        PadOrder(n / 10, m / 10, width - 1);
        LtExtend(Pad(n / 10, width - 1), Pad(m / 10, width - 1), [DigitChar(n % 10)], [DigitChar(m % 10)]);
      } else {
        var c := Pad(n / 10, width - 1);
        assert n % 10 < m % 10;
        var dn, dm := DigitChar(n % 10), DigitChar(m % 10);
        assert dn < dm;
        LeCommonPrefix(c, [dn], [dm]);
        assert (c + [dn])[|c|] != (c + [dm])[|c|];
      }
    }
  }
}
