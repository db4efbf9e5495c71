/** String operations the front end relies on: the order `<` puts strings in,
    decimal rendering of numbers (`toString`, `padStart`) and the
    `split` / `reverse` / `join` chain. Strings are sequences of code points. */
module Text {

  // ---------------------------------------------------------------------
  // Lexicographic order
  // ---------------------------------------------------------------------

  /** `a` sorts strictly before `b` in code-point lexicographic order.
      JavaScript's `<` on strings compares UTF-16 code units, which agrees
      with it on the Basic Multilingual Plane; a byte-wise text comparison
      agrees with it on ASCII. (Dafny's own `<` on sequences means "proper
      prefix".) */
  predicate LexLess(a: string, b: string)
    decreases |a|
  {
    if |b| == 0 then false
    else if |a| == 0 then true
    else if a[0] != b[0] then a[0] < b[0]
    else LexLess(a[1..], b[1..])
  }

  lemma {:induction false} LexLessIrreflexive(a: string)
    ensures !LexLess(a, a)
  {
    if |a| > 0 {
      LexLessIrreflexive(a[1..]);
    }
  }

  /** Comparing two concatenations whose first parts have equal length: the
      first parts decide unless they are equal. */
  lemma {:induction false} LexLessAppend(p: string, q: string, s: string, t: string)
    requires |p| == |q|
    ensures LexLess(p + s, q + t) == if p == q then LexLess(s, t) else LexLess(p, q)
  {
    if |p| > 0 {
      assert (p + s)[1..] == p[1..] + s;
      assert (q + t)[1..] == q[1..] + t;
      LexLessAppend(p[1..], q[1..], s, t);
      assert p == [p[0]] + p[1..] && q == [q[0]] + q[1..];
    } else {
      assert p + s == s && q + t == t;
    }
  }

  /** Concatenations with equal-length first parts are equal exactly when
      both parts are. */
  lemma AppendEqual(p: string, q: string, s: string, t: string)
    requires |p| == |q|
    ensures p + s == q + t <==> p == q && s == t
  {
    if p + s == q + t {
      assert p == (p + s)[..|p|] && q == (q + t)[..|p|];
      assert s == (p + s)[|p|..] && t == (q + t)[|p|..];
    }
  }

  /** Two fields joined by a separator, with equal field widths, compare
      field by field. */
  lemma JoinedOrder(a: string, c: string, b: string, d: string, sep: string)
    requires |a| == |b|
    ensures LexLess(a + sep + c, b + sep + d) == if a != b then LexLess(a, b) else LexLess(c, d)
    ensures a + sep + c == b + sep + d <==> a == b && c == d
  {
    assert a + sep + c == a + (sep + c) && b + sep + d == b + (sep + d);
    LexLessAppend(a, b, sep + c, sep + d);
    LexLessAppend(sep, sep, c, d);
    AppendEqual(a, b, sep + c, sep + d);
    AppendEqual(sep, sep, c, d);
  }

  // ---------------------------------------------------------------------
  // Decimal digits
  // ---------------------------------------------------------------------

  function Digit(n: nat): (c: char)
    requires n < 10
    ensures '0' <= c <= '9'
  {
    (48 + n) as char
  }

  predicate IsDigit(c: char) {
    '0' <= c <= '9'
  }

  predicate AllDigits(s: string) {
    forall i :: 0 <= i < |s| ==> IsDigit(s[i])
  }

  function DigitValue(c: char): (v: nat)
    requires IsDigit(c)
    ensures v < 10 && Digit(v) == c
  {
    c as int - 48
  }

  function Pow10(w: nat): (p: nat)
    ensures p >= 1
  {
    if w == 0 then 1 else 10 * Pow10(w - 1)
  }

  /** `n.toString()` for a natural number: decimal, no leading zeros. */
  function NatToString(n: nat): string
  {
    if n < 10 then [Digit(n)] else NatToString(n / 10) + [Digit(n % 10)]
  }

  /** `String(i)` for an integer. */
  function IntToString(i: int): string
  {
    if i < 0 then "-" + NatToString(-i) else NatToString(i)
  }

  /** The value of a string of decimal digits, most significant first. */
  function ParseNat(s: string): nat
    requires AllDigits(s)
  {
    if |s| == 0 then 0 else 10 * ParseNat(s[..|s| - 1]) + DigitValue(s[|s| - 1])
  }

  /** Rendering a natural number and reading it back gives the number. */
  lemma {:induction false} ParseNatToString(n: nat)
    ensures AllDigits(NatToString(n))
    ensures ParseNat(NatToString(n)) == n
  {
    if n >= 10 {
      ParseNatToString(n / 10);
      var s := NatToString(n);
      assert s[..|s| - 1] == NatToString(n / 10);
    }
  }

  /** The lowest `w` decimal digits of `n`, zero-padded, most significant first. */
  function FixedDigits(n: nat, w: nat): (s: string)
    ensures |s| == w
    ensures AllDigits(s)
  {
    if w == 0 then [] else FixedDigits(n / 10, w - 1) + [Digit(n % 10)]
  }

  /** For numbers below `10^w`, the fixed-width renderings compare and
      coincide exactly as the numbers do. */
  lemma {:induction false} FixedDigitsOrder(a: nat, b: nat, w: nat)
    requires a < Pow10(w) && b < Pow10(w)
    ensures LexLess(FixedDigits(a, w), FixedDigits(b, w)) <==> a < b
    ensures FixedDigits(a, w) == FixedDigits(b, w) <==> a == b
  {
    if w == 0 {
      assert a == 0 && b == 0;
    } else {
      var p, q := FixedDigits(a / 10, w - 1), FixedDigits(b / 10, w - 1);
      var x, y := Digit(a % 10), Digit(b % 10);
      FixedDigitsOrder(a / 10, b / 10, w - 1);
      LexLessAppend(p, q, [x], [y]);
      assert LexLess([x], [y]) <==> x < y;
      assert a == 10 * (a / 10) + a % 10 && b == 10 * (b / 10) + b % 10;
      if p + [x] == q + [y] {
        assert p == (p + [x])[..w - 1] && q == (q + [y])[..w - 1];
        assert x == (p + [x])[w - 1] && y == (q + [y])[w - 1];
      }
    }
  }

  /** A number with exactly `w` digits renders as its `w` fixed digits. */
  lemma {:induction false} NatToStringFixed(n: nat, w: nat)
    requires 1 <= w && Pow10(w - 1) <= n < Pow10(w)
    ensures NatToString(n) == FixedDigits(n, w)
  {
    if w == 1 {
      assert n < 10;
    } else {
      assert n >= 10;
      NatToStringFixed(n / 10, w - 1);
    }
  }

  // ---------------------------------------------------------------------
  // padStart
  // ---------------------------------------------------------------------

  /** `s.padStart(width, c)`: `s` preceded by as many `c` as it takes to make
      the string `width` long; `s` itself when it is already that long. */
  function PadStart(s: string, width: nat, c: char): string
    decreases width - |s|
  {
    if |s| >= width then s else PadStart([c] + s, width, c)
  }

  /** The padded string has the requested width (or more), ends with `s`
      and is `c` before it. */
  lemma {:induction false} PadStartSpec(s: string, width: nat, c: char)
    ensures var r := PadStart(s, width, c);
      && |r| == (if |s| < width then width else |s|)
      && r[|r| - |s|..] == s
      && forall i :: 0 <= i < |r| - |s| ==> r[i] == c
    decreases width - |s|
  {
    if |s| < width {
      PadStartSpec([c] + s, width, c);
      var r := PadStart(s, width, c);
      assert r[|r| - |s|..] == ([c] + s)[1..];
    }
  }

  /** `String(n).padStart(2, '0')` for `n < 100`: the two fixed digits. */
  lemma Pad2Digits(n: nat)
    requires n < 100
    ensures PadStart(NatToString(n), 2, '0') == FixedDigits(n, 2)
  {
    if n < 10 {
      assert NatToString(n) == [Digit(n)];
      assert FixedDigits(n, 2) == FixedDigits(0, 1) + [Digit(n)];
    } else {
      NatToStringFixed(n, 2);
    }
  }

  // ---------------------------------------------------------------------
  // split / reverse / join
  // ---------------------------------------------------------------------

  /** `s.split(sep)` for a one-character separator: the pieces between
      separators, in order; always at least one piece. */
  function Split(s: string, sep: char): (parts: seq<string>)
    ensures |parts| >= 1
  {
    if |s| == 0 then [""]
    else
      var rest := Split(s[1..], sep);
      if s[0] == sep then [""] + rest else [[s[0]] + rest[0]] + rest[1..]
  }

  /** `parts.join(sep)`. */
  function Join(parts: seq<string>, sep: string): string
  {
    if |parts| == 0 then ""
    else if |parts| == 1 then parts[0]
    else parts[0] + sep + Join(parts[1..], sep)
  }

  /** `xs.reverse()`, on a value. */
  function Reverse<T>(xs: seq<T>): (r: seq<T>)
    ensures |r| == |xs|
    ensures forall i :: 0 <= i < |xs| ==> r[i] == xs[|xs| - 1 - i]
  {
    if |xs| == 0 then [] else Reverse(xs[1..]) + [xs[0]]
  }

  /** A string without the separator is one piece. */
  lemma {:induction false} SplitNoSeparator(a: string, sep: char)
    requires sep !in a
    ensures Split(a, sep) == [a]
  {
    if |a| > 0 {
      SplitNoSeparator(a[1..], sep);
      assert [a[0]] + a[1..] == a;
    }
  }

  /** Splitting at the first separator: the piece before it, then the pieces of the rest. */
  lemma {:induction false} SplitAtFirst(a: string, b: string, sep: char)
    requires sep !in a
    ensures Split(a + [sep] + b, sep) == [a] + Split(b, sep)
  {
    var s := a + [sep] + b;
    if |a| == 0 {
      assert s[1..] == b;
    } else {
      assert s[1..] == a[1..] + [sep] + b;
      SplitAtFirst(a[1..], b, sep);
      assert [a[0]] + a[1..] == a;
    }
  }

  /** `split` and `join` with the same separator undo each other. */
  lemma {:induction false} JoinSplit(s: string, sep: char)
    ensures Join(Split(s, sep), [sep]) == s
  {
    if |s| > 0 {
      var rest := Split(s[1..], sep);
      JoinSplit(s[1..], sep);
      if s[0] == sep {
        assert Join([""] + rest, [sep]) == "" + [sep] + Join(rest, [sep]);
        assert s == [sep] + s[1..];
      } else if |rest| == 1 {
        assert Split(s, sep) == [[s[0]] + rest[0]];
        assert s == [s[0]] + s[1..];
      } else {
        var parts := [[s[0]] + rest[0]] + rest[1..];
        assert parts[1..] == rest[1..];
        assert Join(rest, [sep]) == rest[0] + [sep] + Join(rest[1..], [sep]);
        assert s == [s[0]] + s[1..];
      }
    }
  }
}
