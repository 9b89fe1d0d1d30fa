/** Text as the application handles it: request paths, SQLite's BINARY
    collation (code point order) used by `ORDER BY` and by `>=`/`<=` on the
    ISO date columns, and fixed-width decimal digits. */
module Text {
  import opened Rows

  predicate StartsWith(s: string, prefix: string) {
    |prefix| <= |s| && s[..|prefix|] == prefix
  }

  /** Lexicographic order on code points: a proper prefix comes first. */
  predicate StrLe(a: string, b: string)
    decreases |a|
  {
    a == [] || (b != [] && (a[0] < b[0] || (a[0] == b[0] && StrLe(a[1..], b[1..]))))
  }

  lemma {:induction false} StrLeTotal(a: string, b: string)
    ensures StrLe(a, b) || StrLe(b, a)
    decreases |a|
  {
    if a != [] && b != [] && a[0] == b[0] {
      StrLeTotal(a[1..], b[1..]);
    }
  }

  lemma {:induction false} StrLeTrans(a: string, b: string, c: string)
    requires StrLe(a, b) && StrLe(b, c)
    ensures StrLe(a, c)
    decreases |a|
  {
    if a != [] && a[0] == b[0] && b[0] == c[0] {
      StrLeTrans(a[1..], b[1..], c[1..]);
    }
  }

  lemma {:induction false} StrLeAntisym(a: string, b: string)
    requires StrLe(a, b) && StrLe(b, a)
    ensures a == b
    decreases |a|
  {
    if a != [] {
      StrLeAntisym(a[1..], b[1..]);
      assert a == [a[0]] + a[1..] && b == [b[0]] + b[1..];
    }
  }

  /** Comparing two texts that start with blocks of equal length: the first
      blocks decide unless they are equal. */
  lemma {:induction false} StrLeConcat(p1: string, q1: string, p2: string, q2: string)
    requires |p1| == |p2|
    ensures StrLe(p1 + q1, p2 + q2) <==> if p1 == p2 then StrLe(q1, q2) else StrLe(p1, p2)
    decreases |p1|
  {
    if p1 != [] {
      assert (p1 + q1)[1..] == p1[1..] + q1;
      assert (p2 + q2)[1..] == p2[1..] + q2;
      StrLeConcat(p1[1..], q1, p2[1..], q2);
      if p1[0] == p2[0] && p1[1..] == p2[1..] {
        assert p1 == [p1[0]] + p1[1..] && p2 == [p2[0]] + p2[1..];
      }
    } else {
      assert p1 + q1 == q1 && p2 + q2 == q2;
    }
  }

  function Pow10(w: nat): (r: nat)
    ensures r >= 1
  {
    if w == 0 then 1 else 10 * Pow10(w - 1)
  }

  predicate IsDigit(c: char) {
    '0' <= c <= '9'
  }

  function DigitChar(n: int): (c: char)
    requires 0 <= n < 10
    ensures IsDigit(c)
  {
    (48 + n) as char
  }

  /** `n` written with exactly `w` digits, zero-padded (`f"{n:0w}"`). */
  function Digits(n: nat, w: nat): (s: string)
    requires n < Pow10(w)
    ensures |s| == w
    ensures forall i :: 0 <= i < |s| ==> IsDigit(s[i])
  {
    if w == 0 then [] else Digits(n / 10, w - 1) + [DigitChar(n % 10)]
  }

  /** `n` written in decimal without padding (`f"{n}"`). */
  function Decimal(n: nat): (s: string)
    ensures |s| >= 1
  {
    if n < 10 then [DigitChar(n)] else Decimal(n / 10) + [DigitChar(n % 10)]
  }

  /** The value of a string of digits. */
  function DigitsValue(s: string): (n: nat)
    requires forall i :: 0 <= i < |s| ==> IsDigit(s[i])
    ensures n < Pow10(|s|)
  {
    if s == [] then 0
    else
      assert IsDigit(s[|s| - 1]);
      var d := s[|s| - 1] as int - 48;
      DigitsValue(s[..|s| - 1]) * 10 + d
  }

  /** Reading a non-empty string of decimal digits; anything else is not a
      number. */
  function ParseDecimal(s: string): (r: Option<nat>)
    ensures r.Some? <==> s != [] && forall i :: 0 <= i < |s| ==> IsDigit(s[i])
  {
    if s != [] && forall i :: 0 <= i < |s| ==> IsDigit(s[i]) then Some(DigitsValue(s)) else None
  }

  /** Fixed-width digit strings are read back as the number written. */
  lemma {:induction false} DigitsRoundTrip(n: nat, w: nat)
    requires n < Pow10(w)
    ensures DigitsValue(Digits(n, w)) == n
  {
    if w > 0 {
      var s := Digits(n, w);
      assert s[..|s| - 1] == Digits(n / 10, w - 1);
      DigitsRoundTrip(n / 10, w - 1);
    }
  }

  /** A number of exactly `w` significant digits is written the same way
      with or without padding to `w`. */
  lemma {:induction false} DecimalIsDigits(n: nat, w: nat)
    requires w >= 1 && n < Pow10(w) && (w == 1 || Pow10(w - 1) <= n)
    ensures Decimal(n) == Digits(n, w)
  {
    if w == 1 {
      assert n < 10;
      assert Digits(n / 10, 0) == [];
    } else {
      assert n >= 10;
      DecimalIsDigits(n / 10, w - 1);
    }
  }

  /** Zero-padded digit strings of one width compare as the numbers do, and
      distinct numbers are written differently. */
  lemma {:induction false} DigitsOrder(x: nat, y: nat, w: nat)
    requires x < Pow10(w) && y < Pow10(w)
    ensures StrLe(Digits(x, w), Digits(y, w)) <==> x <= y
    ensures Digits(x, w) == Digits(y, w) <==> x == y
  {
    if w > 0 {
      DigitsOrder(x / 10, y / 10, w - 1);
      var px, py := Digits(x / 10, w - 1), Digits(y / 10, w - 1);
      var cx, cy := [DigitChar(x % 10)], [DigitChar(y % 10)];
      StrLeConcat(px, cx, py, cy);
      assert StrLe(cx, cy) <==> x % 10 <= y % 10 by {
        assert cx[1..] == [];
      }
      if Digits(x, w) == Digits(y, w) {
        assert px == (px + cx)[..w - 1] && py == (py + cy)[..w - 1];
        assert cx[0] == (px + cx)[w - 1] && cy[0] == (py + cy)[w - 1];
      }
    }
  }

  /** An id written in decimal (`str(id)`) reads back as that id, so the id
      a page puts in a form names the row it came from. */
  lemma {:induction false} DecimalRoundTrip(n: nat)
    ensures ParseDecimal(Decimal(n)) == Some(n)
  {
    var s := Decimal(n);
    if n >= 10 {
      DecimalRoundTrip(n / 10);
      assert s[..|s| - 1] == Decimal(n / 10);
      assert forall i :: 0 <= i < |s| ==> IsDigit(s[i]) by {
        forall i | 0 <= i < |s|
          ensures IsDigit(s[i])
        {
          if i < |s| - 1 {
            assert s[i] == Decimal(n / 10)[i];
          }
        }
      }
    }
  }
}
