/**
 The text order that `ORDER BY date_played` uses. The column is declared
 `TEXT` and has no collation clause, so SQLite compares values with its
 BINARY collation: the stored bytes are compared from the front and, when one
 value is a prefix of the other, the shorter sorts first. Text is stored as
 UTF-8, whose byte order agrees with code point order, so on Dafny's `char`
 (a Unicode scalar value) the same order is the character-wise lexicographic
 order defined here.

 The order is chronological only because the application writes dates as
 ISO-8601 `YYYY-MM-DD` strings; `IsoDateOrder` proves that for such strings
 the text order and the calendar order agree.
 */
module Collation {

  /** `a` sorts at or before `b` under SQLite's BINARY collation: the first
      differing character decides, and a value that is a prefix of the other
      sorts first. */
  predicate LexLe(a: string, b: string)
    ensures |a| <= |b| && a == b[..|a|] ==> LexLe(a, b)
    decreases |a|
  {
    |a| == 0 || (|b| > 0 && (a[0] < b[0] || (a[0] == b[0] && LexLe(a[1..], b[1..]))))
  }

  lemma {:induction false} LexLeTotal(a: string, b: string)
    ensures LexLe(a, b) || LexLe(b, a)
    decreases |a|
  {
    if |a| > 0 && |b| > 0 && a[0] == b[0] {
      LexLeTotal(a[1..], b[1..]);
    }
  }

  lemma {:induction false} LexLeAntisymmetric(a: string, b: string)
    requires LexLe(a, b) && LexLe(b, a)
    ensures a == b
    decreases |a|
  {
    if |a| > 0 {
      LexLeAntisymmetric(a[1..], b[1..]);
      assert a == [a[0]] + a[1..] && b == [b[0]] + b[1..];
    }
  }

  lemma {:induction false} LexLeTransitive(a: string, b: string, c: string)
    requires LexLe(a, b) && LexLe(b, c)
    ensures LexLe(a, c)
    decreases |a|
  {
    if |a| > 0 && a[0] == b[0] && b[0] == c[0] {
      LexLeTransitive(a[1..], b[1..], c[1..]);
    }
  }

  /** Comparing two concatenations whose first parts have equal length:
      the first parts decide unless they are equal. */
  lemma {:induction false} LexLeConcat(p: string, x: string, q: string, y: string)
    requires |p| == |q|
    ensures LexLe(p + x, q + y) <==> (p != q && LexLe(p, q)) || (p == q && LexLe(x, y))
    decreases |p|
  {
    if |p| > 0 {
      assert (p + x)[0] == p[0] && (p + x)[1..] == p[1..] + x;
      assert (q + y)[0] == q[0] && (q + y)[1..] == q[1..] + y;
      LexLeConcat(p[1..], x, q[1..], y);
      assert p == [p[0]] + p[1..] && q == [q[0]] + q[1..];
    } else {
      assert p + x == x && q + y == y;
    }
  }

  predicate IsDigit(c: char) {
    '0' <= c <= '9'
  }

  predicate AllDigits(s: string) {
    forall i :: 0 <= i < |s| ==> IsDigit(s[i])
  }

  function Pow10(n: nat): (p: nat)
    ensures p >= 1
  {
    if n == 0 then 1 else 10 * Pow10(n - 1)
  }

  /** The decimal number a string of digits spells, most significant first. */
  function DigitsValue(s: string): (v: nat)
    requires AllDigits(s)
    ensures v < Pow10(|s|)
  {
    if |s| == 0 then 0
    else
      var d := s[0] as int - '0' as int;
      var p := Pow10(|s| - 1);
      var rest := DigitsValue(s[1..]);
      LeadingDigitDecides(d, 10, p, rest, 0);
      d * p + rest
  }

  /** A smaller leading digit gives a smaller number, whatever follows. */
  lemma LeadingDigitDecides(dx: int, dy: int, p: int, vx: int, vy: int)
    requires 0 <= dx < dy && 0 <= vx < p && 0 <= vy
    ensures dx * p + vx < dy * p + vy
  {
    assert (dx + 1) * p == dx * p + p;
    assert (dx + 1) * p <= dy * p;
  }

  /** For digit strings of one length, text order is numeric order. */
  lemma {:induction false} DigitsLexOrder(x: string, y: string)
    requires |x| == |y| && AllDigits(x) && AllDigits(y)
    ensures LexLe(x, y) <==> DigitsValue(x) <= DigitsValue(y)
    ensures x == y <==> DigitsValue(x) == DigitsValue(y)
    decreases |x|
  {
    if |x| > 0 {
      var dx, dy := x[0] as int - '0' as int, y[0] as int - '0' as int;
      var p := Pow10(|x| - 1);
      var vx, vy := DigitsValue(x[1..]), DigitsValue(y[1..]);
      DigitsLexOrder(x[1..], y[1..]);
      assert DigitsValue(x) == dx * p + vx;
      assert DigitsValue(y) == dy * p + vy;
      assert x == [x[0]] + x[1..] && y == [y[0]] + y[1..];
      if dx < dy {
        LeadingDigitDecides(dx, dy, p, vx, vy);
      } else if dy < dx {
        LeadingDigitDecides(dy, dx, p, vy, vx);
      }
    }
  }

  /** The shape `YYYY-MM-DD` that the date field of the application produces. */
  predicate IsIsoDate(s: string) {
    |s| == 10 && s[4] == '-' && s[7] == '-'
    && AllDigits(s[..4]) && AllDigits(s[5..7]) && AllDigits(s[8..])
  }

  function Year(s: string): nat
    requires IsIsoDate(s)
  {
    DigitsValue(s[..4])
  }

  function Month(s: string): nat
    requires IsIsoDate(s)
  {
    DigitsValue(s[5..7])
  }

  function Day(s: string): nat
    requires IsIsoDate(s)
  {
    DigitsValue(s[8..])
  }

  /** Calendar order: by year, then month, then day. */
  predicate ChronoLe(a: string, b: string)
    requires IsIsoDate(a) && IsIsoDate(b)
  {
    Year(a) < Year(b)
    || (Year(a) == Year(b) && (Month(a) < Month(b) || (Month(a) == Month(b) && Day(a) <= Day(b))))
  }

  /** On ISO-8601 dates, SQLite's text order is the calendar order. */
  lemma IsoDateOrder(a: string, b: string)
    requires IsIsoDate(a) && IsIsoDate(b)
    ensures LexLe(a, b) <==> ChronoLe(a, b)
  {
    var ya, ma, da := a[..4], a[5..7], a[8..];
    var yb, mb, db := b[..4], b[5..7], b[8..];
    var dash := a[4..5];
    assert dash == b[4..5] == a[7..8] == b[7..8];
    assert a == ya + (dash + (ma + (dash + da)));
    assert b == yb + (dash + (mb + (dash + db)));
    LexLeConcat(ya, dash + (ma + (dash + da)), yb, dash + (mb + (dash + db)));
    LexLeConcat(dash, ma + (dash + da), dash, mb + (dash + db));
    LexLeConcat(ma, dash + da, mb, dash + db);
    LexLeConcat(dash, da, dash, db);
    DigitsLexOrder(ya, yb);
    DigitsLexOrder(ma, mb);
    DigitsLexOrder(da, db);
  }
}
