/**
 * The detector's output value: a head candidate with its range and the integer
 * centre of the pylons it was grouped from, and its text form.
 */
module Heads {
  import opened Numerics

  datatype Option<T> = None | Some(value: T)

  /** A detected head; all three fields are fixed when the value is made. */
  datatype Head = Head(Range: byte, CenterX: int, CenterY: int)
  {
    /** The text `Head(Range=<r>,Center=(<x>,<y>))`, numbers written in decimal. */
    function ToString(): (s: string)
      ensures |s| > |"Head(Range=,Center=(,))"|
      ensures s[..11] == "Head(Range="
    {
      "Head(Range=" + Decimal(Range) + ",Center=(" + Decimal(CenterX) + "," + Decimal(CenterY) + "))"
    }
  }

  function DigitChar(d: int): (c: char)
    requires 0 <= d < 10
    ensures '0' <= c <= '9'
  {
    "0123456789"[d]
  }

  function DigitValue(c: char): int
  {
    c as int - '0' as int
  }

  /** Decimal digits of a natural number, most significant first, without leading zeros. */
  function NaturalDigits(n: nat): (s: string)
    ensures |s| > 0
    ensures forall i :: 0 <= i < |s| ==> '0' <= s[i] <= '9'
  {
    if n < 10 then [DigitChar(n)] else NaturalDigits(n / 10) + [DigitChar(n % 10)]
  }

  /** Decimal form of an integer, with a leading '-' for negative numbers. */
  function Decimal(n: int): (s: string)
    ensures |s| > 0
    ensures forall i :: 0 <= i < |s| ==> s[i] == '-' || '0' <= s[i] <= '9'
  {
    if n < 0 then "-" + NaturalDigits(-n) else NaturalDigits(n)
  }

  function ParseNatural(s: string): int
  {
    if s == [] then 0 else ParseNatural(s[..|s| - 1]) * 10 + DigitValue(s[|s| - 1])
  }

  function ParseDecimal(s: string): int
  {
    if |s| > 0 && s[0] == '-' then -ParseNatural(s[1..]) else ParseNatural(s)
  }

  lemma {:induction false} NaturalDigitsRoundTrip(n: nat)
    ensures ParseNatural(NaturalDigits(n)) == n
  {
    var s := NaturalDigits(n);
    if n < 10 {
      assert s[..|s| - 1] == [];
    } else {
      NaturalDigitsRoundTrip(n / 10);
      assert s[..|s| - 1] == NaturalDigits(n / 10);
    }
  }

  /** Reading back the decimal form of any integer gives that integer. */
  lemma DecimalRoundTrip(n: int)
    ensures ParseDecimal(Decimal(n)) == n
  {
    if n < 0 {
      assert Decimal(n)[1..] == NaturalDigits(-n);
      NaturalDigitsRoundTrip(-n);
    } else {
      NaturalDigitsRoundTrip(n);
    }
  }

  /** The part of `s` before the first `c` and the part after it (all of `s` and nothing when `c` is absent). */
  function SplitAt(s: string, c: char): (string, string)
  {
    if s == [] then ([], [])
    else if s[0] == c then ([], s[1..])
    else var (before, after) := SplitAt(s[1..], c); ([s[0]] + before, after)
  }

  lemma {:induction false} SplitAtFirst(a: string, c: char, b: string)
    requires c !in a
    ensures SplitAt(a + [c] + b, c) == (a, b)
  {
    if a == [] {
      assert a + [c] + b == [c] + b;
    } else {
      var s := a + [c] + b;
      assert s[0] == a[0] && a[0] != c;
      assert s[1..] == a[1..] + [c] + b;
      SplitAtFirst(a[1..], c, b);
      assert [a[0]] + a[1..] == a;
    }
  }

  /** Reads a head back from its text form. */
  function ParseHead(s: string): Option<Head>
  {
    if |s| < 11 || s[..11] != "Head(Range=" then None
    else
      var (r, rest) := SplitAt(s[11..], ',');
      if |rest| < 8 || rest[..8] != "Center=(" then None
      else
        var (x, rest2) := SplitAt(rest[8..], ',');
        var (y, rest3) := SplitAt(rest2, ')');
        var range := ParseDecimal(r);
        if rest3 != ")" || !(0 <= range < 256) then None
        else Some(Head(range, ParseDecimal(x), ParseDecimal(y)))
  }

  /** The text form loses nothing: parsing it gives back the head. */
  lemma ToStringRoundTrip(h: Head)
    ensures ParseHead(h.ToString()) == Some(h)
  {
    var r, x, y := Decimal(h.Range), Decimal(h.CenterX), Decimal(h.CenterY);
    NoDelimiter(h.Range, ',');
    NoDelimiter(h.CenterX, ',');
    NoDelimiter(h.CenterY, ')');
    DecimalRoundTrip(h.Range);
    DecimalRoundTrip(h.CenterX);
    DecimalRoundTrip(h.CenterY);
    ParseFields(r, x, y);
  }

  /** Parsing the text form splits it back into the three numbers as written. */
  lemma ParseFields(r: string, x: string, y: string)
    requires ',' !in r && ',' !in x && ')' !in y
    ensures var s := "Head(Range=" + r + ",Center=(" + x + "," + y + "))";
      ParseHead(s) == (if 0 <= ParseDecimal(r) < 256 then Some(Head(ParseDecimal(r), ParseDecimal(x), ParseDecimal(y))) else None)
  {
    var tail := "Center=(" + x + "," + y + "))";
    var s := "Head(Range=" + r + ",Center=(" + x + "," + y + "))";
    assert s == "Head(Range=" + r + [','] + tail;
    assert s[..11] == "Head(Range=" && s[11..] == r + [','] + tail;
    SplitAtFirst(r, ',', tail);
    TailParts(x, y);
    SplitAtFirst(x, ',', y + "))");
    SplitAtFirst(y, ')', ")");
  }

  lemma NoDelimiter(n: int, c: char)
    requires c == ',' || c == ')'
    ensures c !in Decimal(n)
  {
    var d := Decimal(n);
    assert forall i :: 0 <= i < |d| ==> d[i] != c;
  }

  lemma TailParts(x: string, y: string)
    ensures ("Center=(" + x + "," + y + "))")[..8] == "Center=("
    ensures ("Center=(" + x + "," + y + "))")[8..] == x + [','] + (y + "))")
    ensures y + "))" == y + [')'] + ")"
  {
  }

  /** Two heads with the same text form are the same head. */
  lemma ToStringInjective(a: Head, b: Head)
    requires a.ToString() == b.ToString()
    ensures a == b
  {
    ToStringRoundTrip(a);
    ToStringRoundTrip(b);
  }
}
