/**
 The identifiers of the guess cells: `boxID(row, col)` builds
 `"guess-box-" + row + "-" + col`, where `+` on a number appends its decimal
 rendering. Every cell is looked up by this identifier, so the model's
 two-dimensional array stands for the page only because distinct cells get
 distinct identifiers (`BoxIdInjective`).
 */
module BoxIds {

  const Prefix := "guess-box-"

  function DigitChar(d: nat): (c: char)
    requires d < 10
    ensures '0' <= c <= '9' && c as int - '0' as int == d
  {
    (d + '0' as int) as char
  }

  /** The decimal rendering of a non-negative integer, as JavaScript's `String(n)` gives it. */
  function Decimal(n: nat): (s: string)
    ensures |s| >= 1
    ensures forall i :: 0 <= i < |s| ==> '0' <= s[i] <= '9'
  {
    if n < 10 then [DigitChar(n)] else Decimal(n / 10) + [DigitChar(n % 10)]
  }

  /** The value of a string of decimal digits. */
  function DecimalValue(s: string): nat
    requires forall i :: 0 <= i < |s| ==> '0' <= s[i] <= '9'
  {
    if s == [] then 0
    else DecimalValue(s[..|s| - 1]) * 10 + (s[|s| - 1] as int - '0' as int)
  }

  /** Reading back the rendering gives the number: the rendering is injective. */
  lemma {:induction false} DecimalRoundTrip(n: nat)
    ensures DecimalValue(Decimal(n)) == n
  {
    if n >= 10 {
      DecimalRoundTrip(n / 10);
      var s := Decimal(n);
      assert s[..|s| - 1] == Decimal(n / 10);
    }
  }

  function BoxId(row: nat, col: nat): (id: string)
    ensures Prefix <= id
  {
    Prefix + Decimal(row) + "-" + Decimal(col)
  }

  /** Two strings joined by a separator that neither contains split back uniquely. */
  lemma SplitAtSeparator(a: string, b: string, c: string, d: string, sep: char)
    requires sep !in a && sep !in c
    requires a + [sep] + b == c + [sep] + d
    ensures a == c && b == d
  {
    var x := a + [sep] + b;
    assert x[|a|] == sep && x[|c|] == sep;
    assert forall i :: 0 <= i < |a| ==> x[i] == a[i] != sep;
    assert forall i :: 0 <= i < |c| ==> x[i] == c[i] != sep;
    assert a == x[..|a|];
    assert c == (c + [sep] + d)[..|c|];
    assert b == x[|a| + 1..];
    assert d == (c + [sep] + d)[|c| + 1..];
  }

  /** Distinct cells of the grid carry distinct identifiers. */
  lemma BoxIdInjective(r1: nat, c1: nat, r2: nat, c2: nat)
    ensures BoxId(r1, c1) == BoxId(r2, c2) <==> r1 == r2 && c1 == c2
  {
    if BoxId(r1, c1) == BoxId(r2, c2) {
      var id := BoxId(r1, c1);
      var tail1 := Decimal(r1) + "-" + Decimal(c1);
      var tail2 := Decimal(r2) + "-" + Decimal(c2);
      assert id == Prefix + tail1;
      assert id == Prefix + tail2;
      assert tail1 == id[|Prefix|..] == tail2;
      assert '-' !in Decimal(r1) && '-' !in Decimal(r2);
      SplitAtSeparator(Decimal(r1), Decimal(c1), Decimal(r2), Decimal(c2), '-');
      DecimalRoundTrip(r1);
      DecimalRoundTrip(r2);
      DecimalRoundTrip(c1);
      DecimalRoundTrip(c2);
    }
  }
}
