/** Style values that stand for a distance on the grid: a literal integer
    (`5`, `-2`) or a percentage of the viewport extent (`50%`). The element
    code reads such a value as a number, or, when it ends in `%`, as a
    fraction of the extent rounded up. */
module Lengths {
  import opened Wrappers

  datatype Length = Cells(n: int) | Percent(p: int)

  predicate IsDigit(c: char) { '0' <= c <= '9' }

  predicate AllDigits(s: string) { forall i :: 0 <= i < |s| ==> IsDigit(s[i]) }

  function DigitValue(c: char): nat
    requires IsDigit(c)
  {
    c as int - '0' as int
  }

  function DigitChar(d: nat): char
    requires d < 10
  {
    (d + '0' as int) as char
  }

  /** Value of a non-empty decimal numeral, most significant digit first. */
  function NatValue(s: string): nat
    requires |s| > 0 && AllDigits(s)
  {
    if |s| == 1 then DigitValue(s[0])
    else 10 * NatValue(s[..|s| - 1]) + DigitValue(s[|s| - 1])
  }

  /** An optional minus sign followed by at least one decimal digit. */
  function ParseInt(s: string): Option<int>
  {
    if |s| > 1 && s[0] == '-' && AllDigits(s[1..]) then Some(0 - NatValue(s[1..]) as int)
    else if |s| > 0 && AllDigits(s) then Some(NatValue(s))
    else None
  }

  /** A value ending in `%` is a percentage of the integer before it;
      anything else must be an integer literal. */
  function ParseLength(s: string): Option<Length>
  {
    if |s| > 0 && s[|s| - 1] == '%' then
      match ParseInt(s[..|s| - 1])
      case Some(p) => Some(Percent(p))
      case None => None
    else
      match ParseInt(s)
      case Some(n) => Some(Cells(n))
      case None => None
  }

  /** Shortest decimal numeral of `n`. */
  function ShowNat(n: nat): (s: string)
    ensures |s| > 0 && AllDigits(s)
  {
    if n < 10 then [DigitChar(n)] else ShowNat(n / 10) + [DigitChar(n % 10)]
  }

  function ShowInt(n: int): string
  {
    if n < 0 then "-" + ShowNat(-n) else ShowNat(n)
  }

  /** How a length is written in a style declaration. */
  function ShowLength(l: Length): string
  {
    match l
    case Cells(n) => ShowInt(n)
    case Percent(p) => ShowInt(p) + "%"
  }

  lemma {:induction false} NatValueShowNat(n: nat)
    ensures NatValue(ShowNat(n)) == n
  {
    if n >= 10 {
      NatValueShowNat(n / 10);
      var s := ShowNat(n);
      assert s[..|s| - 1] == ShowNat(n / 10);
    }
  }

  lemma ParseShowInt(n: int)
    ensures ParseInt(ShowInt(n)) == Some(n)
  {
    NatValueShowNat(if n < 0 then -n else n);
    if n < 0 {
      assert ShowInt(n)[1..] == ShowNat(-n);
    }
  }

  /** Every length reads back as itself. */
  lemma ParseShowLength(l: Length)
    ensures ParseLength(ShowLength(l)) == Some(l)
  {
    var s := ShowLength(l);
    match l
    case Cells(n) =>
      ParseShowInt(n);
      assert ShowInt(n)[|ShowInt(n)| - 1] != '%';
    case Percent(p) =>
      ParseShowInt(p);
      assert s[..|s| - 1] == ShowInt(p);
  }

  /** The least integer at or above x/100. */
  function CeilPercent(x: int): (r: int)
    ensures 100 * r >= x && 100 * (r - 1) < x
  {
    -((-x) / 100)
  }

  /** A length as an absolute number of cells along an axis of `extent` cells. */
  function Resolve(l: Length, extent: int): int
  {
    match l
    case Cells(n) => n
    case Percent(p) => CeilPercent(extent * p)
  }

  /** A larger percentage never resolves to fewer cells. */
  lemma ResolveMonotone(p: int, q: int, extent: nat)
    requires p <= q
    ensures Resolve(Percent(p), extent) <= Resolve(Percent(q), extent)
  {
    assert extent * p <= extent * q by {
      assert extent * q - extent * p == extent * (q - p);
    }
  }

  /** A percentage between 0 and 100 resolves within the extent. */
  lemma ResolveWithin(p: int, extent: nat)
    requires 0 <= p <= 100
    ensures 0 <= Resolve(Percent(p), extent) <= extent
  {
    assert 0 <= extent * p <= extent * 100 by {
      assert extent * 100 - extent * p == extent * (100 - p);
    }
  }
}
