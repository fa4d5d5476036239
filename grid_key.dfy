/**
 * The string key `${gridX}-${gridY}` under which calculateClusters files a
 * grid cell, with a parser that inverts it. The round trip shows that two
 * different cells never share a key, and that a key is never an array index,
 * so the clusters table keeps its keys in insertion order.
 */
module GridKey {
  datatype Option<T> = None | Some(value: T)

  predicate IsDigit(c: char) { '0' <= c <= '9' }

  predicate AllDigits(s: string) { forall i :: 0 <= i < |s| ==> IsDigit(s[i]) }

  function DigitChar(d: nat): (c: char)
    requires d < 10
    ensures IsDigit(c) && c as int - '0' as int == d
  {
    ('0' as int + d) as char
  }

  /** The decimal digits of `n`, most significant first, as JavaScript prints a non-negative integer. */
  function NatToString(n: nat): (s: string)
    ensures |s| >= 1 && AllDigits(s)
    decreases n
  {
    if n < 10 then [DigitChar(n)] else NatToString(n / 10) + [DigitChar(n % 10)]
  }

  /** The value of a string of decimal digits. */
  function DigitsValue(s: string): nat
    requires AllDigits(s)
  {
    if s == [] then 0 else DigitsValue(s[..|s| - 1]) * 10 + (s[|s| - 1] as int - '0' as int)
  }

  lemma {:induction false} NatToStringRoundTrip(n: nat)
    ensures DigitsValue(NatToString(n)) == n
    decreases n
  {
    if n >= 10 {
      var s := NatToString(n);
      assert s[..|s| - 1] == NatToString(n / 10);
      NatToStringRoundTrip(n / 10);
    }
  }

  /** How a template literal prints an integer: a minus sign for a negative value, then the digits. */
  function IntToString(i: int): (s: string)
    ensures |s| >= 1 && (s[0] == '-' <==> i < 0)
    ensures forall k :: 1 <= k < |s| ==> IsDigit(s[k])
  {
    if i < 0 then "-" + NatToString(-i) else NatToString(i)
  }

  function ParseInt(s: string): Option<int>
  {
    if |s| >= 2 && s[0] == '-' && AllDigits(s[1..]) then Some(0 - DigitsValue(s[1..]) as int)
    else if |s| >= 1 && AllDigits(s) then Some(DigitsValue(s))
    else None
  }

  lemma IntToStringRoundTrip(i: int)
    ensures ParseInt(IntToString(i)) == Some(i)
  {
    var s := IntToString(i);
    if i < 0 {
      assert s[1..] == NatToString(-i);
      NatToStringRoundTrip(-i);
    } else {
      NatToStringRoundTrip(i);
    }
  }

  /** The clusters-table key of grid cell (x, y): `${x}-${y}`. */
  function Key(x: int, y: int): string
  {
    IntToString(x) + "-" + IntToString(y)
  }

  /** The position of the first '-' at or after `from`, if any. */
  function FindDash(s: string, from: nat): (r: Option<nat>)
    ensures r.Some? ==> from <= r.value < |s| && s[r.value] == '-'
    ensures r.Some? ==> forall k :: from <= k < r.value ==> s[k] != '-'
    ensures r.None? ==> forall k :: from <= k < |s| ==> s[k] != '-'
    decreases |s| - from
  {
    if from >= |s| then None
    else if s[from] == '-' then Some(from)
    else FindDash(s, from + 1)
  }

  /**
   * Reads a key back. A '-' in first position is the sign of x, so the
   * separator is the first '-' after the first character.
   */
  function ParseKey(k: string): Option<(int, int)>
  {
    match FindDash(k, 1)
    case None => None
    case Some(p) =>
      match (ParseInt(k[..p]), ParseInt(k[p + 1..]))
      case (Some(x), Some(y)) => Some((x, y))
      case _ => None
  }

  lemma KeyRoundTrip(x: int, y: int)
    ensures ParseKey(Key(x, y)) == Some((x, y))
  {
    var sx, sy := IntToString(x), IntToString(y);
    var k := Key(x, y);
    var p := |sx|;
    assert k[p] == '-';
    assert forall j :: 1 <= j < p ==> k[j] == sx[j];
    match FindDash(k, 1)
    case None =>
      assert false;
    case Some(q) =>
      assert q == p;
    assert k[..p] == sx;
    assert k[p + 1..] == sy;
    IntToStringRoundTrip(x);
    IntToStringRoundTrip(y);
  }

  lemma KeyInjective(x1: int, y1: int, x2: int, y2: int)
    ensures Key(x1, y1) == Key(x2, y2) <==> x1 == x2 && y1 == y2
  {
    KeyRoundTrip(x1, y1);
    KeyRoundTrip(x2, y2);
  }

  /**
   * A canonical array index is a string of decimal digits; such keys would be
   * enumerated first, in numeric order, by Object.values.
   */
  predicate IsArrayIndexLike(s: string) { |s| >= 1 && AllDigits(s) }

  lemma KeyIsNotArrayIndex(x: int, y: int)
    ensures !IsArrayIndexLike(Key(x, y))
  {
    var k := Key(x, y);
    assert k[|IntToString(x)|] == '-';
  }
}
