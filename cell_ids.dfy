/** Cell identifiers. Grid entries are keyed by the template string
    `${x}-${y}` of their anchor column and row; JavaScript prints an integral
    number in plain decimal, with a leading `-` when it is negative. */
module CellIds {

  function DigitChar(d: nat): (c: char)
    requires d < 10
    ensures '0' <= c <= '9'
  {
    (48 + d) as char
  }

  /** The decimal digits of `n`, most significant first, without leading zeros. */
  function NatToString(n: nat): (s: string)
    ensures 1 <= |s|
    ensures n < 10 <==> |s| == 1
  {
    if n < 10 then [DigitChar(n)] else NatToString(n / 10) + [DigitChar(n % 10)]
  }

  /** Every character of a printed natural is a decimal digit. */
  lemma {:induction false} NatToStringDigits(n: nat)
    ensures forall i :: 0 <= i < |NatToString(n)| ==> '0' <= NatToString(n)[i] <= '9'
  {
    if n >= 10 {
      NatToStringDigits(n / 10);
    }
  }

  /** `String(n)` for an integral number. */
  function IntToString(n: int): string {
    if n < 0 then "-" + NatToString(-n) else NatToString(n)
  }

  /** The entry id `${x}-${y}`. */
  function EntryId(x: int, y: int): string {
    IntToString(x) + "-" + IntToString(y)
  }

  /** Distinct naturals print differently. */
  lemma {:induction false} NatToStringInjective(a: nat, b: nat)
    requires NatToString(a) == NatToString(b)
    ensures a == b
  {
    var s := NatToString(a);
    if a >= 10 && b >= 10 {
      assert s[|s| - 1] == DigitChar(a % 10) == DigitChar(b % 10);
      assert s[..|s| - 1] == NatToString(a / 10) == NatToString(b / 10);
      NatToStringInjective(a / 10, b / 10);
    }
  }

  /** A printed integer is non-empty and holds a `-` at most in front. */
  lemma IntToStringShape(n: int)
    ensures 1 <= |IntToString(n)|
    ensures forall i :: 1 <= i < |IntToString(n)| ==> IntToString(n)[i] != '-'
  {
    NatToStringDigits(if n < 0 then -n else n);
  }

  lemma IntToStringInjective(a: int, b: int)
    requires IntToString(a) == IntToString(b)
    ensures a == b
  {
    var s := IntToString(a);
    NatToStringDigits(if a < 0 then -a else a);
    NatToStringDigits(if b < 0 then -b else b);
    assert (a < 0) == (s[0] == '-') == (b < 0);
    if a < 0 {
      assert s[1..] == NatToString(-a) == NatToString(-b);
      NatToStringInjective(-a, -b);
    } else {
      NatToStringInjective(a, b);
    }
  }

  /** In `p + "-" + x`, index `|p|` is the first `-` after position 0. */
  lemma FirstDash(p: string, x: string)
    requires 1 <= |p|
    requires forall i :: 1 <= i < |p| ==> p[i] != '-'
    ensures (p + "-" + x)[|p|] == '-'
    ensures forall i :: 1 <= i < |p| ==> (p + "-" + x)[i] != '-'
  {
  }

  /** The separator of `${x}-${y}` is the first `-` after the first
      character, so the id determines both coordinates. */
  lemma EntryIdInjective(a: int, b: int, c: int, d: int)
    requires EntryId(a, b) == EntryId(c, d)
    ensures a == c && b == d
  {
    var p, q := IntToString(a), IntToString(c);
    var s := EntryId(a, b);
    IntToStringShape(a);
    IntToStringShape(c);
    FirstDash(p, IntToString(b));
    FirstDash(q, IntToString(d));
    assert p == s[..|p|] == q;
    IntToStringInjective(a, c);
    assert IntToString(b) == s[|p| + 1..] == IntToString(d);
    IntToStringInjective(b, d);
  }
}
