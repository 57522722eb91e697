/**
 * Decimal conversion of command-line values. The program converts the values
 * of `-inum` and `-nlinks` with `atoi` and the value of `-size` (after its mode
 * character) with `atoll`. Both skip leading white space, take an optional sign
 * and then read decimal digits until the first character that is not one;
 * anything after that is ignored and a string without digits reads as 0. The
 * model keeps that reading on unbounded integers: overflow of `int` or
 * `long long` is not modelled.
 */
module Numerals {

  /** The characters C's `isspace` accepts in the "C" locale. */
  predicate IsSpace(c: char) {
    c == ' ' || ('\t' <= c <= '\r')
  }

  predicate IsDigit(c: char) {
    '0' <= c <= '9'
  }

  predicate AllDigits(s: string) {
    forall i | 0 <= i < |s| :: IsDigit(s[i])
  }

  /** What is left of `s` once its leading white space is skipped. */
  function SkipSpaces(s: string): string {
    if s != [] && IsSpace(s[0]) then SkipSpaces(s[1..]) else s
  }

  /** Reads digits from the front of `s` onto the value `acc` read so far, up to the first non-digit. */
  function ReadDigits(s: string, acc: nat): nat {
    if s != [] && IsDigit(s[0]) then ReadDigits(s[1..], 10 * acc + (s[0] as int - '0' as int))
    else acc
  }

  /** The model of `atoi`/`atoll`, without overflow. */
  function Atoi(s: string): int {
    var t := SkipSpaces(s);
    if t != [] && t[0] == '-' then 0 - ReadDigits(t[1..], 0)
    else if t != [] && t[0] == '+' then ReadDigits(t[1..], 0)
    else ReadDigits(t, 0)
  }

  function Digit(n: nat): (c: char)
    requires n < 10
    ensures IsDigit(c) && c as int - '0' as int == n
  {
    ('0' as int + n) as char
  }

  /** The decimal spelling of a natural number, without leading zeros. */
  function ShowNat(n: nat): (s: string)
    ensures |s| > 0 && AllDigits(s)
  {
    if n < 10 then [Digit(n)] else ShowNat(n / 10) + [Digit(n % 10)]
  }

  /** The decimal spelling of an integer, with a leading '-' when it is negative. */
  function ShowInt(n: int): string {
    if n < 0 then "-" + ShowNat(-n) else ShowNat(n)
  }

  /** Reading stops at the first non-digit: what follows the digits is never read. */
  lemma {:induction false} ReadDigitsStops(d: string, rest: string, acc: nat)
    requires AllDigits(d)
    requires rest == [] || !IsDigit(rest[0])
    ensures ReadDigits(d + rest, acc) == ReadDigits(d, acc)
    decreases |d|
  {
    if d != [] {
      assert (d + rest)[1..] == d[1..] + rest;
      ReadDigitsStops(d[1..], rest, 10 * acc + (d[0] as int - '0' as int));
    }
  }

  /** One more digit at the end multiplies what was read by ten and adds the digit. */
  lemma {:induction false} ReadDigitsSnoc(d: string, c: char, acc: nat)
    requires AllDigits(d) && IsDigit(c)
    ensures ReadDigits(d + [c], acc) == 10 * ReadDigits(d, acc) + (c as int - '0' as int)
    decreases |d|
  {
    if d == [] {
      assert ReadDigits([c], acc) == ReadDigits([], 10 * acc + (c as int - '0' as int));
    } else {
      assert (d + [c])[1..] == d[1..] + [c];
      ReadDigitsSnoc(d[1..], c, 10 * acc + (d[0] as int - '0' as int));
    }
  }

  lemma {:induction false} ReadShowNat(n: nat)
    ensures ReadDigits(ShowNat(n), 0) == n
    decreases n
  {
    if n < 10 {
      assert ReadDigits(ShowNat(n), 0) == ReadDigits([], n);
    } else {
      ReadShowNat(n / 10);
      ReadDigitsSnoc(ShowNat(n / 10), Digit(n % 10), 0);
    }
  }

  lemma {:induction false} SkipSpacesPrefix(ws: string, t: string)
    requires forall i | 0 <= i < |ws| :: IsSpace(ws[i])
    requires t != [] && !IsSpace(t[0])
    ensures SkipSpaces(ws + t) == t
    decreases |ws|
  {
    if ws != [] {
      assert (ws + t)[1..] == ws[1..] + t;
      SkipSpacesPrefix(ws[1..], t);
    }
  }

  lemma AtoiShowInt(n: int, rest: string)
    requires rest == [] || !IsDigit(rest[0])
    ensures Atoi(ShowInt(n) + rest) == n
  {
    var m: nat := if n < 0 then -n else n;
    var u := ShowNat(m) + rest;
    ReadDigitsStops(ShowNat(m), rest, 0);
    ReadShowNat(m);
    assert ReadDigits(u, 0) == m;
    assert u[0] == ShowNat(m)[0] && IsDigit(u[0]);
    if n < 0 {
      var t := "-" + u;
      assert ShowInt(n) + rest == t;
      assert SkipSpaces(t) == t;
      assert t[1..] == u;
      assert Atoi(t) == 0 - ReadDigits(u, 0);
    } else {
      assert ShowInt(n) + rest == u;
      assert SkipSpaces(u) == u;
      assert Atoi(u) == ReadDigits(u, 0);
    }
  }

  /**
   * `atoi` reads back what `ShowInt` writes, whatever white space precedes it
   * and whatever non-digit text follows it.
   */
  lemma AtoiReadsLeadingNumber(ws: string, n: int, rest: string)
    requires forall i | 0 <= i < |ws| :: IsSpace(ws[i])
    requires rest == [] || !IsDigit(rest[0])
    ensures Atoi(ws + ShowInt(n) + rest) == n
  {
    var t := ShowInt(n) + rest;
    assert ws + ShowInt(n) + rest == ws + t;
    assert t[0] == ShowInt(n)[0];
    SkipSpacesPrefix(ws, t);
    AtoiShowInt(n, rest);
  }
}
