/** Decimal rendering of integers as JavaScript's `String(n)` produces it,
    `padStart(2, "0")`, and a digit parser used to show that the rendering
    can be read back. */
module Decimal {
  import opened Wrappers

  predicate IsDigit(ch: char) {
    '0' <= ch <= '9'
  }

  predicate AllDigits(s: string) {
    forall i :: 0 <= i < |s| ==> IsDigit(s[i])
  }

  function DigitChar(d: nat): (ch: char)
    requires d < 10
    ensures IsDigit(ch)
  {
    ('0' as int + d) as char
  }

  function DigitValue(ch: char): (d: nat)
    requires IsDigit(ch)
    ensures d < 10 && DigitChar(d) == ch
  {
    ch as int - '0' as int
  }

  /** `String(n)` for a non-negative integer: its decimal digits, most
      significant first, with no leading zero. */
  function NatToString(n: nat): (r: string)
    decreases n
    ensures |r| >= 1
  {
    if n < 10 then [DigitChar(n)] else NatToString(n / 10) + [DigitChar(n % 10)]
  }

  /** `String(n)` is made of digits only. */
  lemma {:induction false} NatToStringDigits(n: nat)
    decreases n
    ensures AllDigits(NatToString(n))
  {
    if n >= 10 {
      NatToStringDigits(n / 10);
    }
  }

  /** `String(n)` for any integer: a '-' in front of a negative value. */
  function IntToString(n: int): (r: string)
    ensures n >= 0 <==> AllDigits(r)
    ensures n < 0 ==> r[0] == '-' && AllDigits(r[1..])
  {
    if n < 0 then
      NatToStringDigits(-n);
      var r := "-" + NatToString(-n);
      assert !IsDigit(r[0]);
      r
    else
      NatToStringDigits(n);
      NatToString(n)
  }

  /** The value of a run of decimal digits (0 for the empty run). */
  function ParseDigits(s: string): nat
    requires AllDigits(s)
    decreases |s|
  {
    if |s| == 0 then 0 else ParseDigits(s[..|s| - 1]) * 10 + DigitValue(s[|s| - 1])
  }

  /** Reading back what `NatToString` wrote gives the number again. */
  lemma {:induction false} ParseNatToString(n: nat)
    decreases n
    ensures AllDigits(NatToString(n)) && ParseDigits(NatToString(n)) == n
  {
    NatToStringDigits(n);
    if n >= 10 {
      var s := NatToString(n);
      ParseNatToString(n / 10);
      assert s[..|s| - 1] == NatToString(n / 10);
    }
  }

  /** Number of characters `String(n)` takes for one-, two- and four-digit
      values. */
  lemma NatToStringLength(n: nat)
    ensures n < 10 ==> |NatToString(n)| == 1
    ensures 10 <= n < 100 ==> |NatToString(n)| == 2
    ensures 100 <= n < 1000 ==> |NatToString(n)| == 3
    ensures 1000 <= n < 10000 ==> |NatToString(n)| == 4
  {
    if n >= 10 {
      NatToStringLength(n / 10);
    }
  }

  /** JavaScript `s.padStart(width, fill)` for a one-character `fill`:
      copies of `fill` are put in front of `s` until it is `width` long; a
      string already that long is returned as it is. */
  function PadStart(s: string, width: nat, fill: char): (r: string)
    decreases width - |s|
    ensures |r| == if |s| >= width then |s| else width
  {
    if |s| >= width then s else PadStart([fill] + s, width, fill)
  }

  /** What `padStart` puts in front is only `fill`, and `s` itself ends the
      result unchanged. */
  lemma {:induction false} PadStartShape(s: string, width: nat, fill: char)
    decreases width - |s|
    ensures var r := PadStart(s, width, fill);
            && s == r[|r| - |s|..]
            && forall i :: 0 <= i < |r| - |s| ==> r[i] == fill
  {
    if |s| < width {
      PadStartShape([fill] + s, width, fill);
    }
  }

  /** `String(n).padStart(2, "0")`. */
  function Pad2(n: nat): string
  {
    PadStart(NatToString(n), 2, '0')
  }

  /** `Pad2` writes digits only, whatever the value. */
  lemma Pad2AllDigits(n: nat)
    ensures AllDigits(Pad2(n))
  {
    var d := NatToString(n);
    NatToStringDigits(n);
    PadStartShape(d, 2, '0');
    var r := Pad2(n);
    forall i | 0 <= i < |r|
      ensures IsDigit(r[i])
    {
      if i >= |r| - |d| {
        assert r[i] == r[|r| - |d|..][i - (|r| - |d|)];
      }
    }
  }

  /** Below 100, `Pad2` is the tens digit followed by the units digit, so
      it is two characters long and starts with '0' exactly for the values
      below ten. */
  lemma Pad2Digits(n: nat)
    requires n < 100
    ensures Pad2(n) == [DigitChar(n / 10), DigitChar(n % 10)]
    ensures Pad2(n)[0] == '0' <==> n < 10
  {
    if n < 10 {
      var d := [DigitChar(n)];
      assert NatToString(n) == d;
      assert PadStart(d, 2, '0') == PadStart(['0'] + d, 2, '0');
      assert PadStart(['0'] + d, 2, '0') == ['0'] + d;
    } else {
      var d := [DigitChar(n / 10), DigitChar(n % 10)];
      assert NatToString(n / 10) == [DigitChar(n / 10)];
      assert NatToString(n) == d;
      assert PadStart(d, 2, '0') == d;
    }
  }

  /** From 100 on, `String(n)` is already long enough and is not padded. */
  lemma Pad2Wide(n: nat)
    requires n >= 100
    ensures Pad2(n) == NatToString(n)
  {
    NatToStringLength(n);
  }

  /** The value of two decimal digit characters, `None` when either is not
      a digit. */
  function TwoDigits(a: char, b: char): (r: Option<nat>)
    ensures r.Some? <==> IsDigit(a) && IsDigit(b)
    ensures r.Some? ==> r.value < 100
  {
    if IsDigit(a) && IsDigit(b) then Some(DigitValue(a) * 10 + DigitValue(b)) else None
  }

  /** `TwoDigits` reads back what `Pad2` wrote for every value below 100. */
  lemma TwoDigitsOfPad2(n: nat)
    requires n < 100
    ensures TwoDigits(Pad2(n)[0], Pad2(n)[1]) == Some(n)
  {
    Pad2Digits(n);
  }
}
