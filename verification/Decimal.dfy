/** Integers written in decimal, as Rust's `Display` writes `i64`, and read back. */
module Decimal {
  import opened Wrappers

  function Digit(d: nat): char
    requires d < 10
  {
    "0123456789"[d]
  }

  function DigitValue(c: char): Option<nat> {
    if '0' <= c <= '9' then Some((c - '0') as nat) else None
  }

  function ShowNat(n: nat): (s: string)
    ensures s != [] && forall c :: c in s ==> '0' <= c <= '9'
  {
    (if n < 10 then [] else ShowNat(n / 10)) + [Digit(n % 10)]
  }

  function ShowInt(n: int): (s: string)
    ensures s != [] && forall c :: c in s ==> '0' <= c <= '9' || c == '-'
  {
    if n < 0 then ['-'] + ShowNat(-n) else ShowNat(n)
  }

  function ReadNat(s: string): Option<nat> {
    if s == [] then None
    else
      match DigitValue(s[|s| - 1])
      case None => None
      case Some(d) =>
        if |s| == 1 then Some(d)
        else match ReadNat(s[..|s| - 1])
          case None => None
          case Some(n) => Some(n * 10 + d)
  }

  function ReadInt(s: string): Option<int> {
    if s != [] && s[0] == '-' then
      match ReadNat(s[1..])
      case None => None
      case Some(n) => Some(-(n as int))
    else
      match ReadNat(s)
      case None => None
      case Some(n) => Some(n)
  }

  // The first digit is 0 for the number 0 alone.
  lemma {:induction false} NoLeadingZero(n: nat)
    ensures ShowNat(n)[0] == '0' <==> n == 0
    ensures n < 10 ==> |ShowNat(n)| == 1
  {
    if n >= 10 {
      NoLeadingZero(n / 10);
    }
  }

  lemma DigitRoundTrip(d: nat)
    requires d < 10
    ensures DigitValue(Digit(d)) == Some(d)
  {
  }

  lemma {:induction false} ReadShownNat(n: nat)
    ensures ReadNat(ShowNat(n)) == Some(n)
  {
    var front := if n < 10 then [] else ShowNat(n / 10);
    assert ShowNat(n)[..|ShowNat(n)| - 1] == front;
    DigitRoundTrip(n % 10);
    if n < 10 {
    } else {
      ReadShownNat(n / 10);
    }
  }

  lemma ReadSigned(digits: string, n: nat)
    requires ReadNat(digits) == Some(n)
    ensures ReadInt(['-'] + digits) == Some(-(n as int))
  {
    assert (['-'] + digits)[1..] == digits;
  }

  lemma ReadUnsigned(digits: string, n: nat)
    requires ReadNat(digits) == Some(n) && digits != [] && forall c :: c in digits ==> '0' <= c <= '9'
    ensures ReadInt(digits) == Some(n)
  {
    assert digits[0] in digits;
  }

  lemma ReadShownInt(n: int)
    ensures ReadInt(ShowInt(n)) == Some(n)
  {
    var m: nat := if n < 0 then -n else n;
    var digits := ShowNat(m);
    ReadShownNat(m);
    if n < 0 {
      ReadSigned(digits, m);
    } else {
      ReadUnsigned(digits, m);
    }
  }
}
