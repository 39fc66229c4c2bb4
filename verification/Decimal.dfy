/** Decimal numerals, as strconv and fmt write them. */
module Decimal {
  import opened Prelude

  function Digits(n: nat): (s: string)
    ensures s != "" && forall i | 0 <= i < |s| :: '0' <= s[i] <= '9'
  {
    if n < 10 then ['0' + n as char] else Digits(n / 10) + ['0' + (n % 10) as char]
  }

  /** Read digits as long as there are any. */
  function TakeDigits(s: string, sofar: nat): (r: (nat, string))
    ensures |r.1| <= |s|
  {
    if s == "" || !('0' <= s[0] <= '9') then (sofar, s)
    else TakeDigits(s[1..], 10 * sofar + (s[0] - '0') as nat)
  }

  lemma {:induction false} DigitsRead(n: nat, rest: string)
    ensures TakeDigits(Digits(n) + rest, 0) == TakeDigits(rest, n)
  {
    var last := ['0' + (n % 10) as char];
    if n < 10 {
      assert (Digits(n) + rest)[1..] == rest;
    } else {
      assert Digits(n) + rest == Digits(n / 10) + (last + rest);
      DigitsRead(n / 10, last + rest);
      assert (last + rest)[1..] == rest;
    }
  }

  /** A numeral followed by something that is not a digit is read back whole. */
  lemma DigitsRoundTrip(n: nat, c: char, rest: string)
    requires !('0' <= c <= '9')
    ensures TakeDigits(Digits(n) + ([c] + rest), 0) == (n, [c] + rest)
  {
    DigitsRead(n, [c] + rest);
  }

  function Ascii(s: string): (b: seq<byte>)
    requires forall i | 0 <= i < |s| :: s[i] as int < 128
    ensures |b| == |s| && forall i | 0 <= i < |s| :: b[i] == s[i] as int
  {
    if s == "" then [] else [s[0] as int] + Ascii(s[1..])
  }
}
