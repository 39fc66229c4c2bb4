/** Strings as integers that a bit-sliced index can compare (core/builtins.go): the first
    bytes of the string, padded with zero bytes, as a big-endian number. */
module LexicalEncoding {
  import opened Prelude
  import opened Positional

  /** The number and the part of the string that it leaves out; an empty string has no
      number. */
  datatype Encoded = Encoded(number: Option<nat>, remainder: seq<byte>)

  function Zeros(n: nat): (s: seq<byte>)
    ensures |s| == n && forall i | 0 <= i < n :: s[i] == 0
  {
    if n == 0 then [] else [0] + Zeros(n - 1)
  }

  function Copied(value: seq<byte>, prefix: nat): nat {
    if |value| > prefix then prefix else |value|
  }

  /** The string's first `prefix` bytes, or all of it followed by zero bytes. */
  function Padded(value: seq<byte>, prefix: nat): (s: seq<byte>)
    ensures |s| == prefix
  {
    value[..Copied(value, prefix)] + Zeros(prefix - Copied(value, prefix))
  }

  // ----- The 64-bit path -----

  /** Bitwise or. */
  function Or(a: nat, b: nat): nat
    decreases a + b
  {
    if a == 0 && b == 0 then 0
    else 2 * Or(a / 2, b / 2) + if a % 2 == 1 || b % 2 == 1 then 1 else 0
  }

  /** A 64-bit left shift. */
  function Shift(x: nat, bits: nat): u64 {
    (x * Pow(2, bits)) % U64
  }

  /** Numbers without a common bit: or is addition. */
  lemma {:induction false} OrAdds(m: nat, b: nat, k: nat)
    requires b < Pow(2, k)
    ensures m * Pow(2, k) >= 0 && Or(m * Pow(2, k), b) == m * Pow(2, k) + b
    decreases k, m
  {
    PositiveProduct(m, Pow(2, k));
    if k == 0 {
      if m > 0 {
        OrAdds(m / 2, 0, 0);
      }
    } else {
      var half := m * Pow(2, k - 1);
      assert m * Pow(2, k) == 2 * half by { Associate(2, m, Pow(2, k - 1)); Associate(m, 2, Pow(2, k - 1)); }
      PositiveProduct(m, Pow(2, k - 1));
      OrAdds(m, b / 2, k - 1);
      OrHalves(half, b);
    }
  }

  lemma OrHalves(half: nat, b: nat)
    requires Or(half, b / 2) == half + b / 2
    ensures Or(2 * half, b) == 2 * half + b
  {
    if half == 0 && b == 0 {
    } else {
      assert (2 * half) / 2 == half && (2 * half) % 2 == 0;
    }
  }

  lemma {:induction false} BytePow(j: nat)
    ensures Pow(256, j) == Pow(2, 8 * j)
  {
    if j > 0 {
      BytePow(j - 1);
      PowSum(2, 8, 8 * (j - 1));
      assert Pow(2, 8) == 256;
    }
  }

  lemma {:induction false} PowAtMost(j: nat)
    requires j <= 8
    ensures Pow(256, j) <= U64
  {
    PowSum(256, j, 8 - j);
    assert Pow(256, 8) == U64;
    assert Pow(256, 8 - j) >= 1;
    assert Pow(256, j) * 1 <= Pow(256, j) * Pow(256, 8 - j) by { AtLeastOnce(Pow(256, j), Pow(256, 8 - j)); }
  }

  lemma AtLeastOnce(a: nat, b: nat)
    requires b >= 1
    ensures a <= a * b
  {
    assert a * b == a + a * (b - 1);
  }

  /** One byte more: the or with the shifted byte appends it to what is there. */
  lemma OrByte(n: nat, b: byte, j: nat)
    requires j < 8
    ensures n * Pow(256, j + 1) >= 0
    ensures Or(n * Pow(256, j + 1), Shift(b, 8 * j)) == (n * 256 + b) * Pow(256, j)
  {
    var p := Pow(256, j);
    BytePow(j);
    BytePow(j + 1);
    PowAtMost(j + 1);
    assert Pow(256, j + 1) == 256 * p;
    DigitBound(256, b, p, 0);
    assert b * p < U64;
    PositiveProduct(b, p);
    assert Shift(b, 8 * j) == b * p;
    OrAdds(n, b * p, 8 * (j + 1));
    assert n * (256 * p) + b * p == (n * 256 + b) * p by { Distribute(n, 256, b, p); }
  }

  /** The loop of the 64-bit path. */
  method PackUint64(value: seq<byte>, prefix: nat) returns (encoded: nat)
    requires prefix <= 8
    ensures encoded == Number(256, Padded(value, prefix)) < U64
  {
    encoded := 0;
    var copied := Copied(value, prefix);
    assert value[..0] == [];
    for i := 0 to copied
      invariant Number(256, value[..i]) >= 0
      invariant encoded == Number(256, value[..i]) * Pow(256, prefix - i)
    {
      OrByte(Number(256, value[..i]), value[i], prefix - i - 1);
      assert value[..i + 1] == value[..i] + [value[i]];
      NumberLast(256, value[..i], value[i]);
      encoded := Or(encoded, Shift(value[i], 8 * (prefix - i - 1)));
    }
    PaddedNumber(value, prefix);
    PowAtMost(prefix);
  }

  lemma {:induction false} ZerosNumber(n: nat)
    ensures Number(256, Zeros(n)) == 0
  {
    if n > 0 {
      ZerosNumber(n - 1);
      assert Zeros(n)[1..] == Zeros(n - 1);
    }
  }

  lemma PaddedNumber(value: seq<byte>, prefix: nat)
    ensures var copied := Copied(value, prefix);
            Number(256, Padded(value, prefix)) == Number(256, value[..copied]) * Pow(256, prefix - copied)
    ensures 0 <= Number(256, Padded(value, prefix)) < Pow(256, prefix)
  {
    var copied := Copied(value, prefix);
    Concat(256, value[..copied], Zeros(prefix - copied));
    ZerosNumber(prefix - copied);
    Bound(256, Padded(value, prefix));
  }

  /** encodeStringLexBSI: for every prefix length above zero the number is that of the
      padded prefix, whichever path computes it. */
  method Encode(value: seq<byte>, prefixLength: int) returns (r: Encoded)
    ensures r == EncodedOf(value, prefixLength)
  {
    if value == [] {
      return Encoded(None, []);
    }
    if prefixLength <= 0 {
      Bound(256, value);
      return Encoded(Some(Number(256, value)), []);
    }
    var copied := |value|;
    if copied > prefixLength {
      copied := prefixLength;
    }
    var remainder := if |value| > copied then value[copied..] else [];
    PaddedNumber(value, prefixLength);
    if prefixLength <= 8 {
      var encoded := PackUint64(value, prefixLength);
      return Encoded(Some(encoded), remainder);
    }
    var prefix := value[..copied] + Zeros(prefixLength - copied);
    return Encoded(Some(Number(256, prefix)), remainder);
  }

  ghost function EncodedOf(value: seq<byte>, prefixLength: int): Encoded {
    if value == [] then Encoded(None, [])
    else if prefixLength <= 0 then Bound(256, value); Encoded(Some(Number(256, value)), [])
    else PaddedNumber(value, prefixLength);
         Encoded(Some(Number(256, Padded(value, prefixLength))), value[Copied(value, prefixLength)..])
  }

  /** decodeStringLexBSIPrefix: the bytes of the number up to the first zero byte. */
  function Decode(number: Option<nat>): (s: seq<int>) {
    if number.None? then [] else UpToZero(ToDigits(256, number.value))
  }

  function UpToZero(s: seq<int>): seq<int> {
    if s == [] || s[0] == 0 then [] else [s[0]] + UpToZero(s[1..])
  }

  ghost predicate NulFree(s: seq<int>) {
    forall i | 0 <= i < |s| :: s[i] != 0
  }

  lemma {:induction false} UpToZeroIs(s: seq<int>, n: nat)
    requires NulFree(s)
    ensures UpToZero(s + Zeros(n)) == s
  {
    if s == [] {
      assert s + Zeros(n) == Zeros(n);
    } else {
      assert (s + Zeros(n))[1..] == s[1..] + Zeros(n);
      UpToZeroIs(s[1..], n);
      assert [s[0]] + s[1..] == s;
    }
  }

  lemma {:induction false} UpToZeroFree(s: seq<int>)
    ensures NulFree(UpToZero(s))
  {
    if s != [] && s[0] != 0 {
      UpToZeroFree(s[1..]);
    }
  }

  /** Decoding and appending the remainder restores the string exactly when the bytes that
      were encoded contain no zero byte. */
  lemma RestoresIff(value: seq<byte>, prefixLength: int)
    requires value != []
    ensures var r := EncodedOf(value, prefixLength);
            var encoded := if prefixLength <= 0 then value else value[..Copied(value, prefixLength)];
            Decode(r.number) + r.remainder == value <==> NulFree(encoded)
  {
    hide Decode, Padded, Number, ToDigits;
    var r := EncodedOf(value, prefixLength);
    var copied := if prefixLength <= 0 then |value| else Copied(value, prefixLength);
    var encoded := value[..copied];
    assert value[..|value|] == value;
    DecodeFree(r.number);
    assert value == encoded + r.remainder;
    if Decode(r.number) + r.remainder == value {
      assert |Decode(r.number)| == |encoded|;
      assert (Decode(r.number) + r.remainder)[..|encoded|] == Decode(r.number);
      assert Decode(r.number) == encoded;
    }
    if NulFree(encoded) {
      DecodePadded(value, prefixLength);
    }
  }

  lemma DecodeFree(number: Option<nat>)
    ensures NulFree(Decode(number))
  {
    if number.Some? {
      UpToZeroFree(ToDigits(256, number.value));
    }
  }

  lemma DecodePadded(value: seq<byte>, prefixLength: int)
    requires value != []
    requires NulFree(if prefixLength <= 0 then value else value[..Copied(value, prefixLength)])
    ensures Decode(EncodedOf(value, prefixLength).number) ==
            if prefixLength <= 0 then value else value[..Copied(value, prefixLength)]
  {
    hide ToDigits, Number, Zeros, UpToZero;
    if prefixLength <= 0 {
      DigitsRoundTrip(256, value);
      UpToZeroIs(value, 0);
      assert value + Zeros(0) == value;
    } else {
      var copied := Copied(value, prefixLength);
      assert copied > 0 && Padded(value, prefixLength)[0] == value[0] == value[..copied][0];
      DigitsRoundTrip(256, Padded(value, prefixLength));
      UpToZeroIs(value[..copied], prefixLength - copied);
    }
  }

  // ----- Order -----

  lemma PaddedParts(value: seq<byte>, prefix: nat)
    requires prefix > 0
    ensures Padded(value, prefix)[0] == if value == [] then 0 else value[0]
    ensures Padded(value, prefix)[1..] == Padded(if value == [] then [] else value[1..], prefix - 1)
  {
    var tail: seq<byte> := if value == [] then [] else value[1..];
    if value != [] {
      assert value[..Copied(value, prefix)][1..] == tail[..Copied(tail, prefix - 1)];
      assert Padded(value, prefix)[1..] == value[..Copied(value, prefix)][1..] + Zeros(prefix - Copied(value, prefix));
    } else {
      assert Padded(value, prefix) == Zeros(prefix) && Padded(tail, prefix - 1) == Zeros(prefix - 1);
    }
  }

  lemma {:induction false} PaddedKeepsOrder(a: seq<byte>, b: seq<byte>, prefix: nat)
    requires !DigitsLess(b, a)
    ensures !DigitsLess(Padded(b, prefix), Padded(a, prefix))
    decreases prefix
  {
    hide Padded;
    if prefix > 0 {
      PaddedParts(a, prefix);
      PaddedParts(b, prefix);
      if a == [] || (a[0] == b[0] && b != []) {
        PaddedKeepsOrder(if a == [] then [] else a[1..], if b == [] then [] else b[1..], prefix - 1);
      }
    }
  }

  /** For every prefix length above zero the numbers never contradict the byte order of
      the strings, and they are equal exactly when the padded prefixes are. */
  lemma PrefixOrder(a: seq<byte>, b: seq<byte>, prefixLength: int)
    requires a != [] && b != [] && prefixLength > 0
    ensures var x, y := EncodedOf(a, prefixLength).number.value, EncodedOf(b, prefixLength).number.value;
            && (DigitsLess(a, b) ==> x <= y)
            && (x < y ==> DigitsLess(a, b))
            && (x == y <==> Padded(a, prefixLength) == Padded(b, prefixLength))
  {
    hide Padded, Number;
    OrderIff(256, Padded(a, prefixLength), Padded(b, prefixLength));
    OrderIff(256, Padded(b, prefixLength), Padded(a, prefixLength));
    LessAsymmetric(a, b);
    if !DigitsLess(b, a) {
      PaddedKeepsOrder(a, b, prefixLength);
    }
    if !DigitsLess(a, b) {
      PaddedKeepsOrder(b, a, prefixLength);
    }
  }

  lemma {:induction false} LessAsymmetric(x: seq<int>, y: seq<int>)
    ensures !(DigitsLess(x, y) && DigitsLess(y, x))
    decreases |x|
  {
    if x != [] && y != [] {
      LessAsymmetric(x[1..], y[1..]);
    }
  }

  /** The string without its leading zero bytes. */
  function Significant(s: seq<byte>): (r: seq<byte>)
    ensures r == [] || r[0] != 0
    ensures |r| <= |s|
  {
    if s == [] || s[0] != 0 then s else Significant(s[1..])
  }

  lemma {:induction false} SignificantNumber(s: seq<byte>)
    ensures Number(256, Significant(s)) == Number(256, s)
  {
    if s != [] && s[0] == 0 {
      SignificantNumber(s[1..]);
    }
  }

  /** Whole-value mode drops the leading zero bytes, orders by the length of what is left,
      and only then byte by byte; strings that differ in leading zeros only are equal. */
  lemma WholeOrder(a: seq<byte>, b: seq<byte>)
    requires a != [] && b != []
    ensures var x, y := EncodedOf(a, 0).number.value, EncodedOf(b, 0).number.value;
            var a', b' := Significant(a), Significant(b);
            (x < y <==> |a'| < |b'| || (|a'| == |b'| && DigitsLess(a', b'))) && (x == y <==> a' == b')
  {
    hide Number;
    SignificantNumber(a);
    SignificantNumber(b);
    var a', b' := Significant(a), Significant(b);
    if |a'| == |b'| {
      OrderIff(256, a', b');
    } else if |a'| < |b'| {
      LongerIsLarger(a', b');
    } else {
      LongerIsLarger(b', a');
    }
  }

  lemma LongerIsLarger(a: seq<byte>, b: seq<byte>)
    requires |a| < |b| && b[0] != 0
    ensures Number(256, a) < Number(256, b)
  {
    Bound(256, a);
    Bound(256, b[1..]);
    var p := Pow(256, |b| - 1);
    PowSum(256, |a|, |b| - 1 - |a|);
    AtLeastOnce(Pow(256, |a|), Pow(256, |b| - 1 - |a|));
    AtLeastOnce(p, b[0]);
    assert b[0] * p == p * b[0];
  }

  /** So a longer string can come after a shorter one that is larger byte by byte. */
  lemma LengthBeatsBytes()
    ensures DigitsLess([97, 97], [98]) && EncodedOf([98], 0).number.value < EncodedOf([97, 97], 0).number.value
  {
    LongerIsLarger([98], [97, 97]);
  }
}
