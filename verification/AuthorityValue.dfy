/** Compound primary keys as one integer (core/primary_key_authority_value.go): every
    component as eight big-endian bytes, one after the other. */
module AuthorityValue {
  import opened Prelude
  import opened Positional

  /** A key component as the caller passes it. Strings are parsed by the type of the
      attribute at its place before anything else. */
  datatype Component =
    | Signed(x: i64)
    | Unsigned(y: u64)
    | Big(z: int)
    | Instant(nanos: i64)
    | Text(text: string)
    | Nil
    | Other

  /** int64 to uint64, and the check that a big integer fits: the unsigned 64-bit image. */
  function Image(parse: (nat, string) -> Option<Component>, i: nat, c: Component): Option<u64> {
    var d := if c.Text? then parse(i, c.text) else Some(c);
    if d.None? then None
    else
      match d.value
      case Signed(x) => Some(x % U64)
      case Unsigned(y) => Some(y)
      case Big(z) => if 0 <= z < U64 then Some(z) else None
      case Instant(n) => Some(n % U64)
      case _ => None
  }

  /** The signed number whose two's complement is this word. */
  function AsSigned(u: u64): i64 {
    if u < 0x8000_0000_0000_0000 then u else u - U64
  }

  /** The word stands for this component. */
  predicate StandsFor(c: Component, u: u64) {
    match c
    case Signed(x) => x == AsSigned(u)
    case Unsigned(y) => y == u
    case Big(z) => z == u
    case Instant(n) => n == AsSigned(u)
    case _ => false
  }

  /** The component after a string was parsed by the type of its attribute. */
  function Parsed(parse: (nat, string) -> Option<Component>, i: nat, c: Component): Option<Component> {
    if c.Text? then parse(i, c.text) else Some(c)
  }

  /** Every component of a supported type has a word, a big integer exactly if it fits. */
  predicate Fits(d: Option<Component>) {
    d.Some? && (d.value.Signed? || d.value.Unsigned? || d.value.Instant? || (d.value.Big? && 0 <= d.value.z < U64))
  }

  /** A component's word is the one that stands for it, and it has one exactly if it fits. */
  lemma ImageIff(parse: (nat, string) -> Option<Component>, i: nat, c: Component, u: u64)
    ensures Image(parse, i, c).Some? <==> Fits(Parsed(parse, i, c))
    ensures Image(parse, i, c) == Some(u) <==> Parsed(parse, i, c).Some? && StandsFor(Parsed(parse, i, c).value, u)
  {
    var d := Parsed(parse, i, c);
    if d.Some? && (d.value.Signed? || d.value.Instant?) {
      var x := if d.value.Signed? then d.value.x else d.value.nanos;
      assert x < 0 ==> x % U64 == x + U64;
    }
  }

  /** The low `n` bytes of a number, big-endian. */
  function LowBytes(v: nat, n: nat): (s: seq<byte>)
    ensures |s| == n
  {
    if n == 0 then [] else LowBytes(v / 256, n - 1) + [v % 256]
  }

  lemma {:induction false} LowBytesNumber(v: nat, n: nat)
    requires v < Pow(256, n)
    ensures Number(256, LowBytes(v, n)) == v
  {
    if n > 0 {
      LowBytesNumber(v / 256, n - 1);
      NumberLast(256, LowBytes(v / 256, n - 1), v % 256);
    }
  }

  /** Eight more bytes are one more 64-bit word. */
  lemma WordAppend(bytes: seq<byte>, words: seq<u64>, w: u64)
    requires Number(256, bytes) == Number(U64, words)
    ensures Number(256, bytes + LowBytes(w, 8)) == Number(U64, words + [w])
  {
    assert Pow(256, 8) == U64;
    LowBytesNumber(w, 8);
    Concat(256, bytes, LowBytes(w, 8));
    NumberLast(U64, words, w);
  }

  /** EncodeCompoundPrimaryKeyAuthorityValue: the words that stand for the components as one
      number in base 2^64. It fails exactly on an incomplete request or a component that
      does not fit into a word. */
  method Encode(parse: (nat, string) -> Option<Component>, tableName: string, primaryKey: string,
                attributeCount: nat, components: seq<Component>) returns (r: Result<nat>, ghost words: seq<u64>)
    ensures r.Ok? <==> && tableName != "" && primaryKey != "" && |components| >= 2 && attributeCount == |components|
                       && forall i | 0 <= i < |components| :: Fits(Parsed(parse, i, components[i]))
    ensures r.Ok? ==> |words| == |components| && r.value == Number(U64, words)
    ensures r.Ok? ==> forall i | 0 <= i < |words| ::
                        && Parsed(parse, i, components[i]).Some?
                        && StandsFor(Parsed(parse, i, components[i]).value, words[i])
  {
    words := [];
    if tableName == "" || primaryKey == "" || |components| < 2 || attributeCount != |components| {
      return Err("incomplete compound primary key"), words;
    }
    hide Image, StandsFor, Fits, Parsed;
    var buf: seq<byte> := [];
    for i := 0 to |components|
      invariant |words| == i && Number(256, buf) == Number(U64, words)
      invariant forall k | 0 <= k < i :: Fits(Parsed(parse, k, components[k])) && Parsed(parse, k, components[k]).Some?
      invariant forall k | 0 <= k < i ::
                  Parsed(parse, k, components[k]).Some? && StandsFor(Parsed(parse, k, components[k]).value, words[k])
    {
      var image := Image(parse, i, components[i]);
      ImageIff(parse, i, components[i], if image.Some? then image.value else 0);
      if image.None? {
        return Err("unsupported component"), words;
      }
      WordAppend(buf, words, image.value);
      buf, words := buf + LowBytes(image.value, 8), words + [image.value];
    }
    Bound(256, buf);
    return Ok(Number(256, buf)), words;
  }

  /** Keys of one arity: the authority values are below 2^(64n), equal exactly for equal
      tuples of images, and compare as those tuples do. */
  lemma TupleOrder(a: seq<u64>, b: seq<u64>)
    requires |a| == |b|
    ensures 0 <= Number(U64, a) < Pow(U64, |a|) && Pow(U64, |a|) == Pow(2, 64 * |a|)
    ensures Number(U64, a) == Number(U64, b) <==> a == b
    ensures Number(U64, a) < Number(U64, b) <==> DigitsLess(a, b)
  {
    Bound(U64, a);
    OrderIff(U64, a, b);
    WordPow(|a|);
  }

  lemma {:induction false} WordPow(n: nat)
    ensures Pow(U64, n) == Pow(2, 64 * n)
  {
    if n > 0 {
      WordPow(n - 1);
      PowSum(2, 64, 64 * (n - 1));
      TwoTo64();
    }
  }

  lemma TwoTo64()
    ensures Pow(2, 64) == U64
  {
    assert Pow(2, 8) == 256;
    hide Pow;
    PowSum(2, 8, 8);
    assert Pow(2, 16) == 0x1_0000;
    PowSum(2, 16, 16);
    assert Pow(2, 32) == 0x1_0000_0000;
    PowSum(2, 32, 32);
  }

  /** Words compare as the numbers do for unsigned and big components. For signed ones and
      instants every negative number comes after every non-negative one, and equal signs keep
      their order. */
  lemma WordOrder(c: Component, u: u64, d: Component, v: u64)
    requires StandsFor(c, u) && StandsFor(d, v)
    ensures (c.Unsigned? || c.Big?) && (d.Unsigned? || d.Big?) ==>
              var x, y := if c.Big? then c.z else c.y, if d.Big? then d.z else d.y;
              (u < v <==> x < y) && (u == v <==> x == y)
    ensures (c.Signed? || c.Instant?) && (d.Signed? || d.Instant?) ==>
              var x, y := if c.Signed? then c.x else c.nanos, if d.Signed? then d.x else d.nanos;
              (u < v <==> (x < y <==> (x < 0 <==> y < 0)) && x != y) && (u == v <==> x == y)
    ensures (c.Signed? || c.Instant?) && (d.Unsigned? || d.Big?) ==>
              var x, y := if c.Signed? then c.x else c.nanos, if d.Big? then d.z else d.y;
              u == v <==> y == if x < 0 then x + U64 else x
  {
  }
}
