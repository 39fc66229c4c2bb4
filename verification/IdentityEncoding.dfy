/** The durable identity of a typed primary key (core/primary_key_identity_encoding.go):
    a version byte, then everything length-prefixed or self-delimiting, so that the
    bytes can be read back. */
module IdentityEncoding {
  import opened Prelude
  import opened Decimal

  const VERSION: byte := 1

  /** A value as the caller passes it. Integers come in several widths, which the
      encoding does not tell apart. */
  datatype Value =
    | BoolValue(flag: bool)
    | IntValue(width: nat, signed: i64)
    | UintValue(width: nat, unsigned: u64)
    | StringValue(text: seq<byte>)
    | BytesValue(bytes: seq<byte>)
    | TimeValue(nanos: i64)
    | OtherValue

  datatype Attribute = Attribute(fieldName: seq<byte>, typeName: seq<byte>, mappingStrategy: seq<byte>)

  datatype Request = Request(tableName: seq<byte>, primaryKey: seq<byte>, shardNanos: i64,
                             attributes: seq<Option<Attribute>>, values: seq<Value>)

  // ----- Varints -----

  /** The unsigned varint of a number: seven bits a byte, low bits first. */
  function Uvarint(x: nat): (s: seq<byte>)
    ensures s != []
  {
    if x < 128 then [x] else [x % 128 + 128] + Uvarint(x / 128)
  }

  /** A varint at the front of some bytes, and what follows it. */
  function TakeUvarint(s: seq<byte>): Option<(nat, seq<byte>)> {
    if s == [] then None
    else if s[0] < 128 then Some((s[0], s[1..]))
    else
      match TakeUvarint(s[1..])
      case None => None
      case Some((high, rest)) => Some((s[0] - 128 + 128 * high, rest))
  }

  lemma {:induction false} UvarintRoundTrip(x: nat, rest: seq<byte>)
    ensures TakeUvarint(Uvarint(x) + rest) == Some((x, rest))
  {
    var s := Uvarint(x) + rest;
    if x < 128 {
      assert s[1..] == rest;
    } else {
      assert s[1..] == Uvarint(x / 128) + rest;
      UvarintRoundTrip(x / 128, rest);
    }
  }

  /** binary.PutUvarint. */
  method PutUvarint(value: u64) returns (buf: seq<byte>)
    ensures buf == Uvarint(value)
  {
    buf := [];
    var x: nat := value;
    while x >= 0x80
      invariant buf + Uvarint(x) == Uvarint(value)
      decreases x
    {
      assert buf + Uvarint(x) == buf + [x % 128 + 128] + Uvarint(x / 128);
      buf := buf + [x % 128 + 128];
      x := x / 128;
    }
    buf := buf + [x];
  }

  /** uint64(value<<1) ^ uint64(value>>63): the shift drops the top bit, and the second
      operand is no bit or every bit. */
  function Zigzag(value: i64): (r: u64) {
    var shifted := (2 * value) % U64;
    if value < 0 then U64 - 1 - shifted else shifted
  }

  function Unzigzag(x: nat): int {
    if x % 2 == 0 then x / 2 else -(x / 2) - 1
  }

  /** Zigzag is a bijection between the signed and the unsigned 64-bit integers. */
  lemma ZigzagRoundTrip(value: i64, x: u64)
    ensures Unzigzag(Zigzag(value)) == value
    ensures -0x8000_0000_0000_0000 <= Unzigzag(x) < 0x8000_0000_0000_0000 && Zigzag(Unzigzag(x)) == x
  {
    if value < 0 {
      assert (2 * value) % U64 == 2 * value + U64;
    }
    if x % 2 == 1 {
      assert (2 * Unzigzag(x)) % U64 == 2 * Unzigzag(x) + U64;
    }
  }

  // ----- Bytes and tagged values -----

  function Lengthed(s: seq<byte>): seq<byte> {
    Uvarint(|s|) + s
  }

  function TakeLengthed(s: seq<byte>): Option<(seq<byte>, seq<byte>)> {
    match TakeUvarint(s)
    case None => None
    case Some((n, rest)) => if n <= |rest| then Some((rest[..n], rest[n..])) else None
  }

  lemma LengthedRoundTrip(s: seq<byte>, rest: seq<byte>)
    ensures TakeLengthed(Lengthed(s) + rest) == Some((s, rest))
  {
    assert Lengthed(s) + rest == Uvarint(|s|) + (s + rest);
    UvarintRoundTrip(|s|, s + rest);
  }

  /** A value as the encoding sees it. */
  datatype Tagged =
    | Flag(flag: bool)
    | Signed(signed: i64)
    | Unsigned(unsigned: u64)
    | Text(text: seq<byte>)
    | Raw(raw: seq<byte>)
    | Instant(nanos: i64)

  function Tag(v: Value): Option<Tagged> {
    match v
    case BoolValue(b) => Some(Flag(b))
    case IntValue(_, x) => Some(Signed(x))
    case UintValue(_, x) => Some(Unsigned(x))
    case StringValue(s) => Some(Text(s))
    case BytesValue(s) => Some(Raw(s))
    case TimeValue(t) => Some(Instant(t))
    case OtherValue => None
  }

  function TaggedBytes(t: Tagged): seq<byte> {
    match t
    case Flag(b) => [1, if b then 1 else 0]
    case Signed(x) => [2] + Uvarint(Zigzag(x))
    case Unsigned(x) => [3] + Uvarint(x)
    case Text(s) => [4] + Lengthed(s)
    case Raw(s) => [5] + Lengthed(s)
    case Instant(x) => [6] + Uvarint(Zigzag(x))
  }

  function InRange(x: int): bool {
    -0x8000_0000_0000_0000 <= x < 0x8000_0000_0000_0000
  }

  function TakeSigned(s: seq<byte>): Option<(i64, seq<byte>)> {
    match TakeUvarint(s)
    case None => None
    case Some((x, rest)) => if InRange(Unzigzag(x)) then Some((Unzigzag(x), rest)) else None
  }

  function TakeTagged(s: seq<byte>): Option<(Tagged, seq<byte>)> {
    if s == [] then None
    else if s[0] == 1 then if |s| > 1 then Some((Flag(s[1] == 1), s[2..])) else None
    else if s[0] == 2 then
      match TakeSigned(s[1..]) { case None => None case Some((x, rest)) => Some((Signed(x), rest)) }
    else if s[0] == 3 then
      match TakeUvarint(s[1..]) {
        case None => None
        case Some((x, rest)) => if x < U64 then Some((Unsigned(x), rest)) else None
      }
    else if s[0] == 4 then
      match TakeLengthed(s[1..]) { case None => None case Some((x, rest)) => Some((Text(x), rest)) }
    else if s[0] == 5 then
      match TakeLengthed(s[1..]) { case None => None case Some((x, rest)) => Some((Raw(x), rest)) }
    else if s[0] == 6 then
      match TakeSigned(s[1..]) { case None => None case Some((x, rest)) => Some((Instant(x), rest)) }
    else None
  }

  lemma SignedRoundTrip(x: i64, rest: seq<byte>)
    ensures TakeSigned(Uvarint(Zigzag(x)) + rest) == Some((x, rest))
  {
    hide Zigzag, Unzigzag, Uvarint;
    UvarintRoundTrip(Zigzag(x), rest);
    ZigzagRoundTrip(x, 0);
  }

  lemma TaggedRoundTrip(t: Tagged, rest: seq<byte>)
    ensures TakeTagged(TaggedBytes(t) + rest) == Some((t, rest))
  {
    hide Zigzag, Unzigzag, Uvarint, TakeUvarint, TakeLengthed, TakeSigned, Lengthed;
    var s := TaggedBytes(t) + rest;
    match t
    case Flag(b) => assert s[2..] == rest;
    case Signed(x) => assert s[1..] == Uvarint(Zigzag(x)) + rest; SignedRoundTrip(x, rest);
    case Unsigned(x) => assert s[1..] == Uvarint(x) + rest; UvarintRoundTrip(x, rest);
    case Text(x) => assert s[1..] == Lengthed(x) + rest; LengthedRoundTrip(x, rest);
    case Raw(x) => assert s[1..] == Lengthed(x) + rest; LengthedRoundTrip(x, rest);
    case Instant(x) => assert s[1..] == Uvarint(Zigzag(x)) + rest; SignedRoundTrip(x, rest);
  }

  // ----- Identities -----

  /** One key column: the attribute's three names and the value. */
  datatype Item = Item(name: Attribute, value: Tagged)

  datatype Identity = Identity(tableName: seq<byte>, primaryKey: seq<byte>, shardNanos: i64, items: seq<Item>)

  /** A missing attribute is named by its position: "value" and the index. */
  function NameOf(attribute: Option<Attribute>, index: nat): Attribute {
    if attribute.Some? then attribute.value else Attribute(Ascii("value" + Digits(index)), [], [])
  }

  /** The items of the first `n` columns. */
  function ItemsOf(req: Request, n: nat): Option<seq<Item>>
    requires n <= |req.values| == |req.attributes|
  {
    if n == 0 then Some([])
    else
      var front, tag := ItemsOf(req, n - 1), Tag(req.values[n - 1]);
      if front.None? || tag.None? then None
      else Some(front.value + [Item(NameOf(req.attributes[n - 1], n - 1), tag.value)])
  }

  /** What a request identifies, if it can be encoded. */
  function IdentityOf(req: Request): Option<Identity> {
    if req.tableName == [] || req.primaryKey == [] || req.values == [] || |req.attributes| != |req.values| then None
    else
      var items := ItemsOf(req, |req.values|);
      if items.None? then None else Some(Identity(req.tableName, req.primaryKey, req.shardNanos, items.value))
  }

  function ItemBytes(item: Item): seq<byte> {
    Lengthed(item.name.fieldName) + Lengthed(item.name.typeName) + Lengthed(item.name.mappingStrategy)
      + TaggedBytes(item.value)
  }

  function ItemsBytes(items: seq<Item>): seq<byte> {
    if items == [] then [] else ItemBytes(items[0]) + ItemsBytes(items[1..])
  }

  function Header(id: Identity): seq<byte> {
    [VERSION] + Lengthed(id.tableName) + Lengthed(id.primaryKey) + Uvarint(Zigzag(id.shardNanos)) + Uvarint(|id.items|)
  }

  function IdentityBytes(id: Identity): seq<byte> {
    Header(id) + ItemsBytes(id.items)
  }

  // ----- The decoder -----

  function TakeItem(s: seq<byte>): Option<(Item, seq<byte>)> {
    match TakeLengthed(s)
    case None => None
    case Some((field, s1)) =>
      match TakeLengthed(s1)
      case None => None
      case Some((typeName, s2)) =>
        match TakeLengthed(s2)
        case None => None
        case Some((strategy, s3)) =>
          match TakeTagged(s3)
          case None => None
          case Some((value, s4)) => Some((Item(Attribute(field, typeName, strategy), value), s4))
  }

  function TakeItems(s: seq<byte>, n: nat): Option<(seq<Item>, seq<byte>)>
    decreases n
  {
    if n == 0 then Some(([], s))
    else
      match TakeItem(s)
      case None => None
      case Some((item, s1)) =>
        match TakeItems(s1, n - 1)
        case None => None
        case Some((items, s2)) => Some(([item] + items, s2))
  }

  function TakeIdentity(s: seq<byte>): Option<(Identity, seq<byte>)> {
    if s == [] || s[0] != VERSION then None
    else
      match TakeLengthed(s[1..])
      case None => None
      case Some((table, s1)) =>
        match TakeLengthed(s1)
        case None => None
        case Some((key, s2)) =>
          match TakeSigned(s2)
          case None => None
          case Some((nanos, s3)) =>
            match TakeUvarint(s3)
            case None => None
            case Some((n, s4)) =>
              match TakeItems(s4, n)
              case None => None
              case Some((items, s5)) => Some((Identity(table, key, nanos, items), s5))
  }

  lemma ItemRoundTrip(item: Item, rest: seq<byte>)
    ensures TakeItem(ItemBytes(item) + rest) == Some((item, rest))
  {
    hide Lengthed, TakeLengthed, TakeTagged, TaggedBytes;
    var s3 := TaggedBytes(item.value) + rest;
    var s2 := Lengthed(item.name.mappingStrategy) + s3;
    var s1 := Lengthed(item.name.typeName) + s2;
    assert ItemBytes(item) + rest == Lengthed(item.name.fieldName) + s1;
    LengthedRoundTrip(item.name.fieldName, s1);
    LengthedRoundTrip(item.name.typeName, s2);
    LengthedRoundTrip(item.name.mappingStrategy, s3);
    TaggedRoundTrip(item.value, rest);
  }

  lemma {:induction false} ItemsRoundTrip(items: seq<Item>, rest: seq<byte>)
    ensures TakeItems(ItemsBytes(items) + rest, |items|) == Some((items, rest))
  {
    hide ItemBytes, TakeItem;
    if items == [] {
      assert ItemsBytes(items) + rest == rest;
    } else {
      assert ItemsBytes(items) + rest == ItemBytes(items[0]) + (ItemsBytes(items[1..]) + rest);
      ItemRoundTrip(items[0], ItemsBytes(items[1..]) + rest);
      ItemsRoundTrip(items[1..], rest);
      assert [items[0]] + items[1..] == items;
    }
  }

  /** The decoder undoes the encoding, whatever bytes follow: no identity's bytes are a
      proper prefix of another's. */
  lemma IdentityRoundTrip(id: Identity, rest: seq<byte>)
    ensures TakeIdentity(IdentityBytes(id) + rest) == Some((id, rest))
  {
    hide Lengthed, TakeLengthed, TakeSigned, TakeUvarint, Uvarint, Zigzag, ItemsBytes, TakeItems;
    var s4 := ItemsBytes(id.items) + rest;
    var s3 := Uvarint(|id.items|) + s4;
    var s2 := Uvarint(Zigzag(id.shardNanos)) + s3;
    var s1 := Lengthed(id.primaryKey) + s2;
    var s := IdentityBytes(id) + rest;
    assert s == [VERSION] + (Lengthed(id.tableName) + s1);
    assert s[1..] == Lengthed(id.tableName) + s1;
    LengthedRoundTrip(id.tableName, s1);
    LengthedRoundTrip(id.primaryKey, s2);
    SignedRoundTrip(id.shardNanos, s3);
    UvarintRoundTrip(|id.items|, s4);
    ItemsRoundTrip(id.items, rest);
  }

  /** The request has a table, a key, and an attribute for each of its values, which are all
      of a supported type. */
  predicate Encodable(req: Request) {
    && req.tableName != [] && req.primaryKey != [] && req.values != [] && |req.attributes| == |req.values|
    && forall i | 0 <= i < |req.values| :: !req.values[i].OtherValue?
  }

  ghost function EncodingOf(req: Request): seq<byte>
    requires Encodable(req)
  {
    EncodableIff(req);
    IdentityBytes(IdentityOf(req).value)
  }

  /** EncodePrimaryKeyIdentity: it fails exactly on a request that cannot be encoded. */
  method EncodePrimaryKeyIdentity(req: Request) returns (r: Result<seq<byte>>)
    ensures r.Ok? <==> Encodable(req)
    ensures r.Ok? ==> r.value == EncodingOf(req)
  {
    EncodableIff(req);
    hide Lengthed, Uvarint, Zigzag, ItemBytes, TaggedBytes, Tag, NameOf, ItemsBytes;
    if req.tableName == [] || req.primaryKey == [] || req.values == [] || |req.attributes| != |req.values| {
      return Err("incomplete primary-key identity");
    }
    var header :=
      [VERSION] + Lengthed(req.tableName) + Lengthed(req.primaryKey) + Uvarint(Zigzag(req.shardNanos))
        + Uvarint(|req.values|);
    var buf := [];
    ghost var items := [];
    NoItems();
    for i := 0 to |req.values|
      invariant ItemsOf(req, i) == Some(items) && |items| == i && buf == ItemsBytes(items)
    {
      var name := NameOf(req.attributes[i], i);
      var tag := Tag(req.values[i]);
      if tag.None? {
        ItemsOfFails(req, i + 1, |req.values|);
        return Err("unsupported value type");
      }
      ItemsBytesAppend(items, Item(name, tag.value));
      buf := buf + ItemBytes(Item(name, tag.value));
      items := items + [Item(name, tag.value)];
    }
    assert header == Header(IdentityOf(req).value);
    return Ok(header + buf);
  }

  lemma NoItems()
    ensures ItemsBytes([]) == []
  {
  }

  lemma {:induction false} ItemsOfFails(req: Request, i: nat, n: nat)
    requires i <= n <= |req.values| == |req.attributes| && ItemsOf(req, i).None?
    ensures ItemsOf(req, n).None?
  {
    if i < n {
      ItemsOfFails(req, i, n - 1);
    }
  }

  lemma {:induction false} ItemsBytesAppend(items: seq<Item>, item: Item)
    ensures ItemsBytes(items + [item]) == ItemsBytes(items) + ItemBytes(item)
  {
    if items != [] {
      assert (items + [item])[1..] == items[1..] + [item];
      ItemsBytesAppend(items[1..], item);
    } else {
      assert ItemsBytes([item]) == ItemBytes(item) + ItemsBytes([]);
      assert items + [item] == [item];
    }
  }

  // ----- What the bytes tell apart -----

  /** Integers of one sign kind are the same at any width. */
  predicate SameValue(v: Value, w: Value) {
    match v
    case BoolValue(b) => w.BoolValue? && w.flag == b
    case IntValue(_, x) => w.IntValue? && w.signed == x
    case UintValue(_, x) => w.UintValue? && w.unsigned == x
    case StringValue(t) => w.StringValue? && w.text == t
    case BytesValue(t) => w.BytesValue? && w.bytes == t
    case TimeValue(x) => w.TimeValue? && w.nanos == x
    case OtherValue => w.OtherValue?
  }

  /** A missing attribute is the same as one whose field is called "value" and the index and
      that has no type and no mapping strategy. */
  predicate SameName(a: Option<Attribute>, b: Option<Attribute>, index: nat) {
    a == b || IsDefaultName(a, b, index) || IsDefaultName(b, a, index)
  }

  predicate IsDefaultName(missing: Option<Attribute>, given: Option<Attribute>, index: nat) {
    && missing.None? && given.Some? && given.value.typeName == [] && given.value.mappingStrategy == []
    && given.value.fieldName == Ascii("value" + Digits(index))
  }

  ghost predicate SameKey(req: Request, req': Request)
    requires Encodable(req) && Encodable(req')
  {
    && req.tableName == req'.tableName && req.primaryKey == req'.primaryKey && req.shardNanos == req'.shardNanos
    && |req.values| == |req'.values|
    && (forall i | 0 <= i < |req.values| :: SameName(req.attributes[i], req'.attributes[i], i))
    && (forall i | 0 <= i < |req.values| :: SameValue(req.values[i], req'.values[i]))
  }

  lemma {:induction false} ItemsAre(req: Request, n: nat)
    requires n <= |req.values| == |req.attributes|
    ensures ItemsOf(req, n).Some? <==> forall i | 0 <= i < n :: !req.values[i].OtherValue?
    ensures ItemsOf(req, n).Some? ==>
              && |ItemsOf(req, n).value| == n
              && forall i | 0 <= i < n ::
                   && Tag(req.values[i]).Some?
                   && ItemsOf(req, n).value[i] == Item(NameOf(req.attributes[i], i), Tag(req.values[i]).value)
  {
    hide NameOf;
    if n > 0 {
      ItemsAre(req, n - 1);
    }
  }

  lemma EncodableIff(req: Request)
    ensures IdentityOf(req).Some? <==> Encodable(req)
  {
    hide NameOf;
    if |req.attributes| == |req.values| {
      ItemsAre(req, |req.values|);
    }
  }

  lemma NameIff(a: Option<Attribute>, b: Option<Attribute>, index: nat)
    ensures NameOf(a, index) == NameOf(b, index) <==> SameName(a, b, index)
  {
  }

  lemma ValueIff(v: Value, w: Value)
    requires !v.OtherValue? && !w.OtherValue?
    ensures Tag(v).Some? && Tag(w).Some? && (Tag(v) == Tag(w) <==> SameValue(v, w))
  {
  }

  lemma IdentityIff(req: Request, req': Request)
    requires Encodable(req) && Encodable(req')
    ensures IdentityOf(req) == IdentityOf(req') <==> SameKey(req, req')
  {
    EncodableIff(req);
    EncodableIff(req');
    var n := |req.values|;
    ItemsAre(req, n);
    ItemsAre(req', |req'.values|);
    hide Tag, NameOf, SameName, SameValue, ItemsOf;
    forall i | 0 <= i < n && n == |req'.values|
      ensures NameOf(req.attributes[i], i) == NameOf(req'.attributes[i], i)
              <==> SameName(req.attributes[i], req'.attributes[i], i)
      ensures Tag(req.values[i]) == Tag(req'.values[i]) <==> SameValue(req.values[i], req'.values[i])
    {
      NameIff(req.attributes[i], req'.attributes[i], i);
      ValueIff(req.values[i], req'.values[i]);
    }
    if n == |req'.values| {
      var items, items' := ItemsOf(req, n).value, ItemsOf(req', n).value;
      assert items == items' <==> forall i | 0 <= i < n :: items[i] == items'[i];
    }
  }

  /** Two requests have the same identity bytes exactly when they agree on the table, the key
      and the shard time, and column by column on the written name and the value. */
  lemma SameBytesIff(req: Request, req': Request)
    requires Encodable(req) && Encodable(req')
    ensures EncodingOf(req) == EncodingOf(req') <==> SameKey(req, req')
  {
    hide IdentityBytes, TakeIdentity, IdentityOf, SameKey;
    EncodableIff(req);
    EncodableIff(req');
    IdentityIff(req, req');
    IdentityRoundTrip(IdentityOf(req).value, []);
    IdentityRoundTrip(IdentityOf(req').value, []);
  }
}
