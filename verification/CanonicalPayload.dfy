/** The canonical bytes of an ingest payload (core/ingest_payload_hash.go) and the
    primary-key shard keys made of them (core/ingest_shard_key.go). A string stands for
    its bytes, one character each. */
module CanonicalPayload {
  import opened Prelude
  import opened Decimal
  import opened Sorting

  /** A parsed value: a scalar as its type tag and rendered text, a list, or a map in
      some enumeration order. */
  datatype Value =
    | Scalar(tag: string, text: string)
    | List(items: seq<Value>)
    | Map(fields: seq<Field>)

  datatype Field = Field(key: string, value: Value)

  const TAGS: set<string> := {"null", "string", "bool", "int", "uint", "float32", "float64", "number", "time"}

  /** Only the tags of the writer are used. */
  predicate Tagged(v: Value) {
    match v
    case Scalar(tag, _) => tag in TAGS
    case List(items) => forall i | 0 <= i < |items| :: Tagged(items[i])
    case Map(fields) => forall i | 0 <= i < |fields| :: Tagged(fields[i].value)
  }

  function FieldKey(f: Field): string {
    f.key
  }

  ghost predicate DistinctKeys(fields: seq<Field>) {
    DistinctBy(FieldKey, fields)
  }

  // ----- The canonical form and its bytes -----

  function CanonItems(items: seq<Value>): (r: seq<Value>)
    ensures |r| == |items|
  {
    if items == [] then [] else [Canon(items[0])] + CanonItems(items[1..])
  }

  function CanonFields(fields: seq<Field>): (r: seq<Field>)
    ensures |r| == |fields|
  {
    if fields == [] then [] else [Field(fields[0].key, Canon(fields[0].value))] + CanonFields(fields[1..])
  }

  /** The value with the fields of every map sorted. */
  function Canon(v: Value): Value {
    match v
    case Scalar(_, _) => v
    case List(items) => List(CanonItems(items))
    case Map(fields) => Map(Sort(FieldKey, CanonFields(fields)))
  }

  /** writeCanonicalToken. */
  function Token(tag: string, text: string): string {
    tag + ":" + Digits(|text|) + ":" + text + ";"
  }

  function WriteItems(items: seq<Value>): string {
    if items == [] then "" else Write(items[0]) + WriteItems(items[1..])
  }

  function WriteFields(fields: seq<Field>): string {
    if fields == [] then "" else Token("key", fields[0].key) + Write(fields[0].value) + WriteFields(fields[1..])
  }

  /** Writing a value with the fields in the order they come in. */
  function Write(v: Value): string {
    match v
    case Scalar(tag, text) => Token(tag, text)
    case List(items) => "list:" + Digits(|items|) + "[" + WriteItems(items) + "]"
    case Map(fields) => "map:" + Digits(|fields|) + "{" + WriteFields(fields) + "}"
  }

  /** The canonical bytes: writeCanonicalPayloadValue. */
  function Bytes(v: Value): string {
    Write(Canon(v))
  }

  // ----- The decoder -----

  /** The characters before the first ':', and those after it. */
  function TakeTag(s: string): (r: Option<(string, string)>)
    ensures r.Some? ==> |r.value.1| < |s|
  {
    if s == "" then None
    else if s[0] == ':' then Some(("", s[1..]))
    else
      match TakeTag(s[1..])
      case None => None
      case Some((tag, rest)) => Some((s[..1] + tag, rest))
  }

  /** A counted text after its tag. */
  function TakeText(s: string): (r: Option<(string, string)>)
    ensures r.Some? ==> |r.value.1| < |s|
  {
    var (n, rest) := TakeDigits(s, 0);
    if |rest| < n + 2 || rest[0] != ':' || rest[n + 1] != ';' then None else Some((rest[1..n + 1], rest[n + 2..]))
  }

  function TakeItems(s: string, n: nat): (r: Option<(seq<Value>, string)>)
    ensures r.Some? ==> |r.value.1| <= |s|
    decreases |s|, 1, n
  {
    if n == 0 then Some(([], s))
    else
      match TakeValue(s)
      case None => None
      case Some((v, rest)) =>
        match TakeItems(rest, n - 1)
        case None => None
        case Some((vs, rest')) => Some(([v] + vs, rest'))
  }

  function TakeFields(s: string, n: nat): (r: Option<(seq<Field>, string)>)
    ensures r.Some? ==> |r.value.1| <= |s|
    decreases |s|, 1, n
  {
    if n == 0 then Some(([], s))
    else
      match TakeTag(s)
      case None => None
      case Some((tag, s1)) =>
        match TakeText(s1)
        case None => None
        case Some((key, s2)) =>
          match TakeValue(s2)
          case None => None
          case Some((v, s3)) =>
            match TakeFields(s3, n - 1)
            case None => None
            case Some((fs, s4)) => Some(([Field(key, v)] + fs, s4))
  }

  function TakeValue(s: string): (r: Option<(Value, string)>)
    ensures r.Some? ==> |r.value.1| < |s|
    decreases |s|, 0
  {
    match TakeTag(s)
    case None => None
    case Some((tag, s1)) =>
      if tag == "list" || tag == "map" then
        var (n, s2) := TakeDigits(s1, 0);
        if s2 == "" then None
        else if tag == "list" then
          match TakeItems(s2[1..], n)
          case None => None
          case Some((vs, s3)) => if s3 == "" then None else Some((List(vs), s3[1..]))
        else
          match TakeFields(s2[1..], n)
          case None => None
          case Some((fs, s3)) => if s3 == "" then None else Some((Map(fs), s3[1..]))
      else
        match TakeText(s1)
        case None => None
        case Some((text, s2)) => Some((Scalar(tag, text), s2))
  }

  lemma {:induction false} TagRead(tag: string, rest: string)
    requires ':' !in tag
    ensures TakeTag(tag + (":" + rest)) == Some((tag, rest))
  {
    var s := tag + (":" + rest);
    if tag == "" {
      assert s[1..] == rest;
    } else {
      assert s[1..] == tag[1..] + (":" + rest);
      TagRead(tag[1..], rest);
      assert s[..1] + tag[1..] == tag;
    }
  }

  /** A token behind its tag, and what follows it. */
  function Counted(text: string, rest: string): string {
    Digits(|text|) + (":" + (text + (";" + rest)))
  }

  lemma TextRead(text: string, rest: string)
    ensures TakeText(Counted(text, rest)) == Some((text, rest))
  {
    hide Digits, TakeDigits;
    var tail := text + (";" + rest);
    DigitsRoundTrip(|text|, ':', tail);
    TextInside(text, rest);
  }

  lemma TextInside(text: string, rest: string)
    ensures var t := ":" + (text + (";" + rest));
            |t| >= |text| + 2 && t[1..|text| + 1] == text && t[|text| + 1] == ';' && t[|text| + 2..] == rest
  {
  }

  lemma TokenRest(tag: string, text: string, rest: string)
    ensures Token(tag, text) + rest == tag + (":" + Counted(text, rest))
  {
    hide Digits;
    var d := Digits(|text|);
    ConcatAssociative(tag + ":" + d + ":" + text, ";", rest);
    ConcatAssociative(tag + ":" + d + ":", text, ";" + rest);
    ConcatAssociative(tag + ":" + d, ":", text + (";" + rest));
    ConcatAssociative(tag + ":", d, ":" + (text + (";" + rest)));
    ConcatAssociative(tag, ":", Counted(text, rest));
  }

  /** A token is read back, whatever follows. */
  lemma TokenRead(tag: string, text: string, rest: string)
    requires ':' !in tag
    ensures TakeTag(Token(tag, text) + rest) == Some((tag, Counted(text, rest)))
    ensures TakeText(Counted(text, rest)) == Some((text, rest))
  {
    hide TakeTag, TakeText, Counted, Token;
    TokenRest(tag, text, rest);
    TagRead(tag, Counted(text, rest));
    TextRead(text, rest);
  }

  lemma {:induction false} ItemsRead(items: seq<Value>, rest: string)
    requires forall i | 0 <= i < |items| :: Tagged(items[i])
    ensures TakeItems(WriteItems(items) + rest, |items|) == Some((items, rest))
    decreases items
  {
    hide TakeValue, Write, Tagged;
    if items == [] {
      assert WriteItems(items) + rest == rest;
    } else {
      assert WriteItems(items) + rest == Write(items[0]) + (WriteItems(items[1..]) + rest);
      ValueRead(items[0], WriteItems(items[1..]) + rest);
      ItemsRead(items[1..], rest);
      assert [items[0]] + items[1..] == items;
    }
  }

  lemma {:induction false} FieldsRead(fields: seq<Field>, rest: string)
    requires forall i | 0 <= i < |fields| :: Tagged(fields[i].value)
    ensures TakeFields(WriteFields(fields) + rest, |fields|) == Some((fields, rest))
    decreases fields
  {
    hide TakeValue, Write, Tagged, TakeTag, TakeText, Token, Counted;
    if fields == [] {
      assert WriteFields(fields) + rest == rest;
    } else {
      var f, tail := fields[0], WriteFields(fields[1..]) + rest;
      assert WriteFields(fields) + rest == Token("key", f.key) + (Write(f.value) + tail);
      TokenRead("key", f.key, Write(f.value) + tail);
      ValueRead(f.value, tail);
      FieldsRead(fields[1..], rest);
      assert [f] + fields[1..] == fields;
    }
  }

  /** The decoder undoes the writer, whatever follows: written values can be put one
      after the other and still be told apart. */
  lemma {:induction false} ValueRead(v: Value, rest: string)
    requires Tagged(v)
    ensures TakeValue(Write(v) + rest) == Some((v, rest))
    decreases v
  {
    hide TakeTag, TakeText, TakeItems, TakeFields, Token, Counted, Digits, TakeDigits, WriteItems, WriteFields;
    match v
    case Scalar(tag, text) =>
      TagsPlain(tag);
      TokenRead(tag, text, rest);
    case List(items) =>
      var body := WriteItems(items) + ("]" + rest);
      var s1 := Digits(|items|) + ("[" + body);
      assert Write(v) + rest == "list" + (":" + s1);
      TagRead("list", s1);
      DigitsRoundTrip(|items|, '[', body);
      assert ("[" + body)[1..] == body;
      ItemsRead(items, "]" + rest);
      assert ("]" + rest)[1..] == rest;
    case Map(fields) =>
      var body := WriteFields(fields) + ("}" + rest);
      var s1 := Digits(|fields|) + ("{" + body);
      assert Write(v) + rest == "map" + (":" + s1);
      TagRead("map", s1);
      DigitsRoundTrip(|fields|, '{', body);
      assert ("{" + body)[1..] == body;
      FieldsRead(fields, "}" + rest);
      assert ("}" + rest)[1..] == rest;
  }

  lemma TagsPlain(tag: string)
    requires tag in TAGS
    ensures ':' !in tag && tag != "list" && tag != "map"
  {
  }

  // ----- What the bytes tell -----

  /** The keys of every map are distinct, as those of a map are. */
  ghost predicate WellFormed(v: Value) {
    match v
    case Scalar(tag, _) => tag in TAGS
    case List(items) => forall i | 0 <= i < |items| :: WellFormed(items[i])
    case Map(fields) => DistinctKeys(fields) && forall i | 0 <= i < |fields| :: WellFormed(fields[i].value)
  }

  /** Equality of parsed values: maps are equal when they have the same keys with equal
      values, however they are enumerated. */
  ghost predicate Same(v: Value, w: Value) {
    match v
    case Scalar(_, _) => v == w
    case List(items) =>
      w.List? && |items| == |w.items| && forall i | 0 <= i < |items| :: Same(items[i], w.items[i])
    case Map(fields) =>
      && w.Map?
      && (forall i | 0 <= i < |fields| :: Matched(fields[i], w.fields))
      && (forall j | 0 <= j < |w.fields| :: HasKey(fields, w.fields[j].key))
  }

  ghost predicate Matched(x: Field, fields: seq<Field>) {
    exists j | 0 <= j < |fields| :: x.key == fields[j].key && Same(x.value, fields[j].value)
  }

  ghost predicate HasKey(fields: seq<Field>, key: string) {
    exists i | 0 <= i < |fields| :: fields[i].key == key
  }

  lemma {:induction false} CanonFieldsAt(fields: seq<Field>, i: nat)
    requires i < |fields|
    ensures CanonFields(fields)[i] == Field(fields[i].key, Canon(fields[i].value))
  {
    if i > 0 {
      CanonFieldsAt(fields[1..], i - 1);
    }
  }

  lemma {:induction false} CanonItemsAt(items: seq<Value>, i: nat)
    requires i < |items|
    ensures CanonItems(items)[i] == Canon(items[i])
  {
    if i > 0 {
      CanonItemsAt(items[1..], i - 1);
    }
  }

  lemma CanonDistinct(fields: seq<Field>)
    requires DistinctKeys(fields)
    ensures DistinctKeys(CanonFields(fields))
  {
    forall i, j | 0 <= i < j < |fields| ensures CanonFields(fields)[i].key != CanonFields(fields)[j].key {
      CanonFieldsAt(fields, i);
      CanonFieldsAt(fields, j);
    }
  }

  /** The canonical form only uses the writer's tags if the value does. */
  lemma {:induction false} CanonTagged(v: Value)
    requires WellFormed(v)
    ensures Tagged(Canon(v))
  {
    match v
    case Scalar(_, _) =>
    case List(items) =>
      forall i | 0 <= i < |items| ensures Tagged(CanonItems(items)[i]) {
        CanonTagged(items[i]);
        CanonItemsAt(items, i);
      }
    case Map(fields) =>
      var sorted := Sort(FieldKey, CanonFields(fields));
      forall i | 0 <= i < |sorted| ensures Tagged(sorted[i].value) {
        SortHas(FieldKey, CanonFields(fields), sorted[i]);
        var j :| 0 <= j < |fields| && CanonFields(fields)[j] == sorted[i];
        CanonFieldsAt(fields, j);
        CanonTagged(fields[j].value);
      }
  }

  /** Canonical forms are equal exactly when the values are. */
  lemma {:induction false} CanonSameIff(v: Value, w: Value)
    requires WellFormed(v) && WellFormed(w)
    ensures Canon(v) == Canon(w) <==> Same(v, w)
    decreases v
  {
    match v
    case Scalar(_, _) =>
    case List(items) =>
      if w.List? && |items| == |w.items| {
        forall i | 0 <= i < |items|
          ensures CanonItems(items)[i] == CanonItems(w.items)[i] <==> Same(items[i], w.items[i])
        {
          CanonSameIff(items[i], w.items[i]);
          CanonItemsAt(items, i);
          CanonItemsAt(w.items, i);
        }
      }
    case Map(fields) =>
      if w.Map? {
        forall i, j | 0 <= i < |fields| && 0 <= j < |w.fields|
          ensures Canon(fields[i].value) == Canon(w.fields[j].value) <==> Same(fields[i].value, w.fields[j].value)
        {
          CanonSameIff(fields[i].value, w.fields[j].value);
        }
        if Canon(v) == Canon(w) {
          EqualMapsSame(v, w);
        }
        if Same(v, w) {
          SameMapsEqual(v, w);
        }
      }
  }

  /** The induction hypothesis for the values of two maps. */
  ghost predicate ValuesAgree(f: seq<Field>, g: seq<Field>) {
    forall i, j | 0 <= i < |f| && 0 <= j < |g| ::
      Canon(f[i].value) == Canon(g[j].value) <==> Same(f[i].value, g[j].value)
  }

  /** A field of one map is, in canonical form, a field of the other. */
  lemma FieldMoves(f: seq<Field>, g: seq<Field>, i: nat) returns (j: nat)
    requires Sort(FieldKey, CanonFields(f)) == Sort(FieldKey, CanonFields(g)) && i < |f|
    ensures j < |g| && CanonFields(f)[i] == CanonFields(g)[j]
  {
    hide Sort, CanonFields;
    var x := CanonFields(f)[i];
    assert x in CanonFields(f);
    SortHas(FieldKey, CanonFields(f), x);
    SortHas(FieldKey, CanonFields(g), x);
    j :| 0 <= j < |g| && CanonFields(g)[j] == x;
  }

  lemma AgreeAt(f: seq<Field>, g: seq<Field>, i: nat, j: nat)
    requires i < |f| && j < |g| && ValuesAgree(f, g)
    ensures CanonFields(f)[i] == CanonFields(g)[j] <==> f[i].key == g[j].key && Same(f[i].value, g[j].value)
  {
    hide Same;
    CanonFieldsAt(f, i);
    CanonFieldsAt(g, j);
  }

  lemma EqualMapsSame(v: Value, w: Value)
    requires v.Map? && w.Map? && Canon(v) == Canon(w) && ValuesAgree(v.fields, w.fields)
    ensures Same(v, w)
  {
    hide Canon, Sort, CanonFields, ValuesAgree, Matched, HasKey;
    var f, g := v.fields, w.fields;
    SortedOf(v);
    SortedOf(w);
    forall i | 0 <= i < |f| ensures Matched(f[i], g) {
      var j := FieldMoves(f, g, i);
      AgreeAt(f, g, i, j);
      MatchedBy(f[i], g, j);
    }
    forall j | 0 <= j < |g| ensures HasKey(f, g[j].key) {
      var i := FieldMoves(g, f, j);
      AgreeAt(f, g, i, j);
      KeyAt(f, i);
    }
  }

  lemma MatchedBy(x: Field, g: seq<Field>, j: nat)
    requires j < |g| && x.key == g[j].key && Same(x.value, g[j].value)
    ensures Matched(x, g)
  {
    hide Same;
  }

  lemma KeyAt(f: seq<Field>, i: nat)
    requires i < |f|
    ensures HasKey(f, f[i].key)
  {
  }

  lemma SortedOf(v: Value)
    requires v.Map?
    ensures Canon(v) == Map(Sort(FieldKey, CanonFields(v.fields)))
  {
  }

  lemma SameMapsEqual(v: Value, w: Value)
    requires v.Map? && w.Map? && Same(v, w) && ValuesAgree(v.fields, w.fields)
    requires DistinctKeys(v.fields) && DistinctKeys(w.fields)
    ensures Canon(v) == Canon(w)
  {
    hide Canon, Sort, CanonFields, ValuesAgree, Matched, HasKey, DistinctKeys;
    var f, g := v.fields, w.fields;
    SortedOf(v);
    SortedOf(w);
    SameElements(f, g);
    CanonDistinct(f);
    CanonDistinct(g);
    SortSorted(FieldKey, CanonFields(f));
    SortSorted(FieldKey, CanonFields(g));
    forall x ensures x in Sort(FieldKey, CanonFields(f)) <==> x in Sort(FieldKey, CanonFields(g)) {
      SortHas(FieldKey, CanonFields(f), x);
      SortHas(FieldKey, CanonFields(g), x);
    }
    SortedUnique(FieldKey, Sort(FieldKey, CanonFields(f)), Sort(FieldKey, CanonFields(g)));
  }

  lemma SameElements(f: seq<Field>, g: seq<Field>)
    requires ValuesAgree(f, g) && DistinctKeys(g)
    requires forall i | 0 <= i < |f| :: Matched(f[i], g)
    requires forall j | 0 <= j < |g| :: HasKey(f, g[j].key)
    ensures forall x :: x in CanonFields(f) <==> x in CanonFields(g)
  {
    hide Same, ValuesAgree, CanonFields;
    var a, b := CanonFields(f), CanonFields(g);
    forall i: nat | i < |f| ensures a[i] in b {
      assert Matched(f[i], g);
      var j :| 0 <= j < |g| && f[i].key == g[j].key && Same(f[i].value, g[j].value);
      AgreeAt(f, g, i, j);
    }
    forall j: nat | j < |g| ensures b[j] in a {
      assert HasKey(f, g[j].key);
      var i :| 0 <= i < |f| && f[i].key == g[j].key;
      assert Matched(f[i], g);
      var j' :| 0 <= j' < |g| && f[i].key == g[j'].key && Same(f[i].value, g[j'].value);
      assert j' == j;
      AgreeAt(f, g, i, j);
    }
  }

  /** The canonical bytes do not depend on how maps are enumerated, and they tell any two
      different payloads apart. */
  lemma SameBytesIff(v: Value, w: Value)
    requires WellFormed(v) && WellFormed(w)
    ensures Bytes(v) == Bytes(w) <==> Same(v, w)
  {
    hide Canon, Write, TakeValue, Same, WellFormed;
    CanonSameIff(v, w);
    CanonTagged(v);
    CanonTagged(w);
    ValueRead(Canon(v), "");
    ValueRead(Canon(w), "");
    assert Write(Canon(v)) + "" == Write(Canon(v)) && Write(Canon(w)) + "" == Write(Canon(w));
  }

  // ----- The writer -----

  function Itself(s: string): string {
    s
  }

  /** The fields of a payload in an order of its keys. */
  function FieldsOf(payload: map<string, Value>, order: seq<string>): (fields: seq<Field>)
    requires forall key | key in order :: key in payload
    ensures |fields| == |order|
  {
    if order == [] then [] else [Field(order[0], payload[order[0]])] + FieldsOf(payload, order[1..])
  }

  /** Sorting the fields is sorting the keys and looking the values up. */
  lemma {:induction false} SortedFields(payload: map<string, Value>, order: seq<string>)
    requires forall key | key in order :: key in payload
    ensures forall key | key in Sort(Itself, order) :: key in payload
    ensures Sort(FieldKey, CanonFields(FieldsOf(payload, order))) == CanonFields(FieldsOf(payload, Sort(Itself, order)))
  {
    hide Canon;
    forall key | key in Sort(Itself, order) ensures key in payload {
      SortHas(Itself, order, key);
    }
    if order != [] {
      var tail := Sort(Itself, order[1..]);
      SortedFields(payload, order[1..]);
      InsertedField(payload, order[0], tail);
    }
  }

  lemma {:induction false} InsertedField(payload: map<string, Value>, key: string, keys: seq<string>)
    requires key in payload && forall k | k in keys :: k in payload
    requires forall k | k in Insert(Itself, key, keys) :: k in payload
    ensures Insert(FieldKey, Field(key, Canon(payload[key])), CanonFields(FieldsOf(payload, keys))) ==
            CanonFields(FieldsOf(payload, Insert(Itself, key, keys)))
  {
    hide Canon, Less;
    if keys == [] {
    } else if Less(key, keys[0]) {
      assert ([key] + keys)[1..] == keys;
    } else {
      var rest := Insert(Itself, key, keys[1..]);
      assert ([keys[0]] + rest)[1..] == rest;
      forall k | k in rest ensures k in payload {
        assert k in [keys[0]] + rest;
      }
      InsertedField(payload, key, keys[1..]);
    }
  }

  lemma {:induction false} WriteLast(fields: seq<Field>, f: Field)
    ensures WriteFields(fields + [f]) == WriteFields(fields) + (Token("key", f.key) + Write(f.value))
  {
    hide Token, Write;
    if fields == [] {
      assert fields + [f] == [f];
    } else {
      assert (fields + [f])[1..] == fields[1..] + [f];
      WriteLast(fields[1..], f);
      var head := Token("key", fields[0].key) + Write(fields[0].value);
      assert head + (WriteFields(fields[1..]) + (Token("key", f.key) + Write(f.value)))
          == head + WriteFields(fields[1..]) + (Token("key", f.key) + Write(f.value));
    }
  }

  /** writeCanonicalPayloadMap: the keys are collected in the order of the iteration,
      sorted, and written with the values found under them. */
  method WriteMap(payload: map<string, Value>, order: seq<string>) returns (out: string)
    requires forall key | key in order :: key in payload
    ensures out == Bytes(Map(FieldsOf(payload, order)))
  {
    hide Token, Write, Canon, Less, Sort, FieldsOf, CanonFields, WriteFields, Digits;
    var keys: seq<string> := [];
    for i := 0 to |order|
      invariant keys == order[..i]
    {
      keys := keys + [order[i]];
    }
    assert keys == order;
    keys := Sort(Itself, keys);
    SortedFields(payload, order);
    ghost var fields := CanonFields(FieldsOf(payload, keys));
    out := "map:" + Digits(|keys|) + "{";
    ghost var start := out;
    assert fields[..0] == [];
    NothingWritten();
    for i := 0 to |keys|
      invariant out == start + WriteFields(fields[..i])
    {
      FieldAt(payload, keys, i);
      assert fields[..i + 1] == fields[..i] + [fields[i]];
      WriteLast(fields[..i], fields[i]);
      var field := Token("key", keys[i]) + Bytes(payload[keys[i]]);
      ConcatAssociative(start, WriteFields(fields[..i]), field);
      out := out + field;
    }
    assert fields[..|keys|] == fields;
    out := out + "}";
    WriteOfMap(fields);
    CanonOfMap(FieldsOf(payload, order));
  }

  lemma NothingWritten()
    ensures WriteFields([]) == ""
  {
  }

  lemma {:induction false} FieldAt(payload: map<string, Value>, keys: seq<string>, i: nat)
    requires (forall key | key in keys :: key in payload) && i < |keys|
    ensures CanonFields(FieldsOf(payload, keys))[i] == Field(keys[i], Canon(payload[keys[i]]))
  {
    hide Canon;
    if i > 0 {
      FieldAt(payload, keys[1..], i - 1);
    }
  }

  lemma CanonOfMap(fields: seq<Field>)
    ensures Bytes(Map(fields)) == Write(Map(Sort(FieldKey, CanonFields(fields))))
  {
  }

  lemma WriteOfMap(fields: seq<Field>)
    ensures Write(Map(fields)) == "map:" + Digits(|fields|) + "{" + WriteFields(fields) + "}"
  {
  }

  // ----- Primary-key shard keys -----

  /** The tokens of the shard key: a field name and the canonical bytes of its value. */
  function KeyTokens(names: seq<string>, values: seq<Value>): (tokens: seq<string>)
    requires |names| == |values|
    ensures |tokens| == |names|
  {
    if names == [] then [] else [names[0] + "=" + Bytes(values[0])] + KeyTokens(names[1..], values[1..])
  }

  function ShardKey(table: string, names: seq<string>, values: seq<Value>): string
    requires |names| == |values|
  {
    "pk:" + table + ":" + Join(KeyTokens(names, values), "|")
  }

  /** The key fields with a name, and the values the payload has for them. */
  function KeyNames(trim: string -> string, fields: seq<string>): seq<string> {
    if fields == [] then []
    else
      var last := trim(fields[|fields| - 1]);
      KeyNames(trim, fields[..|fields| - 1]) + if last == "" then [] else [last]
  }

  /** What a payload has under a field name: nothing, a value that has no canonical form,
      or one that has. */
  datatype Found = Missing | Unsupported | Present(value: Value)

  function KeyValues(lookup: string -> Found, names: seq<string>): seq<Value>
    requires forall i | 0 <= i < |names| :: lookup(names[i]).Present?
  {
    seq(|names|, i requires 0 <= i < |names| => lookup(names[i]).value)
  }

  lemma {:induction false} KeyTokensAppend(names: seq<string>, values: seq<Value>, name: string, value: Value)
    requires |names| == |values|
    ensures KeyTokens(names + [name], values + [value]) == KeyTokens(names, values) + [name + "=" + Bytes(value)]
  {
    hide Bytes;
    if names == [] {
      assert [name][1..] == [] && [value][1..] == [];
    } else {
      assert (names + [name])[1..] == names[1..] + [name] && (values + [value])[1..] == values[1..] + [value];
      KeyTokensAppend(names[1..], values[1..], name, value);
    }
  }

  /** resolvePrimaryKeyIngestShardKey, for the fields of the table's primary key: it fails
      exactly when no field has a name, or the value of a named field is missing or has no
      canonical form. */
  method ResolveShardKey(trim: string -> string, table: string, fields: seq<string>, lookup: string -> Found)
    returns (r: Result<(string, seq<string>)>)
    ensures r.Ok? <==> KeyNames(trim, fields) != [] &&
                       forall i | 0 <= i < |KeyNames(trim, fields)| :: lookup(KeyNames(trim, fields)[i]).Present?
    ensures r.Ok? ==> r.value.1 == KeyNames(trim, fields)
                      && r.value.0 == ShardKey(table, r.value.1, KeyValues(lookup, r.value.1))
  {
    hide Bytes, Join, KeyTokens, KeyNames;
    var tokens, names := [], [];
    ghost var values := [];
    NoNames(trim, fields);
    for i := 0 to |fields|
      invariant names == KeyNames(trim, fields[..i]) && |values| == |names|
      invariant forall k | 0 <= k < |names| :: lookup(names[k]) == Present(values[k])
      invariant tokens == KeyTokens(names, values)
    {
      NextName(trim, fields, i);
      var field := trim(fields[i]);
      if field != "" {
        var value := lookup(field);
        if value.Missing? {
          NamesGrow(trim, fields, i + 1, |names|);
          return Err("primary-key field missing");
        }
        if value.Unsupported? {
          NamesGrow(trim, fields, i + 1, |names|);
          return Err("primary-key field unsupported");
        }
        KeyTokensAppend(names, values, field, value.value);
        tokens, names, values := tokens + [field + "=" + Bytes(value.value)], names + [field], values + [value.value];
      }
    }
    assert fields[..|fields|] == fields;
    if tokens == [] {
      return Err("no primary-key fields");
    }
    assert values == KeyValues(lookup, names);
    return Ok(("pk:" + table + ":" + Join(tokens, "|"), names));
  }

  lemma NoNames(trim: string -> string, fields: seq<string>)
    ensures KeyNames(trim, fields[..0]) == [] && KeyTokens([], []) == []
  {
  }

  lemma NextName(trim: string -> string, fields: seq<string>, i: nat)
    requires i < |fields|
    ensures KeyNames(trim, fields[..i + 1]) ==
            KeyNames(trim, fields[..i]) + if trim(fields[i]) == "" then [] else [trim(fields[i])]
  {
    assert fields[..i + 1][..i] == fields[..i];
  }

  lemma {:induction false} NamesGrow(trim: string -> string, fields: seq<string>, i: nat, k: nat)
    requires i <= |fields| && k < |KeyNames(trim, fields[..i])|
    ensures k < |KeyNames(trim, fields)| && KeyNames(trim, fields)[k] == KeyNames(trim, fields[..i])[k]
  {
    if i < |fields| {
      var front := fields[..|fields| - 1];
      assert front[..i] == fields[..i];
      NamesGrow(trim, front, i, k);
    } else {
      assert fields[..i] == fields;
    }
  }

  /** For one table, two records have the same primary-key shard key exactly when their
      key values are equal. */
  lemma ShardKeyIff(table: string, names: seq<string>, values: seq<Value>, values': seq<Value>)
    requires |names| == |values| == |values'|
    requires forall i | 0 <= i < |names| :: WellFormed(values[i]) && WellFormed(values'[i])
    ensures ShardKey(table, names, values) == ShardKey(table, names, values') <==>
            forall i | 0 <= i < |names| :: Same(values[i], values'[i])
  {
    hide KeyTokens, Join, Same, WellFormed;
    var p := "pk:" + table + ":";
    assert ShardKey(table, names, values)[|p|..] == Join(KeyTokens(names, values), "|");
    assert ShardKey(table, names, values')[|p|..] == Join(KeyTokens(names, values'), "|");
    TokensIff(names, values, values');
  }

  /** Records of different tables have different shard keys, if table names have no colon. */
  lemma ShardKeyTables(table: string, names: seq<string>, values: seq<Value>,
                       table': string, names': seq<string>, values': seq<Value>)
    requires |names| == |values| && |names'| == |values'| && ':' !in table && ':' !in table'
    requires ShardKey(table, names, values) == ShardKey(table', names', values')
    ensures table == table'
  {
    hide KeyTokens, Join;
    var s, s' := ShardKey(table, names, values), ShardKey(table', names', values');
    assert s[..3] == "pk:" && forall i | 0 <= i < |table| :: s[3 + i] == table[i];
    assert forall i | 0 <= i < |table'| :: s'[3 + i] == table'[i];
    assert s[3 + |table|] == ':' && s'[3 + |table'|] == ':';
    assert s[3..3 + |table|] == table && s'[3..3 + |table'|] == table';
  }

  /** With a colon in a table name they need not: the name and the first field run together. */
  lemma ColonCollides(v: Value)
    ensures ShardKey("a", ["b:c"], [v]) == ShardKey("a:b", ["c"], [v])
  {
    hide Bytes;
    assert KeyTokens(["b:c"], [v]) == ["b:c" + "=" + Bytes(v)] && KeyTokens(["c"], [v]) == ["c" + "=" + Bytes(v)];
    assert "b:" + ("c" + "=" + Bytes(v)) == "b:c" + "=" + Bytes(v);
    ConcatAssociative("pk:" + "a" + ":", "b:", "c" + "=" + Bytes(v));
    assert "pk:" + "a" + ":" + "b:" == "pk:" + "a:b" + ":";
  }

  lemma {:induction false} TokensIff(names: seq<string>, values: seq<Value>, values': seq<Value>)
    requires |names| == |values| == |values'|
    requires forall i | 0 <= i < |names| :: WellFormed(values[i]) && WellFormed(values'[i])
    ensures Join(KeyTokens(names, values), "|") == Join(KeyTokens(names, values'), "|") <==>
            forall i | 0 <= i < |names| :: Same(values[i], values'[i])
  {
    hide Same, WellFormed, Bytes;
    if names != [] {
      JoinFront(names, values);
      JoinFront(names, values');
      var sep := if |names| > 1 then "|" else "";
      var rest, rest' :=
        sep + Join(KeyTokens(names[1..], values[1..]), "|"), sep + Join(KeyTokens(names[1..], values'[1..]), "|");
      FrontIff(names[0] + "=", values[0], rest, values'[0], rest');
      assert rest[|sep|..] == Join(KeyTokens(names[1..], values[1..]), "|")
             && rest'[|sep|..] == Join(KeyTokens(names[1..], values'[1..]), "|");
      TokensIff(names[1..], values[1..], values'[1..]);
      SameTail(values, values');
    }
  }

  lemma JoinFront(names: seq<string>, values: seq<Value>)
    requires |names| == |values| > 0
    ensures Join(KeyTokens(names, values), "|") ==
            names[0] + "="
              + (Bytes(values[0]) + ((if |names| > 1 then "|" else "") + Join(KeyTokens(names[1..], values[1..]), "|")))
  {
    hide Bytes;
    var tail := KeyTokens(names[1..], values[1..]);
    assert KeyTokens(names, values)[1..] == tail;
    var head := names[0] + "=";
    if |names| == 1 {
      assert Bytes(values[0]) + ("" + "") == Bytes(values[0]);
    } else {
      ConcatAssociative(head + Bytes(values[0]), "|", Join(tail, "|"));
      ConcatAssociative(head, Bytes(values[0]), "|" + Join(tail, "|"));
    }
  }

  lemma SameTail(values: seq<Value>, values': seq<Value>)
    requires |values| == |values'| > 0
    ensures (forall i | 0 <= i < |values| :: Same(values[i], values'[i])) <==>
            Same(values[0], values'[0]) && forall i | 0 <= i < |values[1..]| :: Same(values[1..][i], values'[1..][i])
  {
    hide Same;
    if forall i | 0 <= i < |values[1..]| :: Same(values[1..][i], values'[1..][i]) {
      forall i | 1 <= i < |values| ensures Same(values[i], values'[i]) {
        assert Same(values[1..][i - 1], values'[1..][i - 1]);
      }
    }
  }

  /** Canonical bytes in front of something: both parts can be told. */
  lemma FrontIff(p: string, v: Value, rest: string, w: Value, rest': string)
    requires WellFormed(v) && WellFormed(w)
    ensures p + (Bytes(v) + rest) == p + (Bytes(w) + rest') <==> Same(v, w) && rest == rest'
  {
    hide Canon, Write, TakeValue, Same, WellFormed;
    CanonSameIff(v, w);
    CanonTagged(v);
    CanonTagged(w);
    ValueRead(Canon(v), rest);
    ValueRead(Canon(w), rest');
    assert (p + (Bytes(v) + rest))[|p|..] == Bytes(v) + rest;
    assert (p + (Bytes(w) + rest'))[|p|..] == Bytes(w) + rest';
  }
}
