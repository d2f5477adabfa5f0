/**
 * JSON values and the text codec the access layer relies on (`JSON.stringify`,
 * `JSON.parse` and UTF-8 encoding of the resulting text). The codec is a
 * collaborator outside the model: it is passed around as a value, and the only
 * facts used about it are the laws in `Lawful`. `Sample` is one codec that
 * obeys those laws, so the lemmas that assume them hold for at least one codec.
 */
module Json {
  import opened Wrappers
  import Octets

  type Bytes = Octets.Bytes

  /**
   * A JSON-representable value. A number is a JavaScript number, held as the
   * 64 bits of its IEEE 754 binary64 encoding; an object is its members in
   * the order JavaScript lists them, which is the order `JSON.stringify`
   * writes them in (see `ListingOrder`).
   */
  datatype Json =
    | Null
    | Bool(b: bool)
    | Number(bits: nat)
    | String(s: string)
    | Array(items: seq<Json>)
    | Object(members: seq<Member>)

  /** One key of an object and its value. */
  datatype Member = Member(key: string, value: Json)

  /** 2^52, 2^63 and 2^64: the weights of the exponent field, the sign bit and the word. */
  const FractionWeight: nat := 0x10_0000_0000_0000
  const SignWeight: nat := 0x8000_0000_0000_0000
  const WordWeight: nat := 0x1_0000_0000_0000_0000

  /**
   * A binary64 pattern whose number `JSON.stringify` writes as itself: not NaN
   * or an infinity (exponent field all ones, written as `null`) and not -0
   * (written as `0`).
   */
  predicate Finite(bits: nat) {
    bits < WordWeight && (bits / FractionWeight) % 0x800 != 0x7FF && bits != SignWeight
  }

  /** The number a string of decimal digits spells. */
  function DecimalValue(k: string): nat
    requires forall i | 0 <= i < |k| :: '0' <= k[i] <= '9'
  {
    if k == [] then 0 else DecimalValue(k[..|k| - 1]) * 10 + (k[|k| - 1] as int - '0' as int)
  }

  /** An array index: a number below 2^32 - 1 in canonical decimal form, without leading zeros. */
  predicate ArrayIndex(k: string) {
    && 0 < |k|
    && (forall i | 0 <= i < |k| :: '0' <= k[i] <= '9')
    && (k[0] == '0' ==> |k| == 1)
    && DecimalValue(k) < 0xFFFF_FFFF
  }

  /**
   * The order in which JavaScript lists an object's keys, and so the only
   * order `JSON.parse` can return them in: distinct keys, the array indices
   * first in ascending numeric order, then the other keys.
   */
  predicate ListingOrder(members: seq<Member>) {
    forall i, j | 0 <= i < j < |members| ::
      && members[i].key != members[j].key
      && (ArrayIndex(members[j].key) ==>
            ArrayIndex(members[i].key) && DecimalValue(members[i].key) < DecimalValue(members[j].key))
  }

  /**
   * A value whose every number is `Finite` and whose every object lists its
   * keys in `ListingOrder`: the values whose text reads back as themselves.
   */
  predicate Plain(v: Json)
    decreases v
  {
    match v
    case Number(bits) => Finite(bits)
    case Array(items) => forall i | 0 <= i < |items| :: Plain(items[i])
    case Object(members) =>
      && (forall i | 0 <= i < |members| :: Plain(members[i].value))
      && ListingOrder(members)
    case _ => true
  }

  /**
   * `stringify` yields the UTF-8 bytes of `JSON.stringify(v)`; `parse` yields
   * `JSON.parse` of the UTF-8 text in the bytes, or None where it throws.
   */
  datatype TextCodec = TextCodec(stringify: Json -> Bytes, parse: Bytes -> Option<Json>)

  /** The UTF-8 text "null". */
  const NullText: Bytes := [0x6e, 0x75, 0x6c, 0x6c]

  /**
   * The laws of the JSON library: parsing the text of a plain value gives the
   * value back, and `null` is written as the text "null" (the string
   * `JSON.parse` sees when it is handed a JavaScript `null`).
   */
  ghost predicate Lawful(c: TextCodec) {
    && (forall v :: Plain(v) ==> c.parse(c.stringify(v)) == Some(v))
    && c.stringify(Null) == NullText
  }

  // A codec that obeys the laws. Its text is not JSON text: every value is
  // written as a tag byte followed by its parts, each part ending where the
  // reader can tell, so that a reader can always find where a value stops.

  /** A count, in unary: `n` ones and a zero. */
  function WriteCount(n: nat): (r: Bytes)
    ensures |r| == n + 1
  {
    if n == 0 then [0] else [1] + WriteCount(n - 1)
  }

  function ReadCount(b: Bytes): (r: Option<(nat, Bytes)>)
    ensures r.Some? ==> |r.value.1| < |b|
  {
    if |b| == 0 then None
    else if b[0] == 0 then Some((0, b[1..]))
    else if b[0] != 1 then None
    else match ReadCount(b[1..])
      case None => None
      case Some((n, rest)) => Some((n + 1, rest))
  }

  lemma {:induction false} ReadWrittenCount(n: nat, rest: Bytes)
    ensures ReadCount(WriteCount(n) + rest) == Some((n, rest))
  {
    if n > 0 {
      assert (WriteCount(n) + rest)[1..] == WriteCount(n - 1) + rest;
      ReadWrittenCount(n - 1, rest);
    }
  }

  /** A character, a one before each code point and a zero after the last. */
  function WriteChars(s: string): (r: Bytes)
    ensures |r| > |s|
  {
    if s == [] then [0] else [1] + WriteCount(s[0] as nat) + WriteChars(s[1..])
  }

  function ReadChars(b: Bytes): (r: Option<(string, Bytes)>)
    ensures r.Some? ==> |r.value.1| < |b|
    decreases |b|
  {
    if |b| == 0 then None
    else if b[0] == 0 then Some(([], b[1..]))
    else if b[0] != 1 then None
    else match ReadCount(b[1..])
      case None => None
      case Some((n, rest)) =>
        if !(n < 0xD800 || 0xE000 <= n < 0x11_0000) then None
        else match ReadChars(rest)
          case None => None
          case Some((s, rest')) => Some(([n as char] + s, rest'))
  }

  lemma {:induction false} ReadWrittenChars(s: string, rest: Bytes)
    ensures ReadChars(WriteChars(s) + rest) == Some((s, rest))
  {
    if s != [] {
      var b := WriteChars(s) + rest;
      assert b[1..] == WriteCount(s[0] as nat) + (WriteChars(s[1..]) + rest);
      ReadWrittenCount(s[0] as nat, WriteChars(s[1..]) + rest);
      ReadWrittenChars(s[1..], rest);
      assert [s[0]] + s[1..] == s;
    }
  }

  /** A value: a tag byte, then its parts. */
  function Write(v: Json): (r: Bytes)
    ensures |r| > 0
    decreases v
  {
    match v
    case Null => NullText
    case Bool(b) => if b then [0x74] else [0x66]
    case Number(bits) => [0x23] + WriteCount(bits)
    case String(s) => [0x22] + WriteChars(s)
    case Array(items) => [0x5b] + WriteItems(items)
    case Object(members) => [0x7b] + WriteMembers(members)
  }

  /** The items of an array, a one before each item and a zero after the last. */
  function WriteItems(items: seq<Json>): (r: Bytes)
    ensures |r| > 0
    decreases items
  {
    if items == [] then [0] else [1] + Write(items[0]) + WriteItems(items[1..])
  }

  /** The members of an object, a one before each key and its value and a zero after the last. */
  function WriteMembers(members: seq<Member>): (r: Bytes)
    ensures |r| > 0
    decreases members
  {
    if members == [] then [0]
    else [1] + WriteChars(members[0].key) + Write(members[0].value) + WriteMembers(members[1..])
  }

  function Read(b: Bytes): (r: Option<(Json, Bytes)>)
    ensures r.Some? ==> |r.value.1| < |b|
    decreases |b|
  {
    if |b| == 0 then None
    else if b[0] == 0x6e then
      if |b| >= 4 && b[..4] == NullText then Some((Null, b[4..])) else None
    else if b[0] == 0x74 then Some((Bool(true), b[1..]))
    else if b[0] == 0x66 then Some((Bool(false), b[1..]))
    else if b[0] == 0x23 then
      match ReadCount(b[1..])
      case None => None
      case Some((n, rest)) => Some((Number(n), rest))
    else if b[0] == 0x22 then
      match ReadChars(b[1..])
      case None => None
      case Some((s, rest)) => Some((String(s), rest))
    else if b[0] == 0x5b then
      match ReadItems(b[1..])
      case None => None
      case Some((items, rest)) => Some((Array(items), rest))
    else if b[0] == 0x7b then
      match ReadMembers(b[1..])
      case None => None
      case Some((members, rest)) => Some((Object(members), rest))
    else None
  }

  function ReadItems(b: Bytes): (r: Option<(seq<Json>, Bytes)>)
    ensures r.Some? ==> |r.value.1| < |b|
    decreases |b|
  {
    if |b| == 0 then None
    else if b[0] == 0 then Some(([], b[1..]))
    else if b[0] != 1 then None
    else match Read(b[1..])
      case None => None
      case Some((v, rest)) =>
        match ReadItems(rest)
        case None => None
        case Some((items, rest')) => Some(([v] + items, rest'))
  }

  function ReadMembers(b: Bytes): (r: Option<(seq<Member>, Bytes)>)
    ensures r.Some? ==> |r.value.1| < |b|
    decreases |b|
  {
    if |b| == 0 then None
    else if b[0] == 0 then Some(([], b[1..]))
    else if b[0] != 1 then None
    else match ReadChars(b[1..])
      case None => None
      case Some((k, rest)) =>
        match Read(rest)
        case None => None
        case Some((v, rest')) =>
          match ReadMembers(rest')
          case None => None
          case Some((members, rest'')) => Some(([Member(k, v)] + members, rest''))
  }

  lemma {:induction false} ReadWritten(v: Json, rest: Bytes)
    ensures Read(Write(v) + rest) == Some((v, rest))
    decreases v
  {
    match v
    case Null =>
      var b := Write(v) + rest;
      assert b[..4] == NullText && b[4..] == rest;
    case Bool(_) =>
      AfterTag(Write(v), [], rest);
    case Number(bits) =>
      AfterTag(Write(v), WriteCount(bits), rest);
      ReadWrittenCount(bits, rest);
    case String(s) =>
      AfterTag(Write(v), WriteChars(s), rest);
      ReadWrittenChars(s, rest);
    case Array(items) =>
      AfterTag(Write(v), WriteItems(items), rest);
      ReadWrittenItems(items, rest);
      ReadTagged(Write(v) + rest);
    case Object(members) =>
      AfterTag(Write(v), WriteMembers(members), rest);
      ReadWrittenMembers(members, rest);
      ReadTagged(Write(v) + rest);
  }

  /** How `Read` goes on after an array or object tag. */
  lemma ReadTagged(b: Bytes)
    requires |b| > 0
    ensures b[0] == 0x5b && ReadItems(b[1..]).Some? ==>
      Read(b) == Some((Array(ReadItems(b[1..]).value.0), ReadItems(b[1..]).value.1))
    ensures b[0] == 0x7b && ReadMembers(b[1..]).Some? ==>
      Read(b) == Some((Object(ReadMembers(b[1..]).value.0), ReadMembers(b[1..]).value.1))
  {
  }

  /** What follows the tag byte of a written value. */
  lemma AfterTag(written: Bytes, body: Bytes, rest: Bytes)
    requires |written| == 1 + |body| && written[1..] == body
    ensures |written + rest| > 0 && (written + rest)[1..] == body + rest
  {
    assert (written + rest)[1..] == written[1..] + rest;
  }

  lemma {:induction false} ReadWrittenItems(items: seq<Json>, rest: Bytes)
    ensures ReadItems(WriteItems(items) + rest) == Some((items, rest))
    decreases items
  {
    if items != [] {
      var b := WriteItems(items) + rest;
      assert b[1..] == Write(items[0]) + (WriteItems(items[1..]) + rest);
      ReadWritten(items[0], WriteItems(items[1..]) + rest);
      ReadWrittenItems(items[1..], rest);
      assert [items[0]] + items[1..] == items;
    }
  }

  lemma {:induction false} ReadWrittenMembers(members: seq<Member>, rest: Bytes)
    ensures ReadMembers(WriteMembers(members) + rest) == Some((members, rest))
    decreases members
  {
    if members != [] {
      var k, v := members[0].key, members[0].value;
      var others := members[1..];
      var tail := WriteMembers(others) + rest;
      var afterKey := Write(v) + tail;
      var b := WriteMembers(members) + rest;
      MembersLayout(members, rest);
      ReadWrittenChars(k, afterKey);
      ReadWritten(v, tail);
      ReadWrittenMembers(others, rest);
      ReadMembersStep(b, k, v, others, afterKey, tail, rest);
      assert [Member(k, v)] + others == members;
    }
  }

  /** Where the parts of the first member sit in the bytes of a member list. */
  lemma MembersLayout(members: seq<Member>, rest: Bytes)
    requires members != []
    ensures var b := WriteMembers(members) + rest;
      && |b| > 0 && b[0] == 1
      && b[1..] == WriteChars(members[0].key) + (Write(members[0].value) + (WriteMembers(members[1..]) + rest))
  {
    var key, value, others := WriteChars(members[0].key), Write(members[0].value), WriteMembers(members[1..]);
    assert WriteMembers(members) == [1] + key + value + others;
    Regroup([1], key, value, others, rest);
  }

  lemma Regroup(a: Bytes, b: Bytes, c: Bytes, d: Bytes, e: Bytes)
    requires |a| == 1
    ensures (a + b + c + d + e)[1..] == b + (c + (d + e))
  {
    assert (a + b + c + d + e)[1..] == b + c + d + e;
  }

  /** One member read: its key, its value, then the members after it. */
  lemma ReadMembersStep(b: Bytes, k: string, v: Json, others: seq<Member>, afterKey: Bytes, tail: Bytes, rest: Bytes)
    requires |b| > 0 && b[0] == 1
    requires ReadChars(b[1..]) == Some((k, afterKey))
    requires Read(afterKey) == Some((v, tail))
    requires ReadMembers(tail) == Some((others, rest))
    ensures ReadMembers(b) == Some(([Member(k, v)] + others, rest))
  {
  }

  /** Reads one value and insists that nothing follows it. */
  function ReadAll(b: Bytes): (r: Option<Json>)
    ensures r.Some? ==> Read(b).Some? && Read(b).value == (r.value, [])
  {
    match Read(b)
    case Some((v, rest)) => if rest == [] then Some(v) else None
    case None => None
  }

  /** The sample codec: `Write` and `ReadAll`. */
  function Sample(): (c: TextCodec)
    ensures c.stringify(Null) == NullText
  {
    TextCodec(v => Write(v), b => ReadAll(b))
  }

  /** The laws can be met: the sample codec reads back every value, plain or not. */
  lemma SampleIsLawful()
    ensures Lawful(Sample())
    ensures forall v :: Sample().parse(Sample().stringify(v)) == Some(v)
  {
    forall v
      ensures Sample().parse(Sample().stringify(v)) == Some(v)
    {
      ReadWritten(v, []);
      assert Write(v) + [] == Write(v);
    }
  }
}
