/**
 Reading the confirmed number out of a serialized message without decoding it, against the wire
 format of Protocol Buffers: a message is a run of fields, each a tag and what the tag's wire type says.
 */
module PeekId {
  import opened Words

  type Bytes = seq<uint8>

  const ID_FIELD := 1
  const WIRE_VARINT := 0
  const WIRE_FIXED64 := 1
  const WIRE_LENGTH := 2
  const WIRE_FIXED32 := 5

  // ----- the format

  /** A base 128 number of at most 64 bits: every byte but the last goes on, and a tenth holds one bit. */
  ghost predicate IsVarint(b: Bytes) {
    && 1 <= |b| <= 10
    && (forall i :: 0 <= i < |b| - 1 ==> 128 <= b[i])
    && b[|b| - 1] < 128
    && (|b| == 10 ==> b[9] <= 1)
  }

  /** The number, its least significant seven bits first. */
  function VarintValue(b: Bytes): nat {
    if b == [] then 0 else b[0] % 128 + 128 * VarintValue(b[1..])
  }

  function Pow128(n: nat): (p: nat)
    ensures 0 < p
  {
    if n == 0 then 1 else 128 * Pow128(n - 1)
  }

  datatype Body =
    | Varint(value: Bytes)
    | Fixed64(fixed: Bytes)
    | Length(length: Bytes, content: Bytes)
    | Fixed32(fixed: Bytes)

  datatype Field = Field(tag: Bytes, body: Body)

  function Number(f: Field): nat {
    VarintValue(f.tag) / 8
  }

  function Wire(f: Field): nat {
    VarintValue(f.tag) % 8
  }

  ghost predicate BodyFits(wire: nat, body: Body) {
    match body
    case Varint(value) => wire == WIRE_VARINT && IsVarint(value)
    case Fixed64(fixed) => wire == WIRE_FIXED64 && |fixed| == 8
    case Length(length, content) => wire == WIRE_LENGTH && IsVarint(length) && VarintValue(length) == |content|
    case Fixed32(fixed) => wire == WIRE_FIXED32 && |fixed| == 4
  }

  /** A field this message can have at its top level; the number itself only as a varint. */
  ghost predicate IsField(f: Field) {
    && IsVarint(f.tag) && Number(f) != 0 && BodyFits(Wire(f), f.body)
    && (Number(f) == ID_FIELD ==> f.body.Varint?)
  }

  function BodyBytes(body: Body): Bytes {
    match body
    case Varint(value) => value
    case Fixed64(fixed) => fixed
    case Length(length, content) => length + content
    case Fixed32(fixed) => fixed
  }

  function FieldBytes(f: Field): Bytes {
    f.tag + BodyBytes(f.body)
  }

  function MessageBytes(fields: seq<Field>): Bytes {
    if fields == [] then [] else MessageBytes(fields[..|fields| - 1]) + FieldBytes(fields[|fields| - 1])
  }

  ghost predicate IsMessage(fields: seq<Field>, data: Bytes) {
    (forall i :: 0 <= i < |fields| ==> IsField(fields[i])) && MessageBytes(fields) == data
  }

  /** What one field makes of the number read so far. */
  function IdAfter(f: Field, id: nat): nat {
    if Number(f) == ID_FIELD && f.body.Varint? then VarintValue(f.body.value) else id
  }

  /** The number of a message: the last one wins, and none is 0. */
  function LastId(fields: seq<Field>): nat {
    if fields == [] then 0 else IdAfter(fields[|fields| - 1], LastId(fields[..|fields| - 1]))
  }

  // ----- no bytes can be read in two ways

  lemma VarintsAgree(a: Bytes, b: Bytes, s: Bytes)
    requires IsVarint(a) && IsVarint(b) && a <= s && b <= s
    ensures a == b
  {
    assert forall i :: 0 <= i < |a| ==> a[i] == s[i];
    assert forall i :: 0 <= i < |b| ==> b[i] == s[i];
  }

  lemma PrefixRest(a: Bytes, b: Bytes, s: Bytes)
    requires a + b <= s
    ensures a <= s && b <= s[|a|..]
  {
    assert s[..|a|] == a;
    assert s[|a|..][..|b|] == (a + b)[|a|..];
  }

  lemma BodiesAgree(wire: nat, a: Body, b: Body, s: Bytes)
    requires BodyFits(wire, a) && BodyFits(wire, b) && BodyBytes(a) <= s && BodyBytes(b) <= s
    ensures a == b
  {
    hide IsVarint, VarintValue;
    match a
    case Varint(value) => VarintsAgree(value, b.value, s);
    case Length(length, content) =>
      PrefixRest(length, content, s);
      PrefixRest(b.length, b.content, s);
      VarintsAgree(length, b.length, s);
    case _ =>
  }

  lemma FieldsAgree(f: Field, g: Field, s: Bytes)
    requires IsField(f) && IsField(g) && FieldBytes(f) <= s && FieldBytes(g) <= s
    ensures f == g
  {
    hide IsVarint, BodyFits;
    PrefixRest(f.tag, BodyBytes(f.body), s);
    PrefixRest(g.tag, BodyBytes(g.body), s);
    VarintsAgree(f.tag, g.tag, s);
    BodiesAgree(Wire(f), f.body, g.body, s[|f.tag|..]);
  }

  lemma {:induction false} FirstFields(fields: seq<Field>, n: nat)
    requires n <= |fields|
    ensures MessageBytes(fields[..n]) <= MessageBytes(fields)
  {
    if n < |fields| {
      FirstFields(fields[..|fields| - 1], n);
      assert fields[..|fields| - 1][..n] == fields[..n];
    } else {
      assert fields[..n] == fields;
    }
  }

  /** The field that follows n others in a message. */
  lemma FieldAt(fields: seq<Field>, n: nat)
    requires n < |fields|
    ensures MessageBytes(fields[..n]) + FieldBytes(fields[n]) <= MessageBytes(fields)
    ensures |MessageBytes(fields[..n])| <= |MessageBytes(fields)|
    ensures FieldBytes(fields[n]) <= MessageBytes(fields)[|MessageBytes(fields[..n])|..]
  {
    hide FieldBytes;
    FirstFields(fields, n + 1);
    assert fields[..n + 1][..n] == fields[..n];
    PrefixRest(MessageBytes(fields[..n]), FieldBytes(fields[n]), MessageBytes(fields));
  }

  /** Fields that begin a message are its first fields. */
  lemma {:induction false} FieldsBegin(fields: seq<Field>, message: seq<Field>, data: Bytes)
    requires IsMessage(message, data) && forall i :: 0 <= i < |fields| ==> IsField(fields[i])
    requires MessageBytes(fields) <= data
    ensures fields <= message
  {
    hide IsField, FieldBytes;
    if fields != [] {
      var n := |fields| - 1;
      var init, f := fields[..n], fields[n];
      PrefixRest(MessageBytes(init), FieldBytes(f), data);
      FieldsBegin(init, message, data);
      FieldIsLong(f);
      assert n == |message| ==> message == init;
      if n < |message| {
        assert message[..n] == init;
        FieldAt(message, n);
        FieldsAgree(f, message[n], data[|MessageBytes(init)|..]);
      }
    }
  }

  lemma FieldIsLong(f: Field)
    requires IsField(f)
    ensures 0 < |FieldBytes(f)|
  {
  }

  /** A message is read in one way only. */
  lemma MessagesAgree(fields: seq<Field>, fields': seq<Field>, data: Bytes)
    requires IsMessage(fields, data) && IsMessage(fields', data)
    ensures fields == fields'
  {
    FieldsBegin(fields, fields', data);
    FieldsBegin(fields', fields, data);
  }

  /** Where no field begins after the first ones, the bytes are no message. */
  lemma NoMessage(fields: seq<Field>, message: seq<Field>, data: Bytes)
    requires forall i :: 0 <= i < |fields| ==> IsField(fields[i])
    requires MessageBytes(fields) <= data && |MessageBytes(fields)| < |data|
    requires !FieldBegins(data[|MessageBytes(fields)|..])
    ensures !IsMessage(message, data)
  {
    hide IsField, FieldBytes, MessageBytes;
    if IsMessage(message, data) {
      FieldsBegin(fields, message, data);
      assert |fields| == |message| ==> fields == message;
      if |fields| < |message| {
        assert message[..|fields|] == fields;
        FieldAt(message, |fields|);
      }
    }
  }

  ghost predicate FieldBegins(s: Bytes) {
    exists f :: IsField(f) && FieldBytes(f) <= s
  }

  // ----- the reader

  lemma {:induction false} ValueAppended(b: Bytes, x: uint8)
    ensures VarintValue(b + [x]) == VarintValue(b) + Pow128(|b|) * (x % 128)
  {
    if b == [] {
      assert VarintValue([x]) == x % 128;
    } else {
      assert (b + [x])[1..] == b[1..] + [x];
      ValueAppended(b[1..], x);
    }
  }

  lemma {:induction false} ValueBelow(b: Bytes)
    ensures VarintValue(b) < Pow128(|b|)
  {
    if b != [] {
      ValueBelow(b[1..]);
    }
  }

  lemma Pow128Of9()
    ensures Pow128(9) == I63
    ensures Pow128(0) == 1
  {
    assert Pow128(3) == 0x20_0000;
    assert Pow128(6) == 0x20_0000 * 0x20_0000;
  }

  lemma {:induction false} Pow128Grows(i: nat, j: nat)
    requires i <= j
    ensures Pow128(i) <= Pow128(j)
  {
    if i < j {
      Pow128Grows(i, j - 1);
    }
  }

  /** A number of at most ten bytes, the tenth at most 1, fits 64 bits. */
  lemma ValueFits(b: Bytes, x: uint8)
    requires |b| < 9 || (|b| == 9 && x <= 1)
    ensures VarintValue(b) + Pow128(|b|) * (x % 128) < W64
  {
    ValueBelow(b);
    Pow128Of9();
    if |b| < 9 {
      Pow128Grows(|b| + 1, 9);
      ValueAppended(b, x);
      ValueBelow(b + [x]);
    }
  }

  /** The varint at pos; false when there is none. */
  method PeekVarint(data: Bytes, pos: uint32) returns (ok: bool, pos1: uint32, value: uint64)
    requires pos <= |data| < W32
    ensures ok ==> pos < pos1 <= |data| && IsVarint(data[pos..pos1]) && value == VarintValue(data[pos..pos1])
    ensures !ok ==> forall v :: v <= data[pos..] ==> !IsVarint(v)
  {
    hide VarintValue;
    pos1, value := pos, 0;
    ghost var rest := data[pos..];
    EmptyValue();
    for i := 0 to 10
      invariant i <= 9 && pos1 == pos + i <= |data|
      invariant value == VarintValue(rest[..i]) && forall j :: 0 <= j < i ==> 128 <= rest[j]
    {
      if pos1 >= |data| { return false, pos1, value; }
      var byte := data[pos1];
      pos1 := pos1 + 1;
      assert byte == rest[i];
      if i == 9 && byte > 1 { return false, pos1, value; }
      ValueAppended(rest[..i], byte);
      ValueFits(rest[..i], byte);
      assert rest[..i + 1] == rest[..i] + [byte];
      value := value + Pow128(i) * (byte % 128);
      if byte < 128 {
        assert data[pos..pos1] == rest[..i + 1];
        return true, pos1, value;
      }
    }
    assert false;
  }

  lemma EmptyValue()
    ensures VarintValue([]) == 0
  {
  }

  /** Moves on by a number of bytes, unless the end is nearer. */
  method PeekSkip(size: uint32, pos: uint32, count: uint64) returns (ok: bool, pos1: uint32)
    requires pos <= size
    ensures ok <==> pos + count <= size
    ensures pos1 == if ok then pos + count else pos
  {
    if size - pos < count { return false, pos; }
    return true, pos + count;
  }

  ghost predicate BodyBegins(wire: nat, s: Bytes) {
    exists body: Body :: BodyFits(wire, body) && BodyBytes(body) <= s
  }

  lemma FixedBegins(wire: nat, s: Bytes, n: nat)
    requires (wire == WIRE_FIXED64 && n == 8) || (wire == WIRE_FIXED32 && n == 4)
    ensures n <= |s| ==> BodyFits(wire, if n == 8 then Fixed64(s[..n]) else Fixed32(s[..n]))
    ensures |s| < n ==> !BodyBegins(wire, s)
  {
  }

  lemma LengthBegins(s: Bytes, length: Bytes)
    requires IsVarint(length) && length <= s && |s| < |length| + VarintValue(length)
    ensures !BodyBegins(WIRE_LENGTH, s)
  {
    hide IsVarint, VarintValue;
    forall body: Body | BodyFits(WIRE_LENGTH, body) ensures !(BodyBytes(body) <= s) {
      if BodyBytes(body) <= s {
        PrefixRest(body.length, body.content, s);
        VarintsAgree(length, body.length, s);
      }
    }
  }

  /** Reads a body of the given wire type; it fails exactly when none begins here. */
  method PeekBody(data: Bytes, pos: uint32, wire: nat) returns (ok: bool, pos1: uint32, ghost body: Body)
    requires pos <= |data| < W32
    ensures ok ==> pos <= pos1 <= |data| && BodyFits(wire, body) && data[pos..pos1] == BodyBytes(body)
    ensures !ok ==> !BodyBegins(wire, data[pos..])
  {
    hide IsVarint, VarintValue;
    ghost var rest := data[pos..];
    body := Fixed32([]);
    ok, pos1 := false, pos;
    match wire
    case 0 =>
      var value;
      ok, pos1, value := PeekVarint(data, pos);
      if ok { body := Varint(data[pos..pos1]); }
    case 1 =>
      FixedBegins(wire, rest, 8);
      ok, pos1 := PeekSkip(|data|, pos, 8);
      if ok { body := Fixed64(data[pos..pos1]); }
    case 2 =>
      var length;
      ok, pos1, length := PeekVarint(data, pos);
      if ok {
        ghost var lengthBytes := data[pos..pos1];
        ghost var at := pos1;
        ok, pos1 := PeekSkip(|data|, pos1, length);
        if ok {
          body := Length(lengthBytes, data[at..pos1]);
          assert data[pos..pos1] == lengthBytes + data[at..pos1];
        } else {
          LengthBegins(rest, lengthBytes);
        }
      } else {
        NoLength(rest);
      }
    case 5 =>
      FixedBegins(wire, rest, 4);
      ok, pos1 := PeekSkip(|data|, pos, 4);
      if ok { body := Fixed32(data[pos..pos1]); }
    case _ =>
  }

  lemma NoLength(s: Bytes)
    requires forall v :: v <= s ==> !IsVarint(v)
    ensures !BodyBegins(WIRE_LENGTH, s)
  {
    forall body: Body | BodyFits(WIRE_LENGTH, body) ensures !(BodyBytes(body) <= s) {
      if BodyBytes(body) <= s {
        PrefixRest(body.length, body.content, s);
      }
    }
  }

  lemma NoTag(s: Bytes)
    requires forall v :: v <= s ==> !IsVarint(v)
    ensures !FieldBegins(s)
  {
    hide IsVarint;
    forall f: Field | IsField(f) ensures !(FieldBytes(f) <= s) {
      if FieldBytes(f) <= s {
        PrefixRest(f.tag, BodyBytes(f.body), s);
      }
    }
  }

  /** After a tag that no field of this message goes on from, no field begins. */
  lemma NoBody(s: Bytes, tag: Bytes)
    requires IsVarint(tag) && tag <= s
    requires forall f: Field :: f.tag == tag && IsField(f) ==> !(BodyBytes(f.body) <= s[|tag|..])
    ensures !FieldBegins(s)
  {
    hide IsVarint, BodyFits, VarintValue;
    forall f: Field | IsField(f) ensures !(FieldBytes(f) <= s) {
      if FieldBytes(f) <= s {
        PrefixRest(f.tag, BodyBytes(f.body), s);
        VarintsAgree(tag, f.tag, s);
      }
    }
  }

  /** One field of the message: the number when it is the number's, stepped over otherwise. */
  method PeekField(data: Bytes, pos: uint32, id: uint64)
    returns (ok: bool, pos1: uint32, id1: uint64, ghost f: Field)
    requires pos <= |data| < W32
    ensures ok ==> pos < pos1 <= |data| && IsField(f) && data[pos..pos1] == FieldBytes(f) && id1 == IdAfter(f, id)
    ensures !ok ==> !FieldBegins(data[pos..])
  {
    hide IsVarint, VarintValue, BodyFits;
    f, id1 := Field([], Fixed32([])), id;
    ghost var rest := data[pos..];
    var tag;
    ok, pos1, tag := PeekVarint(data, pos);
    if !ok {
      NoTag(rest);
      return;
    }
    ghost var tagBytes, at := data[pos..pos1], pos1;
    assert rest[|tagBytes|..] == data[at..];
    var number, wire := tag / 8, tag % 8;
    if number == 0 {
      NoBody(rest, tagBytes);
      return false, pos1, id1, f;
    }
    if number == ID_FIELD {
      if wire != WIRE_VARINT {
        NoVarintBody(rest, tagBytes);
        return false, pos1, id1, f;
      }
      ok, pos1, id1 := PeekVarint(data, pos1);
      if !ok {
        NoVarintBody(rest, tagBytes);
        return;
      }
      f := Field(tagBytes, Varint(data[at..pos1]));
      VarintBodyFits(data[at..pos1]);
    } else {
      ghost var body;
      ok, pos1, body := PeekBody(data, pos1, wire);
      if !ok {
        NoBody(rest, tagBytes);
        return;
      }
      f := Field(tagBytes, body);
    }
    assert data[pos..pos1] == tagBytes + data[at..pos1];
  }

  lemma VarintBodyFits(value: Bytes)
    requires IsVarint(value)
    ensures BodyFits(WIRE_VARINT, Varint(value))
  {
  }

  /** The number's field goes on with a varint or not at all. */
  lemma NoVarintBody(s: Bytes, tag: Bytes)
    requires IsVarint(tag) && tag <= s && VarintValue(tag) / 8 == ID_FIELD
    requires VarintValue(tag) % 8 != WIRE_VARINT || forall v :: v <= s[|tag|..] ==> !IsVarint(v)
    ensures !FieldBegins(s)
  {
    hide IsVarint, VarintValue;
    NoBody(s, tag);
  }

  lemma FieldAppended(fields: seq<Field>, f: Field, data: Bytes, pos: nat, pos1: nat)
    requires pos <= pos1 <= |data| && IsMessage(fields, data[..pos]) && IsField(f) && data[pos..pos1] == FieldBytes(f)
    ensures IsMessage(fields + [f], data[..pos1])
    ensures LastId(fields + [f]) == IdAfter(f, LastId(fields))
  {
    hide IsField, FieldBytes, IdAfter;
    assert (fields + [f])[..|fields|] == fields;
    assert data[..pos1] == data[..pos] + data[pos..pos1];
  }

  ghost predicate IsSomeMessage(data: Bytes) {
    exists fields :: IsMessage(fields, data)
  }

  /**
   The number of a serialized message: it is read exactly when the bytes are a run of fields, and is
   what the last field with the number says, or 0 when there is none.
   */
  method PeekId(data: Bytes) returns (r: Option<uint64>)
    requires |data| < W32
    ensures r.Some? <==> IsSomeMessage(data)
    ensures forall fields :: IsMessage(fields, data) ==> r == Some(LastId(fields))
  {
    hide IsField, FieldBytes, IsMessage, LastId;
    var pos, id := 0, 0;
    ghost var fields: seq<Field> := [];
    NoFields(data);
    while pos < |data|
      invariant pos <= |data| && IsMessage(fields, data[..pos]) && id == LastId(fields)
    {
      var ok, pos1, id1, f := PeekField(data, pos, id);
      if !ok {
        NotSomeMessage(fields, data, pos);
        return None;
      }
      FieldAppended(fields, f, data, pos, pos1);
      fields, pos, id := fields + [f], pos1, id1;
    }
    assert data[..pos] == data;
    forall other | IsMessage(other, data) ensures other == fields {
      MessagesAgree(other, fields, data);
    }
    r := Some(id);
  }

  lemma NoFields(data: Bytes)
    ensures IsMessage([], data[..0]) && LastId([]) == 0
  {
  }

  lemma NotSomeMessage(fields: seq<Field>, data: Bytes, pos: nat)
    requires pos < |data| && IsMessage(fields, data[..pos]) && !FieldBegins(data[pos..])
    ensures !IsSomeMessage(data)
  {
    hide IsField;
    forall message: seq<Field> ensures !IsMessage(message, data) {
      NoMessage(fields, message, data);
    }
  }

  // ----- writing

  /** A number as a varint, in as few bytes as it needs. */
  function ToVarint(value: nat): (b: Bytes)
    decreases value
  {
    if value < 128 then [value] else [128 + value % 128] + ToVarint(value / 128)
  }

  lemma {:induction false} ToVarintShape(value: nat, m: nat)
    requires value < 2 * Pow128(m)
    ensures var b := ToVarint(value);
            && 1 <= |b| <= m + 1 && (|b| == m + 1 ==> b[m] <= 1) && b[|b| - 1] < 128
            && VarintValue(b) == value && forall i :: 0 <= i < |b| - 1 ==> 128 <= b[i]
  {
    if 128 <= value {
      ToVarintShape(value / 128, m - 1);
      var b := ToVarint(value);
      assert b[1..] == ToVarint(value / 128);
    }
  }

  /** Every 64-bit number has a varint, and reads back from it. */
  lemma ToVarintIsRead(value: uint64)
    ensures IsVarint(ToVarint(value)) && VarintValue(ToVarint(value)) == value
  {
    Pow128Of9();
    ToVarintShape(value, 9);
  }

  /** ToVarint writes seven bits a byte, the lowest first, and marks every byte but the last. */
  lemma ToVarintSpells(value: uint64)
    ensures Spells(ToVarint(value), value)
  {
    Pow128Of9();
    ToVarintShape(value, 9);
    ValueSpells(ToVarint(value));
  }

  // ----- the answer on bytes

  /** Seven bits of the number in each byte, the lowest first, and 128 more in every byte that another one follows. */
  ghost predicate Spells(v: Bytes, n: nat) {
    && 1 <= |v| <= 10 && n < Pow128(|v|)
    && forall i :: 0 <= i < |v| ==> v[i] == n / Pow128(i) % 128 + if i + 1 < |v| then 128 else 0
  }

  lemma DividedOnce(n: nat, p: nat)
    requires 0 < p
    ensures n / (128 * p) == n / 128 / p
  {
    var q, r := n / 128 / p, n / 128 % p;
    assert n / 128 == q * p + r;
    assert n == 128 * (q * p + r) + n % 128;
    assert 128 * (q * p) == q * (128 * p);
    QuotientIs(n, 128 * p, q, 128 * r + n % 128);
  }

  lemma QuotientIs(n: nat, d: nat, q: nat, r: nat)
    requires r < d && n == q * d + r
    ensures n / d == q
  {
    var x := n / d - q;
    assert x * d == r - n % d;
    var e: int := d;
    assert x * e < e && -e < x * e;
  }

  /** What such bytes are worth. */
  lemma {:induction false} SpelledIsRead(v: Bytes, n: nat)
    requires 1 <= |v| && n < Pow128(|v|)
    requires forall i :: 0 <= i < |v| ==> v[i] == n / Pow128(i) % 128 + if i + 1 < |v| then 128 else 0
    ensures VarintValue(v) == n
    ensures v[|v| - 1] < 128 && forall i :: 0 <= i < |v| - 1 ==> 128 <= v[i]
  {
    Pow128Of9();
    assert v[0] % 128 == n % 128;
    var rest := v[1..];
    if rest == [] {
      assert VarintValue(rest) == 0 && Pow128(1) == 128;
    } else {
      forall i | 0 <= i < |rest| ensures rest[i] == n / 128 / Pow128(i) % 128 + if i + 1 < |rest| then 128 else 0 {
        DividedOnce(n, Pow128(i));
        assert rest[i] == v[i + 1];
      }
      SpelledIsRead(rest, n / 128);
    }
  }

  lemma {:induction false} ValueSpellsAt(v: Bytes, i: nat)
    requires i < |v| && v[|v| - 1] < 128 && forall j :: 0 <= j < |v| - 1 ==> 128 <= v[j]
    ensures v[i] == VarintValue(v) / Pow128(i) % 128 + if i + 1 < |v| then 128 else 0
  {
    Pow128Of9();
    var rest := v[1..];
    if i != 0 {
      ValueSpellsAt(rest, i - 1);
      DividedOnce(VarintValue(v), Pow128(i - 1));
      assert VarintValue(v) / 128 == VarintValue(rest);
    }
  }

  lemma ValueSpells(v: Bytes)
    requires IsVarint(v)
    ensures Spells(v, VarintValue(v))
  {
    ValueBelow(v);
    forall i | 0 <= i < |v| ensures v[i] == VarintValue(v) / Pow128(i) % 128 + if i + 1 < |v| then 128 else 0 {
      ValueSpellsAt(v, i);
    }
  }

  /** Varints are the bytes that spell a 64-bit number. */
  lemma VarintSpells(v: Bytes, n: nat)
    ensures IsVarint(v) && VarintValue(v) == n <==> Spells(v, n) && n < W64
  {
    Pow128Of9();
    if IsVarint(v) {
      ValueSpells(v);
      ValueFits(v[..|v| - 1], v[|v| - 1]);
      ValueAppended(v[..|v| - 1], v[|v| - 1]);
      assert v == v[..|v| - 1] + [v[|v| - 1]];
    }
    if Spells(v, n) && n < W64 {
      SpelledIsRead(v, n);
      if |v| == 10 { assert n / Pow128(9) <= 1; }
    }
  }

  lemma {:induction false} MessagesJoin(a: seq<Field>, b: seq<Field>)
    ensures MessageBytes(a + b) == MessageBytes(a) + MessageBytes(b)
  {
    hide FieldBytes, MessageBytes;
    if b == [] {
      assert a + b == a;
      NoBytes();
    } else {
      var init, f := b[..|b| - 1], b[|b| - 1];
      MessagesJoin(a, init);
      OneFieldMore(a + init, f);
      OneFieldMore(init, f);
      assert a + b == a + init + [f] && b == init + [f];
      var x, y, z := MessageBytes(a), MessageBytes(init), FieldBytes(f);
      assert x + (y + z) == x + y + z;
    }
  }

  lemma NoBytes()
    ensures MessageBytes([]) == []
  {
  }

  lemma OneFieldMore(fields: seq<Field>, f: Field)
    ensures MessageBytes(fields + [f]) == MessageBytes(fields) + FieldBytes(f)
  {
    hide FieldBytes;
    assert (fields + [f])[..|fields|] == fields;
  }

  ghost predicate SpellsSome(v: Bytes) {
    exists n: uint64 :: Spells(v, n)
  }

  /** A spelled length and as many bytes. */
  ghost predicate SpellsLength(s: Bytes, k: nat) {
    k <= |s| && exists n: uint64 :: Spells(s[..k], n) && k + n == |s|
  }

  /**
   What a field is on bytes: the tag spells a number and, in its lowest three bits, how the rest is
   made: 0 a varint, 1 eight bytes, 2 a length and as many bytes, 5 four bytes; the number is not 0, and
   1 goes with a varint only.
   */
  lemma FieldOnBytes(tag: Bytes, t: uint64, rest: Bytes)
    requires Spells(tag, t)
    ensures (exists f :: IsField(f) && FieldBytes(f) == tag + rest) <==>
              && t / 8 != 0 && (t / 8 == 1 ==> t % 8 == 0)
              && ((t % 8 == 0 && SpellsSome(rest)) || (t % 8 == 1 && |rest| == 8)
                  || (t % 8 == 2 && exists k: nat :: SpellsLength(rest, k)) || (t % 8 == 5 && |rest| == 4))
  {
    hide IsVarint, Spells, VarintValue, SpellsSome, SpellsLength, BodyFits, BodyBytes;
    VarintSpells(tag, t);
    BodyOnBytes(t % 8, rest);
    if f :| IsField(f) && FieldBytes(f) == tag + rest {
      VarintsAgree(tag, f.tag, tag + rest);
      assert rest == (tag + rest)[|tag|..] == BodyBytes(f.body);
      OnlyVarint(f);
    }
    if t / 8 != 0 && (t / 8 == 1 ==> t % 8 == 0) && exists body :: BodyFits(t % 8, body) && BodyBytes(body) == rest {
      var body :| BodyFits(t % 8, body) && BodyBytes(body) == rest;
      FieldIs(Field(tag, body), t);
    }
  }

  lemma OnlyVarint(f: Field)
    requires IsField(f)
    ensures Number(f) == 1 ==> Wire(f) == 0
  {
    hide IsVarint, VarintValue;
  }

  lemma FieldIs(f: Field, t: nat)
    requires IsVarint(f.tag) && VarintValue(f.tag) == t && BodyFits(t % 8, f.body)
    requires t / 8 != 0 && (t / 8 == 1 ==> t % 8 == 0)
    ensures IsField(f)
  {
    hide IsVarint, VarintValue;
  }

  lemma BodyOnBytes(wire: nat, s: Bytes)
    ensures (exists body :: BodyFits(wire, body) && BodyBytes(body) == s) <==>
              || (wire == 0 && SpellsSome(s)) || (wire == 1 && |s| == 8)
              || (wire == 2 && exists k: nat :: SpellsLength(s, k)) || (wire == 5 && |s| == 4)
  {
    hide IsVarint, Spells, VarintValue;
    if body :| BodyFits(wire, body) && BodyBytes(body) == s { BodyIs(body); }
    if wire == 0 && SpellsSome(s) {
      var n: uint64 :| Spells(s, n);
      VarintSpells(s, n);
      assert BodyFits(wire, Varint(s)) && BodyBytes(Varint(s)) == s;
    }
    if wire == 1 && |s| == 8 { assert BodyFits(wire, Fixed64(s)) && BodyBytes(Fixed64(s)) == s; }
    if wire == 5 && |s| == 4 { assert BodyFits(wire, Fixed32(s)) && BodyBytes(Fixed32(s)) == s; }
    if wire == 2 && exists k: nat :: SpellsLength(s, k) {
      var k: nat :| SpellsLength(s, k);
      var n: uint64 :| Spells(s[..k], n) && k + n == |s|;
      VarintSpells(s[..k], n);
      assert s == s[..k] + s[k..];
      assert BodyFits(wire, Length(s[..k], s[k..])) && BodyBytes(Length(s[..k], s[k..])) == s;
    }
  }

  lemma BodyIs(body: Body)
    ensures body.Varint? && IsVarint(body.value) ==> SpellsSome(BodyBytes(body))
    ensures body.Length? && IsVarint(body.length) && VarintValue(body.length) == |body.content| ==>
              SpellsLength(BodyBytes(body), |body.length|)
  {
    hide IsVarint, Spells, VarintValue;
    if body.Varint? { VarintSpells(body.value, VarintValue(body.value)); }
    if body.Length? {
      VarintSpells(body.length, VarintValue(body.length));
      assert BodyBytes(body)[..|body.length|] == body.length;
    }
  }

  /** A run of fields none of which is numbered 1. */
  ghost predicate Numberless(data: Bytes) {
    exists fields :: IsMessage(fields, data) && forall i :: 0 <= i < |fields| ==> Number(fields[i]) != 1
  }

  lemma {:induction false} LastIdStays(a: seq<Field>, b: seq<Field>)
    requires forall i :: 0 <= i < |b| ==> Number(b[i]) != 1
    ensures LastId(a + b) == LastId(a)
  {
    hide Number;
    if b == [] {
      assert a + b == a;
    } else {
      var init := b[..|b| - 1];
      LastIdStays(a, init);
      assert (a + b)[..|a + b| - 1] == a + init;
    }
  }

  /** The byte 8 is the tag of a varint under the number 1. */
  lemma NumberField(v: Bytes, n: uint64)
    requires Spells(v, n)
    ensures var f := Field([8], Varint(v));
            && IsMessage([f], [8] + v)
            && forall fields :: LastId(fields + [f]) == n
  {
    hide IsVarint, Spells;
    VarintSpells(v, n);
    VarintSpells([8], 8);
    Spells8();
    var f := Field([8], Varint(v));
    assert [f][..0] == [] && MessageBytes([]) == [];
    forall fields ensures LastId(fields + [f]) == n {
      assert (fields + [f])[..|fields|] == fields;
    }
  }

  lemma Spells8()
    ensures Spells([8], 8)
  {
    Pow128Of9();
    assert Pow128(1) == 128;
  }

  /** Whatever comes before it, the last field numbered 1 is the number; a message without one has none. */
  method NumberIsPeeked(a: Bytes, v: Bytes, n: uint64, b: Bytes) returns (last: Option<uint64>, none: Option<uint64>)
    requires IsSomeMessage(a) && Spells(v, n) && Numberless(b) && |a + [8] + v + b| < W32
    ensures last == Some(n) && none == Some(0)
  {
    hide IsMessage, IsField, Spells, LastId, FieldBytes, MessageBytes, Number;
    ghost var fa :| IsMessage(fa, a);
    ghost var fb :| IsMessage(fb, b) && forall i :: 0 <= i < |fb| ==> Number(fb[i]) != 1;
    ghost var f := Field([8], Varint(v));
    NumberField(v, n);
    JoinedIsMessage(fa, a, [f], [8] + v);
    JoinedIsMessage(fa + [f], a + ([8] + v), fb, b);
    LastIdStays(fa + [f], fb);
    LastIdStays([], fb);
    assert [] + fb == fb;
    NoFields(b);
    assert a + ([8] + v) + b == a + [8] + v + b;
    last := PeekId(a + [8] + v + b);
    none := PeekId(b);
  }

  lemma JoinedIsMessage(a: seq<Field>, x: Bytes, b: seq<Field>, y: Bytes)
    requires IsMessage(a, x) && IsMessage(b, y)
    ensures IsMessage(a + b, x + y)
  {
    hide IsField, MessageBytes;
    MessagesJoin(a, b);
  }
}
