/** The binary message format: a length-prefixed type and length-prefixed data. */
module BinaryCodec {
  import opened Wrappers

  type Byte = b: int | 0 <= b < 256

  type Bytes = seq<Byte>

  const UINT32_LIMIT := 0x1_0000_0000
  const MAX_TYPE_LENGTH := 1024

  datatype Payload = Payload(kind: Bytes, data: Bytes)

  datatype DecodeError = Truncated | InvalidTypeLength | MessageTooLarge

  datatype Decoded = Message(payload: Payload) | Rejected(error: DecodeError)

  /** binary.BigEndian */
  function BigEndian(n: nat): (bytes: Bytes)
    requires n < UINT32_LIMIT
    ensures |bytes| == 4
  {
    [n / 0x100_0000, n / 0x1_0000 % 256, n / 256 % 256, n % 256]
  }

  function Uint32(bytes: Bytes): (n: nat)
    requires |bytes| == 4
    ensures n < UINT32_LIMIT
  {
    (((bytes[0] as int) * 256 + bytes[1] as int) * 256 + bytes[2] as int) * 256 + bytes[3] as int
  }

  lemma Uint32OfBigEndian(n: nat)
    requires n < UINT32_LIMIT
    ensures Uint32(BigEndian(n)) == n
  {
  }

  lemma BigEndianOfUint32(bytes: Bytes)
    requires |bytes| == 4
    ensures BigEndian(Uint32(bytes)) == bytes
  {
    var high := (bytes[0] as int) * 256 + bytes[1] as int;
    var n := Uint32(bytes);
    assert n / 256 == high * 256 + bytes[2] as int && n % 256 == bytes[3];
    assert n / 0x1_0000 == n / 256 / 256 == high;
    assert n / 0x100_0000 == n / 0x1_0000 / 256 == bytes[0];
  }

  /** Encode; a length that does not fit into 32 bits is an error. */
  function Encode(p: Payload): Option<Bytes> {
    if |p.kind| >= UINT32_LIMIT || |p.data| >= UINT32_LIMIT then None
    else Some(BigEndian(|p.kind|) + p.kind + BigEndian(|p.data|) + p.data)
  }

  /** What reading from a text gives, and what is left of it. */
  datatype Read<T> = Short | Read(value: T, rest: Bytes)

  function ReadBytes(text: Bytes, n: nat): Read<Bytes> {
    if |text| < n then Short else Read(text[..n], text[n..])
  }

  function ReadWord(text: Bytes): Read<nat> {
    if |text| < 4 then Short else Read(Uint32(text[..4]), text[4..])
  }

  function Decode(maxMessageSize: int, bytes: Bytes): Decoded {
    match ReadWord(bytes)
    case Short => Rejected(Truncated)
    case Read(kindLength, afterLength) =>
      if kindLength > MAX_TYPE_LENGTH then Rejected(InvalidTypeLength)
      else
        match ReadBytes(afterLength, kindLength)
        case Short => Rejected(Truncated)
        case Read(kind, afterKind) => DecodeData(maxMessageSize, kind, afterKind)
  }

  function DecodeData(maxMessageSize: int, kind: Bytes, bytes: Bytes): Decoded {
    match ReadWord(bytes)
    case Short => Rejected(Truncated)
    case Read(dataLength, afterLength) =>
      if dataLength > maxMessageSize then Rejected(MessageTooLarge)
      else
        match ReadBytes(afterLength, dataLength)
        case Short => Rejected(Truncated)
        case Read(data, _) => Message(Payload(kind, data))
  }

  // ---------------------------------------------------------------------
  // Decoding inverts encoding
  // ---------------------------------------------------------------------

  function Prefixed(field: Bytes): Bytes
    requires |field| < UINT32_LIMIT
  {
    BigEndian(|field|) + field
  }

  /** Reading a length and then that many bytes takes exactly a prefixed field off a text. */
  lemma PrefixedFieldIsRead(field: Bytes, tail: Bytes)
    requires |field| < UINT32_LIMIT
    ensures ReadWord(Prefixed(field) + tail) == Read(|field|, field + tail)
    ensures ReadBytes(field + tail, |field|) == Read(field, tail)
  {
    Uint32OfBigEndian(|field|);
    hide BigEndian, Uint32;
    var text := Prefixed(field) + tail;
    assert text[..4] == BigEndian(|field|) && text[4..] == field + tail;
  }

  lemma FieldReadIsPrefixed(text: Bytes)
    requires ReadWord(text).Read? && ReadBytes(ReadWord(text).rest, ReadWord(text).value).Read?
    ensures var field := ReadBytes(ReadWord(text).rest, ReadWord(text).value);
            |field.value| == ReadWord(text).value < UINT32_LIMIT && text == Prefixed(field.value) + field.rest
  {
    BigEndianOfUint32(text[..4]);
    hide BigEndian, Uint32;
  }

  /** A text that breaks off inside a prefixed field has no such field. */
  lemma CutFieldIsShort(field: Bytes, tail: Bytes, n: nat)
    requires |field| < UINT32_LIMIT && n <= |Prefixed(field) + tail|
    ensures var part := (Prefixed(field) + tail)[..n];
      && (ReadWord(part).Read? <==> n >= 4)
      && (n >= 4 ==> ReadWord(part).value == |field|)
      && (4 <= n < 4 + |field| ==> ReadBytes(ReadWord(part).rest, |field|) == Short)
      && (n >= 4 + |field| ==> ReadBytes(ReadWord(part).rest, |field|) == Read(field, tail[..n - 4 - |field|]))
  {
    Uint32OfBigEndian(|field|);
    hide BigEndian, Uint32;
    var text := Prefixed(field) + tail;
    assert n >= 4 ==> text[..n][..4] == BigEndian(|field|);
    assert n >= 4 ==> text[..n][4..] == (field + tail)[..n - 4];
    assert n >= 4 + |field| ==> (field + tail)[..n - 4] == field + tail[..n - 4 - |field|];
  }

  /** What a text decodes to: a message exactly when the text begins with the encoding of
      that message and the message is within both bounds. So an encoded message decodes to
      itself whatever follows it, and nothing that breaks off inside an encoding decodes. */
  lemma DecodesExactlyEncodings(maxMessageSize: int, bytes: Bytes, p: Payload)
    ensures Decode(maxMessageSize, bytes) == Message(p)
       <==> |p.kind| <= MAX_TYPE_LENGTH && |p.data| <= maxMessageSize && Encode(p).Some? && Encode(p).value <= bytes
  {
    hide BigEndian, Uint32;
    if Decode(maxMessageSize, bytes) == Message(p) {
      FieldReadIsPrefixed(bytes);
      hide ReadWord, ReadBytes, Prefixed;
      var afterKind := ReadBytes(ReadWord(bytes).rest, ReadWord(bytes).value).rest;
      FieldReadIsPrefixed(afterKind);
      var tail := ReadBytes(ReadWord(afterKind).rest, ReadWord(afterKind).value).rest;
      EncodingIsTwoFields(p, tail);
    } else if |p.kind| <= MAX_TYPE_LENGTH && |p.data| <= maxMessageSize && Encode(p).Some? && Encode(p).value <= bytes {
      var tail := bytes[|Encode(p).value|..];
      assert bytes == Encode(p).value + tail;
      EncodingIsTwoFields(p, tail);
      PrefixedFieldIsRead(p.kind, Prefixed(p.data) + tail);
      PrefixedFieldIsRead(p.data, tail);
      hide ReadWord, ReadBytes, Prefixed;
    }
  }

  lemma EncodingIsTwoFields(p: Payload, tail: Bytes)
    requires |p.kind| < UINT32_LIMIT && |p.data| < UINT32_LIMIT
    ensures Encode(p).Some? && Encode(p).value + tail == Prefixed(p.kind) + (Prefixed(p.data) + tail)
  {
  }

  lemma RoundTrip(maxMessageSize: int, p: Payload, tail: Bytes)
    requires |p.kind| <= MAX_TYPE_LENGTH && |p.data| <= maxMessageSize && |p.data| < UINT32_LIMIT
    ensures Encode(p).Some? && Decode(maxMessageSize, Encode(p).value + tail) == Message(p)
  {
    DecodesExactlyEncodings(maxMessageSize, Encode(p).value + tail, p);
  }

  /** Every proper prefix of an encoding is rejected, within the bounds as truncated. */
  lemma ProperPrefixIsRejected(maxMessageSize: int, p: Payload, n: nat)
    requires Encode(p).Some? && n < |Encode(p).value|
    ensures Decode(maxMessageSize, Encode(p).value[..n]).Rejected?
    ensures |p.kind| <= MAX_TYPE_LENGTH && |p.data| <= maxMessageSize ==>
      Decode(maxMessageSize, Encode(p).value[..n]) == Rejected(Truncated)
  {
    EncodingIsTwoFields(p, []);
    var data := Prefixed(p.data);
    assert Encode(p).value + [] == Encode(p).value && data + [] == data;
    CutFieldIsShort(p.kind, data, n);
    if n >= 4 + |p.kind| {
      CutFieldIsShort(p.data, [], n - 4 - |p.kind|);
    }
    hide BigEndian, Uint32, ReadWord, ReadBytes;
  }

  // ---------------------------------------------------------------------
  // The layout, byte by byte
  // ---------------------------------------------------------------------

  /** Four bytes as a number, the most significant first. */
  predicate Spells(bytes: Bytes, at: nat, n: int) {
    at + 4 <= |bytes|
    && n == 16777216 * bytes[at] as int + 65536 * bytes[at + 1] as int + 256 * bytes[at + 2] as int + bytes[at + 3] as int
  }

  lemma BigEndianSpells(n: nat)
    requires n < 4294967296
    ensures Spells(BigEndian(n), 0, n)
  {
    assert n / 256 / 256 == n / 65536 && n / 65536 / 256 == n / 16777216;
  }

  /** An encoding is the length of the type, the type, the length of the data and the data;
      there is none exactly if a length does not fit into 32 bits. */
  lemma EncodingLayout(p: Payload)
    ensures Encode(p).None? <==> |p.kind| >= 4294967296 || |p.data| >= 4294967296
    ensures Encode(p).Some? ==>
      var bytes, n := Encode(p).value, |p.kind|;
      && |bytes| == n + |p.data| + 8
      && Spells(bytes, 0, n) && bytes[4..n + 4] == p.kind
      && Spells(bytes, n + 4, |p.data|) && bytes[n + 8..] == p.data
  {
    if Encode(p).Some? {
      BigEndianSpells(|p.kind|);
      BigEndianSpells(|p.data|);
      hide BigEndian;
      var bytes, n := Encode(p).value, |p.kind|;
      assert bytes[..4] == BigEndian(n);
      assert bytes[n + 4..n + 8] == BigEndian(|p.data|);
      assert forall k :: 0 <= k < 4 ==> bytes[k] == BigEndian(n)[k] && bytes[n + 4 + k] == BigEndian(|p.data|)[k];
    }
  }

  lemma WordSpells(bytes: Bytes)
    requires |bytes| >= 4
    ensures Spells(bytes, 0, Uint32(bytes[..4]))
  {
  }

  /** Why a text is rejected, by its first two lengths and its own. */
  lemma RejectedExactly(maxMessageSize: int, bytes: Bytes, kind: nat, data: nat)
    requires |bytes| >= 4 ==> Spells(bytes, 0, kind)
    requires |bytes| >= 8 + kind ==> Spells(bytes, 4 + kind, data)
    ensures Decode(maxMessageSize, bytes) == Rejected(InvalidTypeLength) <==> |bytes| >= 4 && kind > 1024
    ensures Decode(maxMessageSize, bytes) == Rejected(MessageTooLarge) <==>
      |bytes| >= 8 + kind && kind <= 1024 && data > maxMessageSize
    ensures Decode(maxMessageSize, bytes) == Rejected(Truncated) <==>
      |bytes| < 4 || (kind <= 1024 && (|bytes| < 8 + kind || (data <= maxMessageSize && |bytes| < 8 + kind + data)))
  {
    if |bytes| >= 4 {
      WordSpells(bytes);
      if |bytes| >= 4 + kind {
        var rest := bytes[4..][kind..];
        assert rest == bytes[4 + kind..];
        if |rest| >= 4 {
          WordSpells(rest);
        }
      }
    }
    hide Uint32;
  }

  // ---------------------------------------------------------------------
  // Writing and reading step by step
  // ---------------------------------------------------------------------

  /** bytes.Reader */
  class Reader {
    const bytes: Bytes
    var position: nat

    ghost predicate Valid()
      reads this
    {
      position <= |bytes|
    }

    ghost function Rest(): Bytes
      requires Valid()
      reads this
    {
      bytes[position..]
    }

    constructor (bytes: Bytes)
      ensures Valid() && this.bytes == bytes && Rest() == bytes
    {
      this.bytes, position := bytes, 0;
    }

    /** io.ReadFull: all of the bytes asked for, or an error. */
    method ReadFull(n: nat) returns (read: Option<Bytes>)
      requires Valid()
      modifies this
      ensures Valid()
      ensures ReadBytes(old(Rest()), n) == if read == None then Short else Read(read.value, Rest())
    {
      if |bytes| - position < n {
        position := |bytes|;
        return None;
      }
      assert Rest()[..n] == bytes[position..position + n];
      read := Some(bytes[position..position + n]);
      position := position + n;
    }

    method ReadUint32() returns (n: Option<nat>)
      requires Valid()
      modifies this
      ensures Valid()
      ensures ReadWord(old(Rest())) == if n == None then Short else Read(n.value, Rest())
    {
      var word := ReadFull(4);
      n := if word.Some? then Some(Uint32(word.value)) else None;
    }
  }

  method DecodeMessage(maxMessageSize: int, bytes: Bytes) returns (decoded: Decoded)
    ensures decoded == Decode(maxMessageSize, bytes)
  {
    hide ReadWord, ReadBytes, Reader.Rest;
    var reader := new Reader(bytes);
    var kindLength := reader.ReadUint32();
    if kindLength.None? {
      return Rejected(Truncated);
    }
    if kindLength.value > MAX_TYPE_LENGTH {
      return Rejected(InvalidTypeLength);
    }
    var kind := reader.ReadFull(kindLength.value);
    if kind.None? {
      return Rejected(Truncated);
    }
    var dataLength := reader.ReadUint32();
    if dataLength.None? {
      return Rejected(Truncated);
    }
    if dataLength.value > maxMessageSize {
      return Rejected(MessageTooLarge);
    }
    var data := reader.ReadFull(dataLength.value);
    if data.None? {
      return Rejected(Truncated);
    }
    decoded := Message(Payload(kind.value, data.value));
  }

  method EncodeMessage(p: Payload) returns (bytes: Option<Bytes>)
    ensures bytes == Encode(p)
  {
    if |p.kind| >= UINT32_LIMIT {
      return None;
    }
    var buffer := BigEndian(|p.kind|);
    buffer := buffer + p.kind;
    if |p.data| >= UINT32_LIMIT {
      return None;
    }
    buffer := buffer + BigEndian(|p.data|);
    buffer := buffer + p.data;
    bytes := Some(buffer);
  }
}
