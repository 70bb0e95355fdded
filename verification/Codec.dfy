/** Messages and their wire format: a short form, and an extended form that also carries the envelope. */
module Codec {
  import opened Octets

  type u32 = x: int | 0 <= x < U32_LIMIT
  type u64 = x: int | 0 <= x < U64_LIMIT

  const PROTOCOL_VERSION: byte := 1
  const EXTENDED_FLAG: byte := 0x80

  // Message types.
  const TEXT: byte := 0x00
  const COMMAND: byte := 0x01
  const CIPHER_MESSAGE: byte := 0x03
  const RESPONSE: byte := 0x04
  const FILE_START: byte := 0x05
  const FILE_CHUNK: byte := 0x06
  const FILE_END: byte := 0x07

  datatype Header = Header(kind: byte, length: u32, checksum: u32, timestamp: u64, version: byte)

  datatype Envelope = Envelope(sender: Bytes, recipient: Bytes, sequence: u64, flags: u32)

  datatype Message = Message(header: Header, metalen: byte, envelope: Envelope, metadata: seq<Bytes>, payload: Bytes)
  {
    /** Out-of-range metadata reads as the empty vector. */
    function Meta(i: nat): Bytes {
      if i < |metadata| then metadata[i] else []
    }

    /** What every constructor and setter leaves behind: the count fits its byte and the size its word. */
    predicate Sized() {
      metalen == |metadata| && WireSize(metadata, payload) < U32_LIMIT
    }

    predicate UsesExtended() {
      envelope.sender != [] || envelope.recipient != [] || envelope.sequence != 0 || envelope.flags != 0
      || header.version != PROTOCOL_VERSION
    }

    /** The bounds that the fixed-width fields of the format this message goes out in can carry. */
    predicate Encodable() {
      && (forall i :: 0 <= i < |metadata| ==> |metadata[i]| < U16_LIMIT)
      && (UsesExtended() ==> 1 <= header.version <= 127 && |envelope.sender| <= 255 && |envelope.recipient| <= 255)
      && (!UsesExtended() ==> |metadata| <= 127)
    }

    /** Everything the wire carries for `this` is the same in `that`. */
    predicate SameContent(that: Message) {
      && header.kind == that.header.kind
      && header.version == that.header.version
      && envelope == that.envelope
      && metalen == that.metalen
      && metadata == that.metadata
      && payload == that.payload
      && (UsesExtended() ==> header.timestamp == that.header.timestamp)
    }
  }

  /** What the source throws. */
  datatype CodecError =
    | TooShort
    | UnsupportedVersion
    | MetadataCountMismatch
    | MessageTooLarge
    | MetadataLengthMissing
    | MetadataOutOfBounds
    | PayloadLengthMissing
    | PayloadOutOfBounds
    | FlagsMissing
    | TimestampMissing
    | SenderLengthMissing
    | SenderOutOfBounds
    | RecipientLengthMissing
    | RecipientOutOfBounds
    | SequenceMissing
    | EnvelopeFlagsMissing
    | MetadataCountMissing

  const EMPTY_ENVELOPE := Envelope([], [], 0, 0)

  /** A default-constructed message. */
  const EMPTY_MESSAGE := Message(Header(TEXT, 0, 0, 0, PROTOCOL_VERSION), 0, EMPTY_ENVELOPE, [], [])

  // --- Sizes and construction ---

  function ItemsSize(items: seq<Bytes>): nat {
    if items == [] then 0 else 2 + |items[0]| + ItemsSize(items[1..])
  }

  function WireSize(metadata: seq<Bytes>, payload: Bytes): nat {
    2 + ItemsSize(metadata) + 4 + |payload|
  }

  function ComputeSerializedSize(metalen: byte, metadata: seq<Bytes>, payload: Bytes): Result<u32, CodecError> {
    if metalen != |metadata| then Err(MetadataCountMismatch)
    else if WireSize(metadata, payload) >= U32_LIMIT then Err(MessageTooLarge)
    else Ok(WireSize(metadata, payload))
  }

  /** Recount the metadata and recompute the length, or fail as the source throws. */
  function Resized(m: Message): (r: Result<Message, CodecError>)
    ensures r.Ok? ==> r.value.Sized() && r.value.metadata == m.metadata && r.value.payload == m.payload
    ensures r.Ok? ==> r.value.header.length == WireSize(m.metadata, m.payload)
    ensures r.Ok? <==> |m.metadata| <= 255 && WireSize(m.metadata, m.payload) < U32_LIMIT
  {
    var count := |m.metadata| % 256;
    match ComputeSerializedSize(count, m.metadata, m.payload)
    case Err(e) => Err(e)
    case Ok(n) => Ok(m.(metalen := count, header := m.header.(length := n)))
  }

  function NewMessage(payload: Bytes, metadata: seq<Bytes>, kind: byte, now: u64): Result<Message, CodecError> {
    Resized(Message(Header(kind, 0, 0, now, PROTOCOL_VERSION), 0, EMPTY_ENVELOPE, metadata, payload))
  }

  function InsertMetadata(m: Message, item: Bytes): Result<Message, CodecError> {
    Resized(m.(metadata := m.metadata + [item]))
  }

  function SetPayload(m: Message, payload: Bytes): (r: Result<Message, CodecError>)
    ensures r.Ok? ==> r.value.Sized() && r.value.metadata == m.metadata && r.value.payload == payload
    ensures r.Ok? ==> r.value.header.length == WireSize(m.metadata, payload)
    ensures r.Ok? <==> m.metalen == |m.metadata| && WireSize(m.metadata, payload) < U32_LIMIT
  {
    match ComputeSerializedSize(m.metalen, m.metadata, payload)
    case Err(e) => Err(e)
    case Ok(n) => Ok(m.(payload := payload, header := m.header.(length := n)))
  }

  // --- Encoding ---

  function EncodeItem(item: Bytes): Bytes {
    EncodeU16(|item|) + item
  }

  function EncodeItems(items: seq<Bytes>): Bytes {
    if items == [] then [] else EncodeItem(items[0]) + EncodeItems(items[1..])
  }

  function EncodeTail(items: seq<Bytes>, payload: Bytes): Bytes {
    EncodeItems(items) + (EncodeU32(|payload|) + payload)
  }

  /** A field behind a one-byte length. */
  function EncodeName(name: Bytes): (b: Bytes)
    ensures |b| == 1 + |name|
  {
    [|name| % 256] + name
  }

  /** The flags are written twice; readers keep the second. */
  function EncodeHead(firstFlags: u32, timestamp: u64, e: Envelope, rest: Bytes): (b: Bytes)
    ensures |b| >= 26 + |rest|
    ensures b[..4] == EncodeU32(firstFlags)
  {
    EncodeU32(firstFlags) + (EncodeU64(timestamp) + (EncodeName(e.sender) + (EncodeName(e.recipient)
    + (EncodeU64(e.sequence) + (EncodeU32(e.flags) + rest)))))
  }

  function EncodeEnvelope(timestamp: u64, e: Envelope, rest: Bytes): Bytes {
    EncodeHead(e.flags, timestamp, e, rest)
  }

  function Serialize(m: Message): Bytes {
    if !m.UsesExtended() then
      [m.header.kind, m.metalen] + EncodeTail(m.metadata, m.payload)
    else
      [m.header.kind, EXTENDED_FLAG + m.header.version % 128]
      + EncodeEnvelope(m.header.timestamp, m.envelope, [m.metalen] + EncodeTail(m.metadata, m.payload))
  }

  // --- Decoding: readers that consume a prefix ---

  datatype Parsed<+T> = Got(value: T, rest: Bytes) | Bad(reason: CodecError)
  {
    predicate IsFailure() { Bad? }

    function PropagateFailure<U>(): Parsed<U>
      requires Bad?
    { Bad(reason) }

    function Extract(): (T, Bytes)
      requires Got?
    { (value, rest) }
  }

  function Take(b: Bytes, n: nat, missing: CodecError): Parsed<Bytes> {
    if |b| < n then Bad(missing) else Got(b[..n], b[n..])
  }

  function ReadU32(b: Bytes, missing: CodecError): Parsed<u32> {
    var (f, rest) :- Take(b, 4, missing);
    Got(DecodeU32(f), rest)
  }

  function ReadU64(b: Bytes, missing: CodecError): Parsed<u64> {
    var (f, rest) :- Take(b, 8, missing);
    Got(DecodeU64(f), rest)
  }

  function ReadName(b: Bytes, missing: CodecError, short: CodecError): Parsed<Bytes> {
    var (n, rest) :- Take(b, 1, missing);
    Take(rest, n[0], short)
  }

  function ReadItem(b: Bytes): Parsed<Bytes> {
    var (n, rest) :- Take(b, 2, MetadataLengthMissing);
    Take(rest, DecodeU16(n), MetadataOutOfBounds)
  }

  function ReadItems(b: Bytes, n: nat): Parsed<seq<Bytes>> {
    if n == 0 then Got([], b) else
    var (item, rest) :- ReadItem(b);
    var (items, rest') :- ReadItems(rest, n - 1);
    Got([item] + items, rest')
  }

  function ReadPayload(b: Bytes): Parsed<Bytes> {
    var (n, rest) :- ReadU32(b, PayloadLengthMissing);
    Take(rest, n, PayloadOutOfBounds)
  }

  function ReadTail(b: Bytes, count: nat): Parsed<(seq<Bytes>, Bytes)> {
    var (items, rest) :- ReadItems(b, count);
    var (payload, rest') :- ReadPayload(rest);
    Got((items, payload), rest')
  }

  datatype ExtendedHead = ExtendedHead(firstFlags: u32, timestamp: u64, envelope: Envelope, count: byte)

  function ReadExtendedHead(b: Bytes): Parsed<ExtendedHead> {
    var (firstFlags, b1) :- ReadU32(b, FlagsMissing);
    var (timestamp, b2) :- ReadU64(b1, TimestampMissing);
    var (sender, b3) :- ReadName(b2, SenderLengthMissing, SenderOutOfBounds);
    var (recipient, b4) :-
      ReadName(b3, RecipientLengthMissing, RecipientOutOfBounds);
    var (sequence, b5) :- ReadU64(b4, SequenceMissing);
    var (flags, b6) :- ReadU32(b5, EnvelopeFlagsMissing);
    var (count, b7) :- Take(b6, 1, MetadataCountMissing);
    Got(ExtendedHead(firstFlags, timestamp, Envelope(sender, recipient, sequence, flags), count[0]), b7)
  }

  predicate IsExtended(raw: Bytes) {
    |raw| >= 2 && raw[1] >= EXTENDED_FLAG
  }

  function Deserialize(raw: Bytes): Result<Message, CodecError> {
    if |raw| < 6 then Err(TooShort)
    else if IsExtended(raw) then DeserializeExtended(raw)
    else DeserializeShort(raw)
  }

  function DeserializeShort(raw: Bytes): Result<Message, CodecError>
    requires |raw| >= 6
  {
    match ReadTail(raw[2..], raw[1])
    case Bad(e) => Err(e)
    case Got((items, payload), _) =>
      match ComputeSerializedSize(raw[1], items, payload)
      case Err(e) => Err(e)
      case Ok(n) => Ok(Message(Header(raw[0], n, 0, 0, PROTOCOL_VERSION), raw[1], EMPTY_ENVELOPE, items, payload))
  }

  function DeserializeExtended(raw: Bytes): Result<Message, CodecError>
    requires |raw| >= 6 && IsExtended(raw)
  {
    if raw[1] == EXTENDED_FLAG then Err(UnsupportedVersion) else
    match ReadExtendedHead(raw[2..])
    case Bad(e) => Err(e)
    case Got(head, rest) =>
      match ReadTail(rest, head.count)
      case Bad(e) => Err(e)
      case Got((items, payload), _) =>
        Ok(Message(Header(raw[0], (|raw| - 2) % U32_LIMIT, 0, head.timestamp, raw[1] - EXTENDED_FLAG),
                   head.count, head.envelope, items, payload))
  }

  // --- Each reader inverts its encoder ---

  lemma Assoc(a: Bytes, b: Bytes, c: Bytes)
    ensures (a + b) + c == a + (b + c)
  {
  }

  lemma TakeSplits(a: Bytes, rest: Bytes, e: CodecError)
    ensures Take(a + rest, |a|, e) == Got(a, rest)
  {
    assert (a + rest)[..|a|] == a && (a + rest)[|a|..] == rest;
  }

  lemma ReadU32Inverts(v: u32, rest: Bytes, e: CodecError)
    ensures ReadU32(EncodeU32(v) + rest, e) == Got(v, rest)
  {
    hide EncodeU32, DecodeU32;
    TakeSplits(EncodeU32(v), rest, e);
    U32RoundTrip(v);
  }

  lemma ReadU64Inverts(v: u64, rest: Bytes, e: CodecError)
    ensures ReadU64(EncodeU64(v) + rest, e) == Got(v, rest)
  {
    hide EncodeU64, DecodeU64, Take;
    TakeSplits(EncodeU64(v), rest, e);
    U64RoundTrip(v);
  }

  lemma ReadNameInverts(name: Bytes, rest: Bytes, e: CodecError, f: CodecError)
    requires |name| <= 255
    ensures ReadName(EncodeName(name) + rest, e, f) == Got(name, rest)
  {
    Assoc([|name| % 256], name, rest);
    TakeSplits([|name| % 256], name + rest, e);
    TakeSplits(name, rest, f);
  }

  lemma ReadItemInverts(item: Bytes, rest: Bytes)
    requires |item| < U16_LIMIT
    ensures ReadItem(EncodeItem(item) + rest) == Got(item, rest)
  {
    Assoc(EncodeU16(|item|), item, rest);
    TakeSplits(EncodeU16(|item|), item + rest, MetadataLengthMissing);
    TakeSplits(item, rest, MetadataOutOfBounds);
    U16RoundTrip(|item|);
  }

  lemma {:induction false} ReadItemsInverts(items: seq<Bytes>, rest: Bytes)
    requires forall i :: 0 <= i < |items| ==> |items[i]| < U16_LIMIT
    ensures ReadItems(EncodeItems(items) + rest, |items|) == Got(items, rest)
  {
    if items == [] {
      assert EncodeItems(items) + rest == rest;
    } else {
      Assoc(EncodeItem(items[0]), EncodeItems(items[1..]), rest);
      ReadItemInverts(items[0], EncodeItems(items[1..]) + rest);
      ReadItemsInverts(items[1..], rest);
      assert [items[0]] + items[1..] == items;
    }
  }

  lemma ReadTailInverts(items: seq<Bytes>, payload: Bytes, rest: Bytes)
    requires forall i :: 0 <= i < |items| ==> |items[i]| < U16_LIMIT
    requires |payload| < U32_LIMIT
    ensures ReadTail(EncodeTail(items, payload) + rest, |items|) == Got((items, payload), rest)
  {
    Assoc(EncodeItems(items), EncodeU32(|payload|) + payload, rest);
    Assoc(EncodeU32(|payload|), payload, rest);
    ReadItemsInverts(items, EncodeU32(|payload|) + payload + rest);
    ReadU32Inverts(|payload|, payload + rest, PayloadLengthMissing);
    TakeSplits(payload, rest, PayloadOutOfBounds);
  }

  lemma HeadThen(firstFlags: u32, timestamp: u64, e: Envelope, rest: Bytes, extra: Bytes)
    ensures EncodeHead(firstFlags, timestamp, e, rest) + extra == EncodeHead(firstFlags, timestamp, e, rest + extra)
  {
    var f6 := EncodeU32(e.flags) + rest;
    var f5 := EncodeU64(e.sequence) + f6;
    var f4 := EncodeName(e.recipient) + f5;
    var f3 := EncodeName(e.sender) + f4;
    var f2 := EncodeU64(timestamp) + f3;
    Assoc(EncodeU32(firstFlags), f2, extra);
    Assoc(EncodeU64(timestamp), f3, extra);
    Assoc(EncodeName(e.sender), f4, extra);
    Assoc(EncodeName(e.recipient), f5, extra);
    Assoc(EncodeU64(e.sequence), f6, extra);
    Assoc(EncodeU32(e.flags), rest, extra);
  }

  lemma ReadExtendedHeadInverts(firstFlags: u32, timestamp: u64, e: Envelope, count: byte, rest: Bytes)
    requires |e.sender| <= 255 && |e.recipient| <= 255
    ensures ReadExtendedHead(EncodeHead(firstFlags, timestamp, e, [count] + rest))
            == Got(ExtendedHead(firstFlags, timestamp, e, count), rest)
  {
    var f7 := [count] + rest;
    var f6 := EncodeU32(e.flags) + f7;
    var f5 := EncodeU64(e.sequence) + f6;
    var f4 := EncodeName(e.recipient) + f5;
    var f3 := EncodeName(e.sender) + f4;
    var f2 := EncodeU64(timestamp) + f3;
    ReadU32Inverts(firstFlags, f2, FlagsMissing);
    ReadU64Inverts(timestamp, f3, TimestampMissing);
    ReadNameInverts(e.sender, f4, SenderLengthMissing, SenderOutOfBounds);
    ReadNameInverts(e.recipient, f5, RecipientLengthMissing, RecipientOutOfBounds);
    ReadU64Inverts(e.sequence, f6, SequenceMissing);
    ReadU32Inverts(e.flags, f7, EnvelopeFlagsMissing);
    TakeSplits([count], rest, MetadataCountMissing);
  }

  lemma {:induction false} ItemsEncodedSize(items: seq<Bytes>)
    ensures |EncodeItems(items)| == ItemsSize(items)
  {
    if items != [] {
      ItemsEncodedSize(items[1..]);
    }
  }

  lemma RoundTripShort(m: Message, extra: Bytes)
    requires m.Sized() && m.Encodable() && !m.UsesExtended()
    ensures var r := Deserialize(Serialize(m) + extra);
            && r.Ok? && m.SameContent(r.value)
            && !IsExtended(Serialize(m) + extra)
            && r.value.header.length == |Serialize(m)|
  {
    hide EncodeTail, ReadTail;
    var raw := Serialize(m) + extra;
    var tail := EncodeTail(m.metadata, m.payload);
    EncodeTailSize(m.metadata, m.payload);
    assert raw[2..] == tail + extra;
    ReadTailInverts(m.metadata, m.payload, extra);
  }

  lemma RoundTripExtended(m: Message, extra: Bytes)
    requires m.Sized() && m.Encodable() && m.UsesExtended()
    ensures var r := Deserialize(Serialize(m) + extra);
            && r.Ok? && m.SameContent(r.value)
            && IsExtended(Serialize(m) + extra)
  {
    hide EncodeHead, EncodeTail, ReadExtendedHead, ReadTail;
    var raw := Serialize(m) + extra;
    var tail := EncodeTail(m.metadata, m.payload);
    var rest := [m.metalen] + tail;
    var body := EncodeEnvelope(m.header.timestamp, m.envelope, rest);
    assert raw[2..] == body + extra;
    HeadThen(m.envelope.flags, m.header.timestamp, m.envelope, rest, extra);
    Assoc([m.metalen], tail, extra);
    ReadExtendedHeadInverts(m.envelope.flags, m.header.timestamp, m.envelope, m.metalen, tail + extra);
    ReadTailInverts(m.metadata, m.payload, extra);
  }

  lemma {:induction false} ItemsSizeBound(items: seq<Bytes>)
    requires forall i :: 0 <= i < |items| ==> |items[i]| < U16_LIMIT
    ensures ItemsSize(items) <= |items| * (U16_LIMIT + 1)
  {
    if items != [] {
      ItemsSizeBound(items[1..]);
    }
  }

  /** Decoding an encoding followed by anything gives the message back, in either format. */
  lemma RoundTrip(m: Message, extra: Bytes)
    requires m.Sized() && m.Encodable()
    ensures var r := Deserialize(Serialize(m) + extra);
            && r.Ok? && m.SameContent(r.value)
            && IsExtended(Serialize(m) + extra) == m.UsesExtended()
            && (!m.UsesExtended() ==> r.value.header.length == |Serialize(m)|)
  {
    if m.UsesExtended() {
      RoundTripExtended(m, extra);
    } else {
      RoundTripShort(m, extra);
    }
  }

  // --- Each encoder inverts its reader ---

  lemma ReadU32Canonical(b: Bytes, e: CodecError)
    requires ReadU32(b, e).Got?
    ensures b == EncodeU32(ReadU32(b, e).value) + ReadU32(b, e).rest
  {
    U32Canonical(b[..4]);
  }

  lemma ReadU64Canonical(b: Bytes, e: CodecError)
    requires ReadU64(b, e).Got?
    ensures b == EncodeU64(ReadU64(b, e).value) + ReadU64(b, e).rest
  {
    U64Canonical(b[..8]);
  }

  lemma ReadNameCanonical(b: Bytes, e: CodecError, f: CodecError)
    requires ReadName(b, e, f).Got?
    ensures b == EncodeName(ReadName(b, e, f).value) + ReadName(b, e, f).rest
    ensures |ReadName(b, e, f).value| <= 255
  {
  }

  lemma ReadItemCanonical(b: Bytes)
    requires ReadItem(b).Got?
    ensures b == EncodeItem(ReadItem(b).value) + ReadItem(b).rest
    ensures |ReadItem(b).value| < U16_LIMIT
  {
    U16Canonical(b[..2]);
  }

  lemma {:induction false} ReadItemsCanonical(b: Bytes, n: nat)
    requires ReadItems(b, n).Got?
    ensures var items := ReadItems(b, n).value;
            && |items| == n
            && (forall i :: 0 <= i < n ==> |items[i]| < U16_LIMIT)
            && b == EncodeItems(items) + ReadItems(b, n).rest
  {
    if n > 0 {
      ReadItemCanonical(b);
      var rest := ReadItem(b).rest;
      ReadItemsCanonical(rest, n - 1);
      var items, rest' := ReadItems(rest, n - 1).value, ReadItems(rest, n - 1).rest;
      assert ([ReadItem(b).value] + items)[1..] == items;
      Assoc(EncodeItem(ReadItem(b).value), EncodeItems(items), rest');
    }
  }

  lemma ReadTailCanonical(b: Bytes, count: nat)
    requires ReadTail(b, count).Got?
    ensures var (items, payload) := ReadTail(b, count).value;
            && |items| == count
            && (forall i :: 0 <= i < count ==> |items[i]| < U16_LIMIT)
            && |payload| < U32_LIMIT
            && b == EncodeTail(items, payload) + ReadTail(b, count).rest
  {
    ReadItemsCanonical(b, count);
    var items, rest := ReadItems(b, count).value, ReadItems(b, count).rest;
    ReadU32Canonical(rest, PayloadLengthMissing);
    var payload, rest' := ReadPayload(rest).value, ReadPayload(rest).rest;
    assert rest == EncodeU32(|payload|) + payload + rest';
    Assoc(EncodeItems(items), EncodeU32(|payload|) + payload, rest');
  }

  /** The head as read writes back to the bytes it was read from. */
  lemma ReadExtendedHeadCanonical(b: Bytes)
    requires ReadExtendedHead(b).Got?
    ensures var head, rest := ReadExtendedHead(b).value, ReadExtendedHead(b).rest;
            && |head.envelope.sender| <= 255 && |head.envelope.recipient| <= 255
            && |b| >= 27 + |rest|
            && |b| >= 4 && b[..4] == EncodeU32(head.firstFlags)
            && b == EncodeHead(head.firstFlags, head.timestamp, head.envelope, [head.count] + rest)
  {
    hide ReadU32, ReadU64, ReadName, EncodeU32, EncodeU64, EncodeName;
    ReadU32Canonical(b, FlagsMissing);
    var b1 := ReadU32(b, FlagsMissing).rest;
    ReadU64Canonical(b1, TimestampMissing);
    var b2 := ReadU64(b1, TimestampMissing).rest;
    ReadNameCanonical(b2, SenderLengthMissing, SenderOutOfBounds);
    var b3 := ReadName(b2, SenderLengthMissing, SenderOutOfBounds).rest;
    ReadNameCanonical(b3, RecipientLengthMissing, RecipientOutOfBounds);
    var b4 := ReadName(b3, RecipientLengthMissing, RecipientOutOfBounds).rest;
    ReadU64Canonical(b4, SequenceMissing);
    var b5 := ReadU64(b4, SequenceMissing).rest;
    ReadU32Canonical(b5, EnvelopeFlagsMissing);
    var b6 := ReadU32(b5, EnvelopeFlagsMissing).rest;
    assert b6 == b6[..1] + b6[1..];
  }

  /** Whatever `Deserialize` accepts has a sized, bounded message inside; the bounds are those of the fields. */
  lemma DecodedIsBounded(raw: Bytes)
    requires Deserialize(raw).Ok?
    ensures var m := Deserialize(raw).value;
            && m.metalen == |m.metadata|
            && (forall i :: 0 <= i < |m.metadata| ==> |m.metadata[i]| < U16_LIMIT)
            && 1 <= m.header.version <= 127
            && |m.envelope.sender| <= 255 && |m.envelope.recipient| <= 255
            && |m.payload| < U32_LIMIT
            && (IsExtended(raw) ==> |raw| >= 27 + WireSize(m.metadata, m.payload))
            && (!IsExtended(raw) ==> |m.metadata| <= 127 && !m.UsesExtended() && m.Sized())
  {
    if IsExtended(raw) {
      ReadExtendedHeadCanonical(raw[2..]);
      var head := ReadExtendedHead(raw[2..]);
      ReadTailCanonical(head.rest, head.value.count);
      ItemsEncodedSize(ReadTail(head.rest, head.value.count).value.0);
    } else {
      ReadTailCanonical(raw[2..], raw[1]);
    }
  }

  /** The length that construction and the setters keep is the number of bytes the short format takes. */
  lemma LengthIsEncodedLength(m: Message)
    requires !m.UsesExtended() && m.header.length == WireSize(m.metadata, m.payload)
    ensures m.header.length == |Serialize(m)|
  {
    EncodeTailSize(m.metadata, m.payload);
  }

  /** A message survives the wire exactly when it respects the field widths of the format it goes out in. */
  lemma RoundTripIffEncodable(m: Message)
    requires m.Sized()
    ensures (Deserialize(Serialize(m)).Ok? && m.SameContent(Deserialize(Serialize(m)).value)) <==> m.Encodable()
  {
    var raw := Serialize(m);
    if m.Encodable() {
      RoundTrip(m, []);
      assert raw + [] == raw;
    } else if Deserialize(raw).Ok? && m.SameContent(Deserialize(raw).value) {
      DecodedIsBounded(raw);
      assert !m.UsesExtended() && |m.metadata| > 127;
      ItemsEncodedSize(m.metadata);
      assert false;
    }
  }

  /** 128 empty metadata items pass every check on the way out and do not come back. */
  lemma ManyItemsDoNotSurvive(kind: byte)
    ensures var m := Message(Header(kind, 262, 0, 0, PROTOCOL_VERSION), 128, EMPTY_ENVELOPE, seq(128, _ => []), []);
            && Resized(m) == Ok(m) && m.Sized()
            && !(Deserialize(Serialize(m)).Ok? && m.SameContent(Deserialize(Serialize(m)).value))
  {
    var m := Message(Header(kind, 262, 0, 0, PROTOCOL_VERSION), 128, EMPTY_ENVELOPE, seq(128, _ => []), []);
    EmptyItemsSize(m.metadata);
    RoundTripIffEncodable(m);
  }

  lemma {:induction false} EmptyItemsSize(items: seq<Bytes>)
    requires forall i :: 0 <= i < |items| ==> items[i] == []
    ensures ItemsSize(items) == 2 * |items|
  {
    if items != [] {
      EmptyItemsSize(items[1..]);
    }
  }

  /** What re-encodes to the bytes it was read from: every short encoding, and an extended one whose two flag
      fields agree and whose content still needs the extended format. */
  predicate Canonical(raw: Bytes, m: Message)
    requires |raw| >= 6
  {
    IsExtended(raw) ==> m.UsesExtended() && raw[2..6] == EncodeU32(m.envelope.flags)
  }

  /** What the decoder left unread. */
  function Unread(raw: Bytes): Bytes
    requires Deserialize(raw).Ok?
  {
    if IsExtended(raw) then
      var head := ReadExtendedHead(raw[2..]);
      ReadTail(head.rest, head.value.count).rest
    else ReadTail(raw[2..], raw[1]).rest
  }

  /** For every input that decodes: re-encoding gives back exactly the bytes that were read if and only if those were
      canonical. When the decoded message can be encoded at all, nothing else re-encodes to a prefix of the input. */
  lemma ReencodingRestoresIff(raw: Bytes)
    requires Deserialize(raw).Ok?
    ensures var m := Deserialize(raw).value;
            && (raw == Serialize(m) + Unread(raw) <==> Canonical(raw, m))
            && (m.Encodable() ==> (Serialize(m) <= raw <==> Canonical(raw, m)))
            && (!IsExtended(raw) ==> |Serialize(m)| == m.header.length)
  {
    hide Serialize, DeserializeShort, DeserializeExtended, Unread;
    if !IsExtended(raw) {
      ReencodeShort(raw);
    } else if Canonical(raw, Deserialize(raw).value) {
      ReencodeExtended(raw);
    } else {
      ReencodeNotCanonical(raw);
    }
  }

  lemma ReencodeShort(raw: Bytes)
    requires Deserialize(raw).Ok? && !IsExtended(raw)
    ensures var m := Deserialize(raw).value;
            raw == Serialize(m) + Unread(raw) && |Serialize(m)| == m.header.length
  {
    hide ReadTail, EncodeTail;
    var m := Deserialize(raw).value;
    var tail := EncodeTail(m.metadata, m.payload);
    ReadTailCanonical(raw[2..], raw[1]);
    var rest := ReadTail(raw[2..], raw[1]).rest;
    assert raw == [raw[0], raw[1]] + (tail + rest) == Serialize(m) + rest;
    EncodeTailSize(m.metadata, m.payload);
  }

  lemma EncodeTailSize(items: seq<Bytes>, payload: Bytes)
    ensures 2 + |EncodeTail(items, payload)| == WireSize(items, payload)
  {
    ItemsEncodedSize(items);
  }

  lemma ReencodeNotCanonical(raw: Bytes)
    requires Deserialize(raw).Ok? && IsExtended(raw) && !Canonical(raw, Deserialize(raw).value)
    ensures var m := Deserialize(raw).value;
            raw != Serialize(m) + Unread(raw) && (m.Encodable() ==> !(Serialize(m) <= raw))
  {
    var m := Deserialize(raw).value;
    DecodedIsBounded(raw);
    if m.UsesExtended() {
      SerializedFlags(m);
      hide Serialize, DeserializeExtended, EncodeU32;
    } else {
      ShortIsShorter(raw);
      hide EncodeTail, DeserializeExtended;
    }
  }

  /** An extended encoding is longer than the short encoding of the same content. */
  lemma ShortIsShorter(raw: Bytes)
    requires Deserialize(raw).Ok? && IsExtended(raw) && !Deserialize(raw).value.UsesExtended()
    ensures |Serialize(Deserialize(raw).value)| + |Unread(raw)| < |raw|
  {
    hide EncodeTail, ReadExtendedHead, ReadTail;
    var m := Deserialize(raw).value;
    ReadExtendedHeadCanonical(raw[2..]);
    var head, rest := ReadExtendedHead(raw[2..]).value, ReadExtendedHead(raw[2..]).rest;
    ReadTailCanonical(rest, head.count);
    assert |rest| == |EncodeTail(m.metadata, m.payload)| + |Unread(raw)|;
  }

  lemma SerializedFlags(m: Message)
    requires m.UsesExtended()
    ensures |Serialize(m)| >= 6 && Serialize(m)[2..6] == EncodeU32(m.envelope.flags)
  {
    hide EncodeHead;
    var body := EncodeEnvelope(m.header.timestamp, m.envelope, [m.metalen] + EncodeTail(m.metadata, m.payload));
    assert Serialize(m)[2..6] == body[..4];
  }

  lemma ReencodeExtended(raw: Bytes)
    requires Deserialize(raw).Ok? && IsExtended(raw) && Canonical(raw, Deserialize(raw).value)
    ensures raw == Serialize(Deserialize(raw).value) + Unread(raw)
  {
    hide EncodeHead, EncodeTail, ReadExtendedHead, ReadTail, EncodeU32, DecodeU32;
    var m := Deserialize(raw).value;
    var b := raw[2..];
    ReadExtendedHeadCanonical(b);
    var head, rest := ReadExtendedHead(b).value, ReadExtendedHead(b).rest;
    ReadTailCanonical(rest, head.count);
    var tail, rest' := EncodeTail(m.metadata, m.payload), ReadTail(rest, head.count).rest;
    assert raw[2..6] == b[..4];
    U32RoundTrip(head.firstFlags);
    U32RoundTrip(m.envelope.flags);
    Assoc([m.metalen], tail, rest');
    HeadThen(m.envelope.flags, m.header.timestamp, m.envelope, [m.metalen] + tail, rest');
    assert b == EncodeEnvelope(m.header.timestamp, m.envelope, [m.metalen] + tail) + rest';
    assert raw == [raw[0], raw[1]] + b;
    assert raw == Serialize(m) + rest';
  }

  // --- The buffer-building and offset-walking implementations ---

  lemma {:induction false} EncodeItemsSnoc(items: seq<Bytes>, item: Bytes)
    ensures EncodeItems(items + [item]) == EncodeItems(items) + EncodeItem(item)
  {
    if items == [] {
      assert [item][1..] == [];
    } else {
      assert (items + [item])[1..] == items[1..] + [item];
      EncodeItemsSnoc(items[1..], item);
    }
  }

  method AppendItems(prefix: Bytes, items: seq<Bytes>) returns (out: Bytes)
    ensures out == prefix + EncodeItems(items)
  {
    out := prefix;
    for i := 0 to |items|
      invariant out == prefix + EncodeItems(items[..i])
    {
      EncodeItemsSnoc(items[..i], items[i]);
      assert items[..i + 1] == items[..i] + [items[i]];
      out := out + EncodeU16(|items[i]| % U16_LIMIT);
      out := out + items[i];
      U16Truncates(|items[i]|);
    }
    assert items[..|items|] == items;
  }

  lemma U16Truncates(v: nat)
    ensures EncodeU16(v % U16_LIMIT) == EncodeU16(v)
  {
    EncodeU16IgnoresHighPart(v % U16_LIMIT, v / U16_LIMIT);
  }

  method SerializeMessage(m: Message) returns (out: Bytes)
    ensures out == Serialize(m)
  {
    hide EncodeHead, EncodeTail;
    if !m.UsesExtended() {
      out := [m.header.kind, m.metalen];
    } else {
      out := [m.header.kind, EXTENDED_FLAG + m.header.version % 128];
      out := AppendEnvelope(out, m.header.timestamp, m.envelope);
      out := out + [m.metalen];
    }
    ghost var tail := EncodeTail(m.metadata, m.payload);
    out := AppendTail(out, m.metadata, m.payload);
    if m.UsesExtended() {
      EnvelopeAndTail([m.header.kind, EXTENDED_FLAG + m.header.version % 128], m.header.timestamp, m.envelope, [m.metalen], tail);
    }
  }

  method AppendTail(prefix: Bytes, items: seq<Bytes>, payload: Bytes) returns (out: Bytes)
    ensures out == prefix + EncodeTail(items, payload)
  {
    out := AppendItems(prefix, items);
    out := out + EncodeU32(|payload|);
    out := out + payload;
  }

  lemma EnvelopeAndTail(first: Bytes, timestamp: u64, e: Envelope, count: Bytes, tail: Bytes)
    ensures first + EncodeEnvelope(timestamp, e, []) + count + tail
            == first + EncodeEnvelope(timestamp, e, count + tail)
  {
    hide EncodeHead;
    var env := EncodeEnvelope(timestamp, e, []);
    HeadThen(e.flags, timestamp, e, [], count + tail);
    assert [] + (count + tail) == count + tail;
    Assoc(first + env, count, tail);
    Assoc(first, env, count + tail);
  }

  method AppendEnvelope(prefix: Bytes, timestamp: u64, e: Envelope) returns (out: Bytes)
    ensures out == prefix + EncodeEnvelope(timestamp, e, [])
  {
    hide EncodeU32, EncodeU64;
    out := prefix + EncodeU32(e.flags);
    out := out + EncodeU64(timestamp);
    out := out + [|e.sender| % 256];
    out := out + e.sender;
    ghost var half := out;
    assert half == prefix + (EncodeU32(e.flags) + (EncodeU64(timestamp) + EncodeName(e.sender)));
    out := out + [|e.recipient| % 256];
    out := out + e.recipient;
    out := out + EncodeU64(e.sequence);
    out := out + EncodeU32(e.flags);
    ghost var rest := EncodeName(e.recipient) + (EncodeU64(e.sequence) + (EncodeU32(e.flags) + []));
    assert out == half + rest;
    EnvelopeHalves(prefix, timestamp, e, rest);
  }

  lemma EnvelopeHalves(prefix: Bytes, timestamp: u64, e: Envelope, rest: Bytes)
    ensures prefix + (EncodeU32(e.flags) + (EncodeU64(timestamp) + EncodeName(e.sender))) + rest
            == prefix + (EncodeU32(e.flags) + (EncodeU64(timestamp) + (EncodeName(e.sender) + rest)))
  {
    hide EncodeU32, EncodeU64, EncodeName;
    var a, b, c := EncodeU32(e.flags), EncodeU64(timestamp), EncodeName(e.sender);
    Assoc(prefix, a + (b + c), rest);
    Assoc(a, b + c, rest);
    Assoc(b, c, rest);
  }

  lemma TakeAt(raw: Bytes, off: nat, n: nat, e: CodecError)
    requires off <= |raw|
    ensures Take(raw[off..], n, e) == if off + n > |raw| then Bad(e) else Got(raw[off..off + n], raw[off + n..])
  {
    if off + n <= |raw| {
      assert raw[off..][..n] == raw[off..off + n] && raw[off..][n..] == raw[off + n..];
    }
  }

  /** What is left to prove of a metadata loop that has read `done` and stands at `off`. */
  ghost predicate ItemsSoFar(raw: Bytes, start: nat, n: nat, done: seq<Bytes>, off: nat)
    requires start <= |raw| && off <= |raw|
  {
    && |done| <= n
    && ReadItems(raw[start..], n) ==
       match ReadItems(raw[off..], n - |done|) { case Bad(e) => Bad(e) case Got(items, rest) => Got(done + items, rest) }
  }

  method WalkItems(raw: Bytes, start: nat, n: nat) returns (r: Result<seq<Bytes>, CodecError>, off: nat)
    requires start <= |raw|
    ensures off <= |raw|
    ensures match r
            case Err(e) => ReadItems(raw[start..], n) == Bad(e)
            case Ok(items) => ReadItems(raw[start..], n) == Got(items, raw[off..])
  {
    hide Take;
    var items := [];
    off := start;
    assert match ReadItems(raw[start..], n) { case Bad(_) => true case Got(all, _) => [] + all == all };
    for i := 0 to n
      invariant off <= |raw| && |items| == i
      invariant ItemsSoFar(raw, start, n, items, off)
    {
      TakeAt(raw, off, 2, MetadataLengthMissing);
      if off + 2 > |raw| {
        return Err(MetadataLengthMissing), off;
      }
      var len := (raw[off] as int) * 256 + raw[off + 1];
      assert len == DecodeU16(raw[off..off + 2]);
      TakeAt(raw, off + 2, len, MetadataOutOfBounds);
      if off + 2 + len > |raw| {
        return Err(MetadataOutOfBounds), off;
      }
      var item := raw[off + 2..off + 2 + len];
      assert ReadItem(raw[off..]) == Got(item, raw[off + 2 + len..]);
      ItemsStep(raw, start, n, items, off, item, off + 2 + len);
      items := items + [item];
      off := off + 2 + len;
    }
    assert items + [] == items;
    r := Ok(items);
  }

  lemma ItemsStep(raw: Bytes, start: nat, n: nat, done: seq<Bytes>, off: nat, item: Bytes, off': nat)
    requires start <= |raw| && off <= |raw| && off' <= |raw| && |done| < n
    requires ItemsSoFar(raw, start, n, done, off)
    requires ReadItem(raw[off..]) == Got(item, raw[off'..])
    ensures ItemsSoFar(raw, start, n, done + [item], off')
  {
    hide ReadItem;
    var k := n - |done|;
    assert n - |done + [item]| == k - 1;
    match ReadItems(raw[off'..], k - 1)
    case Bad(_) =>
    case Got(items, rest) =>
      assert done + ([item] + items) == done + [item] + items;
  }

  /** Items and payload, from `start` on. */
  method WalkTail(raw: Bytes, start: nat, n: nat) returns (r: Result<(seq<Bytes>, Bytes), CodecError>)
    requires start <= |raw|
    ensures match r
            case Err(e) => ReadTail(raw[start..], n) == Bad(e)
            case Ok(v) => ReadTail(raw[start..], n).Got? && ReadTail(raw[start..], n).value == v
  {
    var items, off := WalkItems(raw, start, n);
    if items.Err? {
      return Err(items.error);
    }
    TakeAt(raw, off, 4, PayloadLengthMissing);
    if off + 4 > |raw| {
      return Err(PayloadLengthMissing);
    }
    var len := DecodeU32(raw[off..off + 4]);
    TakeAt(raw, off + 4, len, PayloadOutOfBounds);
    if off + 4 + len > |raw| {
      return Err(PayloadOutOfBounds);
    }
    r := Ok((items.value, raw[off + 4..off + 4 + len]));
  }

  /** An offset-walking read agrees with its reader. */
  ghost predicate Agrees<T(!new)>(raw: Bytes, p: Parsed<T>, r: Result<T, CodecError>, off: nat)
  {
    off <= |raw| && match r { case Err(e) => p == Bad(e) case Ok(v) => p == Got(v, raw[off..]) }
  }

  method WalkU32(raw: Bytes, start: nat, missing: CodecError) returns (r: Result<u32, CodecError>, off: nat)
    requires start <= |raw|
    ensures Agrees(raw, ReadU32(raw[start..], missing), r, off)
  {
    off := start;
    TakeAt(raw, off, 4, missing);
    if off + 4 > |raw| {
      return Err(missing), off;
    }
    r := Ok(DecodeU32(raw[off..off + 4]));
    off := off + 4;
  }

  method WalkU64(raw: Bytes, start: nat, missing: CodecError) returns (r: Result<u64, CodecError>, off: nat)
    requires start <= |raw|
    ensures Agrees(raw, ReadU64(raw[start..], missing), r, off)
  {
    off := start;
    TakeAt(raw, off, 8, missing);
    if off + 8 > |raw| {
      return Err(missing), off;
    }
    r := Ok(DecodeU64(raw[off..off + 8]));
    off := off + 8;
  }

  method WalkName(raw: Bytes, start: nat, missing: CodecError, short: CodecError)
    returns (r: Result<Bytes, CodecError>, off: nat)
    requires start <= |raw|
    ensures Agrees(raw, ReadName(raw[start..], missing, short), r, off)
  {
    hide Take;
    off := start;
    TakeAt(raw, off, 1, missing);
    if off >= |raw| {
      return Err(missing), off;
    }
    var len := raw[off];
    assert raw[off..off + 1][0] == len;
    off := off + 1;
    TakeAt(raw, off, len, short);
    if off + len > |raw| {
      return Err(short), off;
    }
    r := Ok(raw[off..off + len]);
    off := off + len;
  }

  /** The head of the extended form, from byte 2 on; every index read is in bounds on every input. */
  method WalkExtendedHead(raw: Bytes) returns (r: Result<ExtendedHead, CodecError>, off: nat)
    requires |raw| >= 2
    ensures Agrees(raw, ReadExtendedHead(raw[2..]), r, off)
  {
    hide ReadU32, ReadU64, ReadName;
    var firstFlags, o1 := WalkU32(raw, 2, FlagsMissing);
    if firstFlags.Err? { return Err(firstFlags.error), 2; }
    var timestamp, o2 := WalkU64(raw, o1, TimestampMissing);
    if timestamp.Err? { return Err(timestamp.error), 2; }
    var sender, o3 := WalkName(raw, o2, SenderLengthMissing, SenderOutOfBounds);
    if sender.Err? { return Err(sender.error), 2; }
    var recipient, o4 := WalkName(raw, o3, RecipientLengthMissing, RecipientOutOfBounds);
    if recipient.Err? { return Err(recipient.error), 2; }
    var sequence, o5 := WalkU64(raw, o4, SequenceMissing);
    if sequence.Err? { return Err(sequence.error), 2; }
    var flags, o6 := WalkU32(raw, o5, EnvelopeFlagsMissing);
    if flags.Err? { return Err(flags.error), 2; }
    TakeAt(raw, o6, 1, MetadataCountMissing);
    if o6 >= |raw| { return Err(MetadataCountMissing), 2; }
    off := o6 + 1;
    r := Ok(ExtendedHead(firstFlags.value, timestamp.value,
                         Envelope(sender.value, recipient.value, sequence.value, flags.value), raw[o6]));
  }

  method DeserializeMessage(raw: Bytes) returns (r: Result<Message, CodecError>)
    ensures r == Deserialize(raw)
  {
    if |raw| < 6 {
      return Err(TooShort);
    }
    if raw[1] < EXTENDED_FLAG {
      var tail := WalkTail(raw, 2, raw[1]);
      if tail.Err? {
        return Err(tail.error);
      }
      var (items, payload) := tail.value;
      var size := ComputeSerializedSize(raw[1], items, payload);
      if size.Err? {
        return Err(size.error);
      }
      return Ok(Message(Header(raw[0], size.value, 0, 0, PROTOCOL_VERSION), raw[1], EMPTY_ENVELOPE, items, payload));
    }
    if raw[1] == EXTENDED_FLAG {
      return Err(UnsupportedVersion);
    }
    var head, off := WalkExtendedHead(raw);
    if head.Err? {
      return Err(head.error);
    }
    var tail := WalkTail(raw, off, head.value.count);
    if tail.Err? {
      return Err(tail.error);
    }
    r := Ok(Message(Header(raw[0], (|raw| - 2) % U32_LIMIT, 0, head.value.timestamp, raw[1] - EXTENDED_FLAG),
                    head.value.count, head.value.envelope, tail.value.0, tail.value.1));
  }
}
