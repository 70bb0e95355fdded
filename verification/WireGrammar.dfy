/** The wire formats spelled out byte by byte, next to none of the encoders: exactly these byte strings decode, exactly
    to these messages, and these are what the encoders write. */
module WireGrammar {
  import opened Octets
  import opened Codec
  import Framing
  import SealedBox

  /** Most significant byte first. */
  function Be32(v: nat): Bytes {
    [v / 0x100_0000 % 256, v / 0x1_0000 % 256, v / 0x100 % 256, v % 256]
  }

  /** Least significant byte first. */
  function Le64(v: nat): Bytes {
    [v % 256, v / 0x100 % 256, v / 0x1_0000 % 256, v / 0x100_0000 % 256, v / 0x1_0000_0000 % 256,
     v / 0x100_0000_0000 % 256, v / 0x1_0000_0000_0000 % 256, v / 0x100_0000_0000_0000 % 256]
  }

  /** Each item behind its length in two bytes, most significant first. */
  function ItemBytes(items: seq<Bytes>): Bytes {
    if items == [] then [] else
    var last := items[|items| - 1];
    ItemBytes(items[..|items| - 1]) + [|last| / 256 % 256, |last| % 256] + last
  }

  function ShortBytes(m: Message): Bytes {
    [m.header.kind, m.metalen] + ItemBytes(m.metadata) + Be32(|m.payload|) + m.payload
  }

  function ExtendedBytes(m: Message, firstFlags: nat): Bytes {
    [m.header.kind, 128 + m.header.version % 128]
    + Be32(firstFlags) + Le64(m.header.timestamp)
    + [|m.envelope.sender| % 256] + m.envelope.sender + [|m.envelope.recipient| % 256] + m.envelope.recipient
    + Le64(m.envelope.sequence) + Be32(m.envelope.flags)
    + [m.metalen] + ItemBytes(m.metadata) + Be32(|m.payload|) + m.payload
  }

  // --- The encoders write these bytes ---

  lemma U32Bytes(v: nat)
    ensures EncodeU32(v) == Be32(v)
  {
    assert v / U16_LIMIT / 256 == v / 0x100_0000;
  }

  lemma {:induction false} LeDigit(v: nat, n: nat, i: nat)
    requires i < n
    ensures EncodeLe(v, n)[i] == v / Pow256(i) % 256
  {
    if i < n - 1 {
      LeDigit(v, n - 1, i);
    }
  }

  lemma U64Bytes(v: nat)
    ensures EncodeU64(v) == Le64(v)
  {
    Powers();
    forall i | 0 <= i < 8
      ensures EncodeLe(v, 8)[i] == v / Pow256(i) % 256
    {
      LeDigit(v, 8, i);
    }
    hide EncodeLe, Pow256;
    assert EncodeLe(v, 8)[0] == v / 1 % 256 && EncodeLe(v, 8)[1] == v / 0x100 % 256;
  }

  lemma Powers()
    ensures Pow256(0) == 1 && Pow256(1) == 0x100 && Pow256(2) == 0x1_0000 && Pow256(3) == 0x100_0000
    ensures Pow256(4) == 0x1_0000_0000 && Pow256(5) == 0x100_0000_0000 && Pow256(6) == 0x1_0000_0000_0000
    ensures Pow256(7) == 0x100_0000_0000_0000
  {
    assert Pow256(3) == 256 * Pow256(2);
    assert Pow256(5) == 256 * Pow256(4);
    assert Pow256(7) == 256 * Pow256(6);
  }

  lemma {:induction false} ItemsBytes(items: seq<Bytes>)
    ensures EncodeItems(items) == ItemBytes(items)
  {
    if items != [] {
      var n := |items| - 1;
      ItemsBytes(items[..n]);
      assert items == items[..n] + [items[n]];
      EncodeItemsSnoc(items[..n], items[n]);
      var front, last := ItemBytes(items[..n]), items[n];
      assert front + [|last| / 256 % 256, |last| % 256] + last == front + ([|last| / 256 % 256, |last| % 256] + last);
    }
  }

  lemma TailBytes(items: seq<Bytes>, payload: Bytes)
    ensures EncodeTail(items, payload) == ItemBytes(items) + Be32(|payload|) + payload
  {
    ItemsBytes(items);
    U32Bytes(|payload|);
    hide EncodeU32, Be32, ItemBytes, EncodeItems;
    assert ItemBytes(items) + (Be32(|payload|) + payload) == ItemBytes(items) + Be32(|payload|) + payload;
  }

  lemma HeadBytes(m: Message, firstFlags: u32)
    ensures [m.header.kind, 128 + m.header.version % 128]
            + EncodeHead(firstFlags, m.header.timestamp, m.envelope, [m.metalen] + EncodeTail(m.metadata, m.payload))
            == ExtendedBytes(m, firstFlags)
  {
    var e := m.envelope;
    U32Bytes(firstFlags);
    U32Bytes(e.flags);
    U64Bytes(m.header.timestamp);
    U64Bytes(e.sequence);
    TailBytes(m.metadata, m.payload);
    hide EncodeU32, EncodeU64, Be32, Le64, ItemBytes, EncodeTail;
    var sender, recipient := [|e.sender| % 256] + e.sender, [|e.recipient| % 256] + e.recipient;
    var tail := ItemBytes(m.metadata) + Be32(|m.payload|) + m.payload;
    Flatten([m.header.kind, 128 + m.header.version % 128], Be32(firstFlags), Le64(m.header.timestamp), sender, recipient,
            Le64(e.sequence), Be32(e.flags), [m.metalen] + tail);
    FlattenEnds([m.header.kind, 128 + m.header.version % 128] + Be32(firstFlags) + Le64(m.header.timestamp),
                [|e.sender| % 256], e.sender, [|e.recipient| % 256], e.recipient, Le64(e.sequence), Be32(e.flags),
                [m.metalen], ItemBytes(m.metadata), Be32(|m.payload|), m.payload);
  }

  lemma Flatten(a: Bytes, b: Bytes, c: Bytes, d: Bytes, e: Bytes, f: Bytes, g: Bytes, h: Bytes)
    ensures a + (b + (c + (d + (e + (f + (g + h)))))) == a + b + c + d + e + f + g + h
  {
    Assoc(a, b, c + (d + (e + (f + (g + h)))));
    Assoc(a + b, c, d + (e + (f + (g + h))));
    Assoc(a + b + c, d, e + (f + (g + h)));
    Assoc(a + b + c + d, e, f + (g + h));
    Assoc(a + b + c + d + e, f, g + h);
    Assoc(a + b + c + d + e + f, g, h);
  }

  lemma FlattenEnds(a: Bytes, b: Bytes, c: Bytes, d: Bytes, e: Bytes, f: Bytes, g: Bytes, h: Bytes, i: Bytes, j: Bytes, k: Bytes)
    ensures a + (b + c) + (d + e) + f + g + (h + (i + j + k)) == a + b + c + d + e + f + g + h + i + j + k
  {
    Assoc(a, b, c);
    Assoc(a + b + c, d, e);
    var front := a + b + c + d + e + f + g;
    Assoc(front, h, i + j + k);
    Assoc(front + h, i + j, k);
    Assoc(front + h, i, j);
  }

  lemma ShortFormBytes(m: Message)
    ensures [m.header.kind, m.metalen] + EncodeTail(m.metadata, m.payload) == ShortBytes(m)
  {
    TailBytes(m.metadata, m.payload);
    hide EncodeTail, ItemBytes, Be32;
  }

  /** Every message is written in one of the two forms. */
  lemma SerializedBytes(m: Message)
    ensures Serialize(m) == if m.UsesExtended() then ExtendedBytes(m, m.envelope.flags) else ShortBytes(m)
  {
    ShortFormBytes(m);
    HeadBytes(m, m.envelope.flags);
    hide EncodeHead, EncodeTail, ShortBytes, ExtendedBytes;
  }

  // --- Exactly these bytes decode ---

  predicate FieldsFit(m: Message) {
    m.metalen == |m.metadata| && |m.payload| < U32_LIMIT && forall i :: 0 <= i < |m.metadata| ==> |m.metadata[i]| < U16_LIMIT
  }

  /** At most 127 items, no envelope, and the length of the encoding in the header. */
  ghost predicate IsShort(raw: Bytes, m: Message) {
    && FieldsFit(m) && |m.metadata| <= 127 && m.envelope == EMPTY_ENVELOPE && WireSize(m.metadata, m.payload) < U32_LIMIT
    && m.header == Header(m.header.kind, WireSize(m.metadata, m.payload), 0, 0, 1)
    && exists rest :: raw == ShortBytes(m) + rest
  }

  /** A version, names of one-byte lengths, any flags in front, and the length of the rest of the input in the header. */
  ghost predicate IsLong(raw: Bytes, m: Message) {
    && FieldsFit(m) && 1 <= m.header.version <= 127 && |m.envelope.sender| <= 255 && |m.envelope.recipient| <= 255
    && |raw| >= 2 && m.header.length == (|raw| - 2) % U32_LIMIT && m.header.checksum == 0
    && exists firstFlags: u32, rest :: raw == ExtendedBytes(m, firstFlags) + rest
  }

  /** For every byte string and every message: the one decodes to the other exactly when it is one of the two forms of
      it, with anything behind. */
  lemma DecodesIff(raw: Bytes, m: Message)
    ensures Deserialize(raw) == Ok(m) <==> IsShort(raw, m) || IsLong(raw, m)
  {
    hide Deserialize, IsShort, IsLong;
    if Deserialize(raw) == Ok(m) {
      DecodedHasForm(raw);
    }
    if IsShort(raw, m) {
      ShortDecodes(raw, m);
    }
    if IsLong(raw, m) {
      LongDecodes(raw, m);
    }
  }

  lemma DecodedHasForm(raw: Bytes)
    requires Deserialize(raw).Ok?
    ensures IsShort(raw, Deserialize(raw).value) || IsLong(raw, Deserialize(raw).value)
  {
    DecodedIsBounded(raw);
    var m := Deserialize(raw).value;
    if IsExtended(raw) {
      LongIsRead(raw);
    } else {
      ReencodeShort(raw);
      SerializedBytes(m);
      hide Serialize, ShortBytes, ReadTail;
      assert raw == ShortBytes(m) + Unread(raw);
    }
  }

  lemma LongIsRead(raw: Bytes)
    requires Deserialize(raw).Ok? && IsExtended(raw)
    ensures IsLong(raw, Deserialize(raw).value)
  {
    hide Deserialize, EncodeHead, EncodeTail, ExtendedBytes, WireSize;
    var m := Deserialize(raw).value;
    DecodedIsBounded(raw);
    LongHeader(raw);
    var firstFlags, rest := LongParts(raw);
    HeadBytes(m, firstFlags);
    assert raw == ExtendedBytes(m, firstFlags) + rest;
  }

  lemma LongHeader(raw: Bytes)
    requires Deserialize(raw).Ok? && IsExtended(raw)
    ensures var m := Deserialize(raw).value; m.header.length == (|raw| - 2) % U32_LIMIT && m.header.checksum == 0
  {
    hide ReadExtendedHead, ReadTail;
  }

  lemma LongParts(raw: Bytes) returns (firstFlags: u32, rest: Bytes)
    requires Deserialize(raw).Ok? && IsExtended(raw)
    ensures var m := Deserialize(raw).value;
            raw == [m.header.kind, 128 + m.header.version % 128]
                   + EncodeHead(firstFlags, m.header.timestamp, m.envelope, [m.metalen] + EncodeTail(m.metadata, m.payload))
                   + rest
  {
    hide EncodeHead, EncodeTail, ReadExtendedHead, ReadTail;
    var m, b := Deserialize(raw).value, raw[2..];
    ReadExtendedHeadCanonical(b);
    var head, after := ReadExtendedHead(b).value, ReadExtendedHead(b).rest;
    ReadTailCanonical(after, head.count);
    firstFlags, rest := head.firstFlags, ReadTail(after, head.count).rest;
    var tail := EncodeTail(m.metadata, m.payload);
    Assoc([m.metalen], tail, rest);
    HeadThen(firstFlags, m.header.timestamp, m.envelope, [m.metalen] + tail, rest);
    assert raw == [raw[0], raw[1]] + b;
    Assoc([raw[0], raw[1]], EncodeHead(firstFlags, m.header.timestamp, m.envelope, [m.metalen] + tail), rest);
  }

  lemma ShortDecodes(raw: Bytes, m: Message)
    requires IsShort(raw, m)
    ensures Deserialize(raw) == Ok(m)
  {
    hide ShortBytes, EncodeTail, ReadTail;
    var rest :| raw == ShortBytes(m) + rest;
    ShortFormBytes(m);
    EncodeTailSize(m.metadata, m.payload);
    ReadTailInverts(m.metadata, m.payload, rest);
    assert raw[2..] == EncodeTail(m.metadata, m.payload) + rest;
  }

  lemma LongDecodes(raw: Bytes, m: Message)
    requires IsLong(raw, m)
    ensures Deserialize(raw) == Ok(m)
  {
    hide EncodeHead, EncodeTail, ReadExtendedHead, ReadTail, ExtendedBytes;
    var firstFlags: u32, rest :| raw == ExtendedBytes(m, firstFlags) + rest;
    HeadBytes(m, firstFlags);
    var tail := EncodeTail(m.metadata, m.payload);
    HeadThen(firstFlags, m.header.timestamp, m.envelope, [m.metalen] + tail, rest);
    Assoc([m.metalen], tail, rest);
    ReadExtendedHeadInverts(firstFlags, m.header.timestamp, m.envelope, m.metalen, tail + rest);
    ReadTailInverts(m.metadata, m.payload, rest);
    assert raw[2..] == EncodeHead(firstFlags, m.header.timestamp, m.envelope, [m.metalen] + tail) + rest;
  }

  // --- Frames and sealed messages ---

  /** A frame is its length in four bytes, most significant first, and its content. */
  lemma FrameBytes(data: Bytes)
    ensures Framing.Frame(data) == Be32(|data|) + data
  {
    U32Bytes(|data|);
  }

  /** A sealed message is the iv, the counter least significant byte first, the body and the tag. */
  lemma SealedBytes(c: SealedBox.Cipher, key: Bytes, iv: Bytes, counter: nat, plaintext: Bytes)
    requires SealedBox.Correct(c) && |iv| == 12 && counter < U64_LIMIT
    ensures var (body, tag) := c.seal(key, iv, Le64(counter), plaintext);
            && SealedBox.Sealed(c, key, iv, counter, plaintext) == iv + Le64(counter) + body + tag
            && |body| == |plaintext| && |tag| == 16
  {
    U64Bytes(counter);
    hide Le64, EncodeU64;
  }
}
