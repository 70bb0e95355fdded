/** The ciphertext envelope: iv (12), message counter (8, little-endian, also the associated data), body, tag (16).
    The block cipher itself is a parameter. */
module SealedBox {
  import opened Octets
  import opened Identities

  const IV_LEN := 12
  const COUNTER_LEN := 8
  const TAG_LEN := 16

  /** Authenticated encryption: key, iv, associated data and plaintext to body and tag, and back. */
  datatype Cipher = Cipher(seal: (Bytes, Bytes, Bytes, Bytes) -> (Bytes, Bytes),
                           open: (Bytes, Bytes, Bytes, Bytes, Bytes) -> Option<Bytes>)

  /** What AES-GCM (section 7 of NIST SP 800-38D) promises an honest pair: sizes, and that opening inverts sealing. */
  ghost predicate Correct(c: Cipher) {
    forall key, iv, aad, plaintext ::
      var (body, tag) := c.seal(key, iv, aad, plaintext);
      |tag| == TAG_LEN && |body| == |plaintext| && c.open(key, iv, aad, body, tag) == Some(plaintext)
  }

  datatype BoxError = CiphertextTooShort | CounterMismatch | AuthenticationFailure

  function Sealed(c: Cipher, key: Bytes, iv: Bytes, counter: nat, plaintext: Bytes): Bytes {
    var aad := EncodeU64(counter);
    var (body, tag) := c.seal(key, iv, aad, plaintext);
    iv + aad + body + tag
  }

  function CarriedCounter(input: Bytes): nat
    requires |input| >= IV_LEN + COUNTER_LEN
  {
    DecodeU64(input[IV_LEN..IV_LEN + COUNTER_LEN])
  }

  function Authenticated(c: Cipher, key: Bytes, input: Bytes): Option<Bytes>
    requires |input| >= IV_LEN + COUNTER_LEN + TAG_LEN
  {
    c.open(key, input[..IV_LEN], input[IV_LEN..IV_LEN + COUNTER_LEN],
           input[IV_LEN + COUNTER_LEN..|input| - TAG_LEN], input[|input| - TAG_LEN..])
  }

  function Opened(c: Cipher, key: Bytes, input: Bytes, counter: nat): Result<Bytes, BoxError> {
    if |input| < IV_LEN + COUNTER_LEN + TAG_LEN then Err(CiphertextTooShort)
    else if CarriedCounter(input) != counter then Err(CounterMismatch)
    else match Authenticated(c, key, input)
      case None => Err(AuthenticationFailure)
      case Some(plaintext) => Ok(plaintext)
  }

  method Encrypt(c: Cipher, key: Bytes, plaintext: Bytes, counter: nat, iv: Bytes) returns (result: Bytes)
    ensures result == Sealed(c, key, iv, counter, plaintext)
  {
    var aad := new byte[COUNTER_LEN];
    for i := 0 to COUNTER_LEN
      invariant aad[..i] == EncodeLe(counter, i)
    {
      aad[i] := counter / Pow256(i) % 256;
    }
    assert aad[..] == aad[..COUNTER_LEN] == EncodeU64(counter);
    var (body, tag) := c.seal(key, iv, aad[..], plaintext);
    result := [];
    result := result + iv;
    result := result + aad[..];
    result := result + body;
    result := result + tag;
  }

  method Decrypt(c: Cipher, key: Bytes, input: Bytes, counter: nat) returns (r: Result<Bytes, BoxError>)
    ensures r == Opened(c, key, input, counter)
  {
    if |input| < IV_LEN + COUNTER_LEN + TAG_LEN {
      return Err(CiphertextTooShort);
    }
    var counterBytes := input[IV_LEN..IV_LEN + COUNTER_LEN];
    var received := 0;
    for i := 0 to COUNTER_LEN
      invariant received == DecodeLe(counterBytes[..i])
    {
      assert counterBytes[..i + 1][..i] == counterBytes[..i];
      received := received + (counterBytes[i] as int) * Pow256(i);
    }
    assert counterBytes[..COUNTER_LEN] == counterBytes;
    if received != counter {
      return Err(CounterMismatch);
    }
    var plaintext := Authenticated(c, key, input);
    if plaintext.None? {
      return Err(AuthenticationFailure);
    }
    return Ok(plaintext.value);
  }

  lemma SealedParts(c: Cipher, key: Bytes, iv: Bytes, counter: nat, plaintext: Bytes)
    requires Correct(c) && |iv| == IV_LEN && counter < U64_LIMIT
    ensures var input := Sealed(c, key, iv, counter, plaintext);
            && |input| == IV_LEN + COUNTER_LEN + |plaintext| + TAG_LEN
            && CarriedCounter(input) == counter
            && Authenticated(c, key, input) == Some(plaintext)
  {
    hide EncodeU64, DecodeU64;
    var aad := EncodeU64(counter);
    var (body, tag) := c.seal(key, iv, aad, plaintext);
    var input := Sealed(c, key, iv, counter, plaintext);
    assert input[..IV_LEN] == iv;
    assert input[IV_LEN..IV_LEN + COUNTER_LEN] == aad;
    assert input[IV_LEN + COUNTER_LEN..|input| - TAG_LEN] == body;
    assert input[|input| - TAG_LEN..] == tag;
    U64RoundTrip(counter);
  }

  /** A sealed message opens to its plaintext exactly for the counter it was sealed with. */
  lemma OpensIffCounterMatches(c: Cipher, key: Bytes, iv: Bytes, counter: nat, plaintext: Bytes, expected: nat)
    requires Correct(c) && |iv| == IV_LEN && counter < U64_LIMIT
    ensures Opened(c, key, Sealed(c, key, iv, counter, plaintext), expected)
            == if counter == expected then Ok(plaintext) else Err(CounterMismatch)
  {
    SealedParts(c, key, iv, counter, plaintext);
  }

  /** What AES-GCM promises of associated data: a sealed body does not open under other associated data. */
  ghost predicate Binding(c: Cipher) {
    forall key, iv, aad, other, plaintext {:trigger c.seal(key, iv, aad, plaintext), EncodeU64(other)} ::
      EncodeU64(other) != aad ==>
        var (body, tag) := c.seal(key, iv, aad, plaintext);
        c.open(key, iv, EncodeU64(other), body, tag) == None
  }

  /** The counter is the associated data: writing another counter into a sealed message does not make it open there. */
  lemma CounterIsAuthenticated(c: Cipher, key: Bytes, iv: Bytes, counter: nat, plaintext: Bytes, other: nat)
    requires Correct(c) && Binding(c) && |iv| == IV_LEN && counter < U64_LIMIT && other < U64_LIMIT && other != counter
    ensures var input := Sealed(c, key, iv, counter, plaintext);
            |input| >= 20 && Opened(c, key, input[..12] + EncodeU64(other) + input[20..], other) == Err(AuthenticationFailure)
  {
    hide EncodeU64, DecodeU64;
    var aad := EncodeU64(counter);
    var (body, tag) := c.seal(key, iv, aad, plaintext);
    var input := Sealed(c, key, iv, counter, plaintext);
    assert input[..12] == iv && input[20..] == body + tag;
    var changed := iv + EncodeU64(other) + (body + tag);
    assert changed[..IV_LEN] == iv && changed[IV_LEN..IV_LEN + COUNTER_LEN] == EncodeU64(other);
    assert changed[IV_LEN + COUNTER_LEN..|changed| - TAG_LEN] == body && changed[|changed| - TAG_LEN..] == tag;
    U64RoundTrip(counter);
    U64RoundTrip(other);
  }

  // --- Keys ---

  /** Lexicographic order on byte vectors. */
  predicate Less(a: Bytes, b: Bytes) {
    b != [] && (a == [] || a[0] < b[0] || (a[0] == b[0] && Less(a[1..], b[1..])))
  }

  function Salt(sender: Bytes, receiver: Bytes): Bytes {
    if Less(sender, receiver) then sender + receiver else receiver + sender
  }

  lemma {:induction false} LessIsTotal(a: Bytes, b: Bytes)
    ensures Less(a, b) || Less(b, a) || a == b
    ensures !(Less(a, b) && Less(b, a))
  {
    if a != [] && b != [] && a[0] == b[0] {
      LessIsTotal(a[1..], b[1..]);
      assert a == [a[0]] + a[1..] && b == [b[0]] + b[1..];
    }
  }

  /** Both directions of a conversation derive their key with one salt. */
  lemma SaltIsSymmetric(a: Bytes, b: Bytes)
    ensures Salt(a, b) == Salt(b, a)
  {
    LessIsTotal(a, b);
  }

  /** The names are concatenated without a separator, so different pairs of names can share a salt. */
  lemma SaltIsAmbiguous()
    ensures Salt([97, 98], [97, 98, 97]) == Salt([98, 97], [97, 98, 97])
    ensures !SaltDetermines([97, 98], [97, 98, 97])
  {
    var ab, ba, aba: Bytes := [97, 98], [98, 97], [97, 98, 97];
    assert ab[1..] == [98] && aba[1..] == [98, 97] && [98][1..] == [] && [98, 97][1..] == [97];
    assert Less(ab, aba) && !Less(ba, aba);
    assert ab + aba == aba + ba;
    assert Salt(ba, aba) == Salt(ab, aba);
  }

  /** No other two names have this salt. */
  ghost predicate SaltDetermines(a: Bytes, b: Bytes) {
    forall c, d :: Salt(c, d) == Salt(a, b) ==> (c == a && d == b) || (c == b && d == a)
  }

  /** The salt can be cut into a part and a part not before it at one place only. */
  predicate CutsOnce(a: Bytes, b: Bytes) {
    var s, first := Salt(a, b), if Less(a, b) then |a| else |b|;
    forall k :: 0 <= k <= |s| && !Less(s[k..], s[..k]) ==> k == first
  }

  lemma CutIsSalt(s: Bytes, k: nat)
    requires k <= |s| && !Less(s[k..], s[..k])
    ensures Salt(s[..k], s[k..]) == s
  {
    LessIsTotal(s[..k], s[k..]);
    assert s[..k] + s[k..] == s;
  }

  lemma SaltIsCut(c: Bytes, d: Bytes) returns (k: nat)
    ensures var s := Salt(c, d);
            k <= |s| && !Less(s[k..], s[..k]) && ((c == s[..k] && d == s[k..]) || (d == s[..k] && c == s[k..]))
    ensures k == if Less(c, d) then |c| else |d|
  {
    LessIsTotal(c, d);
    k := if Less(c, d) then |c| else |d|;
    var s := Salt(c, d);
    assert s[..k] == (if Less(c, d) then c else d) && s[k..] == (if Less(c, d) then d else c);
  }

  lemma OneCutDetermines(a: Bytes, b: Bytes)
    requires CutsOnce(a, b)
    ensures SaltDetermines(a, b)
  {
    var s := Salt(a, b);
    var first := SaltIsCut(a, b);
    hide Less, Salt;
    forall c, d | Salt(c, d) == s
      ensures (c == a && d == b) || (c == b && d == a)
    {
      var k := SaltIsCut(c, d);
    }
  }

  lemma DeterminedCutsOnce(a: Bytes, b: Bytes)
    requires SaltDetermines(a, b)
    ensures CutsOnce(a, b)
  {
    var s := Salt(a, b);
    var first := SaltIsCut(a, b);
    hide Less, Salt;
    forall k | 0 <= k <= |s| && !Less(s[k..], s[..k])
      ensures k == first
    {
      CutIsSalt(s, k);
      OrderedPairIsOne(s[..k], s[k..], s[..first], s[first..]);
      assert |s[..k]| == |s[..first]|;
    }
  }

  /** A salt determines its two names exactly when it can be cut at one place only. */
  lemma SaltDeterminesIff(a: Bytes, b: Bytes)
    ensures SaltDetermines(a, b) <==> CutsOnce(a, b)
  {
    hide SaltDetermines, CutsOnce;
    if CutsOnce(a, b) {
      OneCutDetermines(a, b);
    }
    if SaltDetermines(a, b) {
      DeterminedCutsOnce(a, b);
    }
  }

  lemma OrderedPairIsOne(p: Bytes, q: Bytes, u: Bytes, v: Bytes)
    requires !Less(q, p) && !Less(v, u) && ((p == u && q == v) || (p == v && q == u))
    ensures p == u && q == v
  {
    LessIsTotal(p, q);
  }

  /** Next to the name `a`, the salt leaves `b` as the only other name: the rest after `a` in front, and the rest before
      `a` at the back, are `b` unless they would be ordered the other way round. */
  predicate FixesPeer(a: Bytes, b: Bytes) {
    var s := Salt(a, b);
    (Salt(a, s[|a|..]) == s ==> s[|a|..] == b) && (Salt(a, s[..|b|]) == s ==> s[..|b|] == b)
  }

  lemma FixesPeerIff(a: Bytes, b: Bytes)
    ensures FixesPeer(a, b) <==> forall z :: Salt(a, z) == Salt(a, b) ==> z == b
  {
    if FixesPeer(a, b) {
      var s := Salt(a, b);
      forall z | Salt(a, z) == s
        ensures z == b
      {
        assert |z| == |b|;
        assert (a + z)[|a|..] == z && (z + a)[..|z|] == z;
      }
    }
  }

  lemma DeterminedPairIsFixed(a: Bytes, b: Bytes)
    requires SaltDetermines(a, b)
    ensures FixesPeer(a, b) && FixesPeer(b, a)
  {
    SaltIsSymmetric(a, b);
    forall z
      ensures Salt(a, z) == Salt(a, b) ==> z == b
      ensures Salt(b, z) == Salt(b, a) ==> z == a
    {
    }
    FixesPeerIff(a, b);
    FixesPeerIff(b, a);
  }

  /** Key agreement on public keys and derivation from the agreed secret, as parameters. */
  datatype KeySchedule = KeySchedule(secret: (Bytes, Bytes) -> Bytes, derive: (Bytes, Bytes) -> Bytes)

  /** The key between the holders of two public keys, for a message labelled with two names. */
  function MessageKey(k: KeySchedule, mine: Bytes, theirs: Bytes, sender: Name, receiver: Name): Bytes {
    k.derive(k.secret(mine, theirs), Salt(sender, receiver))
  }

  /** X25519 agrees in both directions; different pairs of public keys or different salts give different keys. */
  ghost predicate Sound(k: KeySchedule) {
    && (forall a, b :: k.secret(a, b) == k.secret(b, a))
    && (forall a, b, s, c, d, t {:trigger k.derive(k.secret(a, b), s), k.derive(k.secret(c, d), t)} ::
          k.derive(k.secret(a, b), s) == k.derive(k.secret(c, d), t) ==>
            s == t && ((a == c && b == d) || (a == d && b == c)))
  }

  /** One key serves both directions between two clients. */
  lemma DirectionsShareKey(k: KeySchedule, mine: Bytes, theirs: Bytes, me: Name, them: Name)
    requires Sound(k)
    ensures MessageKey(k, mine, theirs, me, them) == MessageKey(k, theirs, mine, them, me)
  {
    SaltIsSymmetric(me, them);
  }
}
