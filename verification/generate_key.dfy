/** The operator key generator (db/encrypt/generate-key/generate_key.go):
    32 random bytes, clamped as an X25519 scalar (section 5 of RFC 7748), the
    seed shown as hex and its public key derived. X25519 itself and the file
    write are not modelled; the scalar multiplication is a parameter. */
module GenerateKey {
  import opened Base
  import opened Strings
  import opened Nacl

  /** Go bytes are uint8; bitwise operators act on `bv8`. */
  type Octet = bv8

  /** Numeric value of a byte string, for the hex rendering. */
  function Bytes(k: seq<Octet>): (r: seq<byte>)
    ensures |r| == |k|
    ensures forall i :: 0 <= i < |k| ==> r[i] == k[i] as int
  {
    seq(|k|, i requires 0 <= i < |k| => k[i] as int)
  }

  /** The clamped scalar: byte 0 loses its three low bits; byte 31 loses
      bit 7 and gains bit 6; bytes 1..30 stay as they were. */
  function Clamped(k: seq<Octet>): (c: seq<Octet>)
    requires |k| == 32
    ensures |c| == 32
    ensures c[0] & 7 == 0 && c[0] | 7 == k[0] | 7
    ensures c[31] & 0x80 == 0 && c[31] & 0x40 == 0x40 && c[31] & 0x3f == k[31] & 0x3f
    ensures c[1..31] == k[1..31]
  {
    k[0 := k[0] & 248][31 := (k[31] & 127) | 64]
  }

  /** Clamping a clamped scalar changes nothing. */
  lemma ClampIdempotent(k: seq<Octet>)
    requires |k| == 32
    ensures Clamped(Clamped(k)) == Clamped(k)
  {
  }

  /** The in-place clamp of the private-key buffer, one operator at a time. */
  method Clamp(privateKey: array<Octet>)
    requires privateKey.Length == 32
    modifies privateKey
    ensures privateKey[..] == Clamped(old(privateKey[..]))
  {
    privateKey[0] := privateKey[0] & 248;
    privateKey[31] := privateKey[31] & 127;
    privateKey[31] := privateKey[31] | 64;
  }

  datatype KeyPair = KeyPair(seedHex: string, publicKey: Key)

  /** `main` up to the file write: the random bytes (None when the random
      source fails) are copied into a buffer and clamped in place; the seed
      shown is the hex of the clamped buffer; the public key is its X25519
      product with the base point (None when X25519 reports an error). */
  method Generate(random: Option<seq<Octet>>, x25519: Key -> Option<Key>) returns (r: Result<KeyPair>)
    requires random.Some? ==> |random.value| == 32
    ensures r.Ok? <==> random.Some? && x25519(Bytes(Clamped(random.value))).Some?
    ensures r.Ok? ==> r.value.seedHex == HexBytes(Bytes(Clamped(random.value)))
                      && r.value.publicKey == x25519(Bytes(Clamped(random.value))).value
    ensures r.Ok? ==> |r.value.seedHex| == 64 && IsLowerHex(r.value.seedHex)
  {
    if random.None? {
      return Err("Failed to generate random private key");
    }
    var privateKey := new Octet[32](i requires 0 <= i < 32 => random.value[i]);
    assert privateKey[..] == random.value;
    Clamp(privateKey);
    var seedHex := HexBytes(Bytes(privateKey[..]));
    var publicKey := x25519(Bytes(privateKey[..]));
    if publicKey.None? {
      return Err("Failed to derive public key");
    }
    return Ok(KeyPair(seedHex, publicKey.value));
  }

  /** The seed shown to the operator decodes back to the clamped key. */
  lemma SeedHexDecodes(random: seq<Octet>)
    requires |random| == 32
    ensures HexDecode(HexBytes(Bytes(Clamped(random)))) == Some(Bytes(Clamped(random)))
  {
    HexBytesRoundTrip(Bytes(Clamped(random)));
  }
}
