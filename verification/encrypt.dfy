/** Nullifier encryption in the database layer (db/encrypt/encrypt.go).
    Nullifiers are stored sealed to an operator public key with a fresh
    ephemeral key pair, framed as ephemeral public key ‖ nonce ‖ box. The
    random source is given as explicit inputs (None when reading it fails);
    the hidden console prompt for the seed is an input as well. */
module Encrypt {
  import opened Base
  import opened Strings
  import opened Nacl

  /** `init`: the operator public key is the first 32 bytes read from the key
      file; a shorter file makes `io.ReadFull` fail and the package panics
      (here an error). Bytes after the 32nd are never read. */
  function LoadPublicKey(file: seq<byte>): (r: Result<Key>)
    ensures r.Ok? <==> |file| >= KeySize
    ensures r.Ok? ==> r.value == file[..KeySize]
  {
    if |file| < KeySize then Err("unexpected EOF")
    else
      var key: Key := file[..KeySize];
      Ok(key)
  }

  /** What `Encrypt` returns, given the ephemeral private key and nonce drawn
      from the random source. */
  function EncryptSpec(box: BoxScheme, recipient: Key, nullifier: seq<byte>,
                       ephemeral: Option<Key>, nonce: Option<BoxNonce>): Result<seq<byte>>
  {
    if ephemeral.None? then Err("key generation failed")
    else if nonce.None? then Err("nonce generation failed")
    else
      Ok(Frame(box.publicKey(ephemeral.value), nonce.value,
               box.seal(nullifier, nonce.value, recipient, ephemeral.value)))
  }

  /** `Encrypt`: seal the nullifier with a fresh key pair and nonce, then
      append public key, nonce and ciphertext to an empty buffer. It fails
      only when the random source fails. */
  method Encrypt(box: BoxScheme, recipient: Key, nullifier: seq<byte>,
                 ephemeral: Option<Key>, nonce: Option<BoxNonce>) returns (r: Result<seq<byte>>)
    ensures r == EncryptSpec(box, recipient, nullifier, ephemeral, nonce)
    ensures r.Ok? <==> ephemeral.Some? && nonce.Some?
    ensures r.Ok? ==> SplitFrame(r.value).Some?
                      && SplitFrame(r.value).value.ephemeralPublic == box.publicKey(ephemeral.value)
                      && SplitFrame(r.value).value.nonce == nonce.value
  {
    if ephemeral.None? {
      return Err("key generation failed");
    }
    if nonce.None? {
      return Err("nonce generation failed");
    }
    var ephemeralPublic := box.publicKey(ephemeral.value);
    var ciphertext := box.seal(nullifier, nonce.value, recipient, ephemeral.value);
    var encrypted: seq<byte> := [];
    encrypted := encrypted + ephemeralPublic;
    encrypted := encrypted + nonce.value;
    encrypted := encrypted + ciphertext;
    assert encrypted == Frame(ephemeralPublic, nonce.value, ciphertext);
    SplitFrameInverts(ephemeralPublic, nonce.value, ciphertext);
    return Ok(encrypted);
  }

  /** With a sound box, an encrypted nullifier is 56 + 16 bytes longer than
      the nullifier. */
  lemma EncryptedLength(box: BoxScheme, recipientPrivate: Key, nullifier: seq<byte>,
                        ephemeral: Key, nonce: BoxNonce)
    requires Sound(box)
    ensures |EncryptSpec(box, box.publicKey(recipientPrivate), nullifier, Some(ephemeral), Some(nonce)).value|
            == FrameHeaderSize + |nullifier| + Overhead
  {
  }

  /** The errors of `Decrypt`. */
  const TooShortError: string := "ciphertext too short"
  const ReadSeedError: string := "failed to read seed"
  const DecodeSeedError: string := "failed to decode seed"
  const SeedLengthError: string := "invalid seed length: expected 32 bytes"
  const OpenError: string := "decryption failed"

  /** What `Decrypt` returns for a stored blob and the text typed at the
      seed prompt (None when reading the terminal fails). */
  function DecryptSpec(box: BoxScheme, ciphertext: seq<byte>, typedSeed: Option<string>): (r: Result<seq<byte>>)
    ensures |ciphertext| < FrameHeaderSize ==> r == Err(TooShortError)
    ensures r.Ok? ==> typedSeed.Some? && HexDecode(TrimSpace(typedSeed.value)).Some?
                      && |HexDecode(TrimSpace(typedSeed.value)).value| == KeySize
  {
    match SplitFrame(ciphertext)
    case None => Err(TooShortError)
    case Some(parts) =>
      if typedSeed.None? then Err(ReadSeedError)
      else
        match HexDecode(TrimSpace(typedSeed.value))
        case None => Err(DecodeSeedError)
        case Some(seed) =>
          if |seed| != KeySize then Err(SeedLengthError)
          else
            match box.open(parts.sealed, parts.nonce, parts.ephemeralPublic, seed)
            case None => Err(OpenError)
            case Some(nullifier) => Ok(nullifier)
  }

  /** Go's `copy(dst, src)` when src is at least as long as dst. */
  method CopyInto(dst: array<byte>, src: seq<byte>)
    requires |src| >= dst.Length
    modifies dst
    ensures dst[..] == src[..dst.Length]
  {
    var i := 0;
    while i < dst.Length
      invariant 0 <= i <= dst.Length
      invariant dst[..i] == src[..i]
    {
      dst[i] := src[i];
      i := i + 1;
    }
  }

  /** `Decrypt`: reject short blobs before prompting, copy the key and nonce
      into fixed arrays, validate the seed, and open the box. */
  method Decrypt(box: BoxScheme, ciphertext: seq<byte>, typedSeed: Option<string>) returns (r: Result<seq<byte>>)
    ensures r == DecryptSpec(box, ciphertext, typedSeed)
  {
    if |ciphertext| < 32 + 24 {
      return Err(TooShortError);
    }
    ghost var parts := SplitFrame(ciphertext).value;
    assert parts == Split(ciphertext[..32], ciphertext[32..56], ciphertext[56..]);
    var ephemeralPublicKey := new byte[32];
    CopyInto(ephemeralPublicKey, ciphertext[..32]);
    var ephemeral := ephemeralPublicKey[..];
    assert ephemeral == parts.ephemeralPublic;
    var nonce := new byte[24];
    CopyInto(nonce, ciphertext[32..32 + 24]);
    var nonceBytes := nonce[..];
    assert nonceBytes == parts.nonce;
    var actualCiphertext := ciphertext[32 + 24..];
    if typedSeed.None? {
      return Err(ReadSeedError);
    }
    var seed := HexDecode(TrimSpace(typedSeed.value));
    if seed.None? {
      return Err(DecodeSeedError);
    }
    if |seed.value| != 32 {
      return Err(SeedLengthError);
    }
    var recipientPrivateKey := new byte[32];
    CopyInto(recipientPrivateKey, seed.value);
    assert recipientPrivateKey[..] == seed.value;
    var plain := box.open(actualCiphertext, nonceBytes, ephemeral, recipientPrivateKey[..]);
    if plain.None? {
      return Err(OpenError);
    }
    return Ok(plain.value);
  }

  /** A short blob is rejected whatever is typed at the prompt: the seed is
      never consulted. */
  lemma ShortCiphertextIgnoresSeed(box: BoxScheme, ciphertext: seq<byte>, s1: Option<string>, s2: Option<string>)
    requires |ciphertext| < FrameHeaderSize
    ensures DecryptSpec(box, ciphertext, s1) == DecryptSpec(box, ciphertext, s2) == Err(TooShortError)
  {
  }

  /** A failed open yields an error and no plaintext. */
  lemma FailedOpenIsError(box: BoxScheme, ciphertext: seq<byte>, seed: Key)
    requires |ciphertext| >= FrameHeaderSize
    requires box.open(ciphertext[56..], ciphertext[32..56], ciphertext[..32], seed).None?
    ensures DecryptSpec(box, ciphertext, Some(HexBytes(seed))) == Err(OpenError)
  {
    LowerHexHasNoSpace(HexBytes(seed));
    HexBytesRoundTrip(seed);
  }

  /** The round trip of the interactive test: with a sound box, decrypting
      what was encrypted to the public key of `recipientPrivate`, typing that
      private key's hex seed, returns the nullifier. */
  lemma EncryptDecryptRoundTrip(box: BoxScheme, recipientPrivate: Key, nullifier: seq<byte>,
                                ephemeral: Key, nonce: BoxNonce)
    requires Sound(box)
    ensures DecryptSpec(box,
                        EncryptSpec(box, box.publicKey(recipientPrivate), nullifier, Some(ephemeral), Some(nonce)).value,
                        Some(HexBytes(recipientPrivate)))
            == Ok(nullifier)
  {
    var sealed := box.seal(nullifier, nonce, box.publicKey(recipientPrivate), ephemeral);
    SplitFrameInverts(box.publicKey(ephemeral), nonce, sealed);
    LowerHexHasNoSpace(HexBytes(recipientPrivate));
    HexBytesRoundTrip(recipientPrivate);
  }
}
