/** The NaCl `box` construction (Curve25519-XSalsa20-Poly1305), used by both
    the Go encryptor and the Python scripts. The cryptography itself is not
    modelled: a scheme is a record of three functions, and `Sound` states
    the one property the callers rely on. */
module Nacl {
  import opened Base

  const KeySize: nat := 32
  const NonceSize: nat := 24
  /** Poly1305 tag bytes added by sealing. */
  const Overhead: nat := 16
  /** Bytes in front of the sealed message in a nullifier frame. */
  const FrameHeaderSize: nat := KeySize + NonceSize

  type Key = s: seq<byte> | |s| == KeySize witness seq(32, _ => 0)
  type BoxNonce = s: seq<byte> | |s| == NonceSize witness seq(24, _ => 0)

  /** `publicKey(sk)` is the Curve25519 public key of a private key;
      `seal(m, n, peerPublic, ownPrivate)` and `open(c, n, peerPublic, ownPrivate)`
      are `box.Seal` and `box.Open` (None when authentication fails). */
  datatype BoxScheme = BoxScheme(
    publicKey: Key -> Key,
    seal: (seq<byte>, BoxNonce, Key, Key) -> seq<byte>,
    open: (seq<byte>, BoxNonce, Key, Key) -> Option<seq<byte>>)

  /** What box promises: opening with the other half of each key pair
      returns the sealed message, and sealing adds exactly the tag. */
  ghost predicate Sound(box: BoxScheme)
  {
    forall m, n, skA, skB ::
      && box.open(box.seal(m, n, box.publicKey(skB), skA), n, box.publicKey(skA), skB) == Some(m)
      && |box.seal(m, n, box.publicKey(skB), skA)| == |m| + Overhead
  }

  /** The nullifier frame: ephemeral public key, nonce, sealed box. */
  function Frame(ephemeralPublic: Key, nonce: BoxNonce, sealed: seq<byte>): (f: seq<byte>)
    ensures |f| == FrameHeaderSize + |sealed|
    ensures f[..KeySize] == ephemeralPublic
    ensures f[KeySize..FrameHeaderSize] == nonce
    ensures f[FrameHeaderSize..] == sealed
  {
    ephemeralPublic + nonce + sealed
  }

  datatype Split = Split(ephemeralPublic: Key, nonce: BoxNonce, sealed: seq<byte>)

  /** Cutting a frame at bytes 32 and 56; frames shorter than 56 bytes have no split. */
  function SplitFrame(f: seq<byte>): (r: Option<Split>)
    ensures r.Some? <==> |f| >= FrameHeaderSize
    ensures r.Some? ==> f == Frame(r.value.ephemeralPublic, r.value.nonce, r.value.sealed)
  {
    if |f| < FrameHeaderSize then None
    else
      assert f == f[..32] + f[32..56] + f[56..];
      Some(Split(f[..32], f[32..56], f[56..]))
  }

  /** Splitting inverts framing. */
  lemma SplitFrameInverts(ephemeralPublic: Key, nonce: BoxNonce, sealed: seq<byte>)
    ensures SplitFrame(Frame(ephemeralPublic, nonce, sealed)) == Some(Split(ephemeralPublic, nonce, sealed))
  {
  }
}
