/** Notes (models/note.go): the secret witness of one pool entry, its text
    form, and the hash inputs from which its nullifier, leaf value and
    commitment are derived. The MiMC hash is a parameter; so is the
    withdrawal fee policy `CalculateWithdrawalFee`, whose source is not part
    of this model. */
module Notes {
  import opened Base
  import opened Strings
  import opened Amounts

  /** `config.RandomNonceByteSize`. */
  const RandomNonceByteSize: nat := 31

  type Nonce = s: seq<byte> | |s| == RandomNonceByteSize witness seq(31, _ => 0)

  /** Sentinels for "no leaf assigned yet" and "not submitted yet"; their
      definitions are not part of this model (the largest uint64 and the empty
      string are assumed). */
  const EmptyLeafIndex: u64 := MaxU64
  const EmptyTxnId: string := ""

  /** The errors of `GenerateChangeNote` the withdrawal handler tells apart. */
  const OverflowError: string := "overflow in deduction"
  const TooSmallError: string := "note amount too small"

  datatype Note = Note(Amount: u64, K: Nonce, R: Nonce, LeafIndex: u64, TxnID: string)

  /** `config.Hash`: MiMC over the BN254 scalar field, taken as given. */
  type Hasher = seq<seq<byte>> -> seq<byte>

  /** `CalculateWithdrawalFee`, taken as given. */
  type FeePolicy = u64 -> u64

  /** A note that carries both a transaction id and an assigned leaf. */
  predicate IsConfirmed(n: Note)
  {
    n.TxnID != EmptyTxnId && n.LeafIndex != EmptyLeafIndex
  }

  /** `NewNote`: the secrets and the amount are copied; the note has no leaf
      and no transaction yet, so it is not a confirmed note. */
  function NewNote(amount: u64, k: Nonce, r: Nonce): (n: Note)
    ensures n.Amount == amount && n.K == k && n.R == r
    ensures n.LeafIndex == EmptyLeafIndex && !IsConfirmed(n)
  {
    Note(amount, k, r, EmptyLeafIndex, EmptyTxnId)
  }

  /** `GenerateNote`: the two nonces come from the random source, either of
      which may fail (None). */
  function GenerateNote(amount: u64, k: Option<Nonce>, r: Option<Nonce>): (res: Result<Note>)
    ensures res.Ok? <==> k.Some? && r.Some?
    ensures res.Ok? ==> res.value == NewNote(amount, k.value, r.value)
  {
    if k.None? || r.None? then Err("error generating random bytes for k / r")
    else Ok(NewNote(amount, k.value, r.value))
  }

  // ------------------------------------------------------------ text form

  /** `Note.Text`: `%016x%x%x`, the amount as 16 hex digits then the two nonces. */
  function Text(n: Note): (t: string)
    ensures |t| == 16 + 2 * RandomNonceByteSize + 2 * RandomNonceByteSize == 140
    ensures IsLowerHex(t)
  {
    HexFixed(n.Amount, 16) + HexBytes(n.K) + HexBytes(n.R)
  }

  /** The text determines amount, K and R: two notes with the same text have
      the same secrets and value. */
  lemma TextDeterminesNote(a: Note, b: Note)
    requires Text(a) == Text(b)
    ensures a.Amount == b.Amount && a.K == b.K && a.R == b.R
  {
    var ta, tb := Text(a), Text(b);
    assert ta[..16] == HexFixed(a.Amount, 16) && tb[..16] == HexFixed(b.Amount, 16);
    U64Powers();
    HexFixedRoundTrip(a.Amount, 16);
    HexFixedRoundTrip(b.Amount, 16);
    assert ta[16..78] == HexBytes(a.K) && tb[16..78] == HexBytes(b.K);
    HexBytesInjective(a.K, b.K);
    assert ta[78..] == HexBytes(a.R) && tb[78..] == HexBytes(b.R);
    HexBytesInjective(a.R, b.R);
  }

  // ------------------------------------------------------------ hash inputs

  /** The 32-byte hash encoding of an amount: 24 zero bytes, then the 8-byte
      big-endian value. */
  function AmountWord(amount: u64): (w: seq<byte>)
    ensures |w| == 32
  {
    seq(24, _ => 0) + BigEndianBytes(amount, 8)
  }

  /** The amount word is the amount as a 256-bit big-endian integer, so
      distinct amounts give distinct words. */
  lemma AmountWordValue(amount: u64)
    ensures BigEndian(AmountWord(amount)) == amount
  {
    BigEndianLeadingZeros(24, BigEndianBytes(amount, 8));
    U64Powers();
    BigEndianRoundTrip(amount, 8);
  }

  lemma AmountWordInjective(a: u64, b: u64)
    requires AmountWord(a) == AmountWord(b)
    ensures a == b
  {
    AmountWordValue(a);
    AmountWordValue(b);
  }

  /** `uint64ToBytes32`: a zeroed 32-byte buffer whose last eight bytes receive
      the big-endian amount (`binary.BigEndian.PutUint64`). */
  method Uint64ToBytes32(amount: u64) returns (amountBytes: array<byte>)
    ensures amountBytes.Length == 32
    ensures amountBytes[..] == AmountWord(amount)
  {
    amountBytes := new byte[32](_ => 0);
    var v: nat := amount;
    var j := 32;
    while j > 24
      invariant 24 <= j <= 32
      invariant amountBytes[..24] == seq(24, _ => 0)
      invariant BigEndianBytes(v, j - 24) + amountBytes[j..] == BigEndianBytes(amount, 8)
    {
      assert BigEndianBytes(v, j - 24) == BigEndianBytes(v / 256, j - 25) + [v % 256];
      amountBytes[j - 1] := v % 256;
      v := v / 256;
      j := j - 1;
    }
    assert amountBytes[..] == amountBytes[..24] + amountBytes[24..];
  }

  /** The two 32-byte hash inputs of the nullifier: the amount word and K
      behind one zero byte. */
  function NullifierInputs(n: Note): (ins: seq<seq<byte>>)
    ensures |ins| == 2 && |ins[0]| == 32 && |ins[1]| == 32
    ensures BigEndian(ins[0]) == n.Amount
    ensures ins[1] == [0] + n.K
  {
    AmountWordValue(n.Amount);
    [AmountWord(n.Amount), [0] + n.K]
  }

  /** The three 32-byte hash inputs of the leaf value: amount word, 0x00‖K, 0x00‖R. */
  function LeafInputs(n: Note): (ins: seq<seq<byte>>)
    ensures |ins| == 3 && forall i :: 0 <= i < 3 ==> |ins[i]| == 32
    ensures BigEndian(ins[0]) == n.Amount
    ensures ins[1] == [0] + n.K && ins[2] == [0] + n.R
  {
    AmountWordValue(n.Amount);
    [AmountWord(n.Amount), [0] + n.K, [0] + n.R]
  }

  /** `Note.Nullifier`. */
  function Nullifier(n: Note, hash: Hasher): seq<byte>
  {
    hash(NullifierInputs(n))
  }

  /** `Note.LeafValue`. */
  function LeafValue(n: Note, hash: Hasher): seq<byte>
  {
    hash(LeafInputs(n))
  }

  /** `Note.Commitment`: the hash of the leaf value alone. */
  function Commitment(n: Note, hash: Hasher): seq<byte>
  {
    hash([LeafValue(n, hash)])
  }

  /** The nullifier depends on the amount and K only: not on R, the leaf index
      or the transaction id. */
  lemma NullifierIgnoresR(n: Note, r: Nonce, leaf: u64, txn: string, hash: Hasher)
    ensures Nullifier(n.(R := r, LeafIndex := leaf, TxnID := txn), hash) == Nullifier(n, hash)
  {
  }

  /** The leaf preimage determines amount, K and R. */
  lemma {:induction false} LeafInputsInjective(a: Note, b: Note)
    requires LeafInputs(a) == LeafInputs(b)
    ensures a.Amount == b.Amount && a.K == b.K && a.R == b.R
  {
    AmountWordInjective(a.Amount, b.Amount);
    assert a.K == ([0] + a.K)[1..] && b.K == ([0] + b.K)[1..];
    assert a.R == ([0] + a.R)[1..] && b.R == ([0] + b.R)[1..];
  }

  ghost predicate CollisionFree(hash: Hasher)
  {
    forall x, y :: hash(x) == hash(y) ==> x == y
  }

  /** For a collision-free hash, equal commitments mean equal amount, K and R:
      changing any of the three changes the commitment. */
  lemma CommitmentBinds(a: Note, b: Note, hash: Hasher)
    requires CollisionFree(hash)
    requires Commitment(a, hash) == Commitment(b, hash)
    ensures a.Amount == b.Amount && a.K == b.K && a.R == b.R
  {
    assert [LeafValue(a, hash)] == [LeafValue(b, hash)];
    assert LeafInputs(a) == LeafInputs(b);
    LeafInputsInjective(a, b);
  }

  /** For a collision-free hash, equal nullifiers mean equal amount and K. */
  lemma NullifierBinds(a: Note, b: Note, hash: Hasher)
    requires CollisionFree(hash)
    requires Nullifier(a, hash) == Nullifier(b, hash)
    ensures a.Amount == b.Amount && a.K == b.K
  {
    assert NullifierInputs(a) == NullifierInputs(b);
    AmountWordInjective(a.Amount, b.Amount);
    assert a.K == NullifierInputs(a)[1][1..];
  }

  // ------------------------------------------------------------ withdrawal arithmetic

  /** `Note.MaxWithdrawalAmount`: the note amount less the withdrawal fee,
      floored at zero; never more than the note holds. */
  function MaxWithdrawalAmount(n: Note, withdrawalFee: FeePolicy): (a: Amount)
    ensures Consistent(a)
    ensures a.Microalgos <= n.Amount
    ensures a.Microalgos == 0 <==> n.Amount <= withdrawalFee(n.Amount)
    ensures a.Microalgos > 0 ==> a.Microalgos + withdrawalFee(n.Amount) == n.Amount
  {
    var fee := withdrawalFee(n.Amount);
    NewAmount(if n.Amount <= fee then 0 else n.Amount - fee)
  }

  /** `GenerateChangeNote`: deducts the withdrawal and its fee from the note.
      It fails on uint64 overflow of the deduction, on a note too small to
      cover it, or when the random source fails; on success the change note
      holds exactly what is left. */
  function GenerateChangeNote(withdrawal: Amount, fromNote: Note, withdrawalFee: FeePolicy,
                              k: Option<Nonce>, r: Option<Nonce>): (res: Result<Note>)
    ensures (res == Err(OverflowError))
              == (withdrawal.Microalgos + withdrawalFee(withdrawal.Microalgos) >= TwoTo64)
    ensures (res == Err(TooSmallError))
              == (withdrawal.Microalgos + withdrawalFee(withdrawal.Microalgos) < TwoTo64
                  && fromNote.Amount < withdrawal.Microalgos + withdrawalFee(withdrawal.Microalgos))
    ensures res.Ok? <==> fromNote.Amount >= withdrawal.Microalgos + withdrawalFee(withdrawal.Microalgos)
                         && k.Some? && r.Some?
    ensures res.Ok? ==> res.value.Amount + withdrawal.Microalgos + withdrawalFee(withdrawal.Microalgos)
                        == fromNote.Amount
    ensures res.Ok? ==> res.value.LeafIndex == EmptyLeafIndex
  {
    var deduction := AddU64(withdrawal.Microalgos, withdrawalFee(withdrawal.Microalgos));
    if deduction < withdrawal.Microalgos then Err(OverflowError)
    else if fromNote.Amount < deduction then Err(TooSmallError)
    else
      var change := fromNote.Amount - deduction;
      match GenerateNote(change, k, r)
      case Err(e) => Err("error generating note: " + e)
      case Ok(note) => Ok(note)
  }
}
