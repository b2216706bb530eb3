/** The subscriber's decoding of application-call transactions
    (subscriber-service/parse.py): the ARC-4 return log of deposit and
    withdraw calls, and their arguments. Arguments arrive base64-encoded;
    here they are given already decoded. Turning 32 address bytes into an
    Algorand address string is a parameter. */
module Parse {
  import opened Base

  /** The two filter names the subscriber registers. */
  const DepositFilterName: string := "deposit"
  const WithdrawFilterName: string := "withdraw"

  /** The length of a decoded return log: a 4-byte return prefix, a uint64
      leaf index and a byte[32] tree root. */
  const TxnResultLength: nat := 44

  datatype TxnResult = TxnResult(leafIndex: nat, treeRoot: seq<byte>)

  /** `txn_result`: the leaf index and tree root of a decoded return log;
      any length other than 44 is a ValueError. */
  function ParseTxnResult(decoded: seq<byte>): (r: Result<TxnResult>)
    ensures r.Ok? <==> |decoded| == TxnResultLength
    ensures r.Ok? ==> r.value.leafIndex < TwoTo64 && |r.value.treeRoot| == 32
  {
    if |decoded| != TxnResultLength then Err("Decoded log has invalid length; expected 44 bytes")
    else
      var payload := decoded[4..];
      BigEndianBound(payload[..8]);
      U64Powers();
      Ok(TxnResult(BigEndian(payload[..8]), payload[8..]))
  }

  /** The log the contract writes for a `(uint64,byte[32])` return. */
  function ReturnLog(prefix: seq<byte>, leafIndex: u64, treeRoot: seq<byte>): seq<byte>
  {
    prefix + BigEndianBytes(leafIndex, 8) + treeRoot
  }

  /** Parsing a well-formed return log gives back its leaf index and root. */
  lemma TxnResultRoundTrip(prefix: seq<byte>, leafIndex: u64, treeRoot: seq<byte>)
    requires |prefix| == 4 && |treeRoot| == 32
    ensures ParseTxnResult(ReturnLog(prefix, leafIndex, treeRoot)) == Ok(TxnResult(leafIndex, treeRoot))
  {
    var log := ReturnLog(prefix, leafIndex, treeRoot);
    assert log[4..][..8] == BigEndianBytes(leafIndex, 8);
    assert log[4..][8..] == treeRoot;
    U64Powers();
    BigEndianRoundTrip(leafIndex, 8);
  }

  // ------------------------------------------------------------ byte[32][] arrays

  /** `get_Byte32`: element `pos` of an ARC-4 `byte[32][]`, skipping the
      2-byte length header. Python slicing clamps, so a short array yields a
      short (possibly empty) element rather than an error. */
  function GetByte32(arr: seq<byte>, pos: nat): (r: seq<byte>)
    ensures |r| <= 32
    ensures |r| == 32 <==> |arr| >= 2 + 32 * pos + 32
    ensures |arr| >= 2 + 32 * pos + 32 ==> r == arr[2 + 32 * pos .. 2 + 32 * pos + 32]
  {
    Slice(arr, 2 + pos * 32, 2 + pos * 32 + 32)
  }

  /** Concatenation of array elements. */
  function Flatten(elems: seq<seq<byte>>): seq<byte>
  {
    if elems == [] then [] else elems[0] + Flatten(elems[1..])
  }

  predicate AllWords(elems: seq<seq<byte>>)
  {
    forall i :: 0 <= i < |elems| ==> |elems[i]| == 32
  }

  /** The ARC-4 encoding of a `byte[32][]`: the element count as a 2-byte
      big-endian header, then the elements. */
  function EncodeByte32Array(elems: seq<seq<byte>>): seq<byte>
  {
    BigEndianBytes(|elems|, 2) + Flatten(elems)
  }

  lemma {:induction false} FlattenLength(elems: seq<seq<byte>>)
    requires AllWords(elems)
    ensures |Flatten(elems)| == 32 * |elems|
  {
    if elems != [] {
      FlattenLength(elems[1..]);
    }
  }

  lemma {:induction false} FlattenElement(elems: seq<seq<byte>>, i: nat)
    requires AllWords(elems) && i < |elems|
    ensures |Flatten(elems)| == 32 * |elems|
    ensures Flatten(elems)[32 * i .. 32 * i + 32] == elems[i]
  {
    FlattenLength(elems);
    if i > 0 {
      FlattenElement(elems[1..], i - 1);
      assert Flatten(elems)[32 * i .. 32 * i + 32] == Flatten(elems[1..])[32 * (i - 1) .. 32 * (i - 1) + 32];
    }
  }

  /** `get_Byte32` inverts the array encoding: element i of an encoded array
      is the i-th element. */
  lemma GetByte32OfEncoded(elems: seq<seq<byte>>, i: nat)
    requires AllWords(elems) && i < |elems|
    ensures GetByte32(EncodeByte32Array(elems), i) == elems[i]
  {
    FlattenElement(elems, i);
    var enc := EncodeByte32Array(elems);
    assert enc[2 + 32 * i .. 2 + 32 * i + 32] == Flatten(elems)[32 * i .. 32 * i + 32];
  }

  // ------------------------------------------------------------ call arguments

  /** abi address decoding: 32 public-key bytes to an address string. */
  type AddressEncoder = seq<byte> -> string

  function DecodeAddress(bytes: seq<byte>, encode: AddressEncoder): (r: Result<string>)
    ensures r.Ok? <==> |bytes| == 32
    ensures r.Ok? ==> r.value == encode(bytes)
  {
    if |bytes| != 32 then Err("address must be 32 bytes") else Ok(encode(bytes))
  }

  datatype Deposit = Deposit(commitment: seq<byte>, address: string, amount: nat)

  /** `deposit_args`: the amount and commitment are public inputs 0 and 1
      (args[2]); the depositor is args[3]. A missing argument is an
      IndexError; a malformed address raises in the decoder. */
  function DepositArgs(args: seq<seq<byte>>, encode: AddressEncoder): (r: Result<Deposit>)
    ensures r.Ok? <==> |args| >= 4 && |args[3]| == 32
    ensures r.Ok? ==> r.value.commitment == GetByte32(args[2], 1)
                      && r.value.amount == BigEndian(GetByte32(args[2], 0))
                      && r.value.address == encode(args[3])
  {
    match PyIndex(args, 2)
    case None => Err("IndexError: list index out of range")
    case Some(publicInputs) =>
      var amount := BigEndian(GetByte32(publicInputs, 0));
      var commitment := GetByte32(publicInputs, 1);
      match PyIndex(args, 3)
      case None => Err("IndexError: list index out of range")
      case Some(addressBytes) =>
        match DecodeAddress(addressBytes, encode)
        case Err(e) => Err(e)
        case Ok(address) => Ok(Deposit(commitment, address, amount))
  }

  datatype Withdrawal = Withdrawal(commitment: seq<byte>, withdrawalAddress: string,
                                   nullifier: seq<byte>, amount: nat, fee: nat)

  /** `withdraw_args`: commitment, nullifier, amount and fee are public inputs
      3, 4, 1 and 2; the recipient is the foreign account named by args[4],
      a 1-based reference, looked up with Python indexing (so reference 0
      selects the last account). */
  function WithdrawArgs(args: seq<seq<byte>>, accounts: seq<string>): (r: Result<Withdrawal>)
    ensures r.Ok? <==> |args| >= 5 && -|accounts| <= BigEndian(args[4]) - 1 < |accounts|
    ensures r.Ok? ==>
      var inputs := args[2];
      && r.value.commitment == GetByte32(inputs, 3)
      && r.value.nullifier == GetByte32(inputs, 4)
      && r.value.amount == BigEndian(GetByte32(inputs, 1))
      && r.value.fee == BigEndian(GetByte32(inputs, 2))
      && PyIndex(accounts, BigEndian(args[4]) - 1) == Some(r.value.withdrawalAddress)
  {
    match PyIndex(args, 2)
    case None => Err("IndexError: list index out of range")
    case Some(publicInputs) =>
      var commitment := GetByte32(publicInputs, 3);
      var nullifier := GetByte32(publicInputs, 4);
      var amount := BigEndian(GetByte32(publicInputs, 1));
      var fee := BigEndian(GetByte32(publicInputs, 2));
      match PyIndex(args, 4)
      case None => Err("IndexError: list index out of range")
      case Some(positionBytes) =>
        match PyIndex(accounts, BigEndian(positionBytes) - 1)
        case None => Err("IndexError: list index out of range")
        case Some(address) => Ok(Withdrawal(commitment, address, nullifier, amount, fee))
  }

  /** The arguments of a withdraw call as the client builds them: selector,
      proof, the public inputs as a `byte[32][]`, the fee account reference,
      the recipient's 1-based account reference as one byte, and the
      `no_change` flag as an ARC-4 `bool` (0x80 for true, 0x00 for false). */
  function WithdrawCall(selector: seq<byte>, proof: seq<byte>, inputs: seq<seq<byte>>,
                        feeAccount: byte, recipient: byte, noChange: bool): seq<seq<byte>>
  {
    [selector, proof, EncodeByte32Array(inputs), [feeAccount], [recipient], [if noChange then 0x80 else 0x00]]
  }

  /** For a well-formed withdraw call, the parsed fields are the public
      inputs it carries and the account its reference names. */
  lemma WithdrawArgsRoundTrip(selector: seq<byte>, proof: seq<byte>, inputs: seq<seq<byte>>,
                              feeAccount: byte, recipient: byte, noChange: bool, accounts: seq<string>)
    requires AllWords(inputs) && |inputs| >= 6
    requires 1 <= recipient as int <= |accounts|
    ensures WithdrawArgs(WithdrawCall(selector, proof, inputs, feeAccount, recipient, noChange), accounts)
            == Ok(Withdrawal(inputs[3], accounts[recipient as int - 1], inputs[4],
                             BigEndian(inputs[1]), BigEndian(inputs[2])))
  {
    GetByte32OfEncoded(inputs, 1);
    GetByte32OfEncoded(inputs, 2);
    GetByte32OfEncoded(inputs, 3);
    GetByte32OfEncoded(inputs, 4);
    assert BigEndian([recipient]) == BigEndian([]) * 256 + recipient as int;
  }

  /** A recipient reference of 0 does not fail: it wraps around to the last
      foreign account. */
  lemma WithdrawReferenceZeroSelectsLast(args: seq<seq<byte>>, accounts: seq<string>)
    requires |args| >= 5 && args[4] == [0] && |accounts| > 0
    ensures WithdrawArgs(args, accounts).Ok?
    ensures WithdrawArgs(args, accounts).value.withdrawalAddress == accounts[|accounts| - 1]
  {
    assert BigEndian(args[4]) == BigEndian([]) * 256 + 0;
  }

  /** The arguments of a deposit call: selector, proof, public inputs
      (amount word, commitment) and the depositor's 32 address bytes. */
  lemma DepositArgsRoundTrip(selector: seq<byte>, proof: seq<byte>, inputs: seq<seq<byte>>,
                             addressBytes: seq<byte>, encode: AddressEncoder)
    requires AllWords(inputs) && |inputs| >= 2 && |addressBytes| == 32
    ensures DepositArgs([selector, proof, EncodeByte32Array(inputs), addressBytes], encode)
            == Ok(Deposit(inputs[1], encode(addressBytes), BigEndian(inputs[0])))
  {
    GetByte32OfEncoded(inputs, 0);
    GetByte32OfEncoded(inputs, 1);
  }
}
