/** The subscriber service (subscriber-service/main.py): its watermark,
    which records the last block processed, and the rows it writes for each
    deposit or withdrawal the node reports. The node, the application file
    and the database are inputs; the saves the service asks the database for
    are kept as a sequence. */
module Subscriber {
  import opened Base
  import opened Parse

  /** The watermark `init` starts from: with a catchup block that block,
      even if it is lower than the stored one; otherwise the stored
      watermark raised to the application's creation block. Python treats a
      catchup block of 0 as no catchup. */
  function InitialWatermark(stored: int, creationBlock: int, catchup: int): (w: int)
    ensures catchup != 0 ==> w == catchup
    ensures catchup == 0 ==> w >= stored && w >= creationBlock && (w == stored || w == creationBlock)
  {
    if catchup != 0 then catchup
    else if stored < creationBlock then creationBlock
    else stored
  }

  /** Without catchup the watermark never goes back. */
  lemma InitialWatermarkNeverLowers(stored: int, creationBlock: int)
    ensures InitialWatermark(stored, creationBlock, 0) >= stored
    ensures stored >= creationBlock ==> InitialWatermark(stored, creationBlock, 0) == stored
  {
  }

  /** A `notes` row of the subscriber's database. */
  datatype NoteRow = NoteRow(leafIndex: nat, commitment: seq<byte>, txnId: string)
  /** A `deposits` row. */
  datatype DepositRow = DepositRow(leafIndex: nat, address: string, amount: nat)
  /** A `withdrawals` row. */
  datatype WithdrawalRow = WithdrawalRow(leafIndex: nat, address: string, nullifier: seq<byte>,
                                         amount: nat, fee: nat)

  /** One `db.save_deposit` or `db.save_withdrawal` call. */
  datatype Save =
    | SaveDeposit(note: NoteRow, deposit: DepositRow, treeRoot: seq<byte>, block: int)
    | SaveWithdrawal(note: NoteRow, withdrawal: WithdrawalRow, treeRoot: seq<byte>, block: int)

  /** The fields of a subscribed transaction the handler reads; the logs
      are already base64-decoded. */
  datatype SubscribedTxn = SubscribedTxn(id: string, args: seq<seq<byte>>, logs: seq<seq<byte>>,
                                         confirmedRound: int, accounts: seq<string>)

  /** What `handle_transaction` saves: the return log (the last log) is
      parsed first, whatever the filter; then the call's arguments, by
      filter. A filter that is neither deposit nor withdraw saves nothing.
      Any exception becomes Err. */
  function Record(txn: SubscribedTxn, filterName: string, encode: AddressEncoder): Result<Option<Save>>
  {
    match PyIndex(txn.logs, -1)
    case None => Err("IndexError: list index out of range")
    case Some(log) =>
      match ParseTxnResult(log)
      case Err(e) => Err(e)
      case Ok(result) =>
        var note := (c: seq<byte>) => NoteRow(result.leafIndex, c, txn.id);
        if filterName == DepositFilterName then
          match DepositArgs(txn.args, encode)
          case Err(e) => Err(e)
          case Ok(d) =>
            Ok(Some(SaveDeposit(note(d.commitment), DepositRow(result.leafIndex, d.address, d.amount),
                                result.treeRoot, txn.confirmedRound)))
        else if filterName == WithdrawFilterName then
          match WithdrawArgs(txn.args, txn.accounts)
          case Err(e) => Err(e)
          case Ok(w) =>
            Ok(Some(SaveWithdrawal(note(w.commitment),
                                   WithdrawalRow(result.leafIndex, w.withdrawalAddress, w.nullifier, w.amount, w.fee),
                                   result.treeRoot, txn.confirmedRound)))
        else Ok(None)
  }

  /** A saved deposit: the note and the deposit share the leaf index of the
      return log, which also gives the root; commitment, address and amount
      are the call's arguments. */
  lemma RecordDeposit(txn: SubscribedTxn, encode: AddressEncoder)
    requires |txn.logs| > 0
    ensures var r := Record(txn, DepositFilterName, encode);
            var log := ParseTxnResult(txn.logs[|txn.logs| - 1]);
            var d := DepositArgs(txn.args, encode);
            && (r.Ok? <==> log.Ok? && d.Ok?)
            && (r.Ok? ==> r.value.Some? && r.value.value.SaveDeposit?
                          && r.value.value.note == NoteRow(log.value.leafIndex, d.value.commitment, txn.id)
                          && r.value.value.deposit == DepositRow(log.value.leafIndex, d.value.address, d.value.amount)
                          && r.value.value.treeRoot == log.value.treeRoot
                          && r.value.value.block == txn.confirmedRound)
  {
    assert DepositFilterName != WithdrawFilterName;
  }

  /** A saved withdrawal: the note and the withdrawal share the leaf index
      of the return log; nullifier, amount, fee and recipient are the
      call's arguments. */
  lemma RecordWithdrawal(txn: SubscribedTxn, encode: AddressEncoder)
    requires |txn.logs| > 0
    ensures var r := Record(txn, WithdrawFilterName, encode);
            var log := ParseTxnResult(txn.logs[|txn.logs| - 1]);
            var w := WithdrawArgs(txn.args, txn.accounts);
            && (r.Ok? <==> log.Ok? && w.Ok?)
            && (r.Ok? ==> r.value.Some? && r.value.value.SaveWithdrawal?
                          && r.value.value.note == NoteRow(log.value.leafIndex, w.value.commitment, txn.id)
                          && r.value.value.withdrawal == WithdrawalRow(log.value.leafIndex, w.value.withdrawalAddress,
                                                                       w.value.nullifier, w.value.amount, w.value.fee)
                          && r.value.value.treeRoot == log.value.treeRoot
                          && r.value.value.block == txn.confirmedRound)
  {
    assert DepositFilterName != WithdrawFilterName;
  }

  /** Another filter saves nothing, but a transaction without logs or with a
      malformed return log still fails. */
  lemma RecordOtherFilter(txn: SubscribedTxn, filterName: string, encode: AddressEncoder)
    requires filterName != DepositFilterName && filterName != WithdrawFilterName
    ensures Record(txn, filterName, encode).Ok? <==>
              |txn.logs| > 0 && |txn.logs[|txn.logs| - 1]| == TxnResultLength
    ensures Record(txn, filterName, encode).Ok? ==> Record(txn, filterName, encode).value.None?
  {
  }

  /** The service's globals and what it has asked the database to do. */
  class Service {
    var appId: int
    /** The in-memory watermark. */
    var watermark: int
    /** The watermark stored in the database. */
    var persisted: int
    /** The saves, in the order they were made. */
    var saves: seq<Save>

    constructor (stored: int)
      ensures persisted == stored && saves == []
    {
      appId := 0;
      watermark := 0;
      persisted := stored;
      saves := [];
    }

    /** `set_watermark`: memory and database get the same value. */
    method SetWatermark(newWatermark: int)
      modifies this
      ensures watermark == newWatermark && persisted == newWatermark
      ensures appId == old(appId) && saves == old(saves)
    {
      watermark := newWatermark;
      persisted := newWatermark;
    }

    /** `init`: read the application's id and creation block, load the
        stored watermark, and move it as `InitialWatermark` says. */
    method Init(appFileId: int, creationBlock: int, catchup: int)
      modifies this
      ensures appId == appFileId
      ensures watermark == InitialWatermark(old(persisted), creationBlock, catchup)
      ensures persisted == watermark
      ensures saves == old(saves)
    {
      appId := appFileId;
      watermark := persisted;
      if catchup != 0 {
        SetWatermark(catchup);
      } else if watermark < creationBlock {
        SetWatermark(creationBlock);
      }
    }

    /** `handle_transaction`: append the save the transaction calls for, if
        any; an exception saves nothing. */
    method HandleTransaction(txn: SubscribedTxn, filterName: string, encode: AddressEncoder)
      returns (r: Result<()>)
      modifies this
      ensures r.Ok? <==> Record(txn, filterName, encode).Ok?
      ensures saves == old(saves) + match Record(txn, filterName, encode)
                                    case Ok(Some(s)) => [s]
                                    case _ => []
      ensures appId == old(appId) && watermark == old(watermark) && persisted == old(persisted)
    {
      var record := Record(txn, filterName, encode);
      match record
      case Err(e) =>
        return Err(e);
      case Ok(None) =>
        return Ok(());
      case Ok(Some(s)) =>
        saves := saves + [s];
        return Ok(());
    }
  }
}
