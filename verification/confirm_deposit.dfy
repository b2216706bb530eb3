/** The deposit confirmation handler (handlers/confirm_deposit.go): the
    session entry is consumed, the form is checked against it, an
    unconfirmed record is registered before the transaction group is sent,
    and a deferred step decides whether that record is deleted. The network
    and the session store are inputs; the HTML around each message is not
    modelled. */
module ConfirmDeposit {
  import opened Base
  import opened Amounts
  import opened Notes
  import Db

  // ------------------------------------------------------------ outcomes of sending

  /** The kinds of `avm.TxnConfirmationError` the handler switches on. */
  datatype ErrorKind = Rejected | OverSpend | MinimumBalanceRequirement | Expired | WaitTimeout | Internal

  /** `config.DepositMinFeeMultiplier`, and `transaction.MinTxnFee` of the
      Algorand Go SDK, whose value of 1000 microalgos is assumed here. */
  const DepositMinFeeMultiplier: u64 := 56
  const MinTxnFee: u64 := 1000

  /** The HTTP status each failure kind is answered with. */
  function StatusFor(kind: ErrorKind): (code: int)
    ensures code == 422 <==> kind == Rejected || kind == OverSpend || kind == MinimumBalanceRequirement
    ensures code == 408 <==> kind == Expired || kind == WaitTimeout
    ensures code == 500 <==> kind == Internal
  {
    match kind
    case Rejected => 422
    case OverSpend => 422
    case MinimumBalanceRequirement => 422
    case Expired => 408
    case WaitTimeout => 408
    case Internal => 500
  }

  /** `maxSpend`: the net balance less the fees of a deposit group,
      saturating at zero instead of wrapping. */
  function MaxSpend(balance: u64): (m: u64)
    ensures m <= balance
    ensures m == 0 <==> balance <= DepositMinFeeMultiplier * MinTxnFee
    ensures m > 0 ==> m + DepositMinFeeMultiplier * MinTxnFee == balance
  {
    if balance <= DepositMinFeeMultiplier * MinTxnFee then 0
    else balance - DepositMinFeeMultiplier * MinTxnFee
  }

  /** A larger balance never allows a smaller deposit. */
  lemma MaxSpendMonotone(a: u64, b: u64)
    requires a <= b
    ensures MaxSpend(a) <= MaxSpend(b)
  {
  }

  datatype Reply = Reply(status: int, msg: string)

  /** The messages of the failure replies (white space inside them normalised). */
  const RejectedMessage: string := "Your deposit transaction was rejected by the network.<br> Please try again"
  const OverSpendMessage: string := "You do not have enough funds to cover this deposit"
  const MinimumBalanceMessage: string := "You do not have enough funds to cover the account minimum balance requirement with this deposit"
  const ExpiredMessage: string := "Too much time has passed and your deposit transaction has expired. <br>Please try again"
  const WaitTimeoutMessage: string := "Your deposit has not been confirmed by the network yet.<br> Please wait a few minutes and check your wallet to see if the deposit was sent.<br> If not, please try again."
  const InternalMessage: string := "Something went wrong. Your deposit was not processed.<br> Please try again."

  /** The message quoting the largest deposit the net balance allows, or
      the given message when the balance cannot be read. */
  function MaxSpendMessage(balance: Result<u64>, unreadable: string): string
  {
    if balance.Ok? then "The maximum amount you can deposit is " + MicroAlgosToAlgoString(MaxSpend(balance.value)) + " ALGO"
    else unreadable
  }

  /** The reply to a failed send; the two balance-related kinds quote the
      largest deposit the net balance allows, when it can be read. */
  function FailureReply(kind: ErrorKind, balance: Result<u64>): (r: Reply)
    ensures r.status == StatusFor(kind)
  {
    match kind
    case Rejected => Reply(422, RejectedMessage)
    case OverSpend => Reply(422, MaxSpendMessage(balance, OverSpendMessage))
    case MinimumBalanceRequirement =>
      Reply(422, MaxSpendMessage(balance, MinimumBalanceMessage))
    case Expired => Reply(408, ExpiredMessage)
    case WaitTimeout => Reply(408, WaitTimeoutMessage)
    case Internal => Reply(500, InternalMessage)
  }

  // ------------------------------------------------------------ the deferred decision

  /** What the deferred closure does. */
  datatype Decision = Delete | Keep | NilDereference

  /** The deferred condition as written: when the confirmation succeeded but
      saving failed, the first disjunct is false and the second reads the
      type through a nil error pointer. */
  function DeferredAsWritten(confirmationError: Option<ErrorKind>, saveFailed: bool): (d: Decision)
    ensures d == NilDereference <==> confirmationError.None? && saveFailed
    ensures d == Delete <==> (confirmationError.None? && !saveFailed)
                             || (confirmationError.Some? && confirmationError.value != WaitTimeout)
  {
    if confirmationError.None? && !saveFailed then Delete
    else if confirmationError.None? then NilDereference
    else if confirmationError.value != WaitTimeout then Delete
    else Keep
  }

  /** The input that reaches the nil dereference: a confirmed deposit whose
      note could not be saved. */
  lemma ConfirmedButUnsavedDereferencesNil()
    ensures DeferredAsWritten(None, true) == NilDereference
  {
  }

  /** The decision the comment above the closure describes: keep the record
      on a confirmation timeout, and also when a confirmed note could not be
      saved, so that the cleanup process can handle it. */
  function KeepUnconfirmed(confirmationError: Option<ErrorKind>, saveFailed: bool): (keep: bool)
    ensures keep <==> confirmationError == Some(WaitTimeout) || (confirmationError.None? && saveFailed)
  {
    !((confirmationError.None? && !saveFailed)
      || (confirmationError.Some? && confirmationError.value != WaitTimeout))
  }

  /** Wherever the code as written does not fault it makes the intended
      decision, and at the faulting input the intended decision keeps the
      record, as the faulting closure leaves it too. */
  lemma KeepUnconfirmedAgrees(confirmationError: Option<ErrorKind>, saveFailed: bool)
    ensures DeferredAsWritten(confirmationError, saveFailed) != NilDereference ==>
              (DeferredAsWritten(confirmationError, saveFailed) == Keep <==> KeepUnconfirmed(confirmationError, saveFailed))
    ensures DeferredAsWritten(confirmationError, saveFailed) == NilDereference ==> KeepUnconfirmed(confirmationError, saveFailed)
  {
  }

  // ------------------------------------------------------------ the request

  type GroupId = seq<byte>

  /** The parsed form: each field is None when its `models.Input` parser
      rejected it (those parsers are not part of this model). */
  datatype Form = Form(amount: Option<Amount>, address: Option<string>, note: Option<Note>)

  /** `group` is None when the signed transaction is not base64 or not
      msgpack. */
  datatype Request = Request(isPost: bool, formParsed: bool, form: Form, group: Option<GroupId>)

  /** What `memstore` holds for a pending deposit. */
  datatype DepositData = DepositData(amount: Amount, address: string, note: Note)

  /** What `avm.SendDepositToNetwork` and `avm.GetNetBalance` report. */
  datatype SendResult = Confirmed(leafIndex: u64, txnId: string) | Failed(kind: ErrorKind)

  /** The validation messages, concatenated in field order. */
  function InvalidFields(f: Form): (msg: string)
    ensures msg == "" <==> f.amount.Some? && f.address.Some? && f.note.Some?
  {
    (if f.amount.None? then "Invalid deposit amount<br>" else "")
    + (if f.address.None? then "Invalid Algorand address<br>" else "")
    + (if f.note.None? then "Invalid note<br>" else "")
  }

  /** The form agrees with the pending deposit: same microalgos, same
      address, same note text. */
  predicate Matches(f: Form, d: DepositData)
    requires f.amount.Some? && f.address.Some? && f.note.Some?
  {
    && f.amount.value.Microalgos == d.amount.Microalgos
    && f.address.value == d.address
    && Text(f.note.value) == Text(d.note)
  }

  /** Comparing note texts compares amount and both nonces, and nothing else. */
  lemma MatchesIff(f: Form, d: DepositData)
    requires f.amount.Some? && f.address.Some? && f.note.Some?
    ensures Matches(f, d) <==>
              && f.amount.value.Microalgos == d.amount.Microalgos
              && f.address.value == d.address
              && f.note.value.Amount == d.note.Amount && f.note.value.K == d.note.K && f.note.value.R == d.note.R
  {
    if Text(f.note.value) == Text(d.note) {
      TextDeterminesNote(f.note.value, d.note);
    }
  }

  /** The session store's pending deposits. */
  class Sessions {
    var deposits: map<GroupId, DepositData>

    constructor (deposits: map<GroupId, DepositData>)
      ensures this.deposits == deposits
    {
      this.deposits := deposits;
    }
  }

  /** The note saved on success: the pending note with the leaf index the
      network reported. */
  function ConfirmedNote(d: DepositData, leafIndex: u64): (n: Note)
    ensures n.Amount == d.note.Amount && n.K == d.note.K && n.R == d.note.R
    ensures n.TxnID == d.note.TxnID && n.LeafIndex == leafIndex
  {
    d.note.(LeafIndex := leafIndex)
  }

  /** The replies of the handler's own checks and of success. */
  const MethodNotAllowedMessage: string := "Method Not Allowed"
  const BadRequestMessage: string := "Bad request"
  const MalformedMessage: string := "The signed transaction is malformed"
  const WentWrongMessage: string := "Something went wrong"
  const MismatchMessage: string := "Bad Request"
  const SuccessMessage: string := "Deposit successful"

  /** The reply and the two tables once the send has ended. */
  datatype Settlement = Settlement(reply: Reply, notes: map<u64, Db.Saved>, unconfirmed: map<int, Db.Unconfirmed>)

  /** Whether saving the confirmed note into `notes` fails: it is refused,
      cannot be sealed, its leaf index is already stored, or the insert is
      rejected. */
  predicate SaveFails(notes: map<u64, Db.Saved>, saved: Note, hash: Hasher, saveSealer: Db.Sealer, saveOk: bool)
  {
    !(IsConfirmed(saved) && Db.Seal(saveSealer, Nullifier(saved, hash)).Ok? && saveOk && saved.LeafIndex !in notes)
  }

  /** The handler from the send on, given the tables just after the record
      `noteId` was registered: the reply to the send, the note saved on
      confirmation, and the deferred closure with the corrected decision. */
  function Settle(notes: map<u64, Db.Saved>, unconfirmed: map<int, Db.Unconfirmed>, d: DepositData, noteId: int,
                  sent: SendResult, balance: Result<u64>, hash: Hasher, saveSealer: Db.Sealer,
                  saveOk: bool, deleteOk: bool): (s: Settlement)
    ensures sent.Failed? ==> s.reply == FailureReply(sent.kind, balance) && s.notes == notes
    ensures sent.Confirmed? ==> s.reply == Reply(200, SuccessMessage)
    ensures s.unconfirmed == unconfirmed || s.unconfirmed == unconfirmed - {noteId}
  {
    if sent.Failed? then
      var keep := KeepUnconfirmed(Some(sent.kind), false);
      Settlement(FailureReply(sent.kind, balance), notes,
                 if keep || !deleteOk then unconfirmed else unconfirmed - {noteId})
    else
      var saved := ConfirmedNote(d, sent.leafIndex);
      var saveFailed := SaveFails(notes, saved, hash, saveSealer, saveOk);
      var keep := KeepUnconfirmed(None, saveFailed);
      Settlement(Reply(200, SuccessMessage),
                 if saveFailed then notes
                 else notes[sent.leafIndex := Db.Saved(Commitment(saved, hash), saved.TxnID,
                                                       Db.Seal(saveSealer, Nullifier(saved, hash)).value)],
                 if keep || !deleteOk then unconfirmed else unconfirmed - {noteId})
  }

  /** The registered record survives exactly when the send timed out, when
      a confirmed note could not be saved, or when the delete fails. */
  lemma SettleKeepsRecord(notes: map<u64, Db.Saved>, unconfirmed: map<int, Db.Unconfirmed>, d: DepositData,
                          noteId: int, sent: SendResult, balance: Result<u64>, hash: Hasher,
                          saveSealer: Db.Sealer, saveOk: bool, deleteOk: bool)
    requires noteId in unconfirmed
    ensures var s := Settle(notes, unconfirmed, d, noteId, sent, balance, hash, saveSealer, saveOk, deleteOk);
            && (noteId in s.unconfirmed <==>
                  || sent == Failed(WaitTimeout)
                  || (sent.Confirmed? && SaveFails(notes, ConfirmedNote(d, sent.leafIndex), hash, saveSealer, saveOk))
                  || !deleteOk)
            && (noteId in s.unconfirmed ==> s.unconfirmed == unconfirmed)
            && s.unconfirmed - {noteId} == unconfirmed - {noteId}
  {
    var s := Settle(notes, unconfirmed, d, noteId, sent, balance, hash, saveSealer, saveOk, deleteOk);
    if sent.Failed? {
      KeepUnconfirmedAgrees(Some(sent.kind), false);
    } else {
      KeepUnconfirmedAgrees(None, SaveFails(notes, ConfirmedNote(d, sent.leafIndex), hash, saveSealer, saveOk));
    }
  }

  /** A note row is written only for a confirmed deposit whose note is
      saved. Exactly one row is then added, under the leaf index the
      network reported, which was not stored before, holding the pending
      note's commitment and txn id. */
  lemma SettleSavesNote(notes: map<u64, Db.Saved>, unconfirmed: map<int, Db.Unconfirmed>, d: DepositData,
                        noteId: int, sent: SendResult, balance: Result<u64>, hash: Hasher,
                        saveSealer: Db.Sealer, saveOk: bool, deleteOk: bool)
    ensures var s := Settle(notes, unconfirmed, d, noteId, sent, balance, hash, saveSealer, saveOk, deleteOk);
            && (s.notes != notes ==> sent.Confirmed? && !SaveFails(notes, ConfirmedNote(d, sent.leafIndex), hash, saveSealer, saveOk))
            && (sent.Confirmed? && !SaveFails(notes, ConfirmedNote(d, sent.leafIndex), hash, saveSealer, saveOk) ==>
                  && sent.leafIndex in s.notes
                  && s.notes[sent.leafIndex].commitment == Commitment(ConfirmedNote(d, sent.leafIndex), hash)
                  && s.notes[sent.leafIndex].txnId == d.note.TxnID
                  && sent.leafIndex !in notes
                  && s.notes.Keys == notes.Keys + {sent.leafIndex}
                  && s.notes - {sent.leafIndex} == notes)
  {
  }

  /** The handler from the send on, once the unconfirmed record `noteId`
      is registered. */
  method SendAndSettle(store: Db.Store, d: DepositData, noteId: int, sent: SendResult, balance: Result<u64>,
                       hash: Hasher, saveSealer: Db.Sealer, saveOk: bool, deleteOk: bool)
    returns (reply: Reply)
    requires store.Valid()
    modifies store
    ensures store.Valid()
    ensures store.lastId == old(store.lastId) && store.txns == old(store.txns)
    ensures Settlement(reply, store.notes, store.unconfirmed)
            == Settle(old(store.notes), old(store.unconfirmed), d, noteId, sent, balance, hash, saveSealer, saveOk, deleteOk)
  {
    var confirmationError: Option<ErrorKind> := None;
    var saveFailed := false;
    if sent.Failed? {
      confirmationError := Some(sent.kind);
      reply := FailureReply(sent.kind, balance);
    } else {
      var note := ConfirmedNote(d, sent.leafIndex);
      reply := Reply(200, SuccessMessage);
      var saved := store.SaveNote(note, hash, saveSealer, saveOk);
      saveFailed := saved.Err?;
    }

    // the deferred closure
    if !KeepUnconfirmed(confirmationError, saveFailed) {
      store.DeleteUnconfirmedNote(noteId, deleteOk);
    }
  }

  /** `ConfirmDepositHandler` with the deferred closure using the corrected
      decision. `registerOk`, `saveOk` and `deleteOk` say whether the SQL
      engine accepts each statement. */
  method ConfirmDepositHandler(sessions: Sessions, store: Db.Store, req: Request, sent: SendResult,
                               balance: Result<u64>, hash: Hasher,
                               registerSealer: Db.Sealer, saveSealer: Db.Sealer,
                               registerOk: bool, saveOk: bool, deleteOk: bool)
    returns (reply: Reply)
    requires store.Valid()
    modifies sessions, store
    ensures store.Valid()
    ensures !req.isPost ==> reply == Reply(405, MethodNotAllowedMessage) && unchanged(sessions, store)
    ensures req.isPost && !req.formParsed ==> reply == Reply(400, BadRequestMessage) && unchanged(sessions, store)
    ensures req.isPost && req.formParsed && InvalidFields(req.form) != "" ==>
              reply == Reply(422, InvalidFields(req.form)) && unchanged(sessions, store)
    ensures req.isPost && req.formParsed && InvalidFields(req.form) == "" && req.group.None? ==>
              reply == Reply(400, MalformedMessage) && unchanged(sessions, store)
    // from here on the session lookup has been made
    ensures req.isPost && req.formParsed && InvalidFields(req.form) == "" && req.group.Some? ==>
              var g := req.group.value;
              && sessions.deposits == old(sessions.deposits) - {g}
              && (g !in old(sessions.deposits) ==> reply == Reply(500, WentWrongMessage) && unchanged(store))
              && (g in old(sessions.deposits) && !Matches(req.form, old(sessions.deposits)[g]) ==>
                    reply == Reply(400, MismatchMessage) && unchanged(store))
    // the unconfirmed record, then the settlement
    ensures req.isPost && req.formParsed && InvalidFields(req.form) == "" && req.group.Some?
            && req.group.value in old(sessions.deposits) && Matches(req.form, old(sessions.deposits)[req.group.value]) ==>
              var d := old(sessions.deposits)[req.group.value];
              var sealed := Db.Seal(registerSealer, Nullifier(d.note, hash));
              var id := old(store.lastId) + 1;
              && (!(sealed.Ok? && registerOk) ==> reply.status == 500 && unchanged(store))
              && (sealed.Ok? && registerOk ==>
                    var row := Db.Unconfirmed(Commitment(d.note, hash), sealed.value, d.note.TxnID);
                    Settlement(reply, store.notes, store.unconfirmed)
                    == Settle(old(store.notes), old(store.unconfirmed)[id := row], d, id, sent, balance,
                              hash, saveSealer, saveOk, deleteOk))
  {
    if !req.isPost {
      return Reply(405, MethodNotAllowedMessage);
    }
    if !req.formParsed {
      return Reply(400, BadRequestMessage);
    }
    var errorMsg := InvalidFields(req.form);
    if errorMsg != "" {
      return Reply(422, errorMsg);
    }
    if req.group.None? {
      return Reply(400, MalformedMessage);
    }
    var g := req.group.value;
    if g !in sessions.deposits {
      assert sessions.deposits - {g} == sessions.deposits;
      return Reply(500, WentWrongMessage);
    }
    var depositData := sessions.deposits[g];
    sessions.deposits := sessions.deposits - {g};

    if !Matches(req.form, depositData) {
      return Reply(400, MismatchMessage);
    }

    var noteId := store.RegisterUnconfirmedNote(depositData.note, hash, registerSealer, registerOk);
    if noteId.Err? {
      return Reply(500, WentWrongMessage);
    }

    reply := SendAndSettle(store, depositData, noteId.value, sent, balance, hash, saveSealer, saveOk, deleteOk);
  }
}
