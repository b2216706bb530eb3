/** The POST branch of the withdrawal handler (handlers/withdraw.go): form
    validation, the leaf-index lookup, the change note and the
    classification of every outcome into a reply. The form parsers, the
    random source and the confirmation template are inputs. */
module Withdraw {
  import opened Base
  import opened Amounts
  import opened Notes
  import Db

  /** Each field is None when its `models.Input` parser rejected it. */
  datatype Form = Form(amount: Option<Amount>, address: Option<string>, note: Option<Note>)

  /** One `http.Error` call, or the confirmation page rendered from the
      withdrawal data. Only the first write decides the status. */
  datatype Write = Error(status: int, body: string) | ConfirmPage

  /** The texts of the replies. */
  const InvalidAmountMessage: string := "Invalid algo amount<br>"
  const InvalidAddressMessage: string := "Invalid Algorand address<br>"
  const InvalidNoteMessage: string := "The note you provided is not valid"
  const NotFoundMessage: string := "The note you provided is not valid<br>"
  const LookupFailedMessage: string := "<b>Something went wrong.</b><br>Please try again."
  const InternalErrorMessage: string := "Internal Server Error"
  const BadRequestMessage: string := "Bad Request"

  /** Every field parsed. */
  predicate ValidForm(f: Form)
  {
    f.amount.Some? && f.address.Some? && f.note.Some?
  }

  /** The validation messages, concatenated in field order; empty exactly
      when every field parsed. */
  function InvalidFields(f: Form): (msg: string)
    ensures msg == "" <==> ValidForm(f)
  {
    (if f.amount.None? then InvalidAmountMessage else "")
    + (if f.address.None? then InvalidAddressMessage else "")
    + (if f.note.None? then InvalidNoteMessage else "")
  }

  /** How a valid form ends. */
  datatype Outcome =
    | NotFound                       // no txn row has the note's commitment
    | LookupFailed                   // any other database error
    | TooSmall(maximum: Amount)      // the note cannot cover amount and fee
    | GenerationFailed               // overflow, or the random source failed
    | Confirm(changeNote: Note)

  /** The outcome for a valid form, given the lookup result and the change
      note inputs. */
  function Classify(amount: Amount, note: Note, lookup: Db.Lookup, withdrawalFee: FeePolicy,
                    k: Option<Nonce>, r: Option<Nonce>): Outcome
  {
    match lookup
    case NoRows => NotFound
    case QueryError => LookupFailed
    case Found(_) =>
      match GenerateChangeNote(amount, note, withdrawalFee, k, r)
      case Err(e) => if e == TooSmallError then TooSmall(MaxWithdrawalAmount(note, withdrawalFee)) else GenerationFailed
      case Ok(change) => Confirm(change)
  }

  /** Which outcome each lookup result and change-note result leads to. */
  lemma ClassifyCases(amount: Amount, note: Note, lookup: Db.Lookup, withdrawalFee: FeePolicy,
                      k: Option<Nonce>, r: Option<Nonce>)
    ensures var o := Classify(amount, note, lookup, withdrawalFee, k, r);
            var change := GenerateChangeNote(amount, note, withdrawalFee, k, r);
            && (o == NotFound <==> lookup == Db.NoRows)
            && (o == LookupFailed <==> lookup == Db.QueryError)
            && (o.TooSmall? <==> lookup.Found? && change == Err(TooSmallError))
            && (o.TooSmall? ==> o.maximum == MaxWithdrawalAmount(note, withdrawalFee))
            && (o.Confirm? <==> lookup.Found? && change.Ok?)
            && (o.Confirm? ==> o.changeNote == change.value)
  {
  }

  /** A confirmed withdrawal conserves value: the change note, the amount and
      the withdrawal fee add up to the spent note. A note too small to cover
      the request offers a maximum that it can cover. */
  lemma ClassifyConserves(amount: Amount, note: Note, lookup: Db.Lookup, withdrawalFee: FeePolicy,
                          k: Option<Nonce>, r: Option<Nonce>)
    ensures var o := Classify(amount, note, lookup, withdrawalFee, k, r);
            o.Confirm? ==> o.changeNote.Amount + amount.Microalgos + withdrawalFee(amount.Microalgos) == note.Amount
                           && o.changeNote.LeafIndex == EmptyLeafIndex
    ensures var o := Classify(amount, note, lookup, withdrawalFee, k, r);
            o.TooSmall? ==> note.Amount < amount.Microalgos + withdrawalFee(amount.Microalgos)
                            && o.maximum.Microalgos <= note.Amount
  {
  }

  /** The reply for each outcome. */
  function OutcomeWrite(o: Outcome): (w: Write)
    ensures w.Error? && w.status == 422 <==> o.NotFound? || o.TooSmall?
    ensures w.Error? && w.status == 500 <==> o.LookupFailed? || o.GenerationFailed?
    ensures w == ConfirmPage <==> o.Confirm?
  {
    match o
    case NotFound => Error(422, NotFoundMessage)
    case LookupFailed => Error(500, LookupFailedMessage)
    case TooSmall(maximum) =>
      Error(422, "Note amount too small.<br>The maximum you can withdraw is <b>" + maximum.Algostring + " algo</b>")
    case GenerationFailed => Error(500, InternalErrorMessage)
    case Confirm(_) => ConfirmPage
  }

  /** `models.WithdrawalData`: what the confirmation page shows. */
  class WithdrawalData {
    var amount: Amount
    var fee: Amount
    var address: string
    var fromNote: Note
    var changeNote: Option<Note>

    constructor (amount: Amount, fee: Amount, address: string, note: Note)
      ensures this.amount == amount && this.fee == fee && this.address == address
      ensures fromNote == note && changeNote == None
    {
      this.amount := amount;
      this.fee := fee;
      this.address := address;
      fromNote := note;
      changeNote := None;
    }
  }

  /** `db.GetLeafIndexByCommitment` for the note; `queryOk` says whether
      the query succeeds. */
  function LookupLeaf(queryOk: bool, txns: seq<Db.TxnRow>, note: Note, hash: Hasher): Db.Lookup
  {
    Db.LeafIndexByCommitment(queryOk, txns, Commitment(note, hash))
  }

  /** The note the handler holds after the lookup: the scanned index, left
      at zero when the query fails. */
  function LookedUp(note: Note, lookup: Db.Lookup): Note
  {
    note.(LeafIndex := if lookup.Found? then lookup.leafIndex else 0)
  }

  /** The branch after validation: build the withdrawal data (`fee` is the
      `Fee` of the amount, computed by the caller), look the leaf index up,
      and classify. `FromNote` and the parsed note are one
      object, so the change note is computed from the note with its leaf
      index already set. */
  method Respond(amount: Amount, fee: Amount, address: string, note: Note, txns: seq<Db.TxnRow>, queryOk: bool,
                 hash: Hasher, withdrawalFee: FeePolicy, k: Option<Nonce>, r: Option<Nonce>)
    returns (reply: Write, data: WithdrawalData)
    ensures var lookup := LookupLeaf(queryOk, txns, note, hash);
            var o := Classify(amount, LookedUp(note, lookup), lookup, withdrawalFee, k, r);
            && reply == OutcomeWrite(o)
            && fresh(data)
            && data.amount == amount && data.fee == fee && data.address == address
            && data.fromNote == LookedUp(note, lookup)
            && data.changeNote == (if o.Confirm? then Some(o.changeNote) else None)
  {
    var lookup := LookupLeaf(queryOk, txns, note, hash);
    var fromNote := LookedUp(note, lookup);
    var outcome := Classify(amount, fromNote, lookup, withdrawalFee, k, r);
    reply := OutcomeWrite(outcome);
    data := new WithdrawalData(amount, fee, address, note);
    data.fromNote := fromNote;
    if outcome.Confirm? {
      data.changeNote := Some(outcome.changeNote);
    }
  }

  /** The POST branch. A form that does not parse is answered 400 but the
      branch goes on; an invalid field stops before the database is read. */
  method WithdrawPost(formParsed: bool, form: Form, txns: seq<Db.TxnRow>, queryOk: bool, hash: Hasher,
                      withdrawalFee: FeePolicy, k: Option<Nonce>, r: Option<Nonce>)
    returns (writes: seq<Write>, data: WithdrawalData?)
    ensures |writes| >= 1
    ensures !formParsed ==> writes[0] == Error(400, BadRequestMessage)
    ensures !ValidForm(form) ==>
              writes == (if formParsed then [] else [Error(400, BadRequestMessage)]) + [Error(422, InvalidFields(form))]
              && data == null
    ensures ValidForm(form) ==>
              var lookup := LookupLeaf(queryOk, txns, form.note.value, hash);
              var o := Classify(form.amount.value, LookedUp(form.note.value, lookup), lookup, withdrawalFee, k, r);
              && writes == (if formParsed then [] else [Error(400, BadRequestMessage)]) + [OutcomeWrite(o)]
              && data != null && fresh(data)
              && data.amount == form.amount.value && data.fee == Fee(form.amount.value)
              && data.address == form.address.value
              && data.fromNote == LookedUp(form.note.value, lookup)
              && data.changeNote == (if o.Confirm? then Some(o.changeNote) else None)
  {
    data := null;
    writes := if formParsed then [] else [Error(400, BadRequestMessage)];
    // the concatenated messages are empty exactly when every field parsed
    if !ValidForm(form) {
      writes := writes + [Error(422, InvalidFields(form))];
      return;
    }
    var reply;
    reply, data := Respond(form.amount.value, Fee(form.amount.value), form.address.value, form.note.value, txns, queryOk,
                           hash, withdrawalFee, k, r);
    writes := writes + [reply];
  }
}
