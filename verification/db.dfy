/** The application's persistence (db/db.go). The SQLite tables become maps
    and sequences held by a `Store`; each insert or delete is an update of
    the corresponding field. Whether the SQL engine accepts a statement
    (`execOk`, `queryOk`) and the driver's errors while reading rows are
    inputs, since the schema and the driver are not part of this model. */
module Db {
  import opened Base
  import opened Nacl
  import Encrypt
  import opened Notes
  import opened Strings

  /** What `encrypt.Encrypt` needs for one call: the box, the operator's
      public key loaded by the package's `init`, and the two random draws
      (None when the random source fails). */
  datatype Sealer = Sealer(box: BoxScheme, recipient: Key, ephemeral: Option<Key>, nonce: Option<BoxNonce>)

  function Seal(s: Sealer, nullifier: seq<byte>): Result<seq<byte>>
  {
    Encrypt.EncryptSpec(s.box, s.recipient, nullifier, s.ephemeral, s.nonce)
  }

  /** With a sound box the stored value is a frame 56 bytes longer than the
      nullifier, so the plain nullifier itself is never what gets stored,
      while the operator key still recovers it. */
  lemma StoredIsNotRaw(s: Sealer, nullifier: seq<byte>, operatorPrivate: Key)
    requires Sound(s.box) && s.recipient == s.box.publicKey(operatorPrivate)
    ensures Seal(s, nullifier).Ok? ==>
              && |Seal(s, nullifier).value| == |nullifier| + FrameHeaderSize + Overhead
              && Seal(s, nullifier).value != nullifier
              && Encrypt.DecryptSpec(s.box, Seal(s, nullifier).value, Some(HexBytes(operatorPrivate))) == Ok(nullifier)
  {
    if Seal(s, nullifier).Ok? {
      Encrypt.EncryptDecryptRoundTrip(s.box, operatorPrivate, nullifier, s.ephemeral.value, s.nonce.value);
    }
  }

  /** A row of `unconfirmed_notes`. */
  datatype Unconfirmed = Unconfirmed(commitment: seq<byte>, nullifier: seq<byte>, txnId: string)
  /** A row of `notes`, keyed by its leaf index. */
  datatype Saved = Saved(commitment: seq<byte>, txnId: string, nullifier: seq<byte>)
  /** A row of the subscriber's `txns` table, as far as this file reads it. */
  datatype TxnRow = TxnRow(leafIndex: u64, commitment: seq<byte>)

  // ------------------------------------------------------------ ORDER BY leaf_index

  predicate AscendingByLeaf(rows: seq<TxnRow>)
  {
    forall i, j :: 0 <= i < j < |rows| ==> rows[i].leafIndex <= rows[j].leafIndex
  }

  function InsertByLeaf(row: TxnRow, rows: seq<TxnRow>): (r: seq<TxnRow>)
    ensures multiset(r) == multiset(rows) + multiset{row}
    ensures |r| == |rows| + 1
  {
    if rows == [] || row.leafIndex <= rows[0].leafIndex then [row] + rows
    else
      assert rows == [rows[0]] + rows[1..];
      [rows[0]] + InsertByLeaf(row, rows[1..])
  }

  lemma {:induction false} InsertByLeafAscending(row: TxnRow, rows: seq<TxnRow>)
    requires AscendingByLeaf(rows)
    ensures AscendingByLeaf(InsertByLeaf(row, rows))
    ensures InsertByLeaf(row, rows) != [] && (InsertByLeaf(row, rows)[0] == row || InsertByLeaf(row, rows)[0] == rows[0])
  {
    if rows != [] && row.leafIndex > rows[0].leafIndex {
      InsertByLeafAscending(row, rows[1..]);
      var tail := InsertByLeaf(row, rows[1..]);
      InsertKeepsLowerBound(row, rows[1..], rows[0].leafIndex);
      var r := [rows[0]] + tail;
      forall i, j | 0 <= i < j < |r|
        ensures r[i].leafIndex <= r[j].leafIndex
      {
        assert r[j] == tail[j - 1];
        if i > 0 {
          assert r[i] == tail[i - 1];
        }
      }
    }
  }

  /** A lower bound of the row and of every row is one of every row after
      the insertion. */
  lemma InsertKeepsLowerBound(row: TxnRow, rows: seq<TxnRow>, lo: int)
    requires lo <= row.leafIndex
    requires forall k :: 0 <= k < |rows| ==> lo <= rows[k].leafIndex
    ensures forall k :: 0 <= k < |InsertByLeaf(row, rows)| ==> lo <= InsertByLeaf(row, rows)[k].leafIndex
  {
    var t := InsertByLeaf(row, rows);
    forall k | 0 <= k < |t| ensures lo <= t[k].leafIndex {
      assert t[k] in multiset(t);
      if t[k] != row {
        assert t[k] in multiset(rows);
        var m :| 0 <= m < |rows| && rows[m] == t[k];
      }
    }
  }

  /** The row order of `ORDER BY leaf_index ASC`. */
  function SortByLeaf(rows: seq<TxnRow>): (r: seq<TxnRow>)
    ensures multiset(r) == multiset(rows)
    ensures |r| == |rows|
  {
    if rows == [] then []
    else
      assert rows == [rows[0]] + rows[1..];
      InsertByLeaf(rows[0], SortByLeaf(rows[1..]))
  }

  lemma {:induction false} SortByLeafAscending(rows: seq<TxnRow>)
    ensures AscendingByLeaf(SortByLeaf(rows))
  {
    if rows != [] {
      SortByLeafAscending(rows[1..]);
      InsertByLeafAscending(rows[0], SortByLeaf(rows[1..]));
    }
  }

  // ------------------------------------------------------------ the store

  class Store {
    /** `unconfirmed_notes`, by row id. */
    var unconfirmed: map<int, Unconfirmed>
    /** The last row id handed out for `unconfirmed_notes`. */
    var lastId: int
    /** `notes`, by leaf index. */
    var notes: map<u64, Saved>
    /** The subscriber's `txns` table, in storage order. */
    var txns: seq<TxnRow>

    ghost predicate Valid()
      reads this
    {
      lastId >= 0 && forall id :: id in unconfirmed ==> 0 < id <= lastId
    }

    constructor (txns: seq<TxnRow>)
      ensures Valid()
      ensures unconfirmed == map[] && lastId == 0 && notes == map[] && this.txns == txns
    {
      unconfirmed := map[];
      lastId := 0;
      notes := map[];
      this.txns := txns;
    }

    /** `RegisterUnconfirmedNote`: encrypt the nullifier, then insert the
        commitment, the encrypted nullifier and the txn id under a fresh row
        id, which is returned. A failed encryption inserts nothing. */
    method RegisterUnconfirmedNote(n: Note, hash: Hasher, sealer: Sealer, execOk: bool)
      returns (r: Result<int>)
      requires Valid()
      modifies this
      ensures Valid()
      ensures Seal(sealer, Nullifier(n, hash)).Err? ==>
                r == Err("failed to encrypt nullifier: " + Seal(sealer, Nullifier(n, hash)).msg)
      ensures r.Ok? <==> Seal(sealer, Nullifier(n, hash)).Ok? && execOk
      ensures r.Err? ==> unchanged(this)
      ensures r.Ok? ==>
                && r.value == old(lastId) + 1 && r.value !in old(unconfirmed)
                && unconfirmed == old(unconfirmed)[r.value := Unconfirmed(Commitment(n, hash), Seal(sealer, Nullifier(n, hash)).value, n.TxnID)]
                && lastId == r.value && notes == old(notes) && txns == old(txns)
    {
      var encrypted := Seal(sealer, Nullifier(n, hash));
      if encrypted.Err? {
        return Err("failed to encrypt nullifier: " + encrypted.msg);
      }
      if !execOk {
        return Err("failed to register unconfirmed note");
      }
      lastId := lastId + 1;
      unconfirmed := unconfirmed[lastId := Unconfirmed(Commitment(n, hash), encrypted.value, n.TxnID)];
      r := Ok(lastId);
    }

    /** `SaveNote`: a note without txn id or leaf index is refused before
        anything is encrypted or written; otherwise the row is inserted
        under the note's leaf index. `leaf_index` is the key of `notes`, so
        the insert fails for a leaf index already stored, as it does when
        the engine rejects the statement. */
    method SaveNote(n: Note, hash: Hasher, sealer: Sealer, execOk: bool) returns (r: Result<()>)
      modifies this
      ensures !IsConfirmed(n) ==> r == Err("malformed confirmed note")
      ensures IsConfirmed(n) && Seal(sealer, Nullifier(n, hash)).Err? ==>
                r == Err("failed to encrypt nullifier: " + Seal(sealer, Nullifier(n, hash)).msg)
      ensures IsConfirmed(n) && Seal(sealer, Nullifier(n, hash)).Ok? && n.LeafIndex in old(notes) ==>
                r == Err("failed to insert note")
      ensures r.Ok? <==> IsConfirmed(n) && Seal(sealer, Nullifier(n, hash)).Ok? && execOk && n.LeafIndex !in old(notes)
      ensures r.Err? ==> unchanged(this)
      ensures r.Ok? ==>
                && notes == old(notes)[n.LeafIndex := Saved(Commitment(n, hash), n.TxnID, Seal(sealer, Nullifier(n, hash)).value)]
                && unconfirmed == old(unconfirmed) && lastId == old(lastId) && txns == old(txns)
    {
      if !IsConfirmed(n) {
        return Err("malformed confirmed note");
      }
      var encrypted := Seal(sealer, Nullifier(n, hash));
      if encrypted.Err? {
        return Err("failed to encrypt nullifier: " + encrypted.msg);
      }
      if !execOk || n.LeafIndex in notes {
        return Err("failed to insert note");
      }
      notes := notes[n.LeafIndex := Saved(Commitment(n, hash), n.TxnID, encrypted.value)];
      r := Ok(());
    }

    /** `DeleteUnconfirmedNote`: remove the row with this id, if any; a
        failing statement is only logged. */
    method DeleteUnconfirmedNote(id: int, execOk: bool)
      requires Valid()
      modifies this
      ensures Valid()
      ensures unconfirmed == if execOk then old(unconfirmed) - {id} else old(unconfirmed)
      ensures lastId == old(lastId) && notes == old(notes) && txns == old(txns)
    {
      if execOk {
        unconfirmed := unconfirmed - {id};
      }
    }

    /** `GetAllLeavesCommitments`: the commitments of `txns` read row by row
        in ascending leaf order. The driver's failures are inputs, and each
        is returned as it is: `queryErr` for the query, `scanErr(i)` for
        reading the i-th row, and `iterErr` for the error the iteration ends
        with. */
    method GetAllLeavesCommitments(queryErr: Option<string>, scanErr: nat -> Option<string>, iterErr: Option<string>)
      returns (r: Result<seq<seq<byte>>>)
      ensures queryErr.Some? ==> r == Err(queryErr.value)
      ensures r.Ok? <==> queryErr.None? && (forall i :: 0 <= i < |txns| ==> scanErr(i).None?) && iterErr.None?
      ensures forall j ::
                (queryErr.None? && 0 <= j < |txns| && scanErr(j).Some? && forall i :: 0 <= i < j ==> scanErr(i).None?)
                ==> r == Err(scanErr(j).value)
      ensures queryErr.None? && (forall i :: 0 <= i < |txns| ==> scanErr(i).None?) && iterErr.Some? ==>
                r == Err(iterErr.value)
      ensures r.Ok? ==> |r.value| == |txns|
      ensures r.Ok? ==> exists rows: seq<TxnRow> :: AllLeavesOrder(txns, rows) && |rows| == |r.value|
                          && forall i :: 0 <= i < |rows| ==> r.value[i] == rows[i].commitment
    {
      if queryErr.Some? {
        return Err(queryErr.value);
      }
      var rows := SortByLeaf(txns);
      SortByLeafAscending(txns);
      var commitments := [];
      for i := 0 to |rows|
        invariant |commitments| == i
        invariant forall k :: 0 <= k < i ==> commitments[k] == rows[k].commitment
        invariant forall k :: 0 <= k < i ==> scanErr(k).None?
      {
        if scanErr(i).Some? {
          return Err(scanErr(i).value);
        }
        commitments := commitments + [rows[i].commitment];
      }
      if iterErr.Some? {
        return Err(iterErr.value);
      }
      assert AllLeavesOrder(txns, rows);
      r := Ok(commitments);
    }
  }

  /** `rows` lists every row of the table once, in ascending leaf order. */
  predicate AllLeavesOrder(txns: seq<TxnRow>, rows: seq<TxnRow>)
  {
    multiset(rows) == multiset(txns) && AscendingByLeaf(rows)
  }

  /** The result of `GetLeafIndexByCommitment`: a leaf index,
      `sql.ErrNoRows`, or any other database error. */
  datatype Lookup = Found(leafIndex: u64) | NoRows | QueryError

  /** `GetLeafIndexByCommitment`: the leaf index of a row with this
      commitment, `sql.ErrNoRows` when there is none, and the driver's error
      when the query fails (`queryOk` false). */
  function LeafIndexByCommitment(queryOk: bool, txns: seq<TxnRow>, commitment: seq<byte>): Lookup
  {
    if queryOk then FirstLeafWith(txns, commitment) else QueryError
  }

  /** The leaf index of the first row in storage order with this
      commitment. */
  function FirstLeafWith(txns: seq<TxnRow>, commitment: seq<byte>): Lookup
  {
    if txns == [] then NoRows
    else if txns[0].commitment == commitment then Found(txns[0].leafIndex)
    else FirstLeafWith(txns[1..], commitment)
  }

  /** A failed query is a query error. Otherwise the lookup finds a row
      exactly when one has the commitment, and then returns that row's leaf
      index; when none has it, the answer is `sql.ErrNoRows`. */
  lemma LeafIndexByCommitmentSpec(queryOk: bool, txns: seq<TxnRow>, commitment: seq<byte>)
    ensures var r := LeafIndexByCommitment(queryOk, txns, commitment);
            && (r == QueryError <==> !queryOk)
            && (r.Found? <==> queryOk && exists i :: 0 <= i < |txns| && txns[i].commitment == commitment)
            && (r.Found? ==> TxnRow(r.leafIndex, commitment) in txns)
            && (r == NoRows <==> queryOk && forall i :: 0 <= i < |txns| ==> txns[i].commitment != commitment)
  {
    FirstLeafWithSpec(txns, commitment);
  }

  lemma {:induction false} FirstLeafWithSpec(txns: seq<TxnRow>, commitment: seq<byte>)
    ensures var r := FirstLeafWith(txns, commitment);
            && (r.Found? <==> exists i :: 0 <= i < |txns| && txns[i].commitment == commitment)
            && (r.Found? ==> TxnRow(r.leafIndex, commitment) in txns)
            && (!r.Found? ==> r == NoRows)
  {
    if txns != [] && txns[0].commitment != commitment {
      FirstLeafWithSpec(txns[1..], commitment);
      assert forall i :: 1 <= i < |txns| ==> txns[i] == txns[1..][i - 1];
      if FirstLeafWith(txns[1..], commitment).Found? {
        var i :| 0 <= i < |txns[1..]| && txns[1..][i].commitment == commitment;
        assert txns[i + 1].commitment == commitment;
      }
    }
  }

}
