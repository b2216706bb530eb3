/** The one-time migration that encrypts plaintext nullifiers already in
    the database (scripts/encrypt_nullifiers.py). Tables are sequences of
    rows in the order SELECT returns them; a NULL nullifier is None. The
    random ephemeral key and nonce used for the row at position i are
    `draw(i)`. */
module EncryptNullifiers {
  import opened Base
  import opened Nacl
  import Encrypt

  datatype Row = Row(key: int, nullifier: Option<seq<byte>>)
  datatype Update = Update(nullifier: Option<seq<byte>>, key: int)
  datatype Draw = Draw(ephemeral: Key, nonce: BoxNonce)

  /** `load_public_key`: the key file must hold exactly 32 bytes (unlike the
      Go loader, which reads the first 32 of a longer file). */
  function LoadPublicKey(file: seq<byte>): (r: Result<Key>)
    ensures r.Ok? <==> |file| == KeySize
    ensures r.Ok? ==> r.value == file
  {
    if |file| != KeySize then Err("Invalid public key size")
    else
      var key: Key := file;
      Ok(key)
  }

  /** `encrypt_nullifier`: None stays None; otherwise the box sealed with a
      fresh ephemeral key, framed as public key ‖ nonce ‖ ciphertext. */
  function EncryptNullifier(nullifier: Option<seq<byte>>, recipient: Key, box: BoxScheme, d: Draw)
    : (r: Option<seq<byte>>)
    ensures r.None? <==> nullifier.None?
    ensures r.Some? ==> |r.value| >= FrameHeaderSize
  {
    match nullifier
    case None => None
    case Some(n) => Some(Frame(box.publicKey(d.ephemeral), d.nonce, box.seal(n, d.nonce, recipient, d.ephemeral)))
  }

  /** The Python frame is byte for byte the Go frame for the same key pair
      and nonce. */
  lemma SameFrameAsGo(n: seq<byte>, recipient: Key, box: BoxScheme, d: Draw)
    ensures EncryptNullifier(Some(n), recipient, box, d)
            == Some(Encrypt.EncryptSpec(box, recipient, n, Some(d.ephemeral), Some(d.nonce)).value)
  {
  }

  /** `is_nullifier_encrypted`: NULL counts as encrypted (it is skipped);
      otherwise anything of at least 56 bytes does. */
  predicate IsNullifierEncrypted(nullifier: Option<seq<byte>>)
  {
    nullifier.None? || |nullifier.value| >= FrameHeaderSize
  }

  /** Every output of `encrypt_nullifier` is classified encrypted. */
  lemma EncryptedIsClassifiedEncrypted(nullifier: Option<seq<byte>>, recipient: Key, box: BoxScheme, d: Draw)
    ensures IsNullifierEncrypted(EncryptNullifier(nullifier, recipient, box, d))
  {
  }

  /** The update list built by the loop over a table's rows. */
  function Selected(rows: seq<Row>, recipient: Key, box: BoxScheme, draw: nat -> Draw): seq<Update>
  {
    if rows == [] then []
    else
      var last := rows[|rows| - 1];
      Selected(rows[..|rows| - 1], recipient, box, draw)
      + (if IsNullifierEncrypted(last.nullifier) then []
         else [Update(EncryptNullifier(last.nullifier, recipient, box, draw(|rows| - 1)), last.key)])
  }

  /** The loop of `main` over one table: rows classified unencrypted get an
      update with their freshly encrypted nullifier; others are skipped. */
  method SelectUpdates(rows: seq<Row>, recipient: Key, box: BoxScheme, draw: nat -> Draw)
    returns (toUpdate: seq<Update>)
    ensures toUpdate == Selected(rows, recipient, box, draw)
  {
    toUpdate := [];
    for i := 0 to |rows|
      invariant toUpdate == Selected(rows[..i], recipient, box, draw)
    {
      assert rows[..i + 1][..i] == rows[..i];
      var row := rows[i];
      if !IsNullifierEncrypted(row.nullifier) {
        var encrypted := EncryptNullifier(row.nullifier, recipient, box, draw(i));
        toUpdate := toUpdate + [Update(encrypted, row.key)];
      }
    }
    assert rows[..|rows|] == rows;
  }

  /** Table keys (leaf_index, id) are primary keys. */
  predicate UniqueKeys(rows: seq<Row>)
  {
    forall i, j :: 0 <= i < j < |rows| ==> rows[i].key != rows[j].key
  }

  /** `UPDATE … SET nullifier = ? WHERE key = ?` for one update: every row
      with that key takes the new nullifier, every other row is left as it
      was, and no row is added, removed or moved. */
  function ApplyUpdate(rows: seq<Row>, u: Update): (r: seq<Row>)
    ensures |r| == |rows|
    ensures forall i :: 0 <= i < |rows| ==> r[i].key == rows[i].key
    ensures forall i :: 0 <= i < |rows| && rows[i].key == u.key ==> r[i].nullifier == u.nullifier
    ensures forall i :: 0 <= i < |rows| && rows[i].key != u.key ==> r[i] == rows[i]
  {
    seq(|rows|, i requires 0 <= i < |rows| =>
      if rows[i].key == u.key then Row(u.key, u.nullifier) else rows[i])
  }

  /** The nullifier the last update naming `key` sets, if any update names it. */
  function LastSetFor(us: seq<Update>, key: int): Option<Option<seq<byte>>>
  {
    if us == [] then None
    else if us[|us| - 1].key == key then Some(us[|us| - 1].nullifier)
    else LastSetFor(us[..|us| - 1], key)
  }

  /** `executemany` over an update list, in order: a row no update names is
      left as it was, and a row named by some update holds the nullifier of
      the last update naming it. */
  function ApplyAll(rows: seq<Row>, us: seq<Update>): (r: seq<Row>)
    ensures |r| == |rows|
    ensures forall i :: 0 <= i < |rows| ==> r[i].key == rows[i].key
    decreases |us|
  {
    if us == [] then rows else ApplyAll(ApplyUpdate(rows, us[0]), us[1..])
  }

  /** Each row of the result is determined by the updates naming its key. */
  lemma {:induction false} ApplyAllRows(rows: seq<Row>, us: seq<Update>)
    ensures forall i :: 0 <= i < |rows| ==>
              ApplyAll(rows, us)[i] == match LastSetFor(us, rows[i].key)
                                       case None => rows[i]
                                       case Some(n) => Row(rows[i].key, n)
    decreases |us|
  {
    if us != [] {
      var last := us[|us| - 1];
      var init := us[..|us| - 1];
      ApplyAllRows(rows, init);
      assert init + [last] == us;
      ApplyAllAppend(rows, init, last);
    }
  }

  /** The table after the migration: rows classified unencrypted hold their
      encrypted nullifier, every other row is unchanged, and afterwards
      every row is classified encrypted. */
  function Migrated(rows: seq<Row>, recipient: Key, box: BoxScheme, draw: nat -> Draw): (r: seq<Row>)
    ensures |r| == |rows|
    ensures forall i :: 0 <= i < |rows| ==> r[i].key == rows[i].key
    ensures forall i :: 0 <= i < |rows| && IsNullifierEncrypted(rows[i].nullifier) ==> r[i] == rows[i]
    ensures forall i :: 0 <= i < |rows| ==> IsNullifierEncrypted(r[i].nullifier)
  {
    MigratedPrefix(rows, |rows|, recipient, box, draw)
  }

  /** The table with only its first n rows migrated. */
  function MigratedPrefix(rows: seq<Row>, n: nat, recipient: Key, box: BoxScheme, draw: nat -> Draw)
    : (r: seq<Row>)
    requires n <= |rows|
    ensures |r| == |rows|
    ensures forall i :: 0 <= i < |rows| ==> r[i].key == rows[i].key
    ensures forall i :: 0 <= i < |rows| && IsNullifierEncrypted(rows[i].nullifier) ==> r[i] == rows[i]
    ensures forall i :: 0 <= i < n ==> IsNullifierEncrypted(r[i].nullifier)
    ensures forall i :: n <= i < |rows| ==> r[i] == rows[i]
  {
    var r := seq(|rows|, i requires 0 <= i < |rows| =>
      if i >= n then rows[i] else MigrateRow(rows[i], recipient, box, draw(i)));
    assert forall i :: 0 <= i < n ==> r[i] == MigrateRow(rows[i], recipient, box, draw(i));
    r
  }

  /** One row as the migration leaves it. */
  function MigrateRow(row: Row, recipient: Key, box: BoxScheme, d: Draw): (r: Row)
    ensures r.key == row.key && IsNullifierEncrypted(r.nullifier)
    ensures IsNullifierEncrypted(row.nullifier) ==> r == row
  {
    if IsNullifierEncrypted(row.nullifier) then row
    else Row(row.key, EncryptNullifier(row.nullifier, recipient, box, d))
  }

  lemma {:induction false} ApplyAllAppend(rows: seq<Row>, us: seq<Update>, u: Update)
    ensures ApplyAll(rows, us + [u]) == ApplyUpdate(ApplyAll(rows, us), u)
    decreases |us|
  {
    if us != [] {
      assert (us + [u])[1..] == us[1..] + [u];
      ApplyAllAppend(ApplyUpdate(rows, us[0]), us[1..], u);
    }
  }

  /** The update of row n-1 migrates that row and, keys being unique, no other. */
  lemma ApplyUpdateStep(rows: seq<Row>, n: nat, recipient: Key, box: BoxScheme, draw: nat -> Draw)
    requires UniqueKeys(rows) && 0 < n <= |rows|
    requires !IsNullifierEncrypted(rows[n - 1].nullifier)
    ensures ApplyUpdate(MigratedPrefix(rows, n - 1, recipient, box, draw),
                        Update(EncryptNullifier(rows[n - 1].nullifier, recipient, box, draw(n - 1)), rows[n - 1].key))
            == MigratedPrefix(rows, n, recipient, box, draw)
  {
  }

  lemma SelectedSnoc(rows: seq<Row>, n: nat, recipient: Key, box: BoxScheme, draw: nat -> Draw)
    requires 0 < n <= |rows|
    ensures var last := rows[n - 1];
            Selected(rows[..n], recipient, box, draw)
            == if IsNullifierEncrypted(last.nullifier) then Selected(rows[..n - 1], recipient, box, draw)
               else Selected(rows[..n - 1], recipient, box, draw)
                    + [Update(EncryptNullifier(last.nullifier, recipient, box, draw(n - 1)), last.key)]
  {
    assert rows[..n][..n - 1] == rows[..n - 1];
    var earlier := Selected(rows[..n - 1], recipient, box, draw);
    assert earlier + [] == earlier;
  }

  /** A row already classified encrypted is left as it is. */
  lemma MigratedPrefixSkip(rows: seq<Row>, n: nat, recipient: Key, box: BoxScheme, draw: nat -> Draw)
    requires 0 < n <= |rows| && IsNullifierEncrypted(rows[n - 1].nullifier)
    ensures MigratedPrefix(rows, n - 1, recipient, box, draw) == MigratedPrefix(rows, n, recipient, box, draw)
  {
  }

  lemma {:induction false} ApplySelectedPrefix(rows: seq<Row>, n: nat, recipient: Key, box: BoxScheme, draw: nat -> Draw)
    requires UniqueKeys(rows) && n <= |rows|
    ensures ApplyAll(rows, Selected(rows[..n], recipient, box, draw)) == MigratedPrefix(rows, n, recipient, box, draw)
  {
    if n == 0 {
      assert rows[..0] == [];
      assert MigratedPrefix(rows, 0, recipient, box, draw) == rows;
    } else {
      ApplySelectedPrefix(rows, n - 1, recipient, box, draw);
      var earlier := Selected(rows[..n - 1], recipient, box, draw);
      var last := rows[n - 1];
      SelectedSnoc(rows, n, recipient, box, draw);
      if !IsNullifierEncrypted(last.nullifier) {
        var u := Update(EncryptNullifier(last.nullifier, recipient, box, draw(n - 1)), last.key);
        ApplyAllAppend(rows, earlier, u);
        ApplyUpdateStep(rows, n, recipient, box, draw);
      } else {
        MigratedPrefixSkip(rows, n, recipient, box, draw);
      }
    }
  }

  /** Applying the selected updates migrates exactly the rows classified
      unencrypted. */
  lemma ApplySelected(rows: seq<Row>, recipient: Key, box: BoxScheme, draw: nat -> Draw)
    requires UniqueKeys(rows)
    ensures ApplyAll(rows, Selected(rows, recipient, box, draw)) == Migrated(rows, recipient, box, draw)
  {
    ApplySelectedPrefix(rows, |rows|, recipient, box, draw);
    assert rows[..|rows|] == rows;
  }

  lemma {:induction false} NothingSelectedPrefix(rows: seq<Row>, n: nat, recipient: Key, box: BoxScheme, draw: nat -> Draw)
    requires n <= |rows|
    requires forall i :: 0 <= i < |rows| ==> IsNullifierEncrypted(rows[i].nullifier)
    ensures Selected(rows[..n], recipient, box, draw) == []
  {
    if n > 0 {
      assert rows[..n][..n - 1] == rows[..n - 1];
      NothingSelectedPrefix(rows, n - 1, recipient, box, draw);
    }
  }

  /** A second run of the migration selects no row. */
  lemma SecondRunSelectsNothing(rows: seq<Row>, recipient: Key, box: BoxScheme, draw: nat -> Draw, draw2: nat -> Draw)
    ensures Selected(Migrated(rows, recipient, box, draw), recipient, box, draw2) == []
  {
    var m := Migrated(rows, recipient, box, draw);
    NothingSelectedPrefix(m, |m|, recipient, box, draw2);
    assert m[..|m|] == m;
  }

  datatype Outcome = Outcome(notes: seq<Row>, unconfirmedNotes: seq<Row>, exitCode: int)

  /** `main` after the file-existence checks: load the key (exit 1 when it
      is malformed), select the updates of both tables, and apply them unless
      this is a dry run. */
  method Migrate(keyFile: seq<byte>, notes: seq<Row>, unconfirmedNotes: seq<Row>, dryRun: bool,
                 box: BoxScheme, drawNotes: nat -> Draw, drawUnconfirmed: nat -> Draw)
    returns (out: Outcome)
    requires UniqueKeys(notes) && UniqueKeys(unconfirmedNotes)
    ensures LoadPublicKey(keyFile).Err? ==> out == Outcome(notes, unconfirmedNotes, 1)
    ensures LoadPublicKey(keyFile).Ok? && dryRun ==> out == Outcome(notes, unconfirmedNotes, 0)
    ensures LoadPublicKey(keyFile).Ok? && !dryRun ==>
      var key := LoadPublicKey(keyFile).value;
      out == Outcome(Migrated(notes, key, box, drawNotes),
                     Migrated(unconfirmedNotes, key, box, drawUnconfirmed), 0)
  {
    var loaded := LoadPublicKey(keyFile);
    if loaded.Err? {
      return Outcome(notes, unconfirmedNotes, 1);
    }
    var publicKey := loaded.value;
    var notesToUpdate := SelectUpdates(notes, publicKey, box, drawNotes);
    var unconfirmedToUpdate := SelectUpdates(unconfirmedNotes, publicKey, box, drawUnconfirmed);
    var newNotes, newUnconfirmed := notes, unconfirmedNotes;
    if !dryRun {
      newNotes := ApplyAll(notes, notesToUpdate);
      newUnconfirmed := ApplyAll(unconfirmedNotes, unconfirmedToUpdate);
      ApplySelected(notes, publicKey, box, drawNotes);
      ApplySelected(unconfirmedNotes, publicKey, box, drawUnconfirmed);
    }
    return Outcome(newNotes, newUnconfirmed, 0);
  }
}
