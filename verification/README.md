# HermesVault frontend: a Dafny model of its core

HermesVault is a shielded-notes service for Algorand. A deposit creates a
secret note (an amount and two random nonces). The note's MiMC commitment
goes into an on-chain Merkle tree. A later withdrawal proves knowledge of a
note and publishes its nullifier. This project models the parts of the Go
web service, the Python subscriber and the operator scripts that are about
values: amounts, notes, byte layouts, and the small state machines around
them. It proves what those parts promise.

The project has one Dafny module per source file, plus three shared ones:

- `Base`: bytes, `u64`, `Option`/`Result`, big-endian words, and Python
  slicing and indexing.
- `Strings`: decimal and hex text, Go's `TrimSpace`/`Trim`, and
  `strings.Split`.
- `Nacl`: the NaCl box as an oracle, and the 56-byte frame header
  `ephemeralPub(32) ‖ nonce(24)`.

What the model takes as parameters instead of computing:

- The MiMC hash (`config.Hash`) is a function-typed parameter `Hasher`.
- `CalculateWithdrawalFee` is a parameter `FeePolicy`.
- The NaCl box (Curve25519-XSalsa20-Poly1305) is a record of three functions
  with a `Sound` predicate. Only the round-trip lemmas assume it.
- X25519 and the address encoder are parameters.
- Every random draw is an input, as an `Option` wherever the source can fail
  to draw.

Files, SQL tables, HTTP forms and node answers are values handed to the
model:

- a table is a `map` or a `seq` of rows;
- a file is its contents or its read error;
- a statement the SQL engine may refuse has an `execOk` flag.

Code that changes state step by step is imperative Dafny. This covers the
following:

- the `.env` loader, the key clamp, `Encrypt`/`Decrypt`, and the migration
  and report loops;
- the database store (`Db.Store`) and the session store;
- the subscriber's service state, and the algod client;
- the files the integration driver writes.

Each such method is proved against a specification function, and the
lemmas are about that function.

Two constants come from config/smartcontracts.go: the nonce size is 31,
and `DepositMinFeeMultiplier` is 56.

The following values are not defined in any of the source files, so the
model assumes them:

- `transaction.MinTxnFee` is 1000 microalgos. It is a constant of the
  Algorand Go SDK, which the source only uses (config/smartcontracts.go:36,
  handlers/confirm_deposit.go:134).
- The withdrawal fee divisor and minimum are 1000 and 1000 microalgos,
  following the comment at models/amount.go:35.
- `EmptyLeafIndex` is the largest uint64. The source only uses it, at
  models/note.go:35 and db/db.go:43. The choice matters: if it were 0, `SaveNote`
  would refuse a note at leaf 0.
- `EmptyTxnId` is "". The source only uses it, at db/db.go:42.

## Model

| member | source | states |
|---|---|---|
| Amounts.CalculateFee | models/amount.go:36-38 | the fee is never below the minimum fee nor below amount/divisor, and is one of the two, so it is their maximum |
| Amounts.CalculateFeeMonotone | models/amount.go:36-38 | a larger withdrawal never has a smaller fee |
| Amounts.AddThousandSeparators | models/amount.go:63-81 | the byte-appending loop produces the decimal digits of n grouped in threes from the right (`Grouped`) |
| Amounts.GroupedRemoveCommas | models/amount.go:63-81 | deleting the commas from the grouped text gives back the decimal digits |
| Amounts.GroupedShape | models/amount.go:68-79 | the text has (digits−1)/3 commas; a comma sits at exactly every fourth place from the right; the first group has 1–3 digits and every later group 3 |
| Amounts.ShortNumbersHaveNoComma | models/amount.go:64-67 | a number of at most three digits is left without a comma |
| Amounts.Fraction | models/amount.go:43-47 | the fraction is at most 6 digits with no trailing '0'; it is empty iff the remainder is 0; right-padded to 6 digits it reads back as the remainder |
| Amounts.MicroAlgosToAlgoString | models/amount.go:41-52 | the text contains '.' iff the amount is not a whole number of algos |
| Amounts.AlgoStringRoundTrip | models/amount.go:41-52 | reading the text back (commas dropped, fraction padded to 6 digits, whole × 10^6 + fraction) gives the microalgos |
| Amounts.NewAmount | models/amount.go:55-60 | the amount keeps the microalgos, and its text is the algo string rendered from them |
| Amounts.NewAmountReadsBack | models/amount.go:55-60 | the text of a new amount reads back to exactly its microalgos |
| Amounts.Fee | models/amount.go:17-20 | the fee amount is consistent, carries `CalculateFee` of the withdrawal, and is at least the minimum fee |
| Amounts.RoundHalfUp | models/amount.go:25-29 | the rounded whole algos are the nearest whole number, with a remainder of 500 000 or more rounding up |
| Amounts.Round | models/amount.go:23-32 | microalgos are unchanged; the text is the rounded whole algos with thousand separators, which without commas is their decimal |
| Notes.NewNote | models/note.go:30-37 | amount and both nonces are copied; the leaf index is the empty marker, so the note is unconfirmed |
| Notes.GenerateNote | models/note.go:19-28 | a note is produced exactly when both nonces could be drawn, and it is `NewNote` of them |
| Notes.Text | models/note.go:39-41 | the text is 140 lowercase hex characters: 16 for the amount, then 62 for each nonce |
| Notes.TextDeterminesNote | models/note.go:39-41 | equal texts mean equal amount, K and R |
| Notes.AmountWord | models/note.go:103-107 | the amount word is 32 bytes |
| Notes.AmountWordValue | models/note.go:103-107 | the big-endian value of the 32-byte word is the amount |
| Notes.AmountWordInjective | models/note.go:103-107 | different amounts give different words |
| Notes.Uint64ToBytes32 | models/note.go:103-107 | the buffer filled in place is 32 bytes and holds the amount word |
| Notes.NullifierInputs | models/note.go:43-46 | the nullifier hashes two 32-byte inputs: the amount word and 0x00‖K |
| Notes.LeafInputs | models/note.go:52-58 | the leaf value hashes three 32-byte inputs: the amount word, 0x00‖K and 0x00‖R |
| Notes.NullifierIgnoresR | models/note.go:43-46 | the nullifier does not depend on R, the leaf index or the txn id |
| Notes.LeafInputsInjective | models/note.go:52-58 | equal leaf inputs mean equal amount, K and R |
| Notes.CommitmentBinds | models/note.go:48-58 | for a collision-free hash, equal commitments mean equal amount, K and R |
| Notes.NullifierBinds | models/note.go:43-46 | for a collision-free hash, equal nullifiers mean equal amount and K |
| Notes.MaxWithdrawalAmount | models/note.go:60-66 | the maximum is 0 iff the note does not exceed its fee; otherwise it plus the fee is the note amount; never above the note amount |
| Notes.GenerateChangeNote | models/note.go:73-88 | "overflow in deduction" iff withdrawal + fee wraps uint64; "note amount too small" iff it does not wrap but exceeds the note; on success change + withdrawal + fee = note amount and the change note is unconfirmed |
| Parse.ParseTxnResult | subscriber-service/parse.py:12-30 | a return log parses iff it is 44 bytes; the leaf index fits uint64 and the root is 32 bytes |
| Parse.TxnResultRoundTrip | subscriber-service/parse.py:22-30 | parsing prefix4 ‖ be64(i) ‖ root32 gives (i, root), whatever the prefix |
| Parse.GetByte32 | subscriber-service/parse.py:100-106 | the element is at most 32 bytes, is exactly 32 iff the array reaches its end, and is then bytes [2+32·pos, 2+32·pos+32) |
| Parse.GetByte32OfEncoded | subscriber-service/parse.py:100-106 | on an ARC-4 encoded `byte[32][]`, element i is the i-th encoded element |
| Parse.DecodeAddress | subscriber-service/parse.py:53-56 | an address decodes iff it is 32 bytes |
| Parse.DepositArgs | subscriber-service/parse.py:33-58 | succeeds iff there are four arguments and args[3] is 32 bytes; amount = public input 0, commitment = public input 1 of args[2], and the address encodes args[3] |
| Parse.DepositArgsRoundTrip | subscriber-service/parse.py:44-58 | the arguments of a well-formed deposit call parse to its commitment, depositor and amount |
| Parse.WithdrawArgs | subscriber-service/parse.py:61-98 | succeeds iff there are at least five arguments and the 1-based reference minus one is a valid Python index; commitment, nullifier, amount and fee are public inputs 3, 4, 1 and 2 |
| Parse.WithdrawArgsRoundTrip | subscriber-service/parse.py:80-98 | the six arguments of a well-formed withdraw call (selector, proof, public inputs, fee account, recipient, `no_change`) parse to its public inputs and the account its reference names, whatever the flag |
| Parse.WithdrawReferenceZeroSelectsLast | subscriber-service/parse.py:92-96 | reference 0 does not fail: it selects the last foreign account |
| Nacl.Frame | db/encrypt/encrypt.go:61-64 | the frame is 56 + len(sealed) bytes: ephemeral key at [0,32), nonce at [32,56), the sealed box after |
| Nacl.SplitFrame | db/encrypt/encrypt.go:73-86 | a blob splits iff it has at least 56 bytes, and it is the frame of its three parts |
| Nacl.SplitFrameInverts | db/encrypt/encrypt.go:61-86 | splitting a frame gives back the key, nonce and sealed box it was built from |
| Encrypt.LoadPublicKey | db/encrypt/encrypt.go:23-41 | the key file loads iff it has at least 32 bytes, and the key is its first 32 |
| Encrypt.Encrypt | db/encrypt/encrypt.go:44-67 | encryption fails only when a random draw fails; the output splits into the ephemeral public key, the nonce and the sealed box |
| Encrypt.EncryptedLength | db/encrypt/encrypt.go:58-64 | with a sound box the output is 56 + len(nullifier) + 16 bytes |
| Encrypt.DecryptSpec | db/encrypt/encrypt.go:71-117 | a blob under 56 bytes is "ciphertext too short"; a plaintext is returned only for a seed that hex-decodes, after trimming, to exactly 32 bytes |
| Encrypt.CopyInto | db/encrypt/encrypt.go:78-83 | the fixed array holds the first bytes of the source |
| Encrypt.Decrypt | db/encrypt/encrypt.go:71-117 | the method with its fixed-size copies computes `DecryptSpec` |
| Encrypt.ShortCiphertextIgnoresSeed | db/encrypt/encrypt.go:73-75 | a short blob is rejected whatever seed is typed, or if none is |
| Encrypt.FailedOpenIsError | db/encrypt/encrypt.go:111-114 | a box that does not open gives "decryption failed" and no plaintext |
| Encrypt.EncryptDecryptRoundTrip | db/encrypt/encrypt.go:44-117 | with a sound box, decrypting an encryption under the matching seed gives back the nullifier |
| GenerateKey.Clamped | db/encrypt/generate-key/generate_key.go:33-35 | the clamped key clears the low three bits of byte 0, clears bit 7 and sets bit 6 of byte 31, and keeps every other bit |
| GenerateKey.ClampIdempotent | db/encrypt/generate-key/generate_key.go:33-35 | clamping twice is clamping once |
| GenerateKey.Clamp | db/encrypt/generate-key/generate_key.go:33-35 | the in-place updates leave the buffer holding the clamped key |
| GenerateKey.Generate | db/encrypt/generate-key/generate_key.go:26-43 | keys are produced iff the random read and X25519 succeed; the seed is the 64 lowercase hex digits of the clamped key and the public key is X25519 of it |
| GenerateKey.SeedHexDecodes | db/encrypt/generate-key/generate_key.go:37 | the printed seed hex-decodes to the clamped key |
| EncryptNullifiers.LoadPublicKey | scripts/encrypt_nullifiers.py:18-24 | the key file loads iff it is exactly 32 bytes |
| EncryptNullifiers.EncryptNullifier | scripts/encrypt_nullifiers.py:26-55 | None stays None; any other output is at least 56 bytes |
| EncryptNullifiers.SameFrameAsGo | scripts/encrypt_nullifiers.py:50-55 | the script builds the same frame as the Go `Encrypt` for the same draws |
| EncryptNullifiers.EncryptedIsClassifiedEncrypted | scripts/encrypt_nullifiers.py:57-67 | every output of `encrypt_nullifier` is classified as encrypted |
| EncryptNullifiers.SelectUpdates | scripts/encrypt_nullifiers.py:104-132 | the loop's update list is `Selected`: one update per row classified unencrypted, in row order |
| EncryptNullifiers.ApplyUpdate | scripts/encrypt_nullifiers.py:138 | an UPDATE keeps the table's length and keys, sets the nullifier of every row with the update's key, and leaves every other row unchanged |
| EncryptNullifiers.ApplyAll | scripts/encrypt_nullifiers.py:135-143 | `executemany` keeps the table's length and keys |
| EncryptNullifiers.ApplyAllRows | scripts/encrypt_nullifiers.py:135-143 | after `executemany` each row holds the nullifier of the last update naming its key, and a row no update names is unchanged |
| EncryptNullifiers.MigrateRow | scripts/encrypt_nullifiers.py:106-115 | a migrated row keeps its key and is classified encrypted; an already-encrypted row is unchanged |
| EncryptNullifiers.Migrated | scripts/encrypt_nullifiers.py:100-143 | after migration every row is classified encrypted, keys are kept, and already-encrypted rows are unchanged |
| EncryptNullifiers.ApplySelected | scripts/encrypt_nullifiers.py:134-143 | applying the selected updates to a table with unique keys gives exactly `Migrated` |
| EncryptNullifiers.SecondRunSelectsNothing | scripts/encrypt_nullifiers.py:106-132 | a second migration run selects no row, whatever random draws it makes |
| EncryptNullifiers.Migrate | scripts/encrypt_nullifiers.py:87-154 | a bad key file exits 1 with the tables unchanged; a dry run exits 0 unchanged; otherwise both tables are migrated and the exit code is 0 |
| UnspentNotes.DecryptNullifier | scripts/unspent_notes.py:13-47 | None stays None; a blob under 56 bytes comes back unchanged; anything other than the blob is returned only from a well-formed frame and a key that is 32 bytes of hex |
| UnspentNotes.DecryptAgreesWithGo | scripts/unspent_notes.py:25-47 | for a frame and a key without surrounding blanks, the script returns what the Go `Decrypt` returns, or the blob where Go reports an error |
| UnspentNotes.DecryptsGoEncryption | scripts/unspent_notes.py:13-47 | with a sound box, a nullifier encrypted by the Go service decrypts under the operator key |
| UnspentNotes.TrimIntSpace | scripts/unspent_notes.py:57 | the text `int(hex_part, 16)` parses has none of the white space it skips at either end: the six ASCII blanks, and Unicode white space from U+007F up |
| UnspentNotes.TrimIntSpaceStrips | scripts/unspent_notes.py:57 | `int` skips only white space, and only at the ends: what it parses is an infix between runs of skipped white space |
| UnspentNotes.TrimIntSpaceOf | scripts/unspent_notes.py:57 | text without white space at its ends, surrounded by skipped white space, is exactly what `int` parses |
| UnspentNotes.ParseHexInt | scripts/unspent_notes.py:57 | a parsed value has magnitude below 16^len |
| UnspentNotes.ParseHexIntOf | scripts/unspent_notes.py:57 | skipped white space, a sign, a `0x`/`0X` prefix, hex digits of either case and skipped white space parse to the digits' value, negated after '-' |
| UnspentNotes.SeparatorFirstIsInvalid | scripts/unspent_notes.py:57 | a text that starts with one of the separators U+001C..U+001F is not a number, because `int` does not skip them |
| UnspentNotes.ExtractAmountRejectsSeparator | scripts/unspent_notes.py:54-57 | `extract_amount` on U+001C followed by fifteen digits is a ValueError |
| UnspentNotes.ParseLowerHex | scripts/unspent_notes.py:57 | a non-empty lowercase hex text parses to its hex value |
| UnspentNotes.ExtractAmount | scripts/unspent_notes.py:49-58 | under 16 characters is a ValueError; a parsed amount lies strictly between −2^64 and 2^64 |
| UnspentNotes.ExtractAmountOfText | scripts/unspent_notes.py:54-57 | reading the amount from a Go note text gives the note's amount |
| UnspentNotes.PlaceholderHasNoAmount | scripts/unspent_notes.py:104-107 | the "N/A" placeholder of a missing debug note cannot be read as an amount |
| UnspentNotes.FindSpenderSpec | scripts/unspent_notes.py:77-81 | a spending withdrawal is found iff the nullifier is not NULL and some withdrawal row names it; the returned leaf is that row's |
| UnspentNotes.ChainStep | scripts/unspent_notes.py:72-129 | one turn: no spender, or a spender without a note, ends with nothing; an unreadable amount fails with the reader's error; an amount of 0 or less ends with nothing; a positive amount on an unspent change note ends with that change; a positive amount on a spent one moves on to its nullifier; a reported change is reportable |
| UnspentNotes.ChainSound | scripts/unspent_notes.py:60-129 | every change note the chain returns is reportable (positive amount, unspent, its own debug text); an unspent start returns nothing |
| UnspentNotes.ChainFirstStop | scripts/unspent_notes.py:72-129 | when the turn reached after k moves, k below the bound, stops, the chain returns that stop: its change, nothing, or its error |
| UnspentNotes.ChainReaches | scripts/unspent_notes.py:72-129 | every result of the chain is the stop of a turn within the bound, and every error is a failed turn or the exhausted bound |
| UnspentNotes.ChainFindsUnspentChange | scripts/unspent_notes.py:119-126 | a chain that reaches a note whose spender's change is positive and unspent returns that change |
| UnspentNotes.FollowChangeChain | scripts/unspent_notes.py:60-129 | the `while True` loop computes `Chain` |
| UnspentNotes.ValidateKey | scripts/unspent_notes.py:145-152 | the key is accepted iff it is hex for exactly 32 bytes, and then it is those bytes; a key beyond ASCII stops with `unhexlify`'s uncaught ValueError; an ASCII key that is not hex gets the hex error |
| UnspentNotes.DepositsOf | scripts/unspent_notes.py:167-172 | a row is selected iff it is a deposit of the address |
| UnspentNotes.DepositsOfAppend | scripts/unspent_notes.py:167-172 | the selection keeps table order: selecting from two runs of rows concatenates their selections |
| UnspentNotes.ReportDepositSound | scripts/unspent_notes.py:174-227 | a deposit contributes at most one sound record, a "deposit" record carrying the deposit amount; an unspent deposit contributes itself with its debug text; a spent one contributes the change its chain ends on, nothing, or the chain's error |
| UnspentNotes.ReportSound | scripts/unspent_notes.py:174-227 | the report has at most one record per deposit, each naming an unspent note with its debug text |
| UnspentNotes.ReportComplete | scripts/unspent_notes.py:174-227 | the report succeeds iff every deposit's records do; an error is that of the first failing deposit; a successful report holds every deposit's records |
| UnspentNotes.ReportListsUnspent | scripts/unspent_notes.py:174-227 | a successful report lists every unspent deposit as a "deposit" record and every change note a spent deposit's chain ends on as a "change" record |
| UnspentNotes.UnspentFunds | scripts/unspent_notes.py:145-227 | a bad key is the key error; otherwise the loop's records are `Report` over the address's deposits |
| UnspentNotes.ReportErrorPersists | scripts/unspent_notes.py:174-227 | an error on one deposit is the error of the whole report |
| Db.StoredIsNotRaw | db/db.go:16-29 | with a sound box, the stored nullifier is 72 bytes longer than the raw one, is never the raw one, and decrypts to it under the operator key |
| Db.InsertByLeaf | db/db.go:81 | inserting a row adds exactly that row |
| Db.InsertByLeafAscending | db/db.go:81 | inserting into rows in ascending leaf order keeps the order |
| Db.SortByLeaf | db/db.go:81 | `ORDER BY leaf_index` is a permutation of the table |
| Db.SortByLeafAscending | db/db.go:81 | `ORDER BY leaf_index ASC` is ascending |
| Db.Store.constructor | db/db.go:14-39 | the tables start empty and the row ids are valid |
| Db.Store.RegisterUnconfirmedNote | db/db.go:14-39 | a failed encryption or statement inserts nothing; otherwise the row (commitment, encrypted nullifier, txn id) is inserted under a fresh id, which is returned, and no other table changes |
| Db.Store.SaveNote | db/db.go:41-68 | a note without txn id or leaf index is refused before anything is written; a leaf index already stored is "failed to insert note"; success iff the note is confirmed, sealed, new and the statement runs, and then the row is stored under the note's leaf index and nothing else changes |
| Db.Store.DeleteUnconfirmedNote | db/db.go:111-118 | only the row with that id is removed, and a failing statement changes nothing and reports nothing |
| Db.Store.GetAllLeavesCommitments | db/db.go:79-102 | a failed query, the first failed row scan, or the error the iteration ends with is returned as it is; otherwise the commitments are those of a listing of every row once, in ascending leaf order |
| Db.LeafIndexByCommitmentSpec | db/db.go:70-77 | a failed query gives the driver's error; otherwise a leaf index is found iff some row has the commitment, and it is that row's, and the result is `sql.ErrNoRows` iff no row has it |
| ConfirmDeposit.StatusFor | handlers/confirm_deposit.go:120-188 | Rejected, OverSpend and MinimumBalanceRequirement → 422; Expired and WaitTimeout → 408; Internal → 500 |
| ConfirmDeposit.MaxSpend | handlers/confirm_deposit.go:133-139 | the largest deposit is 0 iff the balance does not exceed 56 × 1000; otherwise it plus that amount is the balance; it never exceeds the balance |
| ConfirmDeposit.MaxSpendMonotone | handlers/confirm_deposit.go:133-139 | a larger balance never allows a smaller deposit |
| ConfirmDeposit.FailureReply | handlers/confirm_deposit.go:120-188 | the reply to each failure kind has the status `StatusFor` gives |
| ConfirmDeposit.DeferredAsWritten | handlers/confirm_deposit.go:110-115 | the closure as written dereferences nil iff confirmation succeeded and saving failed, and deletes iff (no error and saved) or the error is not a timeout |
| ConfirmDeposit.ConfirmedButUnsavedDereferencesNil | handlers/confirm_deposit.go:110-115 | a confirmed deposit whose note could not be saved reaches the nil dereference |
| ConfirmDeposit.KeepUnconfirmed | handlers/confirm_deposit.go:106-109 | the record is kept iff the confirmation timed out, or the deposit was confirmed but not saved |
| ConfirmDeposit.KeepUnconfirmedAgrees | handlers/confirm_deposit.go:106-115 | wherever the written closure does not fault it makes the same decision, and at the faulting input the corrected one keeps the record |
| ConfirmDeposit.InvalidFields | handlers/confirm_deposit.go:35-52 | the concatenated messages are empty iff every field parsed |
| ConfirmDeposit.MatchesIff | handlers/confirm_deposit.go:83-84 | the form matches the pending deposit iff microalgos, address, amount and both nonces agree |
| ConfirmDeposit.Sessions.constructor | handlers/confirm_deposit.go:73 | the store holds the given pending deposits |
| ConfirmDeposit.ConfirmedNote | handlers/confirm_deposit.go:196 | the saved note is the pending one with the leaf index the network reported |
| ConfirmDeposit.Settle | handlers/confirm_deposit.go:99-221 | after registration a failed send is answered with `FailureReply` and leaves the notes alone, a confirmed one is answered 200; the record is either kept or removed, nothing else in the unconfirmed table changes |
| ConfirmDeposit.SettleKeepsRecord | handlers/confirm_deposit.go:106-115 | the registered record survives iff the send timed out, or a confirmed note could not be saved, or the delete fails |
| ConfirmDeposit.SettleSavesNote | handlers/confirm_deposit.go:196-220 | the notes table changes only for a confirmed deposit whose note is saved, and then gains exactly one row, under the reported leaf index, which was not stored before, with the pending note's commitment and txn id |
| ConfirmDeposit.SendAndSettle | handlers/confirm_deposit.go:99-221 | the reply and both tables end as `Settle` says; row ids and the txns table are untouched |
| ConfirmDeposit.ConfirmDepositHandler | handlers/confirm_deposit.go:20-221 | every guard answers with its status and changes nothing; from the session lookup on, the entry is consumed even on a mismatch; a mismatch registers nothing; a failed registration answers 500 and changes no table; after registration the reply and tables are `Settle`'s, applied to the tables with the new record under the next row id |
| Withdraw.InvalidFields | handlers/withdraw.go:36-52 | the concatenated messages are empty iff every field parsed |
| Withdraw.ClassifyCases | handlers/withdraw.go:61-92 | `ErrNoRows` → not found; other lookup error → lookup failed; "note amount too small" → too small, quoting the maximum; a change note → confirm with that note |
| Withdraw.ClassifyConserves | handlers/withdraw.go:65-77 | a confirmed withdrawal conserves value (change + amount + withdrawal fee = note); a too-small note cannot cover amount and fee, and the quoted maximum does not exceed it |
| Withdraw.OutcomeWrite | handlers/withdraw.go:63-92 | not found and too small → 422; lookup or generation failure → 500; only a change note renders the confirmation page |
| Withdraw.WithdrawalData.constructor | handlers/withdraw.go:53-59 | the data carries the amount, the fee the handler computes with `Fee`, the address and the note, with no change note |
| Withdraw.Respond | handlers/withdraw.go:53-92 | the reply is the outcome's; the held note has the scanned leaf index (0 when the query fails); the change note is set only on success |
| Withdraw.WithdrawPost | handlers/withdraw.go:28-93 | a form that does not parse writes 400 and goes on; an invalid field writes 422 with the messages and reads no table; otherwise the reply is `Respond`'s and the data holds the amount's `Fee` |
| MaxDeposit.MicroAlgosToInputAmount | handlers/max_deposit.go:47-56 | the value contains '.' iff there is a fraction, and never a comma |
| MaxDeposit.InputAmountIsAlgoStringWithoutCommas | handlers/max_deposit.go:47-56 | the input value is the algo string with its thousand separators removed |
| MaxDeposit.InputAmountRoundTrip | handlers/max_deposit.go:47-56 | read back as a decimal number of algos, the input value is the amount |
| MaxDeposit.MaxDepositReply | handlers/max_deposit.go:13-45 | non-GET → 405, else empty address → 400, else invalid address → 422, else a failed computation → 500, else 200 with the input value |
| Config.ParseLine | config/config.go:74-91 | a stored entry has a key without surrounding white space and a value without surrounding quotes |
| Config.Entry | config/config.go:87-91 | the stored key has no surrounding white space and the stored value no surrounding quotes |
| Config.ParseLineSome | config/config.go:74-91 | a line contributes iff, trimmed, it is not blank, not a comment and has an '='; the entry is the trimmed text before the first '=' and the trimmed, unquoted text after it |
| Config.ParseLineRoundTrip | config/config.go:74-91 | a key without '=', comment prefix or blank ends, joined by '=' to a value without blank or quote ends, parses back to that key and value |
| Config.LaterEqualsBelongToTheValue | config/config.go:81 | only the first '=' splits: `key=a=b` gives the value `a=b` |
| Strings.TrimSpaceStrips | config/config.go:74 | `TrimSpace` removes only white space at the ends, and all of it |
| Strings.TrimStrips | config/config.go:91 | `Trim` removes only cut-set characters at the ends, and all of them |
| Strings.StrippedUnique | config/config.go:87-91 | the infix left by removing all droppable characters at both ends is unique, so the trims return the longest infix with kept ends |
| Config.EnvOfEntries | config/config.go:73-96 | every stored key and value is what some line of the file produced, so keys are never surrounded by white space |
| Config.LastDefinitionWins | config/config.go:93 | a key's value is that of the last line defining it |
| Config.LoadEnv | config/config.go:63-97 | an open error is passed on; otherwise the scanning loop builds `EnvOf` of the lines |
| Config.InitPaths | config/config.go:45-56 | the settings exist iff the file loaded, and each setting is the value of its own key, "" when undefined |
| Config.SettingIsLastDefinition | config/config.go:51-55 | a setting is the value of the last line defining it |
| Config.SettingUndefinedIsEmpty | config/config.go:51-55 | a setting no line defines is "" |
| FileOps.Pick | test/fileops.go:29-30 | one turn of the loop keeps a line exactly as trimmed, and never an empty one |
| FileOps.FirstValidAt | test/fileops.go:28-34 | the selection is line i, trimmed, exactly when it is the first line that is neither blank nor a comment |
| FileOps.FirstValidNone | test/fileops.go:28-37 | nothing is selected iff no line qualifies; a selected line is never empty |
| FileOps.FirstValidIgnoresRest | test/fileops.go:32 | lines after the first qualifying one are never examined |
| FileOps.ReadCiphertext | test/fileops.go:19-37 | a read error is wrapped; otherwise the loop, which stops at the first qualifying line, selects `FirstValid` of the newline-separated lines, or fails with "no valid mnemonic found in file" |
| FileOps.NotePathInjective | test/fileops.go:74 | within one directory, notes of different transactions go to different files |
| FileOps.Files.constructor | test/fileops.go:73-80 | no file is written yet |
| FileOps.Files.SaveNoteToFile | test/fileops.go:73-80 | a write error is wrapped and nothing is written; otherwise the file `filesDir + TxnID` holds the note's text and no other file changes |
| Avm.NetBalance | avm/avm.go:86 | the net balance plus the minimum balance is the balance modulo 2^64, exactly when there is no wrap |
| Avm.NetBalanceWraps | avm/avm.go:86 | a minimum balance above the balance wraps to 2^64 − (minimum − balance), above the balance itself |
| Avm.GetNetBalance | avm/avm.go:79-87 | a node error is wrapped; otherwise the result is the wrapped net balance |
| Avm.LocalhostUrl | avm/avm.go:110-115 | an address not starting with "[::]" is kept; one that does becomes "localhost:" followed by the text after its last ':' |
| Avm.ReadAlgodConfigFromDir | avm/avm.go:103-125 | either read error is wrapped with its own message; the URL is "http://" + the trimmed, rewritten address, and the token is trimmed |
| Avm.ListenAllBecomesLocalhost | avm/avm.go:109-124 | a node file holding `[::]:port` yields `http://localhost:port` |
| Avm.ListenAllPort | avm/avm.go:110-115 | "[::]:port" becomes "localhost:port" |
| Avm.ClientSource | avm/avm.go:27-43 | empty path → devnet; a path containing "http" → that URL with the configured token; otherwise a node directory |
| Avm.Client.constructor | avm/avm.go:24 | the client starts unset |
| Avm.Client.Init | avm/avm.go:26-52 | the client is connected to the source `ClientSource` picks; an unreadable node directory is fatal, with the message wrapped, and leaves the client unset |
| Subscriber.InitialWatermark | subscriber-service/main.py:63-70 | with catchup the watermark is the catchup block, even a lower one; otherwise it is the maximum of the stored watermark and the creation block |
| Subscriber.InitialWatermarkNeverLowers | subscriber-service/main.py:68-70 | without catchup the watermark never goes back, and is unchanged when already past the creation block |
| Subscriber.RecordDeposit | subscriber-service/main.py:76-94 | a deposit is saved iff the last log and the arguments parse; note and deposit share the log's leaf index; the root and block are recorded |
| Subscriber.RecordWithdrawal | subscriber-service/main.py:96-111 | a withdrawal is saved iff the last log and the arguments parse; it carries nullifier, amount, fee and recipient with the note's leaf index |
| Subscriber.RecordOtherFilter | subscriber-service/main.py:76-111 | another filter saves nothing, but still fails without a well-formed last log |
| Subscriber.Service.constructor | subscriber-service/main.py:40-41 | the service starts from the stored watermark with no saves |
| Subscriber.Service.SetWatermark | subscriber-service/main.py:46-49 | the in-memory and the stored watermark both take the new value |
| Subscriber.Service.Init | subscriber-service/main.py:51-70 | the app id is read and the watermark, in memory and stored, becomes `InitialWatermark` of the stored one |
| Subscriber.Service.HandleTransaction | subscriber-service/main.py:72-111 | the save the transaction calls for is appended, if any; an error saves nothing; the watermark is untouched |

## Left out

- Cryptography is assumed, not modelled. MiMC, the NaCl box, X25519, the
  ed25519 account keys and `crypto/rand` are parameters. The binding lemmas
  assume a collision-free hash (`CollisionFree`) and the round trips a sound
  box.
- I/O is not modelled, and neither is process control:
  - file reads and writes, terminal prompts, argparse;
  - SQL execution, HTTP writers and templates;
  - logging, `log.Fatalf` and `sys.exit`.
  Their results are inputs, and fatal errors are result values.
- Base64, msgpack and the ABI address checksum are given as decoded values
  or as a parameter.
- Config.LoadEnv: the scanner's 64 KiB line limit and `scanner.Err()` are
  not modelled. A file is its sequence of lines, or the error opening it.
- Encrypt.DecryptSpec: a failed terminal read is `None`. The error texts
  leave out the formatted detail (`%v`, the length actually read).
- Db.Store: the error texts leave out their formatted detail: the note
  printed by `%v` and the driver error wrapped by `%w`. That gives
  "malformed confirmed note", "failed to register unconfirmed note" and
  "failed to insert note".
- Db.Store.SaveNote: `leaf_index` is taken to be the key of `notes`, so
  inserting a leaf index that is already stored fails. The table's schema
  is not among the source files; the lookups by `leaf_index` in
  scripts/unspent_notes.py:90 and the update in
  scripts/encrypt_nullifiers.py:138 treat it as the key.
- Db.Store.RegisterUnconfirmedNote: the row id is the next integer. The
  `LastInsertId` error and SQLite's rowid reuse are not modelled.
- Db.Store.GetAllLeavesCommitments: the row at which an iteration error
  stops the loop is not modelled. An early stop and a stop after the last
  row both return the error of `rows.Err()`, and the rows read are dropped
  in both cases, so the result is the same.
- Db.Store: the debug-notes insert is commented out in the source and is
  not modelled. `GetRoot`, `GetStats` and `Close` are outside the core.
- ConfirmDeposit.ConfirmDepositHandler has the following gaps:
  - `SendDepositToNetwork`, `GetNetBalance` and the session store's locking
    are inputs;
  - the HTML dialog around each message is dropped;
  - the success page is written before `SaveNote`, which the reply
    `Reply(200, …)` records;
  - a txn-id mismatch is only logged, so it is not modelled.
- Withdraw.WithdrawPost: the confirmation template's own execution error is
  not modelled. The GET branch and the method check are HTTP plumbing.
- Withdraw: the `models.Input` parsers, which turn text into an amount, an
  address or a note, are not among the source files. Each parsed field is
  an `Option`.
- MaxDeposit.MaxDepositReply: `maxDepositAmount` and the address parser
  are inputs. `html.EscapeString` is the identity on digits and '.'.
- UnspentNotes.FollowChangeChain stops with an error after `fuel` steps. The
  script's loop has no bound; a chain longer than the fuel is not modelled.
- UnspentNotes.DecryptNullifier: `binascii.unhexlify` accepts the same hex
  as `HexDecode` here. Its error on non-ASCII text falls into the same
  fallback.
- UnspentNotes.ParseHexInt does not accept Python's digit-group underscores,
  nor the non-ASCII decimal digits (such as U+0663) that `int(s, 16)` also
  accepts. The text it reads is hex printed by the Go service.
- The printing of the report, including its floating-point algo display, is
  not modelled.
- Subscriber.Service.HandleTransaction: `db.retry` and the database writes
  themselves are a list of saves. The subscriber framework that calls the
  handler is not modelled.
- Subscriber.Service.Init: reading the application file and
  `db.initialize_db` are inputs.
- Avm.Client.Init: `algod.MakeClient` errors and the devnet client's
  settings are not modelled. `CompileTealFromFile` and `abiEncode` are
  outside the core.
- FileOps.ReadCiphertext: the mnemonic decryption that follows, and
  `saveAccountToFile`, depend on the ed25519 and mnemonic libraries and are
  not modelled.
- FileOps.Files.SaveNoteToFile: a failed `os.WriteFile` is taken to write
  nothing. A partial write is not modelled.
- Amounts.Round returns the updated amount instead of updating through the
  pointer, so aliasing of the receiver is not modelled.
- Notes.Uint64ToBytes32 fills a fresh array. The generation of random nonces
  is an input.

## Findings

| source | as written | input that shows it | evidently intended | confidence | as-written member | corrected member |
|---|---|---|---|---|---|---|
| handlers/confirm_deposit.go:110-115 | the deferred condition reads `confirmationError.Type` whenever its first disjunct is false, including when `confirmationError` is nil | the deposit is confirmed (`confirmationError == nil`) and `SaveNote` fails: the closure dereferences a nil pointer and panics | keep the unconfirmed record for the cleanup process, as the comment at lines 106-109 says, and delete it otherwise unless the send timed out | not executed | ConfirmDeposit.ConfirmedButUnsavedDereferencesNil | ConfirmDeposit.KeepUnconfirmed |
