/** The operator's report of unspent funds for an address
    (scripts/unspent_notes.py). The two SQLite databases are given as
    values: the `txns` table as a sequence of rows in table order, and the
    `notes` and `debug_notes` tables as maps keyed by leaf index. */
module UnspentNotes {
  import opened Base
  import opened Strings
  import opened Nacl
  import Encrypt
  import Notes

  const DepositTxn: int := 0
  const WithdrawalTxn: int := 1

  // ------------------------------------------------------------ decryption

  /** `decrypt_nullifier`: None stays None; a blob shorter than 56 bytes is
      taken to be a plaintext nullifier and returned as is; any failure (a
      key that is not hex, not 32 bytes, or a box that does not open)
      returns the blob unchanged. */
  function DecryptNullifier(encrypted: Option<seq<byte>>, privateKeyHex: string, box: BoxScheme)
    : (r: Option<seq<byte>>)
    ensures encrypted.None? ==> r.None?
    ensures encrypted.Some? && |encrypted.value| < FrameHeaderSize ==> r == encrypted
    ensures r.Some? && r != encrypted ==>
              && encrypted.Some? && |encrypted.value| >= FrameHeaderSize
              && HexDecode(privateKeyHex).Some? && |HexDecode(privateKeyHex).value| == KeySize
  {
    match encrypted
    case None => None
    case Some(blob) =>
      if |blob| < FrameHeaderSize then encrypted
      else
        match HexDecode(privateKeyHex)
        case None => encrypted
        case Some(privateKey) =>
          if |privateKey| != KeySize then encrypted
          else
            match box.open(blob[56..], blob[32..56], blob[..32], privateKey)
            case None => encrypted
            case Some(nullifier) => Some(nullifier)
  }

  /** For a key typed without surrounding blanks, the script decrypts what the
      Go `Decrypt` decrypts and keeps the blob wherever Go reports an error
      other than a short frame. */
  lemma DecryptAgreesWithGo(blob: seq<byte>, privateKeyHex: string, box: BoxScheme)
    requires |blob| >= FrameHeaderSize
    requires TrimSpace(privateKeyHex) == privateKeyHex
    ensures DecryptNullifier(Some(blob), privateKeyHex, box)
            == match Encrypt.DecryptSpec(box, blob, Some(privateKeyHex))
               case Ok(m) => Some(m)
               case Err(_) => Some(blob)
  {
    var parts := SplitFrame(blob).value;
    assert parts == Split(blob[..32], blob[32..56], blob[56..]);
    var go := Encrypt.DecryptSpec(box, blob, Some(privateKeyHex));
    match HexDecode(privateKeyHex)
    case None =>
      assert go == Err("failed to decode seed");
    case Some(seed) =>
      if |seed| != KeySize {
        assert go == Err("invalid seed length: expected 32 bytes");
      } else {
        assert go == match box.open(parts.sealed, parts.nonce, parts.ephemeralPublic, seed)
                     case None => Err("decryption failed")
                     case Some(m) => Ok(m);
      }
  }

  /** A nullifier encrypted by the Go service comes back in the clear under
      the operator key. */
  lemma DecryptsGoEncryption(box: BoxScheme, operatorPrivate: Key, nullifier: seq<byte>,
                             ephemeral: Key, nonce: BoxNonce)
    requires Sound(box)
    ensures DecryptNullifier(
              Some(Encrypt.EncryptSpec(box, box.publicKey(operatorPrivate), nullifier, Some(ephemeral), Some(nonce)).value),
              HexBytes(operatorPrivate), box)
            == Some(nullifier)
  {
    var sealed := box.seal(nullifier, nonce, box.publicKey(operatorPrivate), ephemeral);
    var blob := Frame(box.publicKey(ephemeral), nonce, sealed);
    assert blob[56..] == sealed && blob[32..56] == nonce && blob[..32] == box.publicKey(ephemeral);
    HexBytesRoundTrip(operatorPrivate);
  }

  // ------------------------------------------------------------ amounts

  /** The blanks C's `isspace` accepts in the default locale: space, tab,
      line feed, vertical tab, form feed and carriage return. */
  const AsciiBlanks: set<char> := {' ', '\t', '\n', '\U{000B}', '\U{000C}', '\r'}

  /** The white space `int(s, 16)` skips around the digits of a `str`.
      CPython first copies the text to ASCII: a character below 127 is kept
      as it is, and a white-space character from 127 up becomes ' '. The
      number parser then skips only the six ASCII blanks. So the separators
      U+001C..U+001F, which `str.isspace` accepts, are not skipped, while
      NEL, NBSP and the Unicode space separators are. From 127 up, Python's
      white space is the same set as Go's `unicode.IsSpace`. */
  predicate IsIntSpace(c: char)
  {
    c in AsciiBlanks || (c as int >= 127 && IsSpace(c))
  }

  /** The text `int(s, 16)` parses once the white space at both ends is
      skipped. */
  function TrimIntSpace(s: string): (r: string)
    ensures |r| <= |s|
    ensures r != [] ==> !IsIntSpace(r[0]) && !IsIntSpace(r[|r| - 1])
  {
    TrimRightBy(TrimLeftBy(s, IsIntSpace), IsIntSpace)
  }

  /** Only white space is skipped, and only at the ends: the result is the
      one infix that `StrippedAt` allows. */
  lemma TrimIntSpaceStrips(s: string)
    ensures exists a :: StrippedAt(s, TrimIntSpace(s), a, IsIntSpace)
  {
    var left := TrimLeftBy(s, IsIntSpace);
    StripsBoth(s, left, TrimRightBy(left, IsIntSpace), IsIntSpace);
    assert StrippedAt(s, TrimIntSpace(s), |s| - |left|, IsIntSpace);
  }

  /** The text between runs of skipped white space is what is parsed. */
  lemma TrimIntSpaceOf(lead: string, core: string, trail: string)
    requires forall i :: 0 <= i < |lead| ==> IsIntSpace(lead[i])
    requires forall i :: 0 <= i < |trail| ==> IsIntSpace(trail[i])
    requires core != [] ==> !IsIntSpace(core[0]) && !IsIntSpace(core[|core| - 1])
    ensures TrimIntSpace(lead + core + trail) == core
  {
    var s := lead + core + trail;
    assert s[|lead|..|lead| + |core|] == core;
    forall i | |lead| + |core| <= i < |s| ensures IsIntSpace(s[i]) {
      assert s[i] == trail[i - |lead| - |core|];
    }
    assert StrippedAt(s, core, |lead|, IsIntSpace);
    TrimIntSpaceStrips(s);
    var a :| StrippedAt(s, TrimIntSpace(s), a, IsIntSpace);
    StrippedUnique(s, TrimIntSpace(s), a, core, |lead|, IsIntSpace);
  }

  /** Python's `int(s, 16)` without digit-group underscores: white space
      as `IsIntSpace` defines it, an optional sign, an optional `0x`/`0X`
      prefix, at least one hex digit of either case, then white space. */
  function ParseHexInt(s: string): (r: Result<int>)
    ensures r.Ok? ==> -(Pow(16, |s|) as int) < r.value < Pow(16, |s|)
  {
    var r := ParseSigned(TrimIntSpace(s));
    PowMonotone(16, |TrimIntSpace(s)|, |s|);
    r
  }

  /** The same on text whose white space is already skipped. */
  function ParseSigned(t: string): (r: Result<int>)
    ensures r.Ok? ==> -(Pow(16, |t|) as int) < r.value < Pow(16, |t|)
  {
    var negative := |t| > 0 && t[0] == '-';
    var digits := HexDigitsOf(if |t| > 0 && (t[0] == '-' || t[0] == '+') then t[1..] else t);
    if digits == [] || !AllHex(digits) then Err("invalid literal for int() with base 16")
    else
      var magnitude := HexValue(digits);
      HexValueBound(digits);
      PowMonotone(16, |digits|, |t|);
      Ok(if negative then -(magnitude as int) else magnitude as int)
  }

  /** The value of every literal `int(_, 16)` accepts: white space, a sign,
      a `0x` or `0X` prefix, hex digits of either case, white space. The
      number is the digits' value, negated after a '-'. */
  lemma ParseHexIntOf(lead: string, sign: string, prefix: string, digits: string, trail: string)
    requires forall i :: 0 <= i < |lead| ==> IsIntSpace(lead[i])
    requires forall i :: 0 <= i < |trail| ==> IsIntSpace(trail[i])
    requires sign == "" || sign == "+" || sign == "-"
    requires prefix == "" || prefix == "0x" || prefix == "0X"
    requires digits != [] && AllHex(digits)
    ensures ParseHexInt(lead + sign + prefix + digits + trail)
            == Ok(if sign == "-" then -(HexValue(digits) as int) else HexValue(digits) as int)
  {
    StripLiteral(lead, sign, prefix, digits, trail);
    UnprefixedDigits(prefix, digits);
    ParseSignedAt(sign, prefix + digits, digits);
  }

  /** An information separator (U+001C..U+001F) in front is not skipped,
      so the text is not a number, whatever follows it. */
  lemma SeparatorFirstIsInvalid(sep: char, rest: string)
    requires '\U{001C}' <= sep <= '\U{001F}'
    ensures ParseHexInt([sep] + rest).Err?
  {
    var s := [sep] + rest;
    assert !IsIntSpace(s[0]);
    assert TrimLeftBy(s, IsIntSpace) == s;
    var t := TrimIntSpace(s);
    assert t[0] == sep;
    assert !IsHexDigit(HexDigitsOf(t)[0]);
  }

  /** `extract_amount` on a separator and fifteen digits raises ValueError. */
  lemma ExtractAmountRejectsSeparator()
    ensures ExtractAmount("\U{001C}000000000000001").Err?
  {
    var text := "\U{001C}000000000000001";
    assert Slice(text, 0, 16) == text == [text[0]] + text[1..];
    SeparatorFirstIsInvalid(text[0], text[1..]);
  }

  lemma StripLiteral(lead: string, sign: string, prefix: string, digits: string, trail: string)
    requires forall i :: 0 <= i < |lead| ==> IsIntSpace(lead[i])
    requires forall i :: 0 <= i < |trail| ==> IsIntSpace(trail[i])
    requires sign == "" || sign == "+" || sign == "-"
    requires prefix == "" || prefix == "0x" || prefix == "0X"
    requires digits != [] && AllHex(digits)
    ensures TrimIntSpace(lead + sign + prefix + digits + trail) == sign + (prefix + digits)
  {
    var core := sign + (prefix + digits);
    assert lead + sign + prefix + digits + trail == lead + core + trail;
    assert core[|core| - 1] == digits[|digits| - 1];
    assert core[0] == (if sign != "" then sign[0] else if prefix != "" then '0' else digits[0]);
    HexDigitNotIntSpace(digits[0]);
    HexDigitNotIntSpace(digits[|digits| - 1]);
    TrimIntSpaceOf(lead, core, trail);
  }

  lemma UnprefixedDigits(prefix: string, digits: string)
    requires prefix == "" || prefix == "0x" || prefix == "0X"
    requires digits != [] && AllHex(digits)
    ensures (prefix + digits)[0] != '-' && (prefix + digits)[0] != '+'
    ensures HexDigitsOf(prefix + digits) == digits
  {
    if prefix == "" {
      assert prefix + digits == digits;
      assert |digits| >= 2 ==> IsHexDigit(digits[1]);
    } else {
      assert (prefix + digits)[2..] == digits;
    }
  }

  /** `ParseSigned` on a sign followed by an unsigned literal. */
  lemma ParseSignedAt(sign: string, unsigned: string, digits: string)
    requires sign == "" || sign == "+" || sign == "-"
    requires unsigned != [] && unsigned[0] != '-' && unsigned[0] != '+'
    requires HexDigitsOf(unsigned) == digits && digits != [] && AllHex(digits)
    ensures ParseSigned(sign + unsigned)
            == Ok(if sign == "-" then -(HexValue(digits) as int) else HexValue(digits) as int)
  {
    var t := sign + unsigned;
    if sign == "" {
      assert t == unsigned;
    } else {
      assert t[0] == sign[0] && t[1..] == unsigned;
    }
  }

  /** `ParseSigned` on an unsigned literal. */
  lemma ParseUnsigned(unsigned: string, digits: string)
    requires unsigned != [] && unsigned[0] != '-' && unsigned[0] != '+'
    requires HexDigitsOf(unsigned) == digits && digits != [] && AllHex(digits)
    ensures ParseSigned(unsigned) == Ok(HexValue(digits) as int)
  {
  }

  lemma TrimIntSpaceNoop(s: string)
    requires s != [] ==> !IsIntSpace(s[0]) && !IsIntSpace(s[|s| - 1])
    ensures TrimIntSpace(s) == s
  {
  }

  lemma HexDigitNotIntSpace(c: char)
    requires IsHexDigit(c)
    ensures !IsIntSpace(c)
  {
  }

  /** The digits after an optional `0x` or `0X` prefix. */
  function HexDigitsOf(unsigned: string): (digits: string)
    ensures |digits| <= |unsigned|
  {
    if |unsigned| >= 2 && unsigned[0] == '0' && (unsigned[1] == 'x' || unsigned[1] == 'X')
    then unsigned[2..] else unsigned
  }

  lemma {:induction false} HexValueBound(s: string)
    requires AllHex(s)
    ensures HexValue(s) < Pow(16, |s|)
  {
    if s != [] {
      HexValueBound(s[..|s| - 1]);
    }
  }

  lemma {:induction false} PowMonotone(b: nat, e1: nat, e2: nat)
    requires b > 0 && e1 <= e2
    ensures Pow(b, e1) <= Pow(b, e2)
  {
    if e1 < e2 {
      PowMonotone(b, e1, e2 - 1);
    }
  }

  /** `extract_amount`: the integer written by the first 16 characters; fewer
      than 16 characters is a ValueError. */
  function ExtractAmount(secretNoteText: string): (r: Result<int>)
    ensures |secretNoteText| < 16 ==> r.Err?
    ensures r.Ok? ==> -TwoTo64 < r.value < TwoTo64
  {
    var hexPart := Slice(secretNoteText, 0, 16);
    if |hexPart| < 16 then Err("Not enough hex characters")
    else
      U64Powers();
      ParseHexInt(hexPart)
  }

  /** The script reads back the amount the Go note text starts with. */
  lemma ExtractAmountOfText(n: Notes.Note)
    ensures ExtractAmount(Notes.Text(n)) == Ok(n.Amount as int)
  {
    var text := Notes.Text(n);
    var hexPart := Slice(text, 0, 16);
    assert hexPart == HexFixed(n.Amount, 16);
    ParseLowerHex(hexPart);
    U64Powers();
    HexFixedRoundTrip(n.Amount, 16);
  }

  /** Lowercase hex digits parse as themselves: no blank to skip, and no sign or `0x`. */
  lemma ParseLowerHex(s: string)
    requires s != [] && IsLowerHex(s)
    ensures AllHex(s) && ParseHexInt(s) == Ok(HexValue(s) as int)
  {
    LowerHexNotSpace(s[0]);
    LowerHexNotSpace(s[|s| - 1]);
    assert s[0] != '-' && s[0] != '+';
    assert |s| >= 2 ==> s[1] != 'x' && s[1] != 'X';
    assert HexDigitsOf(s) == s;
    ParseUnsigned(s, s);
    TrimIntSpaceNoop(s);
  }

  lemma LowerHexNotSpace(c: char)
    requires ('0' <= c <= '9') || ('a' <= c <= 'f')
    ensures !IsIntSpace(c)
  {
  }

  /** The debug-note placeholder "N/A" cannot be read as an amount. */
  lemma PlaceholderHasNoAmount()
    ensures ExtractAmount("N/A").Err?
  {
  }

  // ------------------------------------------------------------ tables

  datatype Txn = Txn(txnType: int, leafIndex: int, address: string, amount: int,
                     fromNullifier: Option<seq<byte>>)

  datatype Tables = Tables(
    txns: seq<Txn>,
    notes: map<int, Option<seq<byte>>>,
    debugNotes: map<int, string>)

  /** `SELECT leaf_index FROM txns WHERE txn_type = 1 AND from_nullifier = ?`
      then `fetchone()`: the first withdrawal spending this nullifier. A NULL
      parameter matches nothing. */
  function FindSpender(txns: seq<Txn>, nullifier: Option<seq<byte>>): Option<int>
  {
    if txns == [] || nullifier.None? then None
    else if txns[0].txnType == WithdrawalTxn && txns[0].fromNullifier == nullifier then
      Some(txns[0].leafIndex)
    else FindSpender(txns[1..], nullifier)
  }

  predicate Spends(t: Txn, nullifier: Option<seq<byte>>)
  {
    t.txnType == WithdrawalTxn && t.fromNullifier == nullifier
  }

  /** The lookup finds a spender exactly when some withdrawal row names the
      (non-NULL) nullifier, and what it returns is that row's leaf index. */
  lemma {:induction false} FindSpenderSpec(txns: seq<Txn>, nullifier: Option<seq<byte>>)
    ensures FindSpender(txns, nullifier).None? <==>
              (nullifier.None? || forall i :: 0 <= i < |txns| ==> !Spends(txns[i], nullifier))
    ensures FindSpender(txns, nullifier).Some? ==>
              exists i :: 0 <= i < |txns| && Spends(txns[i], nullifier)
                          && txns[i].leafIndex == FindSpender(txns, nullifier).value
  {
    if txns != [] && nullifier.Some? && !Spends(txns[0], nullifier) {
      FindSpenderSpec(txns[1..], nullifier);
      assert forall i :: 1 <= i < |txns| ==> txns[i] == txns[1..][i - 1];
      if FindSpender(txns, nullifier).Some? {
        var j :| 0 <= j < |txns[1..]| && Spends(txns[1..][j], nullifier)
                 && txns[1..][j].leafIndex == FindSpender(txns, nullifier).value;
        assert txns[j + 1] == txns[1..][j];
      }
    }
  }

  /** `debug_note["text"] if debug_note else "N/A"`. */
  function SecretNote(t: Tables, leaf: int): string
  {
    if leaf in t.debugNotes then t.debugNotes[leaf] else "N/A"
  }

  /** How the script reads a stored nullifier and a note text; the script
      itself uses `ScriptReaders`. */
  datatype Readers = Readers(
    decrypt: Option<seq<byte>> -> Option<seq<byte>>,
    readAmount: string -> Result<int>)

  function ScriptReaders(privateKeyHex: string, box: BoxScheme): Readers
  {
    Readers(n => DecryptNullifier(n, privateKeyHex, box), ExtractAmount)
  }

  /** Whether the note at this leaf is unspent: no withdrawal names its
      decrypted nullifier. */
  predicate Unspent(t: Tables, leaf: int, rd: Readers)
  {
    leaf in t.notes && FindSpender(t.txns, rd.decrypt(t.notes[leaf])).None?
  }

  datatype Change = Change(amount: int, leafIndex: int, secretNote: string)

  // ------------------------------------------------------------ change chains

  /** What a reported change note satisfies: a positive amount read from its
      debug text, and no withdrawal spending it. */
  predicate Reportable(t: Tables, c: Change, rd: Readers)
  {
    && c.amount > 0
    && Unspent(t, c.leafIndex, rd)
    && c.secretNote == SecretNote(t, c.leafIndex)
    && rd.readAmount(c.secretNote) == Ok(c.amount)
  }

  /** One turn of the loop of `follow_change_chain`. */
  datatype Step = Done(result: Option<Change>) | Failed(msg: string) | Continue(next: Option<seq<byte>>)

  function ChainStep(t: Tables, current: Option<seq<byte>>, rd: Readers): (s: Step)
    ensures s.Done? && s.result.Some? ==> Reportable(t, s.result.value, rd)
    ensures FindSpender(t.txns, rd.decrypt(current)).None? ==> s == Done(None)
    ensures var spender := FindSpender(t.txns, rd.decrypt(current));
            spender.Some? && spender.value !in t.notes ==> s == Done(None)
    ensures var spender := FindSpender(t.txns, rd.decrypt(current));
            spender.Some? && spender.value in t.notes ==>
              var leaf := spender.value;
              var amount := rd.readAmount(SecretNote(t, leaf));
              && (amount.Err? ==> s == Failed(amount.msg))
              && (amount.Ok? && amount.value <= 0 ==> s == Done(None))
              && (amount.Ok? && amount.value > 0 && Unspent(t, leaf, rd) ==>
                    s == Done(Some(Change(amount.value, leaf, SecretNote(t, leaf)))))
              && (amount.Ok? && amount.value > 0 && !Unspent(t, leaf, rd) ==>
                    s == Continue(t.notes[leaf]))
  {
    match FindSpender(t.txns, rd.decrypt(current))
    case None => Done(None)
    case Some(changeLeaf) =>
      if changeLeaf !in t.notes then Done(None)
      else
        var secretNote := SecretNote(t, changeLeaf);
        match rd.readAmount(secretNote)
        case Err(e) => Failed(e)
        case Ok(changeAmount) =>
          if changeAmount <= 0 then Done(None)
          else if FindSpender(t.txns, rd.decrypt(t.notes[changeLeaf])).None? then
            Done(Some(Change(changeAmount, changeLeaf, secretNote)))
          else Continue(t.notes[changeLeaf])
  }

  /** The outcome of following the chain for at most `fuel` turns; a chain
      that would run longer is reported as an error. */
  function Chain(t: Tables, current: Option<seq<byte>>, rd: Readers, fuel: nat): Result<Option<Change>>
    decreases fuel
  {
    if fuel == 0 then Err("change chain longer than the step bound")
    else
      match ChainStep(t, current, rd)
      case Done(res) => Ok(res)
      case Failed(msg) => Err(msg)
      case Continue(next) => Chain(t, next, rd, fuel - 1)
  }

  /** A change note the chain returns has a positive amount read from its
      debug text and is itself unspent; a note nobody spent ends the chain
      with nothing to report. */
  lemma {:induction false} ChainSound(t: Tables, current: Option<seq<byte>>, rd: Readers, fuel: nat)
    ensures var r := Chain(t, current, rd, fuel);
            r.Ok? && r.value.Some? ==> Reportable(t, r.value.value, rd)
    ensures FindSpender(t.txns, rd.decrypt(current)).None? && fuel > 0 ==> Chain(t, current, rd, fuel) == Ok(None)
    decreases fuel
  {
    if fuel > 0 {
      var step := ChainStep(t, current, rd);
      if step.Continue? {
        ChainSound(t, step.next, rd, fuel - 1);
      }
    }
  }

  /** The note the chain has reached after `k` turns that each moved on to
      a spent change note; None when it stopped earlier. */
  ghost function After(t: Tables, current: Option<seq<byte>>, rd: Readers, k: nat): Option<Option<seq<byte>>>
    decreases k
  {
    if k == 0 then Some(current)
    else
      match ChainStep(t, current, rd)
      case Continue(next) => After(t, next, rd, k - 1)
      case _ => None
  }

  /** Completeness: when the chain first stops within the bound, `Chain`
      reports that stop, whether an unspent change note, nothing, or the
      amount reader's error. */
  lemma {:induction false} ChainFirstStop(t: Tables, current: Option<seq<byte>>, rd: Readers, fuel: nat, k: nat)
    requires k < fuel && After(t, current, rd, k).Some?
    requires !ChainStep(t, After(t, current, rd, k).value, rd).Continue?
    ensures var step := ChainStep(t, After(t, current, rd, k).value, rd);
            && (step.Done? ==> Chain(t, current, rd, fuel) == Ok(step.result))
            && (step.Failed? ==> Chain(t, current, rd, fuel) == Err(step.msg))
    decreases k
  {
    if k > 0 {
      var next := ChainStep(t, current, rd).next;
      assert After(t, current, rd, k) == After(t, next, rd, k - 1);
      ChainFirstStop(t, next, rd, fuel - 1, k - 1);
    }
  }

  /** The converse: every result of `Chain` is the stop of some turn within
      the bound, and every error is a failed turn or the exhausted bound. */
  lemma {:induction false} ChainReaches(t: Tables, current: Option<seq<byte>>, rd: Readers, fuel: nat)
    ensures Chain(t, current, rd, fuel).Ok? ==>
              exists k :: 0 <= k < fuel && After(t, current, rd, k).Some?
                          && ChainStep(t, After(t, current, rd, k).value, rd) == Done(Chain(t, current, rd, fuel).value)
    ensures Chain(t, current, rd, fuel).Err? ==>
              || (exists k :: 0 <= k < fuel && After(t, current, rd, k).Some?
                              && ChainStep(t, After(t, current, rd, k).value, rd) == Failed(Chain(t, current, rd, fuel).msg))
              || After(t, current, rd, fuel).Some?
    decreases fuel
  {
    if fuel > 0 {
      var step := ChainStep(t, current, rd);
      if step.Continue? {
        ChainReaches(t, step.next, rd, fuel - 1);
        var r := Chain(t, current, rd, fuel);
        assert r == Chain(t, step.next, rd, fuel - 1);
        assert After(t, current, rd, fuel) == After(t, step.next, rd, fuel - 1);
        if exists k :: 0 <= k < fuel - 1 && After(t, step.next, rd, k).Some?
                       && ChainStep(t, After(t, step.next, rd, k).value, rd) == (if r.Ok? then Done(r.value) else Failed(r.msg)) {
          var k :| 0 <= k < fuel - 1 && After(t, step.next, rd, k).Some?
                   && ChainStep(t, After(t, step.next, rd, k).value, rd) == (if r.Ok? then Done(r.value) else Failed(r.msg));
          assert After(t, current, rd, k + 1) == After(t, step.next, rd, k);
          assert 0 <= k + 1 < fuel && After(t, current, rd, k + 1).Some?
                 && ChainStep(t, After(t, current, rd, k + 1).value, rd) == (if r.Ok? then Done(r.value) else Failed(r.msg));
          assert r.Err? ==> exists k :: 0 <= k < fuel && After(t, current, rd, k).Some?
                              && ChainStep(t, After(t, current, rd, k).value, rd) == Failed(r.msg);
          assert r.Ok? ==> exists k :: 0 <= k < fuel && After(t, current, rd, k).Some?
                              && ChainStep(t, After(t, current, rd, k).value, rd) == Done(r.value);
        }
      } else {
        assert After(t, current, rd, 0) == Some(current);
        assert ChainStep(t, After(t, current, rd, 0).value, rd) == step;
        if step.Failed? {
          assert Chain(t, current, rd, fuel) == Err(step.msg);
          assert 0 < fuel && After(t, current, rd, 0).Some?;
          assert ChainStep(t, After(t, current, rd, 0).value, rd) == Failed(Chain(t, current, rd, fuel).msg);
        }
      }
    }
  }

  /** A spent note whose change chain reaches, within the bound, a spent
      note whose change is positive and unspent reports that change. */
  lemma ChainFindsUnspentChange(t: Tables, current: Option<seq<byte>>, rd: Readers, fuel: nat, k: nat, leaf: int, amount: int)
    requires k < fuel && After(t, current, rd, k).Some?
    requires FindSpender(t.txns, rd.decrypt(After(t, current, rd, k).value)) == Some(leaf)
    requires rd.readAmount(SecretNote(t, leaf)) == Ok(amount) && amount > 0 && Unspent(t, leaf, rd)
    ensures Chain(t, current, rd, fuel) == Ok(Some(Change(amount, leaf, SecretNote(t, leaf))))
  {
    ChainFirstStop(t, current, rd, fuel, k);
  }

  /** `follow_change_chain`: the `while True` loop moving `current` along
      spent change notes until one is unspent, or the chain ends. The
      `ValueError` of `extract_amount` is an error result. */
  method FollowChangeChain(t: Tables, start: Option<seq<byte>>, rd: Readers, fuel: nat)
    returns (r: Result<Option<Change>>)
    ensures r == Chain(t, start, rd, fuel)
  {
    var current := start;
    var remaining := fuel;
    while true
      invariant Chain(t, current, rd, remaining) == Chain(t, start, rd, fuel)
      decreases remaining
    {
      if remaining == 0 {
        return Err("change chain longer than the step bound");
      }
      var step := ChainStep(t, current, rd);
      if step.Done? {
        return Ok(step.result);
      } else if step.Failed? {
        return Err(step.msg);
      }
      current := step.next;
      remaining := remaining - 1;
    }
  }

  // ------------------------------------------------------------ report

  datatype Kind = DepositKind | ChangeKind
  datatype Record = Record(kind: Kind, amount: int, leafIndex: int, secretNote: string)

  predicate IsAscii(s: string)
  {
    forall i :: 0 <= i < |s| ==> s[i] as int < 128
  }

  /** Hex digits are ASCII, so text that decodes is ASCII. */
  lemma {:induction false} DecodableIsAscii(s: string)
    requires HexDecode(s).Some?
    ensures IsAscii(s)
  {
    if s != [] {
      DecodableIsAscii(s[2..]);
      assert forall i :: 2 <= i < |s| ==> s[i] == s[2..][i - 2];
    }
  }

  const NonAsciiKey := "ValueError: string argument should contain only ASCII characters"

  /** `main`'s key check: the key must be hex for exactly 32 bytes. A key
      with a character beyond ASCII makes `unhexlify` raise a `ValueError`
      that the check does not catch, so the script stops there. */
  function ValidateKey(privateKeyHex: string): (r: Result<seq<byte>>)
    ensures r.Ok? <==> HexDecode(privateKeyHex).Some? && |HexDecode(privateKeyHex).value| == KeySize
    ensures r.Ok? ==> r.value == HexDecode(privateKeyHex).value
    ensures !IsAscii(privateKeyHex) ==> r == Err(NonAsciiKey)
    ensures IsAscii(privateKeyHex) && HexDecode(privateKeyHex).None? ==>
              r == Err("Error: Private key must be a valid hex string")
  {
    if !IsAscii(privateKeyHex) then
      if HexDecode(privateKeyHex).Some? then DecodableIsAscii(privateKeyHex); Err(NonAsciiKey)
      else Err(NonAsciiKey)
    else
      match HexDecode(privateKeyHex)
      case None => Err("Error: Private key must be a valid hex string")
      case Some(bytes) =>
        if |bytes| != KeySize then Err("Error: Private key must be 32 bytes (64 hex characters)")
        else Ok(bytes)
  }

  predicate IsDepositOf(x: Txn, address: string)
  {
    x.txnType == DepositTxn && x.address == address
  }

  /** The deposits of one address: `SELECT … FROM txns WHERE txn_type = 0 AND address = ?`.
      Exactly the rows that are deposits of the address are returned. */
  function DepositsOf(txns: seq<Txn>, address: string): (r: seq<Txn>)
    ensures |r| <= |txns|
    ensures forall i :: 0 <= i < |r| ==> IsDepositOf(r[i], address)
    ensures forall x :: x in r <==> x in txns && IsDepositOf(x, address)
  {
    if txns == [] then []
    else
      var init, last := txns[..|txns| - 1], txns[|txns| - 1];
      assert txns == init + [last];
      DepositsOf(init, address) + (if IsDepositOf(last, address) then [last] else [])
  }

  /** The rows keep their table order: the deposits of two runs of rows
      are the deposits of the first followed by those of the second. */
  lemma {:induction false} DepositsOfAppend(a: seq<Txn>, b: seq<Txn>, address: string)
    ensures DepositsOf(a + b, address) == DepositsOf(a, address) + DepositsOf(b, address)
    decreases |b|
  {
    if b == [] {
      assert a + b == a;
    } else {
      var init, last := b[..|b| - 1], b[|b| - 1];
      assert (a + b)[..|a + b| - 1] == a + init;
      assert (a + b)[|a + b| - 1] == last;
      DepositsOfAppend(a, init, address);
    }
  }

  /** The records one deposit contributes: none when it has no note; the
      deposit itself when unspent; otherwise the end of its change chain,
      if any. */
  function ReportDeposit(t: Tables, d: Txn, rd: Readers, fuel: nat): Result<seq<Record>>
  {
    if d.leafIndex !in t.notes then Ok([])
    else if Unspent(t, d.leafIndex, rd) then
      Ok([Record(DepositKind, d.amount, d.leafIndex, SecretNote(t, d.leafIndex))])
    else
      match Chain(t, t.notes[d.leafIndex], rd, fuel)
      case Err(e) => Err(e)
      case Ok(None) => Ok([])
      case Ok(Some(c)) => Ok([Record(ChangeKind, c.amount, c.leafIndex, c.secretNote)])
  }

  /** What every reported record satisfies: its note is unspent; a deposit
      record carries the recorded deposit amount; a change record a positive
      amount read from the note text. */
  predicate SoundRecord(t: Tables, rec: Record, rd: Readers)
  {
    && Unspent(t, rec.leafIndex, rd)
    && (rec.kind == ChangeKind ==> rec.amount > 0 && rd.readAmount(rec.secretNote) == Ok(rec.amount))
    && rec.secretNote == SecretNote(t, rec.leafIndex)
  }

  /** Soundness: at most one record, sound, with a deposit record carrying
      the deposit's amount. Completeness: an unspent deposit is reported as
      itself, a spent one as the change its chain ends on, and an error of
      the chain is the deposit's error. */
  lemma ReportDepositSound(t: Tables, d: Txn, rd: Readers, fuel: nat)
    ensures var r := ReportDeposit(t, d, rd, fuel);
            r.Ok? ==> |r.value| <= 1 && forall rec :: rec in r.value ==> SoundRecord(t, rec, rd)
    ensures var r := ReportDeposit(t, d, rd, fuel);
            r.Ok? ==> forall rec :: rec in r.value && rec.kind == DepositKind ==> rec.amount == d.amount
    ensures Unspent(t, d.leafIndex, rd) ==>
              ReportDeposit(t, d, rd, fuel) == Ok([Record(DepositKind, d.amount, d.leafIndex, SecretNote(t, d.leafIndex))])
    ensures d.leafIndex in t.notes && !Unspent(t, d.leafIndex, rd) ==>
              var c := Chain(t, t.notes[d.leafIndex], rd, fuel);
              && (c.Err? ==> ReportDeposit(t, d, rd, fuel) == Err(c.msg))
              && (c.Ok? && c.value.None? ==> ReportDeposit(t, d, rd, fuel) == Ok([]))
              && (c.Ok? && c.value.Some? ==>
                    ReportDeposit(t, d, rd, fuel)
                    == Ok([Record(ChangeKind, c.value.value.amount, c.value.value.leafIndex, c.value.value.secretNote)]))
  {
    if d.leafIndex in t.notes && !Unspent(t, d.leafIndex, rd) {
      ChainSound(t, t.notes[d.leafIndex], rd, fuel);
    }
  }

  /** The results over a list of deposits, in order; the first error stops the script. */
  function Report(t: Tables, deposits: seq<Txn>, rd: Readers, fuel: nat): Result<seq<Record>>
  {
    if deposits == [] then Ok([])
    else
      match Report(t, deposits[..|deposits| - 1], rd, fuel)
      case Err(e) => Err(e)
      case Ok(earlier) =>
        match ReportDeposit(t, deposits[|deposits| - 1], rd, fuel)
        case Err(e) => Err(e)
        case Ok(more) => Ok(earlier + more)
  }

  /** At most one record per deposit, and every record names an unspent note. */
  lemma {:induction false} ReportSound(t: Tables, deposits: seq<Txn>, rd: Readers, fuel: nat)
    ensures var r := Report(t, deposits, rd, fuel);
            r.Ok? ==> |r.value| <= |deposits| && forall i :: 0 <= i < |r.value| ==> SoundRecord(t, r.value[i], rd)
  {
    if deposits != [] {
      ReportSound(t, deposits[..|deposits| - 1], rd, fuel);
      ReportDepositSound(t, deposits[|deposits| - 1], rd, fuel);
      var r := Report(t, deposits, rd, fuel);
      if r.Ok? {
        var earlier := Report(t, deposits[..|deposits| - 1], rd, fuel).value;
        var more := ReportDeposit(t, deposits[|deposits| - 1], rd, fuel).value;
        assert r.value == earlier + more;
        forall i | 0 <= i < |r.value|
          ensures SoundRecord(t, r.value[i], rd)
        {
          if i >= |earlier| {
            assert r.value[i] in more;
          }
        }
      }
    }
  }

  /** The report fails exactly when some deposit's record fails, and then
      with the first such error; otherwise every deposit's records are in
      it. */
  lemma {:induction false} ReportComplete(t: Tables, deposits: seq<Txn>, rd: Readers, fuel: nat)
    ensures Report(t, deposits, rd, fuel).Ok? <==>
              forall i :: 0 <= i < |deposits| ==> ReportDeposit(t, deposits[i], rd, fuel).Ok?
    ensures Report(t, deposits, rd, fuel).Err? ==>
              exists i :: 0 <= i < |deposits| && ReportDeposit(t, deposits[i], rd, fuel) == Err(Report(t, deposits, rd, fuel).msg)
                          && forall j :: 0 <= j < i ==> ReportDeposit(t, deposits[j], rd, fuel).Ok?
    ensures Report(t, deposits, rd, fuel).Ok? ==>
              forall i, rec :: 0 <= i < |deposits| && rec in ReportDeposit(t, deposits[i], rd, fuel).value ==>
                rec in Report(t, deposits, rd, fuel).value
  {
    if deposits != [] {
      var init, last := deposits[..|deposits| - 1], deposits[|deposits| - 1];
      ReportComplete(t, init, rd, fuel);
      assert forall i :: 0 <= i < |init| ==> deposits[i] == init[i];
      var r := Report(t, deposits, rd, fuel);
      var ri := Report(t, init, rd, fuel);
      if ri.Err? {
        var i :| 0 <= i < |init| && ReportDeposit(t, init[i], rd, fuel) == Err(ri.msg)
                 && forall j :: 0 <= j < i ==> ReportDeposit(t, init[j], rd, fuel).Ok?;
        assert ReportDeposit(t, deposits[i], rd, fuel) == Err(r.msg);
      } else if r.Err? {
        assert ReportDeposit(t, deposits[|init|], rd, fuel) == Err(r.msg);
      }
    }
  }

  /** Every unspent deposit appears in a report that succeeds as itself,
      and every spent deposit whose chain ends on an unspent change note as
      that change. */
  lemma ReportListsUnspent(t: Tables, deposits: seq<Txn>, rd: Readers, fuel: nat)
    ensures var r := Report(t, deposits, rd, fuel);
            r.Ok? ==> forall d :: d in deposits && Unspent(t, d.leafIndex, rd) ==>
                        Record(DepositKind, d.amount, d.leafIndex, SecretNote(t, d.leafIndex)) in r.value
    ensures var r := Report(t, deposits, rd, fuel);
            r.Ok? ==> forall d, c: Change ::
                        d in deposits && d.leafIndex in t.notes && !Unspent(t, d.leafIndex, rd)
                        && Chain(t, t.notes[d.leafIndex], rd, fuel) == Ok(Some(c)) ==>
                        Record(ChangeKind, c.amount, c.leafIndex, c.secretNote) in r.value
  {
    ReportComplete(t, deposits, rd, fuel);
    forall d | d in deposits
      ensures var r := Report(t, deposits, rd, fuel);
              r.Ok? ==> forall rec :: rec in ReportDeposit(t, d, rd, fuel).value ==> rec in r.value
    {
      ReportDepositSound(t, d, rd, fuel);
      var i :| 0 <= i < |deposits| && deposits[i] == d;
    }
    forall d | d in deposits {
      ReportDepositSound(t, d, rd, fuel);
    }
  }

  /** `main` after reading the key: validate it, then walk the address's
      deposits appending records. */
  method UnspentFunds(t: Tables, address: string, privateKeyHex: string, box: BoxScheme, fuel: nat)
    returns (r: Result<seq<Record>>)
    ensures ValidateKey(privateKeyHex).Err? ==> r == Err(ValidateKey(privateKeyHex).msg)
    ensures ValidateKey(privateKeyHex).Ok? ==>
              r == Report(t, DepositsOf(t.txns, address), ScriptReaders(privateKeyHex, box), fuel)
  {
    var valid := ValidateKey(privateKeyHex);
    if valid.Err? {
      return Err(valid.msg);
    }
    var rd := ScriptReaders(privateKeyHex, box);
    var deposits := DepositsOf(t.txns, address);
    var results: seq<Record> := [];
    for i := 0 to |deposits|
      invariant Report(t, deposits[..i], rd, fuel) == Ok(results)
    {
      ReportStep(t, deposits, i, rd, fuel);
      var more := ReportDeposit(t, deposits[i], rd, fuel);
      if more.Err? {
        ReportErrorPersists(t, deposits, i + 1, rd, fuel);
        assert deposits[..|deposits|] == deposits;
        return Err(more.msg);
      }
      results := results + more.value;
    }
    assert deposits[..|deposits|] == deposits;
    r := Ok(results);
  }

  lemma ReportStep(t: Tables, deposits: seq<Txn>, i: nat, rd: Readers, fuel: nat)
    requires i < |deposits| && Report(t, deposits[..i], rd, fuel).Ok?
    ensures Report(t, deposits[..i + 1], rd, fuel) ==
              match ReportDeposit(t, deposits[i], rd, fuel)
              case Err(e) => Err(e)
              case Ok(more) => Ok(Report(t, deposits[..i], rd, fuel).value + more)
  {
    assert deposits[..i + 1][..i] == deposits[..i];
  }

  lemma {:induction false} ReportErrorPersists(t: Tables, deposits: seq<Txn>, n: nat, rd: Readers, fuel: nat)
    requires n <= |deposits| && Report(t, deposits[..n], rd, fuel).Err?
    ensures Report(t, deposits, rd, fuel) == Report(t, deposits[..n], rd, fuel)
    decreases |deposits| - n
  {
    if n < |deposits| {
      assert deposits[..n + 1][..n] == deposits[..n];
      ReportErrorPersists(t, deposits, n + 1, rd, fuel);
    } else {
      assert deposits[..n] == deposits;
    }
  }
}
