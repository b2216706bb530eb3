/** The file helpers of the integration driver (test/fileops.go): choosing
    the encrypted mnemonic among a file's lines, and writing a deposit note
    to a file named after its transaction. The file system is a map from
    paths to contents. */
module FileOps {
  import opened Base
  import opened Strings
  import opened Notes

  const NoMnemonicMessage: string := "no valid mnemonic found in file"

  /** One turn of the selection loop: the line, trimmed, unless that is
      empty or a comment. */
  function Pick(line: string): (r: Option<string>)
    ensures r.Some? ==> r.value != [] && r.value == TrimSpace(line)
  {
    var trimmed := TrimSpace(line);
    if IsBlankOrComment(trimmed) then None else Some(trimmed)
  }

  /** A line the selection takes: after trimming it is neither empty nor a
      comment. */
  predicate Selectable(line: string)
  {
    Pick(line).Some?
  }

  /** The first line `f` accepts, as `f` returns it. */
  function FirstSome(xs: seq<string>, f: string -> Option<string>): Option<string>
  {
    if xs == [] then None
    else if f(xs[0]).Some? then f(xs[0])
    else FirstSome(xs[1..], f)
  }

  /** The first selectable line, trimmed; None when there is none. */
  function FirstValid(lines: seq<string>): Option<string>
  {
    FirstSome(lines, Pick)
  }

  lemma {:induction false} FirstSomeAt(xs: seq<string>, f: string -> Option<string>, i: nat)
    requires i < |xs| && f(xs[i]).Some?
    requires forall j :: 0 <= j < i ==> f(xs[j]).None?
    ensures FirstSome(xs, f) == f(xs[i])
  {
    if i > 0 {
      forall j | 0 <= j < i - 1 ensures f(xs[1..][j]).None? {
        assert xs[1..][j] == xs[j + 1];
      }
      FirstSomeAt(xs[1..], f, i - 1);
    }
  }

  lemma {:induction false} FirstSomeNone(xs: seq<string>, f: string -> Option<string>)
    ensures FirstSome(xs, f).None? <==> forall j :: 0 <= j < |xs| ==> f(xs[j]).None?
    ensures FirstSome(xs, f).Some? ==> exists j :: 0 <= j < |xs| && f(xs[j]) == FirstSome(xs, f)
  {
    if xs != [] && f(xs[0]).None? {
      FirstSomeNone(xs[1..], f);
      assert forall j :: 1 <= j < |xs| ==> xs[j] == xs[1..][j - 1];
      if FirstSome(xs, f).Some? {
        var j :| 0 <= j < |xs[1..]| && f(xs[1..][j]) == FirstSome(xs, f);
        assert xs[j + 1] == xs[1..][j];
      }
    } else if xs != [] {
      assert f(xs[0]) == FirstSome(xs, f);
    }
  }

  lemma {:induction false} FirstSomeIgnoresRest(xs: seq<string>, rest: seq<string>, f: string -> Option<string>)
    requires FirstSome(xs, f).Some?
    ensures FirstSome(xs + rest, f) == FirstSome(xs, f)
  {
    assert (xs + rest)[0] == xs[0];
    if f(xs[0]).None? {
      assert (xs + rest)[1..] == xs[1..] + rest;
      FirstSomeIgnoresRest(xs[1..], rest, f);
    }
  }

  /** The selection is the trimmed line i exactly when line i is selectable
      and no earlier line is. */
  lemma FirstValidAt(lines: seq<string>, i: nat)
    requires i < |lines| && Selectable(lines[i])
    requires forall j :: 0 <= j < i ==> !Selectable(lines[j])
    ensures FirstValid(lines) == Some(TrimSpace(lines[i]))
  {
    FirstSomeAt(lines, Pick, i);
  }

  /** Nothing is selected exactly when no line is selectable; what is
      selected is never empty. */
  lemma FirstValidNone(lines: seq<string>)
    ensures FirstValid(lines).None? <==> forall j :: 0 <= j < |lines| ==> !Selectable(lines[j])
    ensures FirstValid(lines).Some? ==> FirstValid(lines).value != ""
  {
    FirstSomeNone(lines, Pick);
  }

  /** Lines after the selected one are never looked at: appending lines to
      a file that already has a selectable line does not change the
      selection. */
  lemma FirstValidIgnoresRest(lines: seq<string>, rest: seq<string>)
    requires FirstValid(lines).Some?
    ensures FirstValid(lines + rest) == FirstValid(lines)
  {
    FirstSomeIgnoresRest(lines, rest, Pick);
  }

  /** The selection loop of `getAccountFromEncryptedFile`: the file is read
      (`file` is its text or the read error), split at every newline, and
      the first selectable line, trimmed, is the ciphertext handed to the
      decryption step, which is not part of this model. */
  method ReadCiphertext(file: Result<string>) returns (r: Result<string>)
    ensures file.Err? ==> r == Err("error reading mnemonic file: " + file.msg)
    ensures file.Ok? ==> r == match FirstValid(SplitOn(file.value, '\n'))
                              case Some(line) => Ok(line)
                              case None => Err(NoMnemonicMessage)
  {
    if file.Err? {
      return Err("error reading mnemonic file: " + file.msg);
    }
    var lines := SplitOn(file.value, '\n');
    var i := 0;
    while i < |lines|
      invariant 0 <= i <= |lines|
      invariant FirstValid(lines) == FirstSome(lines[i..], Pick)
    {
      FirstSomeStep(lines, i, Pick);
      var line := TrimSpace(lines[i]);
      if !IsBlankOrComment(line) {
        return Ok(line);
      }
      i := i + 1;
    }
    assert lines[i..] == [];
    return Err(NoMnemonicMessage);
  }

  lemma FirstSomeStep(xs: seq<string>, i: nat, f: string -> Option<string>)
    requires i < |xs|
    ensures FirstSome(xs[i..], f) == if f(xs[i]).Some? then f(xs[i]) else FirstSome(xs[i + 1..], f)
  {
    assert xs[i..][0] == xs[i];
    assert xs[i..][1..] == xs[i + 1..];
  }

  /** Where `saveNoteToFile` writes a note. */
  function NotePath(filesDir: string, note: Note): string
  {
    filesDir + note.TxnID
  }

  /** Within one directory, notes of different transactions go to
      different files. */
  lemma NotePathInjective(filesDir: string, a: Note, b: Note)
    requires NotePath(filesDir, a) == NotePath(filesDir, b)
    ensures a.TxnID == b.TxnID
  {
    assert a.TxnID == NotePath(filesDir, a)[|filesDir|..];
  }

  /** The files the driver writes, by path. */
  class Files {
    var contents: map<string, string>

    constructor ()
      ensures contents == map[]
    {
      contents := map[];
    }

    /** `saveNoteToFile`: the note's text form under the note's path.
        `writeError` is the error `os.WriteFile` reports, if any. */
    method SaveNoteToFile(filesDir: string, note: Note, writeError: Option<string>) returns (r: Result<()>)
      modifies this
      ensures writeError.Some? ==> r == Err("failed to write note to file: " + writeError.value)
                                   && contents == old(contents)
      ensures writeError.None? ==> r == Ok(())
                                   && contents == old(contents)[NotePath(filesDir, note) := Text(note)]
    {
      if writeError.Some? {
        return Err("failed to write note to file: " + writeError.value);
      }
      contents := contents[filesDir + note.TxnID := Text(note)];
      r := Ok(());
    }
  }
}
