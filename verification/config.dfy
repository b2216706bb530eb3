/** The `.env` loader of the configuration package (config/config.go). The
    file is given as its sequence of lines, or None when it cannot be
    opened. */
module Config {
  import opened Base
  import opened Strings

  /** The characters `strings.Trim(value, "\"'")` removes. */
  const Quotes: set<char> := {'"', '\''}

  /** What one line contributes: a key and a value, or nothing for a blank
      line, a comment, or a line without '='. The line is split at its first
      '=' only; key and value are trimmed, and the value loses every
      surrounding quote character. */
  function ParseLine(raw: string): (kv: Option<(string, string)>)
    ensures kv.Some? ==> WellFormedEntry(kv.value.0, kv.value.1)
  {
    ParseTrimmed(TrimSpace(raw))
  }

  /** What a line contributes once its surrounding white space is gone. */
  function ParseTrimmed(line: string): (kv: Option<(string, string)>)
    ensures kv.Some? ==> WellFormedEntry(kv.value.0, kv.value.1)
  {
    if IsBlankOrComment(line) then None
    else
      var eq := IndexOf(line, '=');
      if eq < 0 then None
      else Some(Entry(line[..eq], line[eq + 1..]))
  }

  /** The two sides of the first '=', trimmed, the value also unquoted. */
  function Entry(before: string, after: string): (kv: (string, string))
    ensures WellFormedEntry(kv.0, kv.1)
  {
    var key := TrimSpace(before);
    var value := Trim(TrimSpace(after), Quotes);
    assert WellFormedEntry(key, value);
    (key, value)
  }

  /** A stored key is never surrounded by white space, a stored value never
      by quotes. */
  predicate WellFormedEntry(key: string, value: string)
  {
    && NoSpaceEnds(key)
    && (value != [] ==> value[0] !in Quotes && value[|value| - 1] !in Quotes)
  }

  /** Exactly the lines that are neither blank, nor comments, nor without
      '=' contribute. The key is the trimmed text before the line's first
      '=', so it holds no '='; the value is the text after that '=', later
      '=' included, trimmed and then unquoted. */
  lemma ParseLineSome(raw: string)
    ensures var line := TrimSpace(raw);
            ParseLine(raw).Some? <==> !IsBlankOrComment(line) && '=' in line
    ensures var line := TrimSpace(raw);
            ParseLine(raw).Some? ==>
              exists i :: 0 <= i < |line| && line[i] == '=' && '=' !in line[..i]
                          && ParseLine(raw).value == (TrimSpace(line[..i]), Trim(TrimSpace(line[i + 1..]), Quotes))
    ensures ParseLine(raw).Some? ==> '=' !in ParseLine(raw).value.0
  {
    ParseTrimmedSome(TrimSpace(raw));
  }

  lemma ParseTrimmedSome(line: string)
    ensures ParseTrimmed(line).Some? <==> !IsBlankOrComment(line) && '=' in line
    ensures ParseTrimmed(line).Some? ==>
              exists i :: 0 <= i < |line| && line[i] == '=' && '=' !in line[..i]
                          && ParseTrimmed(line).value == (TrimSpace(line[..i]), Trim(TrimSpace(line[i + 1..]), Quotes))
    ensures ParseTrimmed(line).Some? ==> '=' !in ParseTrimmed(line).value.0
  {
    if ParseTrimmed(line).Some? {
      var eq := IndexOf(line, '=');
      assert line[eq] == '=';
      assert '=' !in line[..eq];
      assert forall j :: 0 <= j < |TrimSpace(line[..eq])| ==> TrimSpace(line[..eq])[j] in line[..eq] by {
        TrimSpaceIsInfix(line[..eq]);
      }
    }
  }

  /** A line written as `key=value` reads back as that pair, however many
      '=' the value holds, when the key holds none, neither side has
      surrounding white space, the value has no surrounding quotes, and the
      key does not make the line a comment. */
  lemma {:induction false} ParseLineRoundTrip(key: string, value: string)
    requires '=' !in key && !HasPrefix(key, "#") && !HasPrefix(key, "//")
    requires NoSpaceEnds(key)
    requires NoSpaceEnds(value)
    requires value != [] ==> value[0] !in Quotes && value[|value| - 1] !in Quotes
    ensures ParseLine(key + "=" + value) == Some((key, value))
  {
    JoinedLineIsTrimmed(key, value);
    FirstEqualsAfterKey(key, value);
    ParseJoined(key, value);
  }

  lemma {:induction false} ParseJoined(key: string, value: string)
    requires !IsBlankOrComment(key + "=" + value) && IndexOf(key + "=" + value, '=') == |key|
    requires NoSpaceEnds(key)
    requires NoSpaceEnds(value)
    requires value != [] ==> value[0] !in Quotes && value[|value| - 1] !in Quotes
    ensures ParseTrimmed(key + "=" + value) == Some((key, value))
  {
    var line := key + "=" + value;
    assert line[..|key|] == key;
    assert line[|key| + 1..] == value;
    EntryOfTrimmed(key, value);
  }

  /** Sides that are already trimmed and unquoted are kept as they are. */
  lemma EntryOfTrimmed(key: string, value: string)
    requires NoSpaceEnds(key)
    requires NoSpaceEnds(value)
    requires value != [] ==> value[0] !in Quotes && value[|value| - 1] !in Quotes
    ensures Entry(key, value) == (key, value)
  {
    TrimSpaceNoop(key);
    TrimSpaceNoop(value);
    TrimNoop(value, Quotes);
  }

  lemma {:induction false} JoinedLineIsTrimmed(key: string, value: string)
    requires !HasPrefix(key, "#") && !HasPrefix(key, "//")
    requires key != [] ==> !IsSpace(key[0])
    requires value != [] ==> !IsSpace(value[|value| - 1])
    ensures TrimSpace(key + "=" + value) == key + "=" + value
    ensures !IsBlankOrComment(key + "=" + value)
  {
    var line := key + "=" + value;
    assert line[0] == (if key == [] then '=' else key[0]);
    assert line[|line| - 1] == (if value == [] then '=' else value[|value| - 1]);
    TrimSpaceNoop(line);
    JoinedIsNotComment(key, value);
  }

  /** A line that starts with a key, then '=', is a comment only when the
      key starts like one. */
  lemma JoinedIsNotComment(key: string, value: string)
    requires !HasPrefix(key, "#") && !HasPrefix(key, "//")
    ensures !IsBlankOrComment(key + "=" + value)
  {
    var line := key + "=" + value;
    assert line[0] == (if key == [] then '=' else key[0]);
    if |key| >= 2 {
      assert line[..2] == key[..2];
    } else if |key| == 1 {
      assert line[1] == '=';
    }
  }

  lemma {:induction false} FirstEqualsAfterKey(key: string, value: string)
    requires '=' !in key
    ensures IndexOf(key + "=" + value, '=') == |key|
  {
    var line := key + "=" + value;
    var eq := IndexOf(line, '=');
    assert line[|key|] == '=';
    assert forall j :: 0 <= j < |key| ==> line[j] == key[j];
  }

  /** A value may itself contain '=': `key=a=b` sets `key` to `a=b`. */
  lemma {:induction false} LaterEqualsBelongToTheValue(key: string, a: string, b: string)
    requires '=' !in key && !HasPrefix(key, "#") && !HasPrefix(key, "//")
    requires NoSpaceEnds(key)
    requires a != [] ==> !IsSpace(a[0]) && a[0] !in Quotes
    requires b != [] ==> !IsSpace(b[|b| - 1]) && b[|b| - 1] !in Quotes
    ensures ParseLine(key + "=" + a + "=" + b) == Some((key, a + "=" + b))
  {
    assert key + "=" + a + "=" + b == key + "=" + (a + "=" + b);
    JoinedEnds(a, b);
    ParseLineRoundTrip(key, a + "=" + b);
  }

  lemma JoinedEnds(a: string, b: string)
    ensures (a + "=" + b)[0] == (if a == [] then '=' else a[0])
    ensures (a + "=" + b)[|a + "=" + b| - 1] == (if b == [] then '=' else b[|b| - 1])
  {
  }

  lemma TrimSpaceIsInfix(s: string)
    ensures forall j :: 0 <= j < |TrimSpace(s)| ==> TrimSpace(s)[j] in s
  {
    TrimSpaceStrips(s);
    var a :| StrippedAt(s, TrimSpace(s), a, IsSpace);
    forall j | 0 <= j < |TrimSpace(s)| ensures TrimSpace(s)[j] in s {
      assert TrimSpace(s)[j] == s[a + j];
    }
  }

  /** What each line contributes, in file order. */
  function Parsed(lines: seq<string>): (kvs: seq<Option<(string, string)>>)
    ensures |kvs| == |lines|
  {
    seq(|lines|, i requires 0 <= i < |lines| => ParseLine(lines[i]))
  }

  /** Whether a parsed line assigns this key. */
  predicate Defines(kv: Option<(string, string)>, key: string)
  {
    kv.Some? && kv.value.0 == key
  }

  /** The map after one more parsed line. */
  function Extend(env: map<string, string>, kv: Option<(string, string)>): map<string, string>
  {
    if kv.None? then env else env[kv.value.0 := kv.value.1]
  }

  /** The parsed lines applied in order, a later key overwriting an earlier
      one. */
  function Fold(kvs: seq<Option<(string, string)>>): map<string, string>
  {
    if kvs == [] then map[] else Extend(Fold(kvs[..|kvs| - 1]), kvs[|kvs| - 1])
  }

  /** The map the loader builds from the file's lines. */
  function EnvOf(lines: seq<string>): map<string, string>
  {
    Fold(Parsed(lines))
  }

  lemma FoldSnoc(kvs: seq<Option<(string, string)>>, i: nat)
    requires i < |kvs|
    ensures Fold(kvs[..i + 1]) == Extend(Fold(kvs[..i]), kvs[i])
  {
    assert kvs[..i + 1][..i] == kvs[..i];
  }

  /** Every stored pair is what some line produced. */
  lemma {:induction false} FoldEntries(kvs: seq<Option<(string, string)>>)
    ensures forall key :: key in Fold(kvs) ==>
              exists i :: 0 <= i < |kvs| && kvs[i] == Some((key, Fold(kvs)[key]))
  {
    if kvs != [] {
      var init := kvs[..|kvs| - 1];
      FoldEntries(init);
      forall key | key in Fold(kvs)
        ensures exists i :: 0 <= i < |kvs| && kvs[i] == Some((key, Fold(kvs)[key]))
      {
        if Defines(kvs[|kvs| - 1], key) {
          assert kvs[|kvs| - 1] == Some((key, Fold(kvs)[key]));
        } else {
          assert key in Fold(init) && Fold(kvs)[key] == Fold(init)[key];
          var i :| 0 <= i < |init| && init[i] == Some((key, Fold(init)[key]));
          assert kvs[i] == init[i];
        }
      }
    }
  }

  /** Every stored key and value is one some line of the file produced, so
      keys are never surrounded by white space and values never by
      quotes. */
  lemma EnvOfEntries(lines: seq<string>)
    ensures forall key :: key in EnvOf(lines) ==>
              exists i :: 0 <= i < |lines| && ParseLine(lines[i]) == Some((key, EnvOf(lines)[key]))
    ensures forall key :: key in EnvOf(lines) ==> WellFormedEntry(key, EnvOf(lines)[key])
  {
    var kvs := Parsed(lines);
    FoldEntries(kvs);
    forall key | key in EnvOf(lines)
      ensures exists i :: 0 <= i < |lines| && ParseLine(lines[i]) == Some((key, EnvOf(lines)[key]))
      ensures WellFormedEntry(key, EnvOf(lines)[key])
    {
      var i :| 0 <= i < |kvs| && kvs[i] == Some((key, Fold(kvs)[key]));
      assert ParseLine(lines[i]) == kvs[i];
    }
  }

  /** A defining entry wins over every earlier one when no later entry
      defines the same key. */
  lemma {:induction false} FoldLastDefinitionWins(kvs: seq<Option<(string, string)>>, i: nat, key: string, value: string)
    requires i < |kvs| && kvs[i] == Some((key, value))
    requires forall j :: i < j < |kvs| ==> !Defines(kvs[j], key)
    ensures key in Fold(kvs) && Fold(kvs)[key] == value
  {
    var n := |kvs| - 1;
    var init := kvs[..n];
    assert kvs[..n + 1] == kvs;
    FoldSnoc(kvs, n);
    if i < n {
      assert init[i] == kvs[i];
      forall j | i < j < |init| ensures !Defines(init[j], key) {
        assert init[j] == kvs[j];
      }
      FoldLastDefinitionWins(init, i, key, value);
    }
  }

  /** A line that defines a key wins over every earlier line, and lines
      after it that do not define the key leave it alone. */
  lemma LastDefinitionWins(lines: seq<string>, i: nat, key: string, value: string)
    requires i < |lines| && ParseLine(lines[i]) == Some((key, value))
    requires forall j :: i < j < |lines| ==> !Defines(ParseLine(lines[j]), key)
    ensures key in EnvOf(lines) && EnvOf(lines)[key] == value
  {
    var kvs := Parsed(lines);
    forall j | i < j < |kvs| ensures !Defines(kvs[j], key) {
      assert kvs[j] == ParseLine(lines[j]);
    }
    FoldLastDefinitionWins(kvs, i, key, value);
  }

  /** `LoadEnv`: scan the lines in order, skipping blank, comment and
      malformed lines, storing the rest. `file` is the file's lines, or the
      error opening it, which is passed on. */
  method LoadEnv(file: Result<seq<string>>) returns (r: Result<map<string, string>>)
    ensures file.Err? ==> r == Err(file.msg)
    ensures file.Ok? ==> r == Ok(EnvOf(file.value))
  {
    if file.Err? {
      return Err(file.msg);
    }
    var lines := file.value;
    var envMap: map<string, string> := map[];
    for i := 0 to |lines|
      invariant envMap == Fold(Parsed(lines)[..i])
    {
      FoldSnoc(Parsed(lines), i);
      var kv := ParseLine(lines[i]);
      if kv.Some? {
        envMap := envMap[kv.value.0 := kv.value.1];
      }
    }
    assert Parsed(lines)[..|lines|] == Parsed(lines);
    r := Ok(envMap);
  }

  /** The settings the package's `init` reads from `config/.env`. */
  datatype Paths = Paths(appSetupDirPath: string, internalDbPath: string, txnsDbPath: string,
                         algodPath: string, algodToken: string)

  /** A Go map read: the zero value, "", for a missing key. */
  function Get(env: map<string, string>, key: string): string
  {
    if key in env then env[key] else ""
  }

  /** `init`: a loader error is fatal (None); otherwise each setting is the
      value of its key, "" when the file does not define it. */
  function InitPaths(loaded: Result<map<string, string>>): (p: Option<Paths>)
    ensures p.None? <==> loaded.Err?
    ensures p.Some? ==> && p.value.appSetupDirPath == Get(loaded.value, "AppSetupDirPath")
                        && p.value.internalDbPath == Get(loaded.value, "InternalDbPath")
                        && p.value.txnsDbPath == Get(loaded.value, "TxnsDbPath")
                        && p.value.algodPath == Get(loaded.value, "AlgodPath")
                        && p.value.algodToken == Get(loaded.value, "AlgodToken")
  {
    if loaded.Err? then None
    else
      var env := loaded.value;
      Some(Paths(Get(env, "AppSetupDirPath"), Get(env, "InternalDbPath"), Get(env, "TxnsDbPath"),
                 Get(env, "AlgodPath"), Get(env, "AlgodToken")))
  }

  /** A setting is the value of the last line defining its key ... */
  lemma SettingIsLastDefinition(lines: seq<string>, i: nat, key: string, value: string)
    requires i < |lines| && ParseLine(lines[i]) == Some((key, value))
    requires forall j :: i < j < |lines| ==> !Defines(ParseLine(lines[j]), key)
    ensures Get(EnvOf(lines), key) == value
  {
    LastDefinitionWins(lines, i, key, value);
  }

  /** ... and "" when no line defines it. */
  lemma SettingUndefinedIsEmpty(lines: seq<string>, key: string)
    requires forall j :: 0 <= j < |lines| ==> !Defines(ParseLine(lines[j]), key)
    ensures Get(EnvOf(lines), key) == ""
  {
    EnvOfEntries(lines);
  }
}
