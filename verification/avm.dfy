/** The node connection of the chain package (avm/avm.go): where the algod
    URL and token come from, how a node's `algod.net` file is normalised,
    and the spendable balance of an account. Files and the node's account
    record are inputs. */
module Avm {
  import opened Base
  import opened Strings

  /** `algodConfig`. */
  datatype AlgodConfig = AlgodConfig(url: string, token: string)

  /** What an account lookup reports, as far as this package reads it. */
  datatype AccountInfo = AccountInfo(amount: u64, minBalance: u64)

  /** The balance net of the minimum balance, in uint64 arithmetic: it
      wraps around when the minimum exceeds the balance. */
  function NetBalance(info: AccountInfo): (b: u64)
    ensures (b + info.minBalance) % TwoTo64 == info.amount
    ensures info.minBalance <= info.amount ==> b + info.minBalance == info.amount
  {
    SubU64(info.amount, info.minBalance)
  }

  /** A minimum balance above the balance gives a net balance larger than
      the balance itself. */
  lemma NetBalanceWraps(info: AccountInfo)
    requires info.amount < info.minBalance
    ensures NetBalance(info) > info.amount
    ensures NetBalance(info) == TwoTo64 - (info.minBalance - info.amount)
  {
  }

  /** `GetNetBalance`: `info` is the node's answer or its error. */
  function GetNetBalance(info: Result<AccountInfo>): (r: Result<u64>)
    ensures info.Err? ==> r == Err("failed to get account information: " + info.msg)
    ensures info.Ok? ==> r.Ok? && (r.value + info.value.minBalance) % TwoTo64 == info.value.amount
  {
    if info.Err? then Err("failed to get account information: " + info.msg)
    else Ok(NetBalance(info.value))
  }

  const ListenAll: string := "[::]"
  const Localhost: string := "localhost:"
  const Http: string := "http://"

  /** A node listening on every interface (`[::]:port`) is reached at
      `localhost:port`, the port being the text after the last ':'. Any
      other address is kept. */
  function LocalhostUrl(url: string): (r: string)
    ensures !HasPrefix(url, ListenAll) ==> r == url
    ensures HasPrefix(url, ListenAll) ==> HasPrefix(r, Localhost)
    ensures HasPrefix(url, ListenAll) && HasPrefix(r, Localhost) ==>
              var port := r[|Localhost|..];
              && ':' !in port
              && |port| < |url|
              && url[|url| - |port| - 1..] == [':'] + port
  {
    if HasPrefix(url, ListenAll) then
      assert url[1] == ':';
      var index := LastIndexOf(url, ':');
      var port := url[index + 1..];
      assert url[|url| - |port| - 1..] == [':'] + port;
      Localhost + port
    else url
  }

  /** `readAlgodConfigFromDir`: `urlFile` and `tokenFile` are the contents
      of `algod.net` and `algod.token`, or the errors reading them. */
  function ReadAlgodConfigFromDir(urlFile: Result<string>, tokenFile: Result<string>): (r: Result<AlgodConfig>)
    ensures urlFile.Err? ==> r == Err("failed to read algod url: " + urlFile.msg)
    ensures urlFile.Ok? && tokenFile.Err? ==> r == Err("failed to read algod token: " + tokenFile.msg)
    ensures r.Ok? <==> urlFile.Ok? && tokenFile.Ok?
    ensures r.Ok? ==> && HasPrefix(r.value.url, Http)
                      && r.value.url[7..] == LocalhostUrl(TrimSpace(urlFile.value))
                      && r.value.token == TrimSpace(tokenFile.value)
  {
    if urlFile.Err? then Err("failed to read algod url: " + urlFile.msg)
    else
      var url := LocalhostUrl(TrimSpace(urlFile.value));
      if tokenFile.Err? then Err("failed to read algod token: " + tokenFile.msg)
      else Ok(AlgodConfig(Http + url, TrimSpace(tokenFile.value)))
  }

  /** A node file holding `[::]:port` yields `http://localhost:port`. */
  lemma ListenAllBecomesLocalhost(port: string, token: string)
    requires port != [] && ':' !in port && !IsSpace(port[|port| - 1])
    ensures ReadAlgodConfigFromDir(Ok(ListenAll + ":" + port), Ok(token)).value.url == Http + Localhost + port
  {
    var url := ListenAll + ":" + port;
    assert url[|url| - 1] == port[|port| - 1];
    assert !IsSpace(url[0]) by { assert url[0] == '['; }
    TrimSpaceNoop(url);
    assert TrimSpace(url) == url;
    ListenAllPort(port);
    assert Http + (Localhost + port) == Http + Localhost + port;
  }

  lemma ListenAllPort(port: string)
    requires ':' !in port
    ensures LocalhostUrl(ListenAll + ":" + port) == Localhost + port
  {
    var url := ListenAll + ":" + port;
    assert url[..4] == ListenAll;
    assert url[5..] == port;
    assert url[4] == ':';
  }

  /** Where `init` takes the node from. */
  datatype Source = Devnet | Direct(conf: AlgodConfig) | FromDir(dir: string)

  /** `init`'s dispatch on the configured path: no path means the local
      development network, a path mentioning "http" is the URL itself with
      the configured token, and anything else names a node directory. */
  function ClientSource(algodPath: string, algodToken: string): (s: Source)
    ensures s.Devnet? <==> algodPath == ""
    ensures s.Direct? <==> algodPath != "" && Contains(algodPath, "http")
    ensures s.Direct? ==> s.conf.url == algodPath && s.conf.token == algodToken
    ensures s.FromDir? ==> s.dir == algodPath
  {
    if algodPath == "" then Devnet
    else if Contains(algodPath, "http") then Direct(AlgodConfig(algodPath, algodToken))
    else FromDir(algodPath)
  }

  /** The endpoint the package's client talks to. */
  datatype Endpoint = Unset | DevnetNode | Node(conf: AlgodConfig)

  /** The package-level `client`. */
  class Client {
    var endpoint: Endpoint

    constructor ()
      ensures endpoint == Unset
    {
      endpoint := Unset;
    }

    /** `init`: pick the source and connect; a node directory whose files
        cannot be read is fatal (`fatal` holds the message and the client
        is left unset). */
    method Init(algodPath: string, algodToken: string, urlFile: Result<string>, tokenFile: Result<string>)
      returns (fatal: Option<string>)
      modifies this
      ensures algodPath == "" ==> fatal == None && endpoint == DevnetNode
      ensures ClientSource(algodPath, algodToken).Direct? ==>
                fatal == None && endpoint == Node(AlgodConfig(algodPath, algodToken))
      ensures ClientSource(algodPath, algodToken).FromDir? ==>
                var read := ReadAlgodConfigFromDir(urlFile, tokenFile);
                && (read.Err? ==> fatal == Some("failed to read algod config: " + read.msg) && endpoint == old(endpoint))
                && (read.Ok? ==> fatal == None && endpoint == Node(read.value))
    {
      fatal := None;
      var source := ClientSource(algodPath, algodToken);
      match source
      case Devnet =>
        endpoint := DevnetNode;
      case Direct(conf) =>
        endpoint := Node(conf);
      case FromDir(_) =>
        var read := ReadAlgodConfigFromDir(urlFile, tokenFile);
        if read.Err? {
          fatal := Some("failed to read algod config: " + read.msg);
          return;
        }
        endpoint := Node(read.value);
    }
  }
}
