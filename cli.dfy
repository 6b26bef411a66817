/** Command-line handling: choosing the RPC endpoint from `-u`/`--url`. */
module Cli {
  import opened Common

  const DEFAULT_MAINNET_RPC_URL: string := "https://api.mainnet-beta.solana.com"
  const DEFAULT_TESTNET_RPC_URL: string := "https://api.testnet.solana.com"
  const DEFAULT_DEVNET_RPC_URL: string := "https://api.devnet.solana.com"
  const DEFAULT_LOCALHOST_RPC_URL: string := "http://localhost:8899"

  /** The parsed command line. */
  datatype Args = Args(url: string)

  /** The three ways the argument loop ends the process. */
  datatype ArgError =
    | Duplicate(flag: string)      // a second `-u`/`--url`
    | MissingValue(flag: string)   // `-u`/`--url` as the last argument
    | Unexpected(arg: string)      // anything that is not `-u`/`--url`

  /** The line the program writes to standard error before exiting. */
  function Message(e: ArgError): (r: string)
    ensures |r| > 7 && r[..7] == "ERROR: "
    ensures var arg := match e case Duplicate(f) => f case MissingValue(f) => f case Unexpected(a) => a;
      |r| > 7 + |arg|
  {
    match e
    case Duplicate(flag) =>
      var m := "ERROR: Duplicate " + flag + " argument";
      assert m[..7] == "ERROR: ";
      m
    case MissingValue(flag) =>
      var m := "ERROR: " + flag + " requires an argument";
      assert m[..7] == "ERROR: ";
      m
    case Unexpected(arg) =>
      var m := "ERROR: Unexpected extra argument " + arg;
      assert m[..7] == "ERROR: ";
      m
  }

  predicate IsUrlFlag(arg: string)
  {
    arg == "-u" || arg == "--url"
  }

  /** The four well-known endpoints. */
  predicate IsKnownUrl(s: string)
  {
    s == DEFAULT_MAINNET_RPC_URL || s == DEFAULT_TESTNET_RPC_URL
    || s == DEFAULT_DEVNET_RPC_URL || s == DEFAULT_LOCALHOST_RPC_URL
  }

  /** The short and long aliases that `get_url` expands. */
  predicate IsAlias(s: string)
  {
    s in {"l", "localhost", "d", "devnet", "t", "testnet", "m", "mainnet"}
  }

  /** `get_url`: no value means mainnet; an alias expands to its endpoint;
      anything else is taken to be a URL and passed through. */
  function GetUrl(url: Option<string>): (r: string)
    ensures IsKnownUrl(r) || (url.Some? && !IsAlias(url.value) && r == url.value)
  {
    match url
    case None => DEFAULT_MAINNET_RPC_URL
    case Some(u) =>
      if u == "l" || u == "localhost" then DEFAULT_LOCALHOST_RPC_URL
      else if u == "d" || u == "devnet" then DEFAULT_DEVNET_RPC_URL
      else if u == "t" || u == "testnet" then DEFAULT_TESTNET_RPC_URL
      else if u == "m" || u == "mainnet" then DEFAULT_MAINNET_RPC_URL
      else u
  }

  lemma GetUrlDefault()
    ensures GetUrl(None) == DEFAULT_MAINNET_RPC_URL
  {
  }

  /** Each alias, short or long, gives its fixed endpoint. */
  lemma GetUrlAliases()
    ensures GetUrl(Some("l")) == GetUrl(Some("localhost")) == DEFAULT_LOCALHOST_RPC_URL
    ensures GetUrl(Some("d")) == GetUrl(Some("devnet")) == DEFAULT_DEVNET_RPC_URL
    ensures GetUrl(Some("t")) == GetUrl(Some("testnet")) == DEFAULT_TESTNET_RPC_URL
    ensures GetUrl(Some("m")) == GetUrl(Some("mainnet")) == DEFAULT_MAINNET_RPC_URL
  {
  }

  /** A string that is not an alias comes back unchanged, and an alias never does. */
  lemma GetUrlPassThrough(u: string)
    ensures GetUrl(Some(u)) == u <==> !IsAlias(u)
  {
  }

  /** Feeding the result back in changes nothing. */
  lemma GetUrlIdempotent(u: Option<string>)
    ensures GetUrl(Some(GetUrl(u))) == GetUrl(u)
  {
  }

  /** What `parse_args` decides for an argument list (program name already
      consumed), written in closed form: the only accepted lists are the
      empty one and a single flag with its value. */
  function ParseOutcome(args: seq<string>): (r: Result<Args, ArgError>)
    ensures r.Err? && !r.error.Unexpected? ==> IsUrlFlag(r.error.flag) && r.error.flag in args
    ensures r.Err? && r.error.Unexpected? ==> !IsUrlFlag(r.error.arg) && r.error.arg in args
    ensures r.Ok? ==> IsKnownUrl(r.value.url) || r.value.url in args
  {
    if |args| == 0 then Ok(Args(GetUrl(None)))
    else if !IsUrlFlag(args[0]) then Err(Unexpected(args[0]))
    else if |args| == 1 then Err(MissingValue(args[0]))
    else if |args| == 2 then Ok(Args(GetUrl(Some(args[1]))))
    else if IsUrlFlag(args[2]) then Err(Duplicate(args[2]))
    else Err(Unexpected(args[2]))
  }

  /** `parse_args`: the `while let` loop over the remaining arguments, with
      each `error_exit` turned into an error result. */
  method ParseArgs(args: seq<string>) returns (r: Result<Args, ArgError>)
    ensures r == ParseOutcome(args)
  {
    var url: Option<string> := None;
    var i := 0;
    while i < |args|
      invariant 0 <= i <= |args|
      invariant url.None? ==> i == 0
      invariant url.Some? ==> i == 2 && IsUrlFlag(args[0]) && url.value == args[1]
    {
      var arg := args[i];
      i := i + 1;
      if arg == "-u" || arg == "--url" {
        if url.Some? {
          return Err(Duplicate(arg));
        }
        if i == |args| {
          return Err(MissingValue(arg));
        }
        url := Some(args[i]);
        i := i + 1;
      } else {
        return Err(Unexpected(arg));
      }
    }
    return Ok(Args(GetUrl(url)));
  }

  lemma ParseEmpty()
    ensures ParseOutcome([]) == Ok(Args(DEFAULT_MAINNET_RPC_URL))
  {
  }

  /** `-u X` and `--url X` select `get_url(Some(X))`. */
  lemma ParseSingleUrl(flag: string, x: string)
    requires IsUrlFlag(flag)
    ensures ParseOutcome([flag, x]) == Ok(Args(GetUrl(Some(x))))
  {
  }

  /** A second flag is refused, whatever follows it; this check comes before
      the check for a missing value. */
  lemma ParseDuplicate(flag: string, x: string, again: string, rest: seq<string>)
    requires IsUrlFlag(flag) && IsUrlFlag(again)
    ensures ParseOutcome([flag, x, again] + rest) == Err(Duplicate(again))
  {
  }

  lemma ParseMissingValue(flag: string)
    requires IsUrlFlag(flag)
    ensures ParseOutcome([flag]) == Err(MissingValue(flag))
  {
  }

  /** Any other argument, first or after a complete `-u X`, is refused. */
  lemma ParseUnexpected(args: seq<string>, k: nat)
    requires k < |args| && !IsUrlFlag(args[k])
    requires k == 0 || (k == 2 && IsUrlFlag(args[0]))
    ensures ParseOutcome(args) == Err(Unexpected(args[k]))
  {
  }

  /** Success happens exactly for the two accepted shapes, and the URL then
      comes from `get_url`. */
  lemma ParseSucceedsIff(args: seq<string>)
    ensures ParseOutcome(args).Ok? <==> (|args| == 0 || (|args| == 2 && IsUrlFlag(args[0])))
    ensures ParseOutcome(args).Ok? ==>
      ParseOutcome(args).value.url == GetUrl(if |args| == 0 then None else Some(args[1]))
  {
  }
}
