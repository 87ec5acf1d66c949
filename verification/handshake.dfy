/** The one-shot handshake token: the parent joins the serialized peer
    session configuration and its own origin with `|`, percent-encodes the
    result and appends it as the fragment of the child's address; the child
    decodes it and splits it at the FIRST `|`. */
module Handshake {
  import opened Wrappers
  import Strings
  import Uri

  const Separator: char := '|'

  /** What the child learns from the token. */
  datatype PeerConfig = PeerConfig(serializedPeerSessionConfig: string, parentOrigin: string)

  /** The configuration errors the child can raise while bootstrapping. */
  datatype ConfigError =
    | MissingSeparator    // the decoded token has no `|`
    | MissingHashConfig   // the address fragment is absent or a bare `#`
    | MalformedUri        // `decodeURIComponent` threw a `URIError`

  /** The message each error carries; the last one is the platform's wording. */
  function Message(e: ConfigError): (r: string)
    ensures e.MissingSeparator? ==> r == "missing separator between config and origin"
    ensures e.MissingHashConfig? ==> r == "missing peer session config in url hash"
    ensures e.MalformedUri? ==> r == "URI malformed"
  {
    match e
    case MissingSeparator => "missing separator between config and origin"
    case MissingHashConfig => "missing peer session config in url hash"
    case MalformedUri => "URI malformed"
  }

  /** The token before percent-encoding: `serialized + "|" + origin`. */
  function FormatCfgString(serializedPeerSessionConfig: string, origin: string): (r: string)
    ensures |r| == |serializedPeerSessionConfig| + 1 + |origin|
    ensures r[..|serializedPeerSessionConfig|] == serializedPeerSessionConfig
    ensures r[|serializedPeerSessionConfig|] == Separator
    ensures r[|serializedPeerSessionConfig| + 1..] == origin
  {
    serializedPeerSessionConfig + [Separator] + origin
  }

  /** `parsePeerConfigFromCfgString`: split at the first `|`; everything after
      it, further `|` included, is the origin. */
  function ParseCfgString(cfgString: string): (r: Result<PeerConfig, ConfigError>)
    ensures r.Failure? <==> Separator !in cfgString
    ensures r.Failure? ==> r.error == MissingSeparator
    ensures r.Failure? ==> Message(r.error) == "missing separator between config and origin"
    ensures r.Success? ==> Separator !in r.value.serializedPeerSessionConfig
    ensures r.Success? ==>
      FormatCfgString(r.value.serializedPeerSessionConfig, r.value.parentOrigin) == cfgString
  {
    var bar := Strings.IndexOf(cfgString, Separator);
    if bar == -1 then
      Failure(MissingSeparator)
    else
      assert cfgString == cfgString[..bar] + [Separator] + cfgString[bar + 1..];
      Success(PeerConfig(cfgString[..bar], cfgString[bar + 1..]))
  }

  /** Parsing undoes formatting whenever the configuration has no `|`,
      whatever the origin holds (`|` included). */
  lemma ParseFormatRoundTrip(cfg: string, origin: string)
    requires Separator !in cfg
    ensures ParseCfgString(FormatCfgString(cfg, origin)) == Success(PeerConfig(cfg, origin))
  {
    var token := FormatCfgString(cfg, origin);
    Strings.IndexOfAtSeparator(cfg, Separator, origin);
    assert token[..|cfg|] == cfg;
    assert token[|cfg| + 1..] == origin;
  }

  /** A configuration holding `|` does not survive the round trip: it is cut
      at its own first `|` (index `i`), and the rest of it is glued onto the
      origin. */
  lemma ParseFormatSplitsConfig(cfg: string, origin: string, i: nat)
    requires i < |cfg| && cfg[i] == Separator
    requires forall j :: 0 <= j < i ==> cfg[j] != Separator
    ensures ParseCfgString(FormatCfgString(cfg, origin))
            == Success(PeerConfig(cfg[..i], FormatCfgString(cfg[i + 1..], origin)))
  {
    var token := FormatCfgString(cfg, origin);
    FirstSeparatorInConfig(cfg, origin, i);
    ParseAt(token, i);
    SplitPieces(cfg, origin, i);
  }

  /** The first `|` of the token is the first `|` of the configuration. */
  lemma FirstSeparatorInConfig(cfg: string, origin: string, i: nat)
    requires i < |cfg| && cfg[i] == Separator
    requires forall j :: 0 <= j < i ==> cfg[j] != Separator
    ensures Strings.IndexOf(FormatCfgString(cfg, origin), Separator) == i
  {
    var token := FormatCfgString(cfg, origin);
    forall j | 0 <= j <= i
      ensures token[j] == cfg[j]
    {
    }
    Strings.IndexOfIsFirst(token, Separator, i);
  }

  /** The two sides of the token cut at index `i` of the configuration. */
  lemma SplitPieces(cfg: string, origin: string, i: nat)
    requires i < |cfg|
    ensures FormatCfgString(cfg, origin)[..i] == cfg[..i]
    ensures FormatCfgString(cfg, origin)[i + 1..] == FormatCfgString(cfg[i + 1..], origin)
  {
    var rest := [Separator] + origin;
    assert FormatCfgString(cfg, origin) == cfg + rest;
    Strings.TakeAppend(cfg, rest, i);
    Strings.DropAppend(cfg, rest, i + 1);
    assert FormatCfgString(cfg[i + 1..], origin) == cfg[i + 1..] + rest;
  }

  /** Parsing splits around whatever index `IndexOf` reports. */
  lemma ParseAt(cfgString: string, i: nat)
    requires Strings.IndexOf(cfgString, Separator) == i
    ensures ParseCfgString(cfgString) == Success(PeerConfig(cfgString[..i], cfgString[i + 1..]))
  {
  }

  /** A concrete instance: configuration "a|b" sent from origin "o". */
  lemma ParseFormatCounterexample()
    ensures ParseCfgString(FormatCfgString("a|b", "o")) == Success(PeerConfig("a", "b|o"))
    ensures ParseCfgString(FormatCfgString("a|b", "o")) != Success(PeerConfig("a|b", "o"))
  {
    ParseFormatSplitsConfig("a|b", "o", 1);
    assert "a|b"[..1] == "a";
    assert "a|b"[2..] + [Separator] + "o" == "b|o";
  }

  /** The fragment the parent appends to the child's address:
      `"#" + encodeURIComponent(serialized + "|" + origin)`. */
  function LaunchFragment(codec: Uri.PercentCodec, serializedPeerSessionConfig: string, origin: string): (r: string)
    ensures |r| >= 1 && r[0] == '#'
    ensures r[1..] == codec.encode(FormatCfgString(serializedPeerSessionConfig, origin))
  {
    "#" + codec.encode(FormatCfgString(serializedPeerSessionConfig, origin))
  }

  /** Stripping the `#` and percent-decoding the fragment gives back the
      token, and the fragment is long enough for the child to read it. */
  lemma LaunchFragmentDecodes(codec: Uri.PercentCodec, cfg: string, origin: string)
    requires Uri.Inverse(codec)
    ensures var fragment := LaunchFragment(codec, cfg, origin);
            && |fragment| >= 2
            && fragment[0] == '#'
            && codec.decode(fragment[1..]) == Some(FormatCfgString(cfg, origin))
  {
    var token := FormatCfgString(cfg, origin);
    Uri.EncodeNonEmpty(codec, token);
    assert LaunchFragment(codec, cfg, origin)[1..] == codec.encode(token);
  }
}
