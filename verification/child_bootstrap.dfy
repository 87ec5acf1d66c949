/** The decision `SafeRPCIFrameChild.create` makes before handing over to the
    session library: where the parent's origin and the serialized peer
    session configuration come from. The session reconstruction that follows
    belongs to that library and is not part of this model. */
module ChildBootstrap {
  import opened Wrappers
  import Uri
  import opened Handshake

  /** The optional settings the child may be created with; `None` is a
      missing property. */
  datatype Settings = Settings(parentOrigin: Option<string>, serializedPeerSessionConfig: Option<string>)

  /** JavaScript truthiness of an optional string: present and non-empty. */
  predicate Truthy(v: Option<string>) {
    v.Some? && v.value != []
  }

  /** Both settings present and non-empty: the only case that skips the hash. */
  predicate Direct(settings: Settings) {
    Truthy(settings.parentOrigin) && Truthy(settings.serializedPeerSessionConfig)
  }

  /** `create(settings)` up to the call of `createWithOriginAndSessionConfig`,
      with `hash` the value of `window.location.hash`. */
  function Create(settings: Settings, hash: string, codec: Uri.PercentCodec): (r: Result<PeerConfig, ConfigError>)
    ensures Direct(settings) ==>
      r == Success(PeerConfig(settings.serializedPeerSessionConfig.value, settings.parentOrigin.value))
    ensures !Direct(settings) && |hash| < 2 ==>
      r == Failure(MissingHashConfig) && Message(r.error) == "missing peer session config in url hash"
    ensures !Direct(settings) && |hash| >= 2 && codec.decode(hash[1..]).None? ==> r == Failure(MalformedUri)
    ensures !Direct(settings) && r.Success? ==>
      && Separator !in r.value.serializedPeerSessionConfig
      && codec.decode(hash[1..]) == Some(FormatCfgString(r.value.serializedPeerSessionConfig, r.value.parentOrigin))
    ensures !Direct(settings) && |hash| >= 2 && codec.decode(hash[1..]).Some? ==>
      (r == Failure(MissingSeparator) <==> Separator !in codec.decode(hash[1..]).value)
    ensures !Direct(settings) && |hash| >= 2 && codec.decode(hash[1..]).Some? ==>
      r == ParseCfgString(codec.decode(hash[1..]).value)
  {
    if Direct(settings) then
      Success(PeerConfig(settings.serializedPeerSessionConfig.value, settings.parentOrigin.value))
    else if |hash| < 2 then
      Failure(MissingHashConfig)
    else
      match codec.decode(hash[1..])
      case None => Failure(MalformedUri)
      case Some(token) => ParseCfgString(token)
  }

  /** Supplying only one of the two settings is not an error: it is ignored,
      and the configuration is read from the hash exactly as with none. */
  lemma SingleSettingIgnored(settings: Settings, hash: string, codec: Uri.PercentCodec)
    requires !Direct(settings)
    ensures Create(settings, hash, codec) == Create(Settings(None, None), hash, codec)
  {
  }

  /** Reading back what the parent wrote: for a launch fragment built from a
      configuration without `|`, the child recovers the configuration and the
      parent's origin exactly. */
  lemma ReadsLaunchFragment(settings: Settings, codec: Uri.PercentCodec, cfg: string, origin: string)
    requires !Direct(settings) && Uri.Inverse(codec)
    requires Separator !in cfg
    ensures Create(settings, LaunchFragment(codec, cfg, origin), codec) == Success(PeerConfig(cfg, origin))
  {
    LaunchFragmentDecodes(codec, cfg, origin);
    ParseFormatRoundTrip(cfg, origin);
  }
}
