/** What `SafeRPCIFrameParent.create` does besides calling the session
    library: build the child's launch address from the serialized peer
    session configuration and the parent's own origin, and bind a channel to
    the loaded iframe. */
module ParentBootstrap {
  import opened Wrappers
  import Uri
  import opened Handshake
  import RawChannel
  import ChildBootstrap

  /** The launch address and the channel bound to the iframe loaded from it. */
  datatype Launched = Launched(url: string, channel: RawChannel.Channel)

  /** `create(childUrl)` with `serializedPeerSessionInfo` from the session
      library, `hostOrigin` the value of `window.location.origin`, `frame` the
      iframe once loaded and `originOf` standing for `new URL(_).origin`. */
  function Create(childUrl: string, hostOrigin: string, serializedPeerSessionInfo: string,
                  codec: Uri.PercentCodec, frame: RawChannel.FrameId, originOf: string -> string): (r: Launched)
    ensures r.url == childUrl + "#" + codec.encode(FormatCfgString(serializedPeerSessionInfo, hostOrigin))
    ensures r.channel == RawChannel.NewChannel(r.url, frame, originOf)
    ensures r.channel.expectedOrigin == originOf(r.url) && RawChannel.CanSendMessage(r.channel)
  {
    var url := childUrl + LaunchFragment(codec, serializedPeerSessionInfo, hostOrigin);
    Launched(url, RawChannel.NewChannel(url, frame, originOf))
  }

  /** The whole handshake: the fragment the parent appends, read back by a
      child created without settings, yields exactly the configuration and
      the parent's origin. */
  lemma HandshakeRoundTrip(childUrl: string, hostOrigin: string, cfg: string,
                           codec: Uri.PercentCodec, frame: RawChannel.FrameId, originOf: string -> string)
    requires Uri.Inverse(codec)
    requires Separator !in cfg
    ensures var launched := Create(childUrl, hostOrigin, cfg, codec, frame, originOf);
            var hash := launched.url[|childUrl|..];
            && launched.url == childUrl + hash
            && ChildBootstrap.Create(ChildBootstrap.Settings(None, None), hash, codec)
               == Success(PeerConfig(cfg, hostOrigin))
  {
    var launched := Create(childUrl, hostOrigin, cfg, codec, frame, originOf);
    assert launched.url[|childUrl|..] == LaunchFragment(codec, cfg, hostOrigin);
    ChildBootstrap.ReadsLaunchFragment(ChildBootstrap.Settings(None, None), codec, cfg, hostOrigin);
  }
}
