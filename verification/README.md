# safe-rpc-iframe: the handshake and the raw channels, in Dafny

safe-rpc-iframe lets a page (the parent) and an iframe it creates (the
child) talk over `window.postMessage`. Both sides lock the link to one origin.
The parent starts an encrypted session and serializes a one-shot peer session
configuration. It joins that configuration and its own origin with `|`,
percent-encodes the result and appends it to the child's address as the
fragment. The child reads the fragment back, splits it at the first `|`, and
learns both the configuration and the origin it must talk to. On each side a
raw message channel does the transport for the session library. It keeps a
registry of (callback, installed `message` listener) pairs. It delivers an
inbound event only when the event's origin is the expected one. It can be
disposed once.

The model is a set of pure functions over immutable values:

- `Strings`: `IndexOf`, which is `String.prototype.indexOf` for one character,
  with positions counted in characters rather than UTF-16 code units.
- `Uri`: `encodeURIComponent` / `decodeURIComponent` (section 19.2.6 of
  ECMA-262) appear as a pair of function values, `PercentCodec`. They are
  never implemented. The predicate `Inverse` is the law the handshake relies
  on: decoding undoes encoding. It is a hypothesis of the lemmas that need it.
  `decode` returns `None` where `decodeURIComponent` throws a `URIError`.
- `Handshake`: the token `cfg + "|" + origin`, `parsePeerConfigFromCfgString`,
  the launch fragment, and the error values with the source's messages.
- `Registry`: the `callbacks` array and the window's global set of `message`
  listeners, which every channel of the page shares. Callbacks and listener
  closures are opaque ids. Each `addEventListener` installs a new closure, so
  the window hands out listener ids from a counter.
- `RawChannel`: `ChildToParentIFrameChannel` and `ParentToChildIFrameChannel`.
  They have the same fields and methods, so one datatype tagged by
  `Side = ChildToParent | ParentToChild(iframe)` models both. Iframe removal in
  the parent's `dispose` is a counter, `frameRemovals`. `postMessage` appends
  to an outbox.
- `ChildBootstrap`: the input selection of `SafeRPCIFrameChild.create`.
- `ParentBootstrap`: the launch address and channel binding of
  `SafeRPCIFrameParent.create`.

Behaviour kept as the code has it, with a lemma that shows it:

- The decoder splits at the first `|`. A configuration that contains `|` is
  cut short, and the rest of it is prepended to the origin
  (`Handshake.ParseFormatSplitsConfig`, `Handshake.ParseFormatCounterexample`).
- `addMessageListener` does not check `disposed`. A callback added after
  `dispose` is installed and gets called (`RawChannel.AddAfterDisposeStillDelivers`).
  So "disposed implies an empty registry" is not an invariant of the code, and
  the channel invariant `RawChannel.Valid` does not claim it.
- `sendMessageRaw` does not check `disposed` either (`RawChannel.SendMessageRaw`).
  A disposed child channel still posts to `window.parent`. A disposed parent
  channel has detached its iframe, so `iframe.contentWindow` is null and the
  call throws a `TypeError` without posting.
- If only one of `parentOrigin` / `serializedPeerSessionConfig` is supplied,
  the child raises no error. It ignores the setting and reads the hash
  (`ChildBootstrap.SingleSettingIgnored`).
- The parent computes the channel's expected origin from the full launch
  address, fragment included (`new URL(realChildURL).origin`, src/parent.ts:104).
  It does not use the address from before the fragment was appended. The model
  follows the code. The two give the same origin for any well-formed URL, but
  `originOf` is opaque here, so the model does not claim that.

## Model

| member | source | states |
|---|---|---|
| Strings.IndexOf | src/child.ts:15 | -1 exactly when the character is absent; otherwise the index of its first occurrence |
| Handshake.Message | src/child.ts:15-18 | the error messages are the source's strings: "missing separator between config and origin" here, and "missing peer session config in url hash" as thrown at src/child.ts:149 |
| Handshake.FormatCfgString | src/parent.ts:135 | the token is the config, then one `\|`, then the origin, at those exact positions |
| Handshake.LaunchFragment | src/parent.ts:132-136 | the fragment starts with "#" and the rest is the percent-encoded token |
| Handshake.ParseCfgString | src/child.ts:11-23 | fails with "missing separator between config and origin" exactly when there is no `\|`; on success the config has no `\|` and config + "\|" + origin gives back the input |
| Handshake.ParseFormatRoundTrip | src/child.ts:15-22 | for a config without `\|` and any origin (even one that contains `\|`), parsing config + "\|" + origin returns exactly (config, origin) |
| Handshake.ParseFormatSplitsConfig | src/child.ts:15-22 | for a config whose first `\|` is at index i, parsing returns config[..i] as the config and the rest of the config, then "\|", then the origin, as the origin |
| Handshake.ParseFormatCounterexample | src/child.ts:15-22 | config "a\|b" from origin "o" comes back as ("a", "b\|o"), not as ("a\|b", "o") |
| Handshake.LaunchFragmentDecodes | src/parent.ts:132-136 | given that decoding undoes encoding, the fragment starts with "#", has length at least 2, and decodes after the "#" to config + "\|" + origin |
| Registry.GetEventCallback | src/child.ts:38-46 | finds nothing exactly when the callback is not registered; otherwise returns the listener of the first entry for that callback |
| Registry.FindEventCallback | src/child.ts:41-45 | the scanning loop returns the same answer as the lookup it implements |
| Registry.Add | src/child.ts:47-62 | an already-registered callback changes nothing; otherwise one entry with a fresh listener is appended and exactly that listener is added to the window |
| Registry.AddPreservesValid | src/child.ts:47-62 | adding keeps callbacks and listeners unique, and keeps every entry's listener installed on the window |
| Registry.Without | src/child.ts:66-68 | the filtered list holds exactly the entries whose callback differs |
| Registry.WithoutAppend | src/child.ts:66-68 | filtering a concatenation is the concatenation of the filtered parts, so the kept entries stay in their order and multiplicity |
| Registry.WithoutSingle | src/child.ts:66-68 | a one-entry list is kept exactly when its callback is not the one being removed |
| Registry.WithoutAbsent | src/child.ts:66-68 | filtering an unregistered callback leaves the list unchanged |
| Registry.WithoutUnique | src/child.ts:66-68 | in a duplicate-free list, filtering entry i's callback removes exactly entry i and keeps the rest in order |
| Registry.Remove | src/child.ts:63-71 | an unregistered callback changes nothing; afterwards the callback is absent and all other entries remain; no listener is installed |
| Registry.RemoveRegistered | src/child.ts:63-71 | removing entry i's callback deletes exactly entry i and uninstalls exactly its listener |
| Registry.RemovePreservesValid | src/child.ts:63-71 | removing keeps the registry invariant |
| Registry.Unsubscribe | src/child.ts:83-85 | the forEach removes exactly this registry's listeners from the window and keeps every other listener |
| Registry.Clear | src/child.ts:83-86 | callbacks become empty, the channel's listeners are uninstalled, and the invariant holds |
| Registry.Deliver | src/child.ts:51-58 | an event from another origin calls nothing; every call passes the event's data to a registered callback |
| Registry.DeliverInOrder | src/child.ts:51-61 | when all listeners are installed and the origin matches, each entry's callback is called once, in registration order |
| Registry.DeliverOncePerCallback | src/child.ts:47-61 | under the invariant, a matching event calls a registered callback exactly once and an unregistered one never |
| Registry.DeliverDependsOnOwnListeners | src/child.ts:51-61 | deliveries depend only on whether this channel's own listeners are installed |
| RawChannel.New | src/parent.ts:40-49 | a new channel is bound to its peer and origin, can send, has no callbacks, and has not removed its iframe |
| RawChannel.NewChannel | src/parent.ts:102-107 | the parent channel's expected origin is the origin of the address the iframe was loaded from |
| RawChannel.Connect | src/parent.ts:84-86 | connect always succeeds |
| RawChannel.CanSendMessage | src/parent.ts:87-89 | true exactly while the channel is not disposed |
| RawChannel.SendMessageRaw | src/parent.ts:50-53 | fails exactly for a disposed parent channel, whose iframe is detached; otherwise posts the message to the expected origin and changes nothing else, also for a disposed child channel |
| RawChannel.AddMessageListener | src/parent.ts:63-74 | idempotent per callback; the set of registered callbacks gains exactly that callback; disposed, peer and origin are untouched |
| RawChannel.RemoveMessageListener | src/parent.ts:75-83 | an unregistered callback changes nothing; otherwise exactly that callback's entry goes and the others stay |
| RawChannel.Dispose | src/parent.ts:90-100 | later calls change nothing; the first call empties callbacks, uninstalls exactly this channel's listeners, sets disposed, and removes the iframe once on the parent side |
| RawChannel.Deliver | src/parent.ts:67-71 | a channel's callbacks run only for events from its expected origin |
| RawChannel.NewIsValid | src/parent.ts:40-49 | a new channel satisfies the channel invariant |
| RawChannel.StepPreservesValid | src/child.ts:47-87 | add, remove, dispose and send each keep the channel invariant |
| RawChannel.RunPreservesValid | src/child.ts:47-87 | any sequence of those calls keeps the channel invariant |
| RawChannel.DisposedIsTerminal | src/child.ts:75-87 | after dispose, no sequence of calls makes the channel able to send again, changes its peer or origin, or removes the iframe again |
| RawChannel.CanSendUntilClosed | src/child.ts:75-87 | starting live, canSendMessage holds after a sequence of calls exactly when the sequence contains no dispose |
| RawChannel.ParentFrameRemovedOnce | src/parent.ts:90-100 | from construction on, the iframe has been removed once if dispose was called and never otherwise |
| RawChannel.RunKeepsPeer | src/parent.ts:37-49 | no call rebinds a channel to another peer or origin |
| RawChannel.AddTwiceInstallsOnce | src/parent.ts:63-74 | adding the same callback twice installs one listener and one entry, and a matching event calls it exactly once |
| RawChannel.DeliverMatching | src/parent.ts:67-73 | under the invariant, a matching event calls every registered callback once, in order, with the event's data |
| RawChannel.DisposedChannelIsSilent | src/parent.ts:90-98 | immediately after the first dispose, before any later addMessageListener, no event reaches any callback |
| RawChannel.AddAfterDisposeStillDelivers | src/child.ts:47-62 | a callback added after dispose is installed and is called by the next matching event, while the channel stays unable to send |
| RawChannel.StepTouchesOwnListeners | src/child.ts:60-86 | a call changes the window's listener set only at the channel's own listeners and at ids it just handed out |
| RawChannel.OtherChannelUnaffected | src/child.ts:51-61 | whatever one channel does, another channel on the same window stays valid, keeps disjoint listeners, and receives exactly what it received before |
| ChildBootstrap.Create | src/child.ts:139-152 | both settings non-empty: used as given; otherwise a hash shorter than 2 fails with "missing peer session config in url hash", a malformed escape fails, and a decoded hash gives exactly the parse of the decoded token: a config without `\|` whose token is the decoded hash |
| ChildBootstrap.SingleSettingIgnored | src/child.ts:139-150 | supplying only one setting (or an empty one) behaves exactly like supplying none |
| ChildBootstrap.ReadsLaunchFragment | src/child.ts:147-152 | given that decoding undoes encoding, the child recovers (config, origin) exactly from the fragment the parent builds, for a config without `\|` |
| ParentBootstrap.Create | src/parent.ts:128-140 | the launch address is childUrl + "#" + encode(config + "\|" + origin), and the channel is the fresh one newChannel binds to it |
| ParentBootstrap.HandshakeRoundTrip | src/parent.ts:132-138 | given that decoding undoes encoding, the part of the launch address after childUrl, read by a child with no settings, yields exactly the config and the parent's origin |

## Left out

- DOM work in `createChildIFrame` (src/parent.ts:11-35): creating, styling and appending the iframe, and the onload/onerror promise. This is platform I/O. The loaded iframe is a parameter (`frame`), and a load failure is not modelled.
- `document.body.removeChild` is a counter, `frameRemovals`. Its own exception, when the iframe is no longer a child of the body, is not modelled.
- `postMessage` is an append to an outbox. What the peer window does with the message is outside the model.
- RawChannel.SendMessageRaw: `postMessage` throws a `SyntaxError` when the target origin is not `"*"`, `"/"` or a parseable URL. One example is the origin "b\|o" from `Handshake.ParseFormatCounterexample`. The model posts to any origin, because origin parsing is not modelled.
- Registry.Deliver: works out every call from the state before dispatch, so `Registry.DeliverInOrder` and `RawChannel.DeliverMatching` assume callbacks do not call back into a channel while an event is dispatched. In the DOM, a listener removed during dispatch by an earlier callback (`removeMessageListener`, `dispose`) is skipped. A listener added during dispatch is not called for that event.
- RawChannel.NewChannel: `originOf` is total. `new URL(realChildURL)` (src/parent.ts:104) throws a `TypeError` for a relative `childUrl`, after the iframe has been appended, and that iframe stays in the page. This failure is not modelled.
- `new URL(src).origin`, `window.location.origin` and `window.location.hash` are parameters (`originOf`, `hostOrigin`, `hash`). URL parsing is not modelled. `ParentBootstrap.HandshakeRoundTrip` reads the hash as the text after `childUrl`. That is the browser's `location.hash` only when `childUrl` has no fragment of its own.
- Strings.IndexOf: strings are sequences of Unicode scalar values. `Strings.IndexOf` and the `|hash| >= 2` test of `ChildBootstrap.Create` count characters, while JavaScript counts UTF-16 code units, so for "😀\|x" the source's `indexOf` gives 2 and the model gives 1. The split is the same, because `substring` (src/child.ts:20-21) counts in the same unit as `indexOf`. `hash.length < 2` (src/child.ts:148) can differ only for a hash that does not start with "#".
- `encodeURIComponent` / `decodeURIComponent` are opaque function values with an assumed inverse law; they are not re-implemented. The `URIError` that `encodeURIComponent` throws on a lone surrogate is not modelled, because Dafny characters are Unicode scalar values.
- The session library (`EncryptedSession`, `serializePeerSessionConfig`, `deserializePeerSessionConfig`, `EncryptedSessionMessageHub`, `EncryptedRPCSession`) and the hubs' `dispose` chaining (src/child.ts:94-130, src/child.ts:161-176, src/parent.ts:109-127, src/parent.ts:141-166) are foreign code. The serialized configuration is an opaque string. `ChildBootstrap.Create` stops where `createWithOriginAndSessionConfig` is called.
- Exceptions thrown by a user callback are not modelled. That covers the child's try/catch with `console.error` (src/child.ts:53-57) and the parent's unguarded call (src/parent.ts:69).
- async/Promise sequencing: nothing here runs concurrently, and the operations are sequential transitions.
- The optional `config` argument of `connect` is ignored by the source and is not a parameter of `RawChannel.Connect`.
- src/index.ts only re-exports.
