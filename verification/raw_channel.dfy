/** The raw message channel, in both of its variants.

    `ChildToParentIFrameChannel` (in the child) and `ParentToChildIFrameChannel`
    (in the parent) have the same fields and the same methods; they differ in
    the window they post to and in `dispose`, where the parent variant also
    removes the iframe it owns. One datatype tagged by `Side` models both.
    Every operation is a pure transition on a `State`: the channel, the
    window's listeners it shares with the rest of the page, and the messages
    it has posted. */
module RawChannel {
  import opened Wrappers
  import opened Registry

  /** The identity of the child iframe element. */
  type FrameId = nat

  datatype Side = ChildToParent | ParentToChild(iframe: FrameId)

  /** The fields of either class; `expectedOrigin` is `parentOrigin` or
      `childOrigin`, and `frameRemovals` counts `document.body.removeChild`
      calls on the iframe. */
  datatype Channel = Channel(
    side: Side,
    expectedOrigin: string,
    disposed: bool,
    callbacks: seq<Entry>,
    frameRemovals: nat)

  /** One `postMessage(message, targetOrigin)` call to the peer window. */
  datatype Post = Post(message: Payload, targetOrigin: string)

  datatype State = State(channel: Channel, window: Window, outbox: seq<Post>)

  /** The calls a user of the channel can make that change its state. */
  datatype Op = Listen(cb: CallbackId) | Unlisten(cb: CallbackId) | Close | Send(message: Payload)

  /** The constructor: bound to its peer and origin, not disposed, no callbacks. */
  function New(side: Side, expectedOrigin: string): (c: Channel)
    ensures c.side == side && c.expectedOrigin == expectedOrigin
    ensures CanSendMessage(c) && c.callbacks == [] && c.frameRemovals == 0
  {
    Channel(side, expectedOrigin, false, [], 0)
  }

  /** `ParentToChildIFrameChannel.newChannel(src)`, once the iframe has loaded:
      the expected origin is the origin of `src`, the address the iframe was
      launched at. `originOf` stands for `new URL(src).origin`. */
  function NewChannel(src: string, frame: FrameId, originOf: string -> string): (c: Channel)
    ensures c.side == ParentToChild(frame)
    ensures c.expectedOrigin == originOf(src)
    ensures CanSendMessage(c) && c.callbacks == [] && c.frameRemovals == 0
  {
    New(ParentToChild(frame), originOf(src))
  }

  /** `canSendMessage()`: true until the channel is disposed. */
  function CanSendMessage(c: Channel): (r: bool)
    ensures r <==> !c.disposed
  {
    !c.disposed
  }

  /** `connect(config?)`: no handshake happens here, so it always succeeds
      and the channel is left as it is. */
  function Connect(c: Channel): (ok: bool)
    ensures ok
  {
    true
  }

  /** Why `sendMessageRaw` throws: a disposed parent channel has detached its
      iframe, so `iframe.contentWindow` is null and the call raises a
      `TypeError` before anything is posted. */
  datatype SendError = DetachedFrame

  /** `sendMessageRaw`: posts to the peer, restricted to the expected origin.
      It does not look at `disposed` itself: the child side still posts to
      `window.parent`, while the parent side fails once its iframe is gone. */
  function SendMessageRaw(s: State, message: Payload): (r: Result<State, SendError>)
    ensures r.Failure? <==> s.channel.side.ParentToChild? && s.channel.disposed
    ensures r.Failure? ==> r.error == DetachedFrame
    ensures r.Success? ==> r.value.channel == s.channel && r.value.window == s.window
    ensures r.Success? ==> r.value.outbox == s.outbox + [Post(message, s.channel.expectedOrigin)]
  {
    if s.channel.side.ParentToChild? && s.channel.disposed then
      Failure(DetachedFrame)
    else
      Success(State(s.channel, s.window, s.outbox + [Post(message, s.channel.expectedOrigin)]))
  }

  function Reg(c: Channel, w: Window): Registration {
    Registration(c.callbacks, w)
  }

  function WithReg(s: State, reg: Registration): State {
    State(s.channel.(callbacks := reg.entries), reg.window, s.outbox)
  }

  /** `addMessageListener`: idempotent per callback identity. */
  function AddMessageListener(s: State, cb: CallbackId): (r: State)
    ensures cb in Callbacks(s.channel.callbacks) ==> r == s
    ensures Callbacks(r.channel.callbacks) == Callbacks(s.channel.callbacks) + {cb}
    ensures r.channel == s.channel.(callbacks := r.channel.callbacks) && r.outbox == s.outbox
  {
    WithReg(s, Registry.Add(Reg(s.channel, s.window), cb))
  }

  /** `removeMessageListener`: a no-op for an unknown callback; otherwise
      drops that callback's entry, and only that one. */
  function RemoveMessageListener(s: State, cb: CallbackId): (r: State)
    ensures cb !in Callbacks(s.channel.callbacks) ==> r == s
    ensures cb !in Callbacks(r.channel.callbacks)
    ensures forall e :: e in r.channel.callbacks <==> e in s.channel.callbacks && e.callback != cb
    ensures r.window.listeners <= s.window.listeners
    ensures r.channel == s.channel.(callbacks := r.channel.callbacks) && r.outbox == s.outbox
  {
    WithReg(s, Registry.Remove(Reg(s.channel, s.window), cb))
  }

  /** `dispose`: the first call uninstalls every listener of this channel,
      empties `callbacks`, marks the channel disposed and (parent side)
      removes the iframe; later calls change nothing. */
  function Dispose(s: State): (r: State)
    ensures s.channel.disposed ==> r == s
    ensures r.channel.disposed && !CanSendMessage(r.channel)
    ensures !s.channel.disposed ==> r.channel.callbacks == []
    ensures !s.channel.disposed ==> r.window.listeners == s.window.listeners - Listeners(s.channel.callbacks)
    ensures !s.channel.disposed ==>
      r.channel.frameRemovals == s.channel.frameRemovals + (if s.channel.side.ParentToChild? then 1 else 0)
    ensures r.channel.side == s.channel.side && r.channel.expectedOrigin == s.channel.expectedOrigin
    ensures r.window.nextListener == s.window.nextListener && r.outbox == s.outbox
  {
    if s.channel.disposed then
      s
    else
      var cleared := Registry.Clear(Reg(s.channel, s.window));
      var removals := s.channel.frameRemovals + (if s.channel.side.ParentToChild? then 1 else 0);
      State(s.channel.(disposed := true, callbacks := cleared.entries, frameRemovals := removals),
            cleared.window, s.outbox)
  }

  /** An inbound "message" event reaching this channel's listeners through
      window `w`: only an event from the expected origin calls anything. */
  function Deliver(c: Channel, w: Window, ev: MessageEvent): (r: seq<Invocation>)
    ensures ev.origin != c.expectedOrigin ==> r == []
    ensures forall k :: 0 <= k < |r| ==> r[k].data == ev.data && r[k].callback in Callbacks(c.callbacks)
  {
    Registry.Deliver(c.callbacks, w.listeners, c.expectedOrigin, ev)
  }

  function Step(s: State, op: Op): State {
    match op
    case Listen(cb) => AddMessageListener(s, cb)
    case Unlisten(cb) => RemoveMessageListener(s, cb)
    case Close => Dispose(s)
    case Send(m) =>
      // a thrown `TypeError` leaves the state as it was
      match SendMessageRaw(s, m)
      case Success(t) => t
      case Failure(_) => s
  }

  function Run(s: State, ops: seq<Op>): State
    decreases |ops|
  {
    if |ops| == 0 then s else Run(Step(s, ops[0]), ops[1..])
  }

  /** The channel invariant: the registry invariant, the iframe removed
      exactly when a parent channel is disposed, and every post addressed to
      the expected origin. */
  ghost predicate Valid(s: State) {
    && Registry.Valid(Reg(s.channel, s.window))
    && s.channel.frameRemovals == (if s.channel.disposed && s.channel.side.ParentToChild? then 1 else 0)
    && forall k :: 0 <= k < |s.outbox| ==> s.outbox[k].targetOrigin == s.channel.expectedOrigin
  }

  /** A freshly constructed channel on a well-formed window is valid. */
  lemma NewIsValid(side: Side, expectedOrigin: string, w: Window)
    requires WindowOk(w)
    ensures Valid(State(New(side, expectedOrigin), w, []))
  {
  }

  /** Every operation keeps the invariant. */
  lemma StepPreservesValid(s: State, op: Op)
    requires Valid(s)
    ensures Valid(Step(s, op))
  {
    match op
    case Listen(cb) => Registry.AddPreservesValid(Reg(s.channel, s.window), cb);
    case Unlisten(cb) => Registry.RemovePreservesValid(Reg(s.channel, s.window), cb);
    case Close =>
    case Send(m) =>
  }

  lemma {:induction false} RunPreservesValid(s: State, ops: seq<Op>)
    requires Valid(s)
    ensures Valid(Run(s, ops))
    decreases |ops|
  {
    if |ops| > 0 {
      StepPreservesValid(s, ops[0]);
      RunPreservesValid(Step(s, ops[0]), ops[1..]);
    }
  }

  /** Disposal is terminal: whatever is called afterwards, the channel stays
      disposed, keeps its peer and origin, and never removes the iframe again. */
  lemma {:induction false} DisposedIsTerminal(s: State, ops: seq<Op>)
    requires s.channel.disposed
    ensures var r := Run(s, ops);
            && r.channel.disposed && !CanSendMessage(r.channel)
            && r.channel.side == s.channel.side && r.channel.expectedOrigin == s.channel.expectedOrigin
            && r.channel.frameRemovals == s.channel.frameRemovals
    decreases |ops|
  {
    if |ops| > 0 {
      DisposedIsTerminal(Step(s, ops[0]), ops[1..]);
    }
  }

  /** A live channel can send exactly until the first `dispose`. */
  lemma {:induction false} CanSendUntilClosed(s: State, ops: seq<Op>)
    requires !s.channel.disposed
    ensures CanSendMessage(Run(s, ops).channel) <==> Close !in ops
    decreases |ops|
  {
    if |ops| > 0 {
      var t := Step(s, ops[0]);
      if ops[0] == Close {
        DisposedIsTerminal(t, ops[1..]);
      } else {
        CanSendUntilClosed(t, ops[1..]);
        assert Close in ops[1..] <==> Close in ops by {
          assert ops == [ops[0]] + ops[1..];
        }
      }
    }
  }

  /** Whatever a parent channel is put through, its iframe is removed once
      if it was disposed and never otherwise. */
  lemma ParentFrameRemovedOnce(frame: FrameId, expectedOrigin: string, w: Window, ops: seq<Op>)
    requires WindowOk(w)
    ensures Run(State(New(ParentToChild(frame), expectedOrigin), w, []), ops).channel.frameRemovals
            == if Close in ops then 1 else 0
  {
    var s := State(New(ParentToChild(frame), expectedOrigin), w, []);
    NewIsValid(ParentToChild(frame), expectedOrigin, w);
    RunPreservesValid(s, ops);
    CanSendUntilClosed(s, ops);
    assert Run(s, ops).channel.side == ParentToChild(frame) by {
      RunKeepsPeer(s, ops);
    }
  }

  /** No operation rebinds a channel to another peer or origin. */
  lemma {:induction false} RunKeepsPeer(s: State, ops: seq<Op>)
    ensures Run(s, ops).channel.side == s.channel.side
    ensures Run(s, ops).channel.expectedOrigin == s.channel.expectedOrigin
    decreases |ops|
  {
    if |ops| > 0 {
      RunKeepsPeer(Step(s, ops[0]), ops[1..]);
    }
  }

  /** Adding the same callback twice installs a single window listener, and a
      matching event then calls that callback exactly once. */
  lemma AddTwiceInstallsOnce(s: State, cb: CallbackId, ev: MessageEvent)
    requires Valid(s) && cb !in Callbacks(s.channel.callbacks)
    requires ev.origin == s.channel.expectedOrigin
    ensures var r := AddMessageListener(AddMessageListener(s, cb), cb);
            && |r.channel.callbacks| == |s.channel.callbacks| + 1
            && |r.window.listeners| == |s.window.listeners| + 1
            && Count(Deliver(r.channel, r.window, ev), cb) == 1
  {
    var once := AddMessageListener(s, cb);
    Registry.AddPreservesValid(Reg(s.channel, s.window), cb);
    assert cb in Callbacks(once.channel.callbacks);
    Registry.DeliverOncePerCallback(once.channel.callbacks, once.window.listeners, once.channel.expectedOrigin, ev, cb);
  }

  /** With the invariant, a matching event calls every registered callback
      once, in registration order, with the event's data. */
  lemma DeliverMatching(s: State, ev: MessageEvent)
    requires Valid(s) && ev.origin == s.channel.expectedOrigin
    ensures var r := Deliver(s.channel, s.window, ev);
            && |r| == |s.channel.callbacks|
            && forall k :: 0 <= k < |r| ==> r[k] == Invocation(s.channel.callbacks[k].callback, ev.data)
  {
    Registry.DeliverInOrder(s.channel.callbacks, s.window.listeners, s.channel.expectedOrigin, ev);
  }

  /** Immediately after the first `dispose`, before any later
      `addMessageListener`, no event reaches any callback. It is not a lasting
      property: see `AddAfterDisposeStillDelivers`. */
  lemma DisposedChannelIsSilent(s: State, ev: MessageEvent)
    requires !s.channel.disposed
    ensures Deliver(Dispose(s).channel, Dispose(s).window, ev) == []
  {
  }

  /** `addMessageListener` does not check `disposed`: a callback added after
      `dispose` is installed and called by the next matching event. */
  lemma AddAfterDisposeStillDelivers(s: State, cb: CallbackId, ev: MessageEvent)
    requires Valid(s) && s.channel.disposed && cb !in Callbacks(s.channel.callbacks)
    requires ev.origin == s.channel.expectedOrigin
    ensures var r := AddMessageListener(s, cb);
            && r.channel.disposed && !CanSendMessage(r.channel)
            && Count(Deliver(r.channel, r.window, ev), cb) == 1
  {
    var r := AddMessageListener(s, cb);
    Registry.AddPreservesValid(Reg(s.channel, s.window), cb);
    Registry.DeliverOncePerCallback(r.channel.callbacks, r.window.listeners, r.channel.expectedOrigin, ev, cb);
  }

  /** One operation changes the window only at this channel's own listeners
      and at ids handed out by the operation itself. */
  lemma StepTouchesOwnListeners(s: State, op: Op)
    requires Valid(s)
    ensures var r := Step(s, op);
            && r.window.nextListener >= s.window.nextListener
            && (forall l :: l < s.window.nextListener && l !in Listeners(s.channel.callbacks) ==>
                  (l in r.window.listeners <==> l in s.window.listeners))
            && (forall l :: l in Listeners(r.channel.callbacks) ==>
                  l in Listeners(s.channel.callbacks) || l >= s.window.nextListener)
  {
    var r := Step(s, op);
    match op {
      case Listen(cb) =>
        if cb !in Callbacks(s.channel.callbacks) {
          var n := |s.channel.callbacks|;
          assert r.channel.callbacks == s.channel.callbacks + [r.channel.callbacks[n]];
          Registry.CallbacksAppend(s.channel.callbacks, r.channel.callbacks[n]);
        }
      case Unlisten(cb) =>
        if cb in Callbacks(s.channel.callbacks) {
          var i :| 0 <= i < |s.channel.callbacks| && s.channel.callbacks[i].callback == cb;
          Registry.RemoveRegistered(Reg(s.channel, s.window), i);
          Registry.DeleteAtKeepsDistinct(s.channel.callbacks, i);
          assert s.channel.callbacks[i].listener in Listeners(s.channel.callbacks);
        }
      case Close =>
      case Send(m) =>
    }
  }

  /** Channels sharing a window do not disturb each other: whatever one
      channel does, another valid channel with its own listeners stays valid,
      keeps its listeners apart, and receives exactly what it did before. */
  lemma OtherChannelUnaffected(s: State, other: Channel, op: Op, ev: MessageEvent)
    requires Valid(s) && Registry.Valid(Reg(other, s.window))
    requires Listeners(s.channel.callbacks) !! Listeners(other.callbacks)
    ensures var r := Step(s, op);
            && Registry.Valid(Reg(other, r.window))
            && Listeners(r.channel.callbacks) !! Listeners(other.callbacks)
            && Deliver(other, r.window, ev) == Deliver(other, s.window, ev)
  {
    var r := Step(s, op);
    StepTouchesOwnListeners(s, op);
    assert forall l :: l in Listeners(other.callbacks) ==> l < s.window.nextListener;
    Registry.DeliverDependsOnOwnListeners(other.callbacks, r.window.listeners, s.window.listeners, other.expectedOrigin, ev);
    StepPreservesValid(s, op);
  }
}
