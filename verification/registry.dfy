/** The listener bookkeeping both channel classes share: the `callbacks`
    array of (callback, installed event listener) pairs, and the window's
    global set of installed "message" listeners.

    Callbacks and event listeners are function objects in the source and are
    compared by identity; here they are opaque numbers. Every call to
    `window.addEventListener` installs a freshly created closure, so the
    window hands out listener ids from a counter. */
module Registry {
  import opened Wrappers

  type CallbackId = nat
  type ListenerId = nat

  /** An encrypted message, opaque to the channel. */
  type Payload = string

  /** One element of `callbacks`: `encMessageCallback` and the `eventCallback`
      closure installed on the window for it. */
  datatype Entry = Entry(callback: CallbackId, listener: ListenerId)

  /** The window's "message" listeners, shared by every channel of the page,
      and the id the next installed closure will get. */
  datatype Window = Window(listeners: set<ListenerId>, nextListener: ListenerId)

  /** A channel's `callbacks` together with the window it installs into. */
  datatype Registration = Registration(entries: seq<Entry>, window: Window)

  /** An inbound `MessageEvent`: the origin the platform reports, and the data. */
  datatype MessageEvent = MessageEvent(origin: string, data: Payload)

  /** One call of a registered callback with a message. */
  datatype Invocation = Invocation(callback: CallbackId, data: Payload)

  function Callbacks(entries: seq<Entry>): set<CallbackId> {
    set i | 0 <= i < |entries| :: entries[i].callback
  }

  function Listeners(entries: seq<Entry>): set<ListenerId> {
    set i | 0 <= i < |entries| :: entries[i].listener
  }

  /** No callback and no listener appears twice in `callbacks`. */
  ghost predicate Distinct(entries: seq<Entry>) {
    forall i, j :: 0 <= i < j < |entries| ==>
      entries[i].callback != entries[j].callback && entries[i].listener != entries[j].listener
  }

  /** Every installed listener was handed out before, so the next id is fresh. */
  ghost predicate WindowOk(w: Window) {
    forall l :: l in w.listeners ==> l < w.nextListener
  }

  /** The registry invariant: entries are distinct, and each entry's listener
      is installed on the window. */
  ghost predicate Valid(reg: Registration) {
    && Distinct(reg.entries)
    && WindowOk(reg.window)
    && Listeners(reg.entries) <= reg.window.listeners
  }

  /** `getEventCallback`: the listener of the first entry for `cb`, if any. */
  function GetEventCallback(entries: seq<Entry>, cb: CallbackId): (r: Option<ListenerId>)
    ensures r.None? <==> cb !in Callbacks(entries)
    ensures r.Some? ==> exists i :: 0 <= i < |entries| && entries[i] == Entry(cb, r.value)
                                    && forall j :: 0 <= j < i ==> entries[j].callback != cb
  {
    if |entries| == 0 then None
    else if entries[0].callback == cb then Some(entries[0].listener)
    else
      var tail := entries[1..];
      var r := GetEventCallback(tail, cb);
      assert Callbacks(entries) == {entries[0].callback} + Callbacks(tail) by {
        assert forall i :: 0 < i < |entries| ==> entries[i] == tail[i - 1];
      }
      assert r.Some? ==> exists i :: 0 <= i < |entries| && entries[i] == Entry(cb, r.value)
                                     && forall j :: 0 <= j < i ==> entries[j].callback != cb by {
        if r.Some? {
          var i :| 0 <= i < |tail| && tail[i] == Entry(cb, r.value)
                   && forall j :: 0 <= j < i ==> tail[j].callback != cb;
          assert entries[i + 1] == Entry(cb, r.value);
          assert forall j :: 0 < j < i + 1 ==> entries[j] == tail[j - 1];
        }
      }
      r
  }

  /** The `for ... of` loop of `getEventCallback`, scanning `callbacks` in order. */
  method FindEventCallback(entries: seq<Entry>, cb: CallbackId) returns (r: Option<ListenerId>)
    ensures r == GetEventCallback(entries, cb)
  {
    var k := 0;
    while k < |entries|
      invariant 0 <= k <= |entries|
      invariant GetEventCallback(entries[k..], cb) == GetEventCallback(entries, cb)
    {
      if entries[k].callback == cb {
        return Some(entries[k].listener);
      }
      assert entries[k..][1..] == entries[k + 1..];
      k := k + 1;
    }
    return None;
  }

  lemma CallbacksAppend(entries: seq<Entry>, e: Entry)
    ensures Callbacks(entries + [e]) == Callbacks(entries) + {e.callback}
    ensures Listeners(entries + [e]) == Listeners(entries) + {e.listener}
  {
    var s := entries + [e];
    assert s[|entries|] == e;
    assert forall i :: 0 <= i < |entries| ==> s[i] == entries[i];
  }

  /** `addMessageListener`: a callback already present changes nothing;
      otherwise a fresh listener is installed on the window and the pair is
      appended to `callbacks`. */
  function Add(reg: Registration, cb: CallbackId): (r: Registration)
    ensures cb in Callbacks(reg.entries) ==> r == reg
    ensures Callbacks(r.entries) == Callbacks(reg.entries) + {cb}
    ensures r.window.nextListener >= reg.window.nextListener
    ensures cb !in Callbacks(reg.entries) ==>
      var n := |reg.entries|;
      && |r.entries| == n + 1
      && r.entries[..n] == reg.entries
      && r.entries[n].callback == cb
      && r.window.listeners == reg.window.listeners + {r.entries[n].listener}
      && (WindowOk(reg.window) ==> r.entries[n].listener !in reg.window.listeners)
  {
    if GetEventCallback(reg.entries, cb).Some? then
      reg
    else
      var l := reg.window.nextListener;
      CallbacksAppend(reg.entries, Entry(cb, l));
      Registration(reg.entries + [Entry(cb, l)], Window(reg.window.listeners + {l}, l + 1))
  }

  /** Adding keeps the registry invariant. */
  lemma AddPreservesValid(reg: Registration, cb: CallbackId)
    requires Valid(reg)
    ensures Valid(Add(reg, cb))
  {
    if cb !in Callbacks(reg.entries) {
      var r := Add(reg, cb);
      var n := |reg.entries|;
      var l := r.entries[n].listener;
      assert l !in Listeners(reg.entries);
      CallbacksAppend(reg.entries, r.entries[n]);
      assert r.entries == reg.entries + [r.entries[n]];
      forall i, j | 0 <= i < j < |r.entries|
        ensures r.entries[i].callback != r.entries[j].callback
        ensures r.entries[i].listener != r.entries[j].listener
      {
        if j == n {
          assert r.entries[i] == reg.entries[i];
          assert reg.entries[i].callback in Callbacks(reg.entries);
          assert reg.entries[i].listener in Listeners(reg.entries);
        }
      }
    }
  }

  /** The `filter` of `removeMessageListener`: `callbacks` without the
      entries for `cb`, in their original order. */
  function Without(entries: seq<Entry>, cb: CallbackId): (r: seq<Entry>)
    ensures forall e :: e in r <==> e in entries && e.callback != cb
    ensures |r| <= |entries|
  {
    if |entries| == 0 then []
    else if entries[0].callback == cb then Without(entries[1..], cb)
    else [entries[0]] + Without(entries[1..], cb)
  }

  /** The filter distributes over concatenation; with `WithoutAbsent` and
      `WithoutSingle` this fixes the order and multiplicity of what it keeps. */
  lemma {:induction false} WithoutAppend(a: seq<Entry>, b: seq<Entry>, cb: CallbackId)
    ensures Without(a + b, cb) == Without(a, cb) + Without(b, cb)
  {
    if |a| > 0 {
      var ab := a + b;
      assert ab[0] == a[0];
      assert ab[1..] == a[1..] + b;
      WithoutAppend(a[1..], b, cb);
    } else {
      assert a + b == b;
    }
  }

  /** A one-entry list is kept exactly when its callback differs. */
  lemma WithoutSingle(e: Entry, cb: CallbackId)
    ensures Without([e], cb) == if e.callback == cb then [] else [e]
  {
    assert [e][1..] == [];
  }

  /** Filtering out an absent callback keeps `callbacks` as it is. */
  lemma {:induction false} WithoutAbsent(entries: seq<Entry>, cb: CallbackId)
    requires cb !in Callbacks(entries)
    ensures Without(entries, cb) == entries
  {
    if |entries| > 0 {
      assert entries[0].callback in Callbacks(entries);
      assert Callbacks(entries[1..]) <= Callbacks(entries) by {
        assert forall i :: 0 <= i < |entries[1..]| ==> entries[1..][i] == entries[i + 1];
      }
      WithoutAbsent(entries[1..], cb);
      assert entries == [entries[0]] + entries[1..];
    }
  }

  /** In a registry without duplicates, filtering out the callback of entry
      `i` removes exactly that entry and keeps all the others in order. */
  lemma {:induction false} WithoutUnique(entries: seq<Entry>, i: nat)
    requires Distinct(entries) && i < |entries|
    ensures Without(entries, entries[i].callback) == entries[..i] + entries[i + 1..]
  {
    var cb := entries[i].callback;
    var tail := entries[1..];
    DistinctTail(entries);
    if i == 0 {
      WithoutAbsent(tail, cb);
    } else {
      assert tail[i - 1] == entries[i];
      WithoutUnique(tail, i - 1);
      DeleteAtCons(entries, i);
    }
  }

  /** Deleting a non-head element commutes with taking the tail. */
  lemma DeleteAtCons(entries: seq<Entry>, i: nat)
    requires 0 < i < |entries|
    ensures entries[..i] + entries[i + 1..] == [entries[0]] + (entries[1..][..i - 1] + entries[1..][i..])
  {
    assert entries[..i] == [entries[0]] + entries[1..][..i - 1];
    assert entries[i + 1..] == entries[1..][i..];
  }

  /** The tail of a duplicate-free list is duplicate-free and does not hold
      the head's callback. */
  lemma DistinctTail(entries: seq<Entry>)
    requires Distinct(entries) && |entries| > 0
    ensures Distinct(entries[1..])
    ensures entries[0].callback !in Callbacks(entries[1..])
  {
    var tail := entries[1..];
    forall k | 0 <= k < |tail|
      ensures tail[k].callback != entries[0].callback
    {
      assert tail[k] == entries[k + 1];
    }
  }

  /** `removeMessageListener`: an absent callback changes nothing; a present
      one loses its entries and its listener, and nothing else changes. */
  function Remove(reg: Registration, cb: CallbackId): (r: Registration)
    ensures cb !in Callbacks(reg.entries) ==> r == reg
    ensures cb !in Callbacks(r.entries)
    ensures forall e :: e in r.entries <==> e in reg.entries && e.callback != cb
    ensures r.window.nextListener == reg.window.nextListener
    ensures r.window.listeners <= reg.window.listeners
  {
    match GetEventCallback(reg.entries, cb)
    case None => reg
    case Some(l) =>
      var kept := Without(reg.entries, cb);
      assert cb !in Callbacks(kept) by {
        forall k | 0 <= k < |kept|
          ensures kept[k].callback != cb
        {
          assert kept[k] in kept;
        }
      }
      Registration(kept, Window(reg.window.listeners - {l}, reg.window.nextListener))
  }

  /** With the invariant, removing the callback of entry `i` deletes exactly
      that entry and uninstalls exactly its listener. */
  lemma RemoveRegistered(reg: Registration, i: nat)
    requires Valid(reg) && i < |reg.entries|
    ensures Remove(reg, reg.entries[i].callback)
            == Registration(reg.entries[..i] + reg.entries[i + 1..],
                            Window(reg.window.listeners - {reg.entries[i].listener}, reg.window.nextListener))
  {
    var cb := reg.entries[i].callback;
    assert cb in Callbacks(reg.entries);
    var l := GetEventCallback(reg.entries, cb).value;
    var j :| 0 <= j < |reg.entries| && reg.entries[j] == Entry(cb, l);
    assert j == i;
    WithoutUnique(reg.entries, i);
  }

  /** Removing keeps the registry invariant. */
  lemma RemovePreservesValid(reg: Registration, cb: CallbackId)
    requires Valid(reg)
    ensures Valid(Remove(reg, cb))
  {
    if cb in Callbacks(reg.entries) {
      var i :| 0 <= i < |reg.entries| && reg.entries[i].callback == cb;
      RemoveRegistered(reg, i);
      DeleteAtKeepsDistinct(reg.entries, i);
    }
  }

  /** Deleting entry `i` keeps the others distinct and takes away exactly
      its listener. */
  lemma DeleteAtKeepsDistinct(es: seq<Entry>, i: nat)
    requires Distinct(es) && i < |es|
    ensures Distinct(es[..i] + es[i + 1..])
    ensures Listeners(es[..i] + es[i + 1..]) <= Listeners(es) - {es[i].listener}
  {
    var kept := es[..i] + es[i + 1..];
    assert forall k :: 0 <= k < |kept| ==> kept[k] == es[if k < i then k else k + 1];
    forall l | l in Listeners(kept)
      ensures l in Listeners(es) - {es[i].listener}
    {
      var k :| 0 <= k < |kept| && kept[k].listener == l;
      var k' := if k < i then k else k + 1;
      assert es[k'].listener in Listeners(es);
    }
  }

  /** The `forEach` of `dispose`: uninstall the listener of every entry. */
  function Unsubscribe(w: Window, entries: seq<Entry>): (r: Window)
    ensures r.listeners == w.listeners - Listeners(entries)
    ensures r.nextListener == w.nextListener
    decreases |entries|
  {
    if |entries| == 0 then w
    else
      assert Listeners(entries) == {entries[0].listener} + Listeners(entries[1..]) by {
        assert forall i :: 0 < i < |entries| ==> entries[i] == entries[1..][i - 1];
      }
      Unsubscribe(Window(w.listeners - {entries[0].listener}, w.nextListener), entries[1..])
  }

  /** Uninstall every listener of the registry and empty `callbacks`; the
      listeners of other channels stay installed. */
  function Clear(reg: Registration): (r: Registration)
    ensures r.entries == []
    ensures r.window.listeners == reg.window.listeners - Listeners(reg.entries)
    ensures Valid(reg) ==> Valid(r)
  {
    Registration([], Unsubscribe(reg.window, reg.entries))
  }

  /** The window dispatching `ev` to the registry's installed closures, in
      registration order: each one calls its callback only when the event's
      origin is the expected one. */
  function Deliver(entries: seq<Entry>, installed: set<ListenerId>, expectedOrigin: string, ev: MessageEvent)
    : (r: seq<Invocation>)
    ensures ev.origin != expectedOrigin ==> r == []
    ensures |r| <= |entries|
    ensures forall k :: 0 <= k < |r| ==> r[k].data == ev.data && r[k].callback in Callbacks(entries)
  {
    if |entries| == 0 then []
    else
      var e := entries[0];
      var rest := Deliver(entries[1..], installed, expectedOrigin, ev);
      assert Callbacks(entries[1..]) <= Callbacks(entries) by {
        assert forall i :: 0 <= i < |entries[1..]| ==> entries[1..][i] == entries[i + 1];
      }
      (if e.listener in installed && ev.origin == expectedOrigin then [Invocation(e.callback, ev.data)] else [])
      + rest
  }

  /** How many times `cb` is called. */
  function Count(invocations: seq<Invocation>, cb: CallbackId): nat {
    if |invocations| == 0 then 0
    else (if invocations[0].callback == cb then 1 else 0) + Count(invocations[1..], cb)
  }

  lemma {:induction false} CountAppend(a: seq<Invocation>, b: seq<Invocation>, cb: CallbackId)
    ensures Count(a + b, cb) == Count(a, cb) + Count(b, cb)
  {
    if |a| > 0 {
      assert (a + b)[1..] == a[1..] + b;
      CountAppend(a[1..], b, cb);
    } else {
      assert a + b == b;
    }
  }

  /** With every listener installed and a matching origin, each entry's
      callback is called once, in `callbacks` order, with the event's data. */
  lemma {:induction false} DeliverInOrder(entries: seq<Entry>, installed: set<ListenerId>, expectedOrigin: string, ev: MessageEvent)
    requires Listeners(entries) <= installed && ev.origin == expectedOrigin
    ensures var r := Deliver(entries, installed, expectedOrigin, ev);
            |r| == |entries| && forall k :: 0 <= k < |r| ==> r[k] == Invocation(entries[k].callback, ev.data)
  {
    if |entries| > 0 {
      assert entries[0].listener in Listeners(entries);
      assert Listeners(entries[1..]) <= Listeners(entries) by {
        assert forall i :: 0 <= i < |entries[1..]| ==> entries[1..][i] == entries[i + 1];
      }
      DeliverInOrder(entries[1..], installed, expectedOrigin, ev);
    }
  }

  /** With the invariant and a matching origin, a registered callback is
      called exactly once per event and any other callback never. */
  lemma {:induction false} DeliverOncePerCallback(entries: seq<Entry>, installed: set<ListenerId>, expectedOrigin: string,
                                                  ev: MessageEvent, cb: CallbackId)
    requires Distinct(entries) && Listeners(entries) <= installed && ev.origin == expectedOrigin
    ensures Count(Deliver(entries, installed, expectedOrigin, ev), cb) == if cb in Callbacks(entries) then 1 else 0
  {
    if |entries| > 0 {
      var e := entries[0];
      var tail := entries[1..];
      assert forall i :: 0 <= i < |tail| ==> tail[i] == entries[i + 1];
      assert Distinct(tail);
      assert Callbacks(entries) == {e.callback} + Callbacks(tail);
      assert Listeners(tail) <= Listeners(entries);
      assert e.listener in Listeners(entries);
      DeliverOncePerCallback(tail, installed, expectedOrigin, ev, cb);
      CountAppend([Invocation(e.callback, ev.data)], Deliver(tail, installed, expectedOrigin, ev), cb);
      if e.callback == cb {
        assert cb !in Callbacks(tail);
      }
    }
  }

  /** Deliveries through a registry depend only on which of ITS listeners are
      installed: other channels' listeners coming and going do not matter. */
  lemma {:induction false} DeliverDependsOnOwnListeners(entries: seq<Entry>, installed: set<ListenerId>, installed': set<ListenerId>,
                                                        expectedOrigin: string, ev: MessageEvent)
    requires forall l :: l in Listeners(entries) ==> (l in installed <==> l in installed')
    ensures Deliver(entries, installed, expectedOrigin, ev) == Deliver(entries, installed', expectedOrigin, ev)
  {
    if |entries| > 0 {
      assert entries[0].listener in Listeners(entries);
      assert Listeners(entries[1..]) <= Listeners(entries) by {
        assert forall i :: 0 <= i < |entries[1..]| ==> entries[1..][i] == entries[i + 1];
      }
      DeliverDependsOnOwnListeners(entries[1..], installed, installed', expectedOrigin, ev);
    }
  }
}
