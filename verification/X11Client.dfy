/**
 * The shared state of the X11 backend and the handlers that change it, each
 * proved against the transfer step it carries out for one (window, atom) key.
 */
module X11Client {
  import opened Basics
  import opened X11Transfer
  import opened X11Watchdog

  type Window = nat
  type Atom = nat
  type Key = (Window, Atom)

  class PendingRead {
    var state: ReadState

    constructor ()
      ensures state == Awaiting
    {
      state := Awaiting;
    }

    method Complete(result: ReadResult)
      modifies this
      ensures state == Done(result)
    {
      state := Done(result);
    }

    method SetIncrInProgress()
      modifies this
      ensures state == IncrInProgress
    {
      state := IncrInProgress;
    }
  }

  datatype IncrReceive = IncrReceive(pending: PendingRead, accumulated: Bytes, lastChunkAt: nat)
  datatype Sending = Sending(send: IncrSend, startedAt: nat)

  /** A `get_property` reply. */
  datatype Reply = Reply(isIncr: bool, hint: nat, value: Bytes, bytesAfter: nat)

  function Lookup<K, V>(m: map<K, V>, k: K): Option<V> {
    if k in m then Some(m[k]) else None
  }

  function SendAt(m: map<Key, Sending>, k: Key): Option<IncrSend> {
    if k in m then Some(m[k].send) else None
  }

  function PropertyAt(m: map<Key, Property>, k: Key): Property {
    if k in m then m[k] else Absent
  }

  function Queue<E>(m: map<Key, seq<E>>, k: Key): seq<E> {
    if k in m then m[k] else []
  }

  class X11Inner {
    const ourWindow: Window
    const invisiboolDest: Atom
    const utf8: Bytes -> bool

    var owned: Option<Bytes>
    /** What the request handler saw at its first look at `owned`. */
    var answering: map<Key, Bytes>
    var pendingReads: map<Atom, PendingRead>
    var incrReceives: map<Atom, IncrReceive>
    /** What a handler has read of a chunk and not yet put away. */
    var inHand: map<Atom, Bytes>
    var incrSends: map<Key, Sending>
    var nextToken: nat
    var changeCount: nat

    // The X server: properties, windows whose deletions the owner is told about, and
    // the events it owes to either side.
    var props: map<Key, Property>
    var watched: set<Window>
    var toReader: map<Key, seq<ReaderEvent>>
    var toOwner: map<Key, seq<OwnerEvent>>

    constructor (ourWindow: Window, invisiboolDest: Atom, utf8: Bytes -> bool)
      ensures this.ourWindow == ourWindow && this.invisiboolDest == invisiboolDest && this.utf8 == utf8
      ensures owned == None && answering == map[] && pendingReads == map[] && incrReceives == map[] && inHand == map[]
      ensures incrSends == map[] && props == map[] && watched == {} && toReader == map[] && toOwner == map[]
      ensures nextToken == 1 && changeCount == 0
    {
      this.ourWindow, this.invisiboolDest, this.utf8 := ourWindow, invisiboolDest, utf8;
      owned, answering, pendingReads, incrReceives, inHand, incrSends := None, map[], map[], map[], map[], map[];
      props, watched, toReader, toOwner := map[], {}, map[], map[];
      nextToken, changeCount := 1, 0;
    }

    /** `read` is the only read that the registries know under the key's atom. */
    ghost predicate Serves(key: Key, read: PendingRead)
      reads this
    {
      && (key.1 in pendingReads ==> pendingReads[key.1] == read)
      && (key.1 in incrReceives ==> incrReceives[key.1].pending == read)
      && (key in props ==> !props[key].Absent?)
      && (forall a :: a in incrReceives && a != key.1 ==> incrReceives[a].pending != read)
    }

    /** The transfer that runs under `key` for `read`. */
    ghost function View(key: Key, read: PendingRead): Transfer
      reads this, read
    {
      Transfer(
        owned, Lookup(answering, key), SendAt(incrSends, key), PropertyAt(props, key), key.0 in watched,
        key.1 in pendingReads,
        if key.1 in incrReceives then Some(incrReceives[key.1].accumulated) else None, Lookup(inHand, key.1),
        read.state, Queue(toReader, key), Queue(toOwner, key))
    }

    /** When the transfer's receive was last served, and its send registered. */
    ghost function Times(key: Key): Stamps
      reads this
    {
      Stamps(if key.1 in incrReceives then Some(incrReceives[key.1].lastChunkAt) else None,
             if key in incrSends then Some(incrSends[key].startedAt) else None)
    }

    // ----- requests to the X server -----

    method ChangeProperty(key: Key, value: Property)
      modifies `props, `toReader
      ensures props == old(props)[key := value] && props - {key} == old(props) - {key}
      ensures toReader - {key} == old(toReader) - {key}
      ensures toReader == old(toReader)[key := Queue(old(toReader), key) + [NewValue]]
    {
      props := props[key := value];
      toReader := toReader[key := Queue(toReader, key) + [NewValue]];
    }

    method DeleteProperty(key: Key)
      modifies `props, `toOwner
      ensures props == old(props) - {key}
      ensures toOwner == if key in old(props) && key.0 in watched
                         then old(toOwner)[key := Queue(old(toOwner), key) + [Deleted]] else old(toOwner)
    {
      if key in props && key.0 in watched {
        toOwner := toOwner[key := Queue(toOwner, key) + [Deleted]];
      }
      props := props - {key};
    }

    /** `sent` is false when the event is lost. */
    method SendSelectionNotify(key: Key, refused: bool, sent: bool)
      modifies `toReader
      ensures toReader == if sent then old(toReader)[key := Queue(old(toReader), key) + [SelectionNotify(refused)]] else old(toReader)
      ensures toReader - {key} == old(toReader) - {key}
    {
      if sent {
        toReader := toReader[key := Queue(toReader, key) + [SelectionNotify(refused)]];
      }
    }

    /** GetProperty without delete: a window of the value counted in four-byte units. */
    method PeekProperty(key: Key, longOffset: nat, longLength: nat) returns (r: Option<Reply>)
      ensures var p := PropertyAt(props, key);
              var all := PropertyValue(p);
              r.Some? == (4 * longOffset <= |all|) &&
              (r.Some? ==>
                 && r.value.isIncr == p.IncrMarker? && (p.IncrMarker? ==> r.value.hint == p.hint)
                 && r.value.value == all[4 * longOffset..Min(|all|, 4 * longOffset + 4 * longLength)]
                 && r.value.bytesAfter == |all| - Min(|all|, 4 * longOffset + 4 * longLength))
    {
      var p := PropertyAt(props, key);
      var all := PropertyValue(p);
      if 4 * longOffset > |all| {
        return None;
      }
      var end := Min(|all|, 4 * longOffset + 4 * longLength);
      return Some(Reply(p.IncrMarker?, if p.IncrMarker? then p.hint else 0, all[4 * longOffset..end], |all| - end));
    }

    // ----- handlers of the event thread -----

    /**
     * The plain path: a first look at 32 bytes, then the rest by offset.  The
     * pieces join to the whole value, unless it is over the limit or a further
     * request fails.
     */
    method ReadPlain(key: Key, peek: Reply, followUpOk: bool) returns (buffer: Option<Bytes>)
      requires var all := PropertyValue(PropertyAt(props, key));
               peek.value == all[..Min(|all|, 32)] && peek.bytesAfter == |all| - Min(|all|, 32)
      ensures var all := PropertyValue(PropertyAt(props, key));
              buffer == if |all| > MAX_CLIPBOARD_BYTES || (|all| > 32 && !followUpOk) then None else Some(all)
    {
      ghost var all := PropertyValue(PropertyAt(props, key));
      var accumulated, bytesAfter := peek.value, peek.bytesAfter;
      var offset := |accumulated|;
      while bytesAfter > 0
        invariant offset == |accumulated| <= |all|
        invariant accumulated == all[..offset] && bytesAfter == |all| - offset
        invariant bytesAfter > 0 ==> offset % 4 == 0
        invariant |all| > MAX_CLIPBOARD_BYTES || (|all| > 32 && !followUpOk) ==> bytesAfter > 0
        decreases bytesAfter
      {
        if |accumulated| + bytesAfter > MAX_CLIPBOARD_BYTES || !followUpOk {
          return None;
        }
        var next := PeekProperty(key, offset / 4, MAX_CLIPBOARD_BYTES / 4);
        accumulated := accumulated + next.value.value;
        offset := |accumulated|;
        bytesAfter := next.value.bytesAfter;
      }
      assert all[..|all|] == all;
      return Some(accumulated);
    }

    /** Whether the read of a property, in its one or more requests, succeeds. */
    ghost function AllAnswered(key: Key, answered: bool, followUpOk: bool): bool
      reads this
    {
      answered && (followUpOk || PropertyAt(props, key).IncrMarker? || |PropertyValue(PropertyAt(props, key))| <= 32)
    }

    /** The INCR branch: register the receive, then delete the marker. */
    method BeginReceive(dest: Atom, pending: PendingRead, deleted: bool, now: nat)
      requires Serves((ourWindow, dest), pending) && dest !in pendingReads && PropertyAt(props, (ourWindow, dest)).IncrMarker?
      modifies `incrReceives, `props, `toOwner, pending
      ensures var key := (ourWindow, dest);
              && Serves(key, pending)
              && View(key, pending) == (
                   var t := old(View(key, pending)).(read := IncrInProgress, receive := Some([]));
                   if deleted then Delete(t) else t)
              && props - {key} == old(props) - {key} && toOwner - {key} == old(toOwner) - {key}
      ensures incrReceives - {dest} == old(incrReceives) - {dest}
      ensures Times((ourWindow, dest)) == old(Times((ourWindow, dest))).(receiveAt := Some(now))
    {
      pending.SetIncrInProgress();
      incrReceives := incrReceives[dest := IncrReceive(pending, [], now)];
      if deleted {
        DeleteProperty((ourWindow, dest));
      }
    }

    /** SelectionNotify on our window; `property` is absent when the owner refused. */
    method HandleSelectionNotify(property: Option<Atom>, answered: bool, followUpOk: bool, deleted: bool, now: nat,
                                 ghost key: Key, ghost read: PendingRead)
      requires key == (ourWindow, if property.Some? then property.value else invisiboolDest)
      requires Serves(key, read)
      modifies `pendingReads, `incrReceives, `props, `toOwner, read
      ensures Serves(key, read)
      ensures View(key, read) == OnSelectionNotify(utf8, old(View(key, read)), property.None?,
                                                   old(AllAnswered(key, answered, followUpOk)), deleted)
      ensures Times(key) == Restamp(old(View(key, read)), View(key, read), now, old(Times(key)))
      ensures pendingReads - {key.1} == old(pendingReads) - {key.1}
      ensures incrReceives - {key.1} == old(incrReceives) - {key.1}
      ensures props - {key} == old(props) - {key} && toOwner - {key} == old(toOwner) - {key}
    {
      var dest := if property.Some? then property.value else invisiboolDest;
      if dest !in pendingReads {
        return;
      }
      var pending := pendingReads[dest];
      pendingReads := pendingReads - {dest};
      if property.None? {
        pending.Complete(Success(None));
        return;
      }
      if !answered {
        pending.Complete(ReadFailed);
        return;
      }
      var peek := PeekProperty((ourWindow, dest), 0, 8);
      if peek.value.isIncr {
        if peek.value.hint > MAX_CLIPBOARD_BYTES {
          pending.Complete(ReadFailed);
          return;
        }
        BeginReceive(dest, pending, deleted, now);
        return;
      }
      FinishPlain(dest, pending, peek.value, followUpOk);
    }

    /** The rest of the plain path. */
    method FinishPlain(dest: Atom, pending: PendingRead, peek: Reply, followUpOk: bool)
      requires var all := PropertyValue(PropertyAt(props, (ourWindow, dest)));
               peek.value == all[..Min(|all|, 32)] && peek.bytesAfter == |all| - Min(|all|, 32)
      modifies pending
      ensures var all := PropertyValue(PropertyAt(props, (ourWindow, dest)));
              pending.state == Done(if |all| > MAX_CLIPBOARD_BYTES || (|all| > 32 && !followUpOk) then ReadFailed else CompletePlainRead(utf8, all))
    {
      var buffer := ReadPlain((ourWindow, dest), peek, followUpOk);
      if buffer.None? {
        pending.Complete(ReadFailed);
      } else {
        pending.Complete(CompletePlainRead(utf8, buffer.value));
      }
    }

    /** PropertyNotify(NewValue) on our window, up to the reply that reads and deletes the value. */
    method TakeIncrChunk(property: Atom, answered: bool, ghost read: PendingRead)
      requires Serves((ourWindow, property), read) && property !in inHand
      modifies `incrReceives, `inHand, `props, `toOwner, read
      ensures Serves((ourWindow, property), read)
      ensures View((ourWindow, property), read) == OnNewValue(old(View((ourWindow, property), read)), answered)
      ensures Times((ourWindow, property)) ==
              if property in incrReceives then old(Times((ourWindow, property)))
              else old(Times((ourWindow, property))).(receiveAt := None)
      ensures incrReceives - {property} == old(incrReceives) - {property} && inHand - {property} == old(inHand) - {property}
      ensures var key := (ourWindow, property);
              props - {key} == old(props) - {key} && toOwner - {key} == old(toOwner) - {key}
    {
      if property !in incrReceives {
        return;
      }
      if !answered {
        var entry := incrReceives[property];
        incrReceives := incrReceives - {property};
        entry.pending.Complete(ReadFailed);
        return;
      }
      inHand := inHand[property := PropertyValue(PropertyAt(props, (ourWindow, property)))];
      DeleteProperty((ourWindow, property));
    }

    /** The rest of that handler, under the lock again: the watchdog may have removed the receive meanwhile. */
    method PutAwayIncrChunk(property: Atom, now: nat, ghost read: PendingRead)
      requires Serves((ourWindow, property), read) && property in inHand
      modifies `incrReceives, `inHand, read
      ensures Serves((ourWindow, property), read)
      ensures View((ourWindow, property), read) == OnTaken(utf8, old(View((ourWindow, property), read)))
      ensures var key := (ourWindow, property);
              Times(key) == Restamp(old(View(key, read)), View(key, read), now, old(Times(key)))
      ensures incrReceives - {property} == old(incrReceives) - {property} && inHand - {property} == old(inHand) - {property}
    {
      var value := inHand[property];
      inHand := inHand - {property};
      if property !in incrReceives {
        return;
      }
      var entry := incrReceives[property];
      if value == [] {
        incrReceives := incrReceives - {property};
        entry.pending.Complete(CompletePlainRead(utf8, entry.accumulated));
        return;
      }
      if |entry.accumulated| + |value| > MAX_CLIPBOARD_BYTES {
        incrReceives := incrReceives - {property};
        entry.pending.Complete(ReadFailed);
        return;
      }
      incrReceives := incrReceives[property := entry.(accumulated := entry.accumulated + value, lastChunkAt := now)];
    }

    /** A short text goes into the property whole. */
    method AnswerPlain(key: Key, accepted: bool, sent: bool, ghost watch: bool, ghost read: PendingRead)
      requires Serves(key, read) && key !in answering && owned.Some? && |owned.value| <= OWNER_SINGLE_SHOT_CAP
      modifies `props, `toReader
      ensures Serves(key, read)
      ensures View(key, read) == AnswerBegin(old(View(key, read)), watch, accepted, sent)
      ensures props - {key} == old(props) - {key} && toReader - {key} == old(toReader) - {key}
    {
      if accepted {
        ChangeProperty(key, Content(owned.value));
      }
      SendSelectionNotify(key, !accepted, sent);
    }

    /** Asks to be told about deletions on the requestor's window; `ok` is false when the request is lost. */
    method WatchRequestor(window: Window, ok: bool)
      modifies `watched
      ensures window in watched <==> window in old(watched) || ok
      ensures watched - {window} == old(watched) - {window}
    {
      if ok {
        watched := watched + {window};
      }
    }

    /** A long text is announced by the INCR marker. */
    method MarkIncr(key: Key, text: Bytes, accepted: bool, sent: bool)
      modifies `answering, `props, `toReader
      ensures answering == if accepted then old(answering)[key := text] else old(answering)
      ensures props == if accepted then old(props)[key := IncrMarker(|text| % 0x1_0000_0000)] else old(props)
      ensures Queue(toReader, key) == Queue(old(toReader), key)
                + if accepted then [NewValue] else if sent then [SelectionNotify(true)] else []
      ensures answering - {key} == old(answering) - {key} && props - {key} == old(props) - {key}
      ensures toReader - {key} == old(toReader) - {key}
    {
      if !accepted {
        SendSelectionNotify(key, true, sent);
        return;
      }
      ChangeProperty(key, IncrMarker(|text| % 0x1_0000_0000));
      answering := answering[key := text];
    }

    /** A request for the text, up to its first look at `owned` and the property it sets, if the server accepts. */
    method BeginTextRequest(key: Key, watch: bool, accepted: bool, sent: bool, ghost read: PendingRead)
      requires Serves(key, read) && key !in answering
      modifies `answering, `props, `watched, `toReader
      ensures Serves(key, read)
      ensures View(key, read) == AnswerBegin(old(View(key, read)), watch, accepted, sent)
      ensures answering - {key} == old(answering) - {key} && props - {key} == old(props) - {key}
      ensures watched - {key.0} == old(watched) - {key.0} && toReader - {key} == old(toReader) - {key}
    {
      if owned.None? {
        SendSelectionNotify(key, true, sent);
      } else if |owned.value| <= OWNER_SINGLE_SHOT_CAP {
        AnswerPlain(key, accepted, sent, watch, read);
      } else {
        WatchRequestor(key.0, watch);
        MarkIncr(key, owned.value, accepted, sent);
      }
    }

    /** The rest of an INCR answer: a second look at `owned`, registration, notify. */
    method FinishTextRequest(key: Key, sent: bool, now: nat, ghost read: PendingRead)
      requires Serves(key, read) && key in answering
      modifies `answering, `incrSends, `toReader
      ensures Serves(key, read)
      ensures View(key, read) == AnswerFinish(old(View(key, read)), sent)
      ensures Times(key) == Restamp(old(View(key, read)), View(key, read), now, old(Times(key)))
      ensures answering - {key} == old(answering) - {key} && incrSends - {key} == old(incrSends) - {key}
      ensures toReader - {key} == old(toReader) - {key}
    {
      if owned.Some? {
        incrSends := incrSends[key := Sending(IncrSend(owned.value, 0), now)];
      }
      answering := answering - {key};
      assert View(key, read) == old(View(key, read)).(request := None, send := SendAt(incrSends, key));
      SendSelectionNotify(key, false, sent);
    }

    /** Cuts the next chunk off a send, or drops the send when nothing is left. */
    method TakeChunk(key: Key) returns (chunk: Bytes)
      requires key in incrSends
      modifies `incrSends
      ensures (chunk, SendAt(incrSends, key)) == NextChunk(old(incrSends[key].send))
      ensures key in incrSends ==> incrSends[key].startedAt == old(incrSends[key].startedAt)
      ensures incrSends - {key} == old(incrSends) - {key}
    {
      var entry := incrSends[key].send;
      var remaining := if entry.nextOffset <= |entry.content| then |entry.content| - entry.nextOffset else 0;
      if remaining == 0 {
        incrSends := incrSends - {key};
        return [];
      }
      var end := entry.nextOffset + Min(remaining, OWNER_INCR_CHUNK_SIZE);
      incrSends := incrSends[key := incrSends[key].(send := entry.(nextOffset := end))];
      return entry.content[entry.nextOffset..end];
    }

    /** PropertyNotify(Deleted): `delivered` is false when the answer is lost on the way. */
    method ServeNextIncrChunk(key: Key, delivered: bool, ghost read: PendingRead)
      requires Serves(key, read)
      modifies `incrSends, `props, `toReader
      ensures Serves(key, read)
      ensures View(key, read) == OnDeleted(old(View(key, read)), delivered)
      ensures Times(key) == if key in incrSends then old(Times(key)) else old(Times(key)).(sendAt := None)
      ensures incrSends - {key} == old(incrSends) - {key} && props - {key} == old(props) - {key}
      ensures toReader - {key} == old(toReader) - {key}
    {
      if key !in incrSends {
        return;
      }
      var chunk := TakeChunk(key);
      if delivered {
        ChangeProperty(key, Content(chunk));
      }
    }

    // ----- the watchdog -----

    /** The watchdog's look: exactly the receives idle for longer than half a second. */
    method FindIdleReceives(now: nat) returns (toFail: set<Atom>)
      ensures forall a :: a in toFail <==> a in incrReceives && now > incrReceives[a].lastChunkAt + 500
      ensures forall key: Key :: key.1 in toFail <==> IsIdle(Times(key), now)
    {
      toFail := set a | a in incrReceives && now > incrReceives[a].lastChunkAt + INCR_CHUNK_TIMEOUT;
      forall key: Key
        ensures key.1 in toFail <==> IsIdle(Times(key), now)
      {
      }
    }

    /** Under the lock again: fails what it found, if it is still, or again, registered. */
    method FailReceives(toFail: set<Atom>, ghost key: Key, ghost read: PendingRead)
      requires Serves(key, read)
      modifies `incrReceives, set a | a in incrReceives :: incrReceives[a].pending
      ensures Serves(key, read)
      ensures incrReceives == old(incrReceives) - toFail
      ensures View(key, read) == if key.1 in toFail then SweepReceive(old(View(key, read))) else old(View(key, read))
      ensures Times(key) == if key.1 in toFail then old(Times(key)).(receiveAt := None) else old(Times(key))
    {
      var left := toFail;
      while left != {}
        invariant left <= toFail
        invariant incrReceives == old(incrReceives) - (toFail - left)
        invariant read.state ==
                  if key.1 in toFail - left && key.1 in old(incrReceives) then Done(ReadFailed) else old(read.state)
        decreases left
      {
        var atom :| atom in left;
        if atom in incrReceives {
          var entry := incrReceives[atom];
          incrReceives := incrReceives - {atom};
          entry.pending.Complete(ReadFailed);
        }
        left := left - {atom};
        assert incrReceives == old(incrReceives) - (toFail - left);
      }
    }

    /** Drops every send that has been running for ten seconds. */
    method SweepIncrSendTimeouts(now: nat, ghost key: Key, ghost read: PendingRead)
      modifies `incrSends
      ensures incrSends == map k | k in old(incrSends) && now < old(incrSends)[k].startedAt + 10_000 :: old(incrSends)[k]
      ensures View(key, read) == if HasRunOut(old(Times(key)), now) then old(View(key, read)).(send := None) else old(View(key, read))
      ensures Times(key) == if HasRunOut(old(Times(key)), now) then old(Times(key)).(sendAt := None) else old(Times(key))
    {
      incrSends := map k | k in incrSends && now < incrSends[k].startedAt + INCR_SEND_TIMEOUT :: incrSends[k];
    }

    // ----- the clipboard operations -----

    /** Nothing of an earlier transfer is left under the key, and what is owned can be served. */
    ghost predicate NoLeftovers(key: Key)
      reads this
    {
      && key !in answering && key !in incrSends && key.1 !in incrReceives && key.1 !in inHand
      && Queue(toReader, key) == [] && Queue(toOwner, key) == []
      && (key in props ==> !props[key].Absent?)
      && (owned.Some? ==> |owned.value| <= MAX_CLIPBOARD_BYTES && utf8(owned.value))
    }

    /** Registers a read, unless one is waiting already, and asks for the selection; the entry goes again if that fails. */
    method BeginRead(converted: bool) returns (read: Option<PendingRead>)
      modifies `pendingReads, `toOwner
      ensures read.Some? <==> invisiboolDest !in old(pendingReads) && converted
      ensures read.None? ==> pendingReads == old(pendingReads) && toOwner == old(toOwner)
      ensures read.Some? ==>
                && fresh(read.value) && read.value.state == Awaiting
                && pendingReads == old(pendingReads)[invisiboolDest := read.value]
                && var key := (ourWindow, invisiboolDest);
                   toOwner == old(toOwner)[key := Queue(old(toOwner), key) + [SelectionRequest]]
      ensures read.Some? && old(NoLeftovers((ourWindow, invisiboolDest))) ==>
                var key := (ourWindow, invisiboolDest);
                Serves(key, read.value) && Start(utf8, State(View(key, read.value), History(None, false, 0, [], 0, 0)))
    {
      if invisiboolDest in pendingReads {
        return None;
      }
      var pending := new PendingRead();
      pendingReads := pendingReads[invisiboolDest := pending];
      if !converted {
        pendingReads := pendingReads - {invisiboolDest};
        assert pendingReads == old(pendingReads);
        return None;
      }
      var key := (ourWindow, invisiboolDest);
      toOwner := toOwner[key := Queue(toOwner, key) + [SelectionRequest]];
      return Some(pending);
    }

    /**
     * Refuses a text over the limit and gives up without a server time; otherwise the
     * text is owned from then on, even if claiming the selection fails.
     */
    method WriteText(text: Bytes, time: Option<nat>, claimed: bool) returns (token: Option<nat>)
      modifies `owned, `nextToken
      ensures owned == if |text| <= MAX_CLIPBOARD_BYTES && time.Some? then Some(text) else old(owned)
      ensures nextToken == old(nextToken) + if |text| <= MAX_CLIPBOARD_BYTES && time.Some? then 1 else 0
      ensures token == if |text| <= MAX_CLIPBOARD_BYTES && time.Some? && claimed then Some(old(nextToken)) else None
    {
      if |text| > MAX_CLIPBOARD_BYTES || time.None? {
        return None;
      }
      var mine := nextToken;
      nextToken := nextToken + 1;
      owned := Some(text);
      return if claimed then Some(mine) else None;
    }

    /** Drops the text first; the change is counted only if the selection could be released. */
    method ClearText(released: bool) returns (ok: bool)
      modifies `owned, `changeCount
      ensures owned == None && ok == released
      ensures changeCount == old(changeCount) + if released then 1 else 0
    {
      owned := None;
      if released {
        changeCount := changeCount + 1;
      }
      return released;
    }
  }
}
