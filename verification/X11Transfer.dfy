/**
 * One `read_text` call answered by this code's own selection owner: the INCR
 * transfer of section 2.7.2 of the ICCCM, as a state machine over its atomic
 * steps, in which every X request may fail.  The event queues of the two sides are
 * separate, so every order in which two processes (or one) may handle their events
 * is a run.
 */
module X11Transfer {
  import opened Basics

  const MAX_CLIPBOARD_BYTES: nat := 8 * 1024 * 1024
  const OWNER_SINGLE_SHOT_CAP: nat := 256 * 1024
  const OWNER_INCR_CHUNK_SIZE: nat := 64 * 1024

  /** Value of the destination property on the reader's window. */
  datatype Property = Absent | IncrMarker(hint: nat) | Content(bytes: Bytes)

  datatype ReadResult = Success(text: Option<Bytes>) | ReadFailed
  datatype ReadState = Awaiting | IncrInProgress | Done(result: ReadResult)
  datatype IncrSend = IncrSend(content: Bytes, nextOffset: nat)

  datatype ReaderEvent = NewValue | SelectionNotify(refused: bool)
  datatype OwnerEvent = SelectionRequest | Deleted

  /**
   * Everything that one transfer touches.  `request` is the owner's first look
   * at its text while it is between the two looks that answering takes;
   * `watching` says whether the server tells the owner about deletions; `receive`
   * is the reader's accumulated buffer, and `taken` a chunk it has read and not
   * yet put there.
   */
  datatype Transfer = Transfer(
    owned: Option<Bytes>,
    request: Option<Bytes>,
    send: Option<IncrSend>,
    prop: Property,
    watching: bool,
    pending: bool,
    receive: Option<Bytes>,
    taken: Option<Bytes>,
    read: ReadState,
    toReader: seq<ReaderEvent>,
    toOwner: seq<OwnerEvent>)

  /** The octets `get_property` reports for a property read whole. */
  function PropertyValue(p: Property): Bytes {
    match p
    case Absent => []
    case IncrMarker(h) => [h % 256, h / 256 % 256, h / 65536 % 256, h / 16777216 % 256]
    case Content(bytes) => bytes
  }

  /** Whether bytes are valid text is for `utf8` to say. */
  function CompletePlainRead(utf8: Bytes -> bool, buffer: Bytes): ReadResult {
    if utf8(buffer) then Success(Some(buffer)) else ReadFailed
  }

  // ----- the owner's side -----

  /** `sent` is false when the event is lost. */
  function Notify(t: Transfer, refused: bool, sent: bool): Transfer {
    t.(toReader := t.toReader + if sent then [SelectionNotify(refused)] else [])
  }

  /**
   * First half of answering a text request: look at the text, for a long one ask to
   * be told about deletions, then set the property.  Each request may fail.
   */
  function AnswerBegin(t: Transfer, watched: bool, accepted: bool, sent: bool): Transfer {
    match t.owned
    case None => Notify(t, true, sent)
    case Some(text) =>
      if |text| <= OWNER_SINGLE_SHOT_CAP then
        if accepted then Notify(t.(prop := Content(text), toReader := t.toReader + [NewValue]), false, sent)
        else Notify(t, true, sent)
      else
        var t := t.(watching := t.watching || watched);
        if accepted then
          t.(prop := IncrMarker(|text| % 0x1_0000_0000), request := Some(text), toReader := t.toReader + [NewValue])
        else Notify(t, true, sent)
  }

  /** Second half: look at the text again and register whatever is there now. */
  function AnswerFinish(t: Transfer, sent: bool): Transfer {
    Notify(t.(request := None, send := if t.owned.Some? then Some(IncrSend(t.owned.value, 0)) else t.send), false, sent)
  }

  /** A text of up to 256 KiB is put into the property whole; a longer one is announced by its size. */
  lemma AnswerBySize(t: Transfer, text: Bytes, watched: bool, sent: bool)
    requires t.owned == Some(text)
    ensures var t' := AnswerBegin(t, watched, true, sent);
            if |text| <= 262_144 then t'.prop == Content(text) && t'.request == t.request
            else t'.prop == IncrMarker(|text| % 0x1_0000_0000) && t'.request == Some(text)
  {
  }

  /** The next chunk of a send, and the send that is left (none after the terminator). */
  function NextChunk(send: IncrSend): (r: (Bytes, Option<IncrSend>))
    ensures send.nextOffset <= |send.content| ==>
              && |r.0| <= OWNER_INCR_CHUNK_SIZE
              && (r.1.None? <==> r.0 == [])
              && (r.1.Some? ==> r.1.value.nextOffset <= |send.content|)
              && r.0 + (if r.1.Some? then send.content[r.1.value.nextOffset..] else [])
                 == send.content[send.nextOffset..]
  {
    var remaining := if send.nextOffset <= |send.content| then |send.content| - send.nextOffset else 0;
    if remaining == 0 then ([], None)
    else
      var end := send.nextOffset + Min(remaining, OWNER_INCR_CHUNK_SIZE);
      (send.content[send.nextOffset..end], Some(send.(nextOffset := end)))
  }

  /** The requester deleted the property.  `delivered` is false when the X request is lost. */
  function OnDeleted(t: Transfer, delivered: bool): Transfer {
    if t.send.None? then t
    else
      var (chunk, rest) := NextChunk(t.send.value);
      var t := t.(send := rest);
      if delivered then t.(prop := Content(chunk), toReader := t.toReader + [NewValue]) else t
  }

  // ----- the reader's side -----

  function Complete(t: Transfer, result: ReadResult): Transfer {
    t.(read := Done(result))
  }

  /** The property goes, and an owner that watches hears of it. */
  function Delete(t: Transfer): Transfer {
    if t.prop.Absent? then t
    else t.(prop := Absent, toOwner := t.toOwner + if t.watching then [Deleted] else [])
  }

  /** `answered` is false when a `get_property` fails, `deleted` when the deletion of the marker is lost. */
  function OnSelectionNotify(utf8: Bytes -> bool, t: Transfer, refused: bool, answered: bool, deleted: bool): Transfer {
    if !t.pending then t
    else
      var t := t.(pending := false);
      if refused then Complete(t, Success(None))
      else if !answered then Complete(t, ReadFailed)
      else match t.prop
        case IncrMarker(hint) =>
          if hint > MAX_CLIPBOARD_BYTES then Complete(t, ReadFailed)
          else
            var t := t.(read := IncrInProgress, receive := Some([]));
            if deleted then Delete(t) else t
        case _ =>
          var bytes := PropertyValue(t.prop);
          if |bytes| > MAX_CLIPBOARD_BYTES then Complete(t, ReadFailed)
          else Complete(t, CompletePlainRead(utf8, bytes))
  }

  /** A new value while a receive is registered: read and delete it in one request. */
  function OnNewValue(t: Transfer, answered: bool): Transfer {
    if t.receive.None? then t
    else if !answered then Complete(t.(receive := None), ReadFailed)
    else Delete(t.(taken := Some(PropertyValue(t.prop))))
  }

  /** What was read joins the buffer, or ends the transfer, if the receive is still registered. */
  function OnTaken(utf8: Bytes -> bool, t: Transfer): Transfer
    requires t.taken.Some?
  {
    var value, t := t.taken.value, t.(taken := None);
    if t.receive.None? then t
    else if value == [] then Complete(t.(receive := None), CompletePlainRead(utf8, t.receive.value))
    else if |t.receive.value| + |value| > MAX_CLIPBOARD_BYTES then Complete(t.(receive := None), ReadFailed)
    else t.(receive := Some(t.receive.value + value))
  }

  function SweepReceive(t: Transfer): Transfer {
    if t.receive.None? then t else Complete(t.(receive := None), ReadFailed)
  }

  // ----- runs -----

  /**
   * What an onlooker records: the text registered for the read, how many of its
   * bytes were cut into chunks, those lost to a failed X request, chunks put away.
   */
  datatype History = History(
    snapshot: Option<Bytes>, refused: bool, served: nat, lost: Bytes, nonEmpty: nat, empty: nat)

  datatype State = State(t: Transfer, h: History)

  datatype Action =
    | Write(text: Bytes)
    | Clear
    | HandleRequest(watched: bool, accepted: bool, sent: bool)
    | FinishRequest(sent: bool)
    | HandleDeleted(delivered: bool)
    | HandleNotify(answered: bool, deleted: bool)
    | HandleNewValue(answered: bool)
    | PutAway
    | ReceiveTimeout
    | SendTimeout

  /** A step of the transfer itself in which no X request fails. */
  predicate IsProtocol(a: Action) {
    match a
    case HandleRequest(watched, accepted, sent) => watched && accepted && sent
    case FinishRequest(sent) => sent
    case HandleDeleted(delivered) => delivered
    case HandleNotify(answered, deleted) => answered && deleted
    case HandleNewValue(answered) => answered
    case PutAway => true
    case _ => false
  }

  predicate IsOwnerChange(a: Action) {
    a.Write? || a.Clear?
  }

  /** Each side handles one event at a time; the watchdog and the writers come at any time. */
  predicate Enabled(utf8: Bytes -> bool, s: State, a: Action) {
    match a
    case Write(text) => |text| <= MAX_CLIPBOARD_BYTES && utf8(text)
    case HandleRequest(_, _, _) => s.t.request.None? && s.t.toOwner != [] && s.t.toOwner[0] == SelectionRequest
    case FinishRequest(_) => s.t.request.Some?
    case HandleDeleted(_) => s.t.request.None? && s.t.toOwner != [] && s.t.toOwner[0] == Deleted
    case HandleNotify(_, _) => s.t.taken.None? && s.t.toReader != [] && s.t.toReader[0].SelectionNotify?
    case HandleNewValue(_) => s.t.taken.None? && s.t.toReader != [] && s.t.toReader[0] == NewValue
    case PutAway => s.t.taken.Some?
    case _ => true
  }

  function PopOwner(t: Transfer): Transfer
    requires t.toOwner != []
  {
    t.(toOwner := t.toOwner[1..])
  }

  function PopReader(t: Transfer): Transfer
    requires t.toReader != []
  {
    t.(toReader := t.toReader[1..])
  }

  function Step(utf8: Bytes -> bool, s: State, a: Action): State
    requires Enabled(utf8, s, a)
  {
    var t, h := s.t, s.h;
    match a
    case Write(text) => State(t.(owned := Some(text)), h)
    case Clear => State(t.(owned := None), h)
    case HandleRequest(watched, accepted, sent) =>
      var plain := accepted && t.owned.Some? && |t.owned.value| <= OWNER_SINGLE_SHOT_CAP;
      State(AnswerBegin(PopOwner(t), watched, accepted, sent),
            h.(refused := t.owned.None? || !accepted, snapshot := if plain then t.owned else h.snapshot))
    case FinishRequest(sent) =>
      State(AnswerFinish(t, sent), h.(snapshot := t.owned))
    case HandleDeleted(delivered) =>
      State(OnDeleted(PopOwner(t), delivered),
            if t.send.None? then h
            else
              var chunk := NextChunk(t.send.value).0;
              h.(served := h.served + |chunk|, lost := if delivered then h.lost else h.lost + chunk))
    case HandleNotify(answered, deleted) =>
      State(OnSelectionNotify(utf8, PopReader(t), t.toReader[0].refused, answered, deleted), h)
    case HandleNewValue(answered) =>
      State(OnNewValue(PopReader(t), answered), h)
    case PutAway =>
      State(OnTaken(utf8, t),
            if t.receive.None? then h
            else if t.taken.value == [] then h.(empty := h.empty + 1)
            else h.(nonEmpty := h.nonEmpty + 1))
    case ReceiveTimeout => State(SweepReceive(t), h)
    case SendTimeout => State(t.(send := None), h)
  }

  ghost predicate Legal(utf8: Bytes -> bool, s: State, actions: seq<Action>)
    decreases |actions|
  {
    actions != [] ==>
      Enabled(utf8, s, actions[0]) && Legal(utf8, Step(utf8, s, actions[0]), actions[1..])
  }

  ghost function Run(utf8: Bytes -> bool, s: State, actions: seq<Action>): State
    requires Legal(utf8, s, actions)
    decreases |actions|
  {
    if actions == [] then s else Run(utf8, Step(utf8, s, actions[0]), actions[1..])
  }

  /** `read_text` has just sent ConvertSelection; an older property may still be there. */
  ghost predicate Start(utf8: Bytes -> bool, s: State) {
    && (s.t.owned.Some? ==> |s.t.owned.value| <= MAX_CLIPBOARD_BYTES && utf8(s.t.owned.value))
    && s.t.request.None? && s.t.send.None? && s.t.receive.None? && s.t.taken.None?
    && s.t.pending && s.t.read == Awaiting
    && s.t.toReader == [] && s.t.toOwner == [SelectionRequest]
    && s.h == History(None, false, 0, [], 0, 0)
  }

  // ----- the inductive invariant -----

  /** Number of chunks that n bytes are cut into. */
  function Chunks(n: nat): nat {
    (n + OWNER_INCR_CHUNK_SIZE - 1) / OWNER_INCR_CHUNK_SIZE
  }

  ghost predicate TextOk(utf8: Bytes -> bool, text: Option<Bytes>) {
    text.Some? ==> |text.value| <= MAX_CLIPBOARD_BYTES && utf8(text.value)
  }

  ghost predicate SendTracks(t: Transfer, h: History) {
    && (t.send.Some? ==> h.snapshot == Some(t.send.value.content) && t.send.value.nextOffset == h.served)
    && (if h.snapshot.Some? then h.served <= |h.snapshot.value| else h.served == 0)
  }

  ghost predicate WaitingForNotify(t: Transfer) {
    t.pending && t.read == Awaiting && t.receive.None? && t.taken.None? && t.toOwner == []
  }

  ghost predicate Untouched(h: History) {
    h.served == 0 && h.lost == [] && h.nonEmpty == 0 && h.empty == 0
  }

  /** The notify is on its way, behind the news of the property if that was not seen yet. */
  ghost predicate Announced(t: Transfer) {
    t.toReader == [SelectionNotify(false)] || t.toReader == [NewValue, SelectionNotify(false)]
  }

  /** ... or it was lost. */
  ghost predicate Unannounced(t: Transfer) {
    t.toReader == [] || t.toReader == [NewValue]
  }

  ghost predicate Requested(s: State) {
    && s.t.pending && s.t.read == Awaiting && s.t.receive.None? && s.t.taken.None? && s.t.send.None? && s.t.request.None?
    && s.t.toOwner == [SelectionRequest] && s.t.toReader == []
    && Untouched(s.h) && s.h.snapshot.None?
  }

  ghost predicate MidRequest(s: State) {
    && WaitingForNotify(s.t) && s.t.send.None? && s.t.request.Some? && Unannounced(s.t)
    && s.t.prop.IncrMarker? && s.t.prop.hint <= MAX_CLIPBOARD_BYTES
    && Untouched(s.h) && !s.h.refused
  }

  ghost predicate Refused(s: State) {
    && WaitingForNotify(s.t) && s.t.send.None? && s.t.request.None?
    && (s.t.toReader == [SelectionNotify(true)] || s.t.toReader == [])
    && Untouched(s.h) && s.h.refused
  }

  ghost predicate PlainReady(s: State) {
    && WaitingForNotify(s.t) && s.t.send.None? && s.t.request.None? && (Announced(s.t) || Unannounced(s.t))
    && s.t.prop.Content? && s.h.snapshot == Some(s.t.prop.bytes) && |s.t.prop.bytes| <= OWNER_SINGLE_SHOT_CAP
    && Untouched(s.h) && !s.h.refused
  }

  ghost predicate Marked(s: State) {
    && WaitingForNotify(s.t) && s.t.request.None? && (Announced(s.t) || Unannounced(s.t))
    && s.t.prop.IncrMarker? && s.t.prop.hint <= MAX_CLIPBOARD_BYTES
    && Untouched(s.h) && SendTracks(s.t, s.h) && !s.h.refused
  }

  /** The text the transfer is about; nothing when a clear slipped in before registration. */
  ghost function Snapshot(h: History): Bytes {
    if h.snapshot.Some? then h.snapshot.value else []
  }

  ghost function InHand(t: Transfer): Bytes {
    if t.taken.Some? then t.taken.value else []
  }

  ghost function InProperty(t: Transfer): Bytes {
    if t.prop.Content? then t.prop.bytes else []
  }

  ghost function One(bytes: Bytes): nat {
    if bytes == [] then 0 else 1
  }

  /** It is for the owner to act, or nobody ever will. */
  ghost predicate OwnersTurn(s: State) {
    && !s.t.prop.Content? && s.t.toReader == []
    && (s.t.toOwner == [] || (s.t.toOwner == [Deleted] && s.t.prop.Absent? && s.h.lost == []))
  }

  /** A chunk sits in the property and its NewValue event is on the way. */
  ghost predicate ReadersTurn(s: State) {
    && s.t.prop.Content? && s.t.toReader == [NewValue] && s.t.toOwner == []
    && s.h.snapshot.Some? && s.h.lost == []
    && (s.t.prop.bytes == [] ==> s.h.served == |Snapshot(s.h)| && s.t.send.None?)
  }

  /** The terminator has been read and nothing else is under way. */
  ghost predicate TerminatorInHand(s: State) {
    && OwnersTurn(s) && s.t.prop.Absent? && s.t.send.None?
    && s.h.snapshot.Some? && s.h.served == |Snapshot(s.h)| && s.h.lost == []
  }

  /** Put away, in hand, in the property, lost: together what was cut off the snapshot. */
  ghost predicate Receiving(s: State) {
    && !s.t.pending && s.t.request.None? && s.t.read == IncrInProgress && s.t.receive.Some?
    && SendTracks(s.t, s.h) && s.h.empty == 0 && !s.h.refused
    && (s.h.served < |Snapshot(s.h)| ==> s.h.served % OWNER_INCR_CHUNK_SIZE == 0)
    && (OwnersTurn(s) || ReadersTurn(s))
    && (s.t.taken == Some([]) ==> TerminatorInHand(s))
    && s.t.receive.value + InHand(s.t) + InProperty(s.t) + s.h.lost == Snapshot(s.h)[..s.h.served]
    && (s.h.lost == [] ==> s.h.nonEmpty + One(InHand(s.t)) + One(InProperty(s.t)) == Chunks(s.h.served))
  }

  ghost predicate Finished(s: State) {
    && !s.t.pending && s.t.request.None? && s.t.receive.None? && s.t.read.Done?
    && SelectionRequest !in s.t.toOwner
    && match s.t.read.result
       case ReadFailed => true
       case Success(None) => s.h.refused
       case Success(Some(text)) =>
         && s.h.snapshot == Some(text) && !s.h.refused
         && (|| (s.h.nonEmpty == Chunks(|text|) && s.h.empty == 1)
             || (|text| <= OWNER_SINGLE_SHOT_CAP && s.h.nonEmpty == 0 && s.h.empty == 0))
  }

  ghost predicate Inv(utf8: Bytes -> bool, s: State) {
    && TextOk(utf8, s.t.owned) && TextOk(utf8, s.h.snapshot) && TextOk(utf8, s.t.request)
    && (|| Requested(s) || MidRequest(s) || Refused(s) || PlainReady(s) || Marked(s) || Receiving(s) || Finished(s))
  }

  lemma ChunksStep(served: nat, take: nat)
    requires served % OWNER_INCR_CHUNK_SIZE == 0 && 0 < take <= OWNER_INCR_CHUNK_SIZE
    ensures Chunks(served + take) == Chunks(served) + 1
  {
  }

  lemma RequestKeepsInv(utf8: Bytes -> bool, s: State, a: Action)
    requires Inv(utf8, s) && Enabled(utf8, s, a) && (a.HandleRequest? || a.FinishRequest?)
    ensures Inv(utf8, Step(utf8, s, a))
    ensures a.FinishRequest? ==> MidRequest(s) && Marked(Step(utf8, s, a))
  {
    var s' := Step(utf8, s, a);
    if a.HandleRequest? {
      assert s.t.toOwner[0] in s.t.toOwner;
      assert Requested(s);
      assert Refused(s') || PlainReady(s') || MidRequest(s');
    } else {
      assert MidRequest(s);
      assert Marked(s');
    }
  }

  /** One more chunk cut off, whether it goes into the property or is lost. */
  lemma {:induction false} CutJoins(receive: Bytes, hand: Bytes, text: Bytes, served: nat, chunk: Bytes)
    requires served + |chunk| <= |text| && chunk == text[served..served + |chunk|]
    requires receive + hand + [] + [] == text[..served]
    ensures receive + hand + chunk + [] == text[..served + |chunk|]
    ensures receive + hand + [] + chunk == text[..served + |chunk|]
  {
    assert receive + hand == text[..served];
    assert text[..served] + chunk == text[..served + |chunk|];
  }

  lemma {:induction false} NextCut(send: IncrSend)
    requires send.nextOffset <= |send.content|
    ensures var (chunk, rest) := NextChunk(send);
            var end := send.nextOffset + |chunk|;
            && end <= |send.content| && chunk == send.content[send.nextOffset..end]
            && (chunk == [] <==> send.nextOffset == |send.content|)
            && (end < |send.content| ==> |chunk| == OWNER_INCR_CHUNK_SIZE)
            && rest == (if chunk == [] then None else Some(IncrSend(send.content, end)))
  {
  }

  /** Serving a chunk hands the turn to the reader, or strands the transfer if the request is lost. */
  lemma ServeKeepsInv(s: State, delivered: bool, s': State)
    requires Receiving(s) && s.t.toOwner == [Deleted] && s.t.send.Some?
    requires s'.t == OnDeleted(PopOwner(s.t), delivered)
    requires var chunk := NextChunk(s.t.send.value).0;
             s'.h == s.h.(served := s.h.served + |chunk|, lost := if delivered then s.h.lost else s.h.lost + chunk)
    ensures Receiving(s') && (delivered ==> ReadersTurn(s'))
  {
    var send := s.t.send.value;
    var chunk := NextChunk(send).0;
    NextCut(send);
    CutJoins(s.t.receive.value, InHand(s.t), send.content, s.h.served, chunk);
    assert s.h.lost + chunk == chunk;
    if chunk != [] {
      ChunksStep(s.h.served, |chunk|);
    }
    assert SendTracks(s'.t, s'.h);
    assert if delivered then ReadersTurn(s') else OwnersTurn(s');
  }

  lemma DeletedKeepsInv(utf8: Bytes -> bool, s: State, delivered: bool)
    requires Inv(utf8, s) && Enabled(utf8, s, HandleDeleted(delivered))
    ensures Inv(utf8, Step(utf8, s, HandleDeleted(delivered)))
  {
    var s' := Step(utf8, s, HandleDeleted(delivered));
    if Finished(s) {
      assert Finished(s');
    } else if s.t.send.Some? {
      ServeKeepsInv(s, delivered, s');
    } else {
      assert Receiving(s');
    }
  }

  lemma NotifyKeepsInv(utf8: Bytes -> bool, s: State, answered: bool, deleted: bool)
    requires Inv(utf8, s) && Enabled(utf8, s, HandleNotify(answered, deleted))
    ensures Inv(utf8, Step(utf8, s, HandleNotify(answered, deleted)))
    ensures Marked(s) && answered ==> Receiving(Step(utf8, s, HandleNotify(answered, deleted)))
  {
    var s' := Step(utf8, s, HandleNotify(answered, deleted));
    if Marked(s) && answered {
      assert Receiving(s');
    } else {
      assert Finished(s');
    }
  }

  lemma NewValueKeepsInv(utf8: Bytes -> bool, s: State, answered: bool)
    requires Inv(utf8, s) && Enabled(utf8, s, HandleNewValue(answered))
    ensures Inv(utf8, Step(utf8, s, HandleNewValue(answered)))
    ensures Receiving(s) && answered ==> Receiving(Step(utf8, s, HandleNewValue(answered)))
  {
    var s' := Step(utf8, s, HandleNewValue(answered));
    if Receiving(s) && answered {
      assert s'.t.receive.value + InHand(s'.t) + InProperty(s'.t) + s'.h.lost
          == s.t.receive.value + InHand(s.t) + InProperty(s.t) + s.h.lost;
      assert Receiving(s');
    } else if MidRequest(s) {
      assert MidRequest(s');
    } else if Marked(s) {
      assert Marked(s');
    } else if PlainReady(s) {
      assert PlainReady(s');
    } else {
      assert Finished(s');
    }
  }

  lemma PutAwayKeepsInv(utf8: Bytes -> bool, s: State)
    requires Inv(utf8, s) && Enabled(utf8, s, PutAway)
    ensures Inv(utf8, Step(utf8, s, PutAway))
    ensures Receiving(s) ==>
              var s' := Step(utf8, s, PutAway);
              if s.t.taken == Some([])
              then Finished(s') && s'.t.read == Done(Success(s.h.snapshot)) && s'.h.nonEmpty == Chunks(|Snapshot(s.h)|) && s'.h.empty == 1
              else Receiving(s')
  {
    var s' := Step(utf8, s, PutAway);
    if Receiving(s) {
      var all := Snapshot(s.h);
      if s.t.taken == Some([]) {
        assert s.t.receive.value == s.t.receive.value + [] + [] + [] == all[..s.h.served] == all;
        assert Finished(s');
      } else {
        assert |s.t.receive.value + InHand(s.t)| <= |all[..s.h.served]|;
        assert s'.t.receive.value + InHand(s'.t) == s.t.receive.value + InHand(s.t);
        assert Receiving(s');
      }
    } else {
      assert Finished(s');
    }
  }

  lemma InvStep(utf8: Bytes -> bool, s: State, a: Action)
    requires Inv(utf8, s) && Enabled(utf8, s, a)
    ensures Inv(utf8, Step(utf8, s, a))
  {
    match a
    case HandleRequest(_, _, _) | FinishRequest(_) => RequestKeepsInv(utf8, s, a);
    case HandleDeleted(delivered) => DeletedKeepsInv(utf8, s, delivered);
    case HandleNotify(answered, deleted) => NotifyKeepsInv(utf8, s, answered, deleted);
    case HandleNewValue(answered) => NewValueKeepsInv(utf8, s, answered);
    case PutAway => PutAwayKeepsInv(utf8, s);
    case _ =>
  }

  lemma {:induction false} InvRun(utf8: Bytes -> bool, s: State, actions: seq<Action>)
    requires Inv(utf8, s) && Legal(utf8, s, actions)
    ensures Inv(utf8, Run(utf8, s, actions))
    decreases |actions|
  {
    if actions != [] {
      InvStep(utf8, s, actions[0]);
      InvRun(utf8, Step(utf8, s, actions[0]), actions[1..]);
    }
  }

  // ----- what every run of one read guarantees -----

  /** Put away, in hand, in the property, lost to a failed request, unserved: together the snapshot. */
  lemma Conservation(utf8: Bytes -> bool, s: State, actions: seq<Action>)
    requires Start(utf8, s) && Legal(utf8, s, actions)
    ensures var r := Run(utf8, s, actions);
            r.t.receive.Some? ==>
              && r.h.served <= |Snapshot(r.h)|
              && r.t.receive.value + InHand(r.t) + InProperty(r.t) + r.h.lost + Snapshot(r.h)[r.h.served..] == Snapshot(r.h)
              && (r.t.send.Some? ==>
                    && r.t.send.value.nextOffset <= |r.t.send.value.content|
                    && Snapshot(r.h)[r.h.served..] == r.t.send.value.content[r.t.send.value.nextOffset..])
  {
    InvRun(utf8, s, actions);
    var r := Run(utf8, s, actions);
    if r.t.receive.Some? {
      var text := Snapshot(r.h);
      assert text == text[..r.h.served] + text[r.h.served..];
    }
  }

  /**
   * Whatever is lost, swept, written or cleared on the way, a read that succeeds
   * with text has the whole registered text, taken in as many chunks as it is cut
   * into and one empty one (or in one piece); one that succeeds without text was refused.
   */
  lemma ReadIsNeverCut(utf8: Bytes -> bool, s: State, actions: seq<Action>)
    requires Start(utf8, s) && Legal(utf8, s, actions)
    ensures var r := Run(utf8, s, actions);
            r.t.read.Done? && r.t.read.result.Success? ==>
              match r.t.read.result.text
              case None => r.h.refused
              case Some(text) =>
                && r.h.snapshot == Some(text)
                && (|| (r.h.nonEmpty == (|text| + 65_535) / 65_536 && r.h.empty == 1)
                    || (|text| <= 262_144 && r.h.nonEmpty == 0 && r.h.empty == 0))
  {
    InvRun(utf8, s, actions);
  }

  /** What the reader has put away, and what it has delivered, is within the limit, and what it has delivered is text. */
  ghost predicate WithinLimit(utf8: Bytes -> bool, t: Transfer) {
    && (t.receive.Some? ==> |t.receive.value| <= 8_388_608)
    && (t.read.Done? && t.read.result.Success? && t.read.result.text.Some? ==>
          |t.read.result.text.value| <= 8_388_608 && utf8(t.read.result.text.value))
  }

  /**
   * Whatever an owner puts into the property, of whatever size and kind: no step takes
   * the reader over 8 MiB or makes it deliver what is not text.
   */
  lemma {:induction false} StepStaysWithinLimit(utf8: Bytes -> bool, s: State, a: Action)
    requires WithinLimit(utf8, s.t) && Enabled(utf8, s, a)
    ensures WithinLimit(utf8, Step(utf8, s, a).t)
  {
    match a
    case HandleNotify(answered, deleted) => AnswerStaysWithinLimit(utf8, PopReader(s.t), s.t.toReader[0].refused, answered, deleted);
    case PutAway => ChunkStaysWithinLimit(utf8, s.t);
    case _ =>
      var t := Step(utf8, s, a).t;
      assert t.receive.None? || t.receive == s.t.receive;
      assert t.read == s.t.read || t.read == Done(ReadFailed);
  }

  lemma {:induction false} AnswerStaysWithinLimit(utf8: Bytes -> bool, t: Transfer, refused: bool, answered: bool, deleted: bool)
    requires WithinLimit(utf8, t)
    ensures WithinLimit(utf8, OnSelectionNotify(utf8, t, refused, answered, deleted))
  {
  }

  lemma {:induction false} ChunkStaysWithinLimit(utf8: Bytes -> bool, t: Transfer)
    requires WithinLimit(utf8, t) && t.taken.Some?
    ensures WithinLimit(utf8, OnTaken(utf8, t))
  {
  }

  /** An answer fails the read exactly if its announced or actual size is larger, or it is no text. */
  lemma {:induction false} AnswerFailsIff(utf8: Bytes -> bool, t: Transfer, deleted: bool)
    requires t.pending
    ensures OnSelectionNotify(utf8, t, false, true, deleted).read == Done(ReadFailed) <==>
              match t.prop
              case IncrMarker(hint) => hint > 8_388_608
              case Content(bytes) => |bytes| > 8_388_608 || !utf8(bytes)
              case Absent => !utf8([])
    ensures OnSelectionNotify(utf8, t, true, true, deleted).read == Done(Success(None))
    ensures OnSelectionNotify(utf8, t, false, false, deleted).read == Done(ReadFailed)
  {
  }

  /** A chunk fails it exactly if the buffer would grow over the limit; the empty one exactly if what was put away is no text. */
  lemma {:induction false} ChunkFailsIff(utf8: Bytes -> bool, t: Transfer)
    requires t.taken.Some? && t.receive.Some? && t.read == IncrInProgress
    ensures OnTaken(utf8, t).read == Done(ReadFailed) <==>
              if t.taken.value == [] then !utf8(t.receive.value) else |t.receive.value| + |t.taken.value| > 8_388_608
  {
  }

  /** The result of a read is written once. */
  lemma {:induction false} DoneIsFinal(utf8: Bytes -> bool, s: State, actions: seq<Action>)
    requires Inv(utf8, s) && s.t.read.Done? && Legal(utf8, s, actions)
    ensures var r := Run(utf8, s, actions);
            r.t.read == s.t.read && r.h.nonEmpty == s.h.nonEmpty && r.h.empty == s.h.empty
    decreases |actions|
  {
    if actions != [] {
      InvStep(utf8, s, actions[0]);
      DoneIsFinal(utf8, Step(utf8, s, actions[0]), actions[1..]);
    }
  }

  // ----- progress while no request fails and nothing is swept -----

  /** Nothing is registered to send and the reader waits: a clear came between the two looks. */
  ghost predicate Stranded(s: State) {
    (Marked(s) || Receiving(s)) && s.h.snapshot.None? && s.t.send.None?
  }

  /** A registered transfer that has lost nothing. */
  ghost predicate Alive(s: State) {
    && s.t.watching && s.h.snapshot.Some?
    && (|| (Marked(s) && Announced(s.t) && s.t.send.Some?)
        || (Receiving(s) && s.h.lost == []
            && (|| s.t.taken == Some([])
                || (s.t.toOwner == [Deleted] && s.t.send.Some?)
                || (ReadersTurn(s) && (s.t.send.Some? || s.t.prop.bytes == [])))))
  }

  /** Done as it should be: refused without text, or with the whole registered text. */
  ghost predicate Served(s: State) {
    Finished(s) && s.t.read.result == Success(if s.h.refused then None else s.h.snapshot) && (s.h.refused || s.h.snapshot.Some?)
  }

  /** What holds while no X request has failed and nothing was swept. */
  ghost predicate Sure(s: State) {
    || Requested(s)
    || (MidRequest(s) && s.t.watching)
    || (Refused(s) && s.t.toReader == [SelectionNotify(true)])
    || (PlainReady(s) && Announced(s.t))
    || Alive(s) || Stranded(s) || Served(s)
  }

  lemma SureFinish(utf8: Bytes -> bool, s: State)
    requires Inv(utf8, s) && MidRequest(s) && s.t.watching
    ensures var s' := Step(utf8, s, FinishRequest(true)); if s.t.owned.Some? then Alive(s') else Stranded(s')
  {
    RequestKeepsInv(utf8, s, FinishRequest(true));
  }

  lemma SureMarked(utf8: Bytes -> bool, s: State, a: Action)
    requires Inv(utf8, s) && Marked(s) && Sure(s) && Enabled(utf8, s, a) && IsProtocol(a)
    ensures Sure(Step(utf8, s, a)) && Step(utf8, s, a).h == s.h
  {
    var s' := Step(utf8, s, a);
    if a.HandleNotify? {
      NotifyKeepsInv(utf8, s, true, true);
      assert Receiving(s');
    } else {
      assert Marked(s');
    }
  }

  lemma SureReceiving(utf8: Bytes -> bool, s: State, a: Action)
    requires Inv(utf8, s) && Receiving(s) && Sure(s) && Enabled(utf8, s, a) && IsProtocol(a)
    ensures Sure(Step(utf8, s, a))
  {
    var s' := Step(utf8, s, a);
    match a
    case HandleDeleted(_) =>
      if s.t.send.Some? {
        ServeKeepsInv(s, true, s');
      } else {
        DeletedKeepsInv(utf8, s, true);
      }
    case HandleNewValue(_) => NewValueKeepsInv(utf8, s, true);
    case PutAway => PutAwayKeepsInv(utf8, s);
    case _ =>
  }

  lemma SureStep(utf8: Bytes -> bool, s: State, a: Action)
    requires Inv(utf8, s) && Sure(s) && Enabled(utf8, s, a) && (IsProtocol(a) || IsOwnerChange(a))
    ensures Sure(Step(utf8, s, a))
  {
    var s' := Step(utf8, s, a);
    if IsOwnerChange(a) {
      SureOwnerChange(utf8, s, a);
    } else if Receiving(s) {
      SureReceiving(utf8, s, a);
    } else if Marked(s) {
      SureMarked(utf8, s, a);
    } else if MidRequest(s) && a.FinishRequest? {
      SureFinish(utf8, s);
    } else {
      InvStep(utf8, s, a);
      assert Requested(s) ==> Refused(s') || PlainReady(s') || MidRequest(s');
    }
  }

  lemma SureOwnerChange(utf8: Bytes -> bool, s: State, a: Action)
    requires Inv(utf8, s) && Sure(s) && Enabled(utf8, s, a) && IsOwnerChange(a)
    ensures Sure(Step(utf8, s, a))
  {
    var s' := Step(utf8, s, a);
    assert Marked(s') == Marked(s) && Receiving(s') == Receiving(s);
  }

  /** Protocol steps that can follow, at most. */
  ghost function Budget(s: State): nat {
    var left := if s.t.send.Some? && s.h.served <= |Snapshot(s.h)| then 3 * Chunks(|Snapshot(s.h)| - s.h.served) + 4 else 0;
    if Requested(s) then FULL + 4
    else if MidRequest(s) then |s.t.toReader| + 2 + FULL
    else if Marked(s) then |s.t.toReader| + (if s.t.send.Some? then left else 1)
    else if Receiving(s) then
      left + (if s.t.prop.Content? then (if s.t.send.Some? then 2 else 3) else 0) + (if s.t.taken.Some? then 1 else 0)
        + (if s.t.toOwner == [Deleted] && s.t.send.None? then 1 else 0)
    else |s.t.toReader| + (if s.t.taken.Some? then 1 else 0) + (if s.t.send.Some? then 2 else 1) * |s.t.toOwner|
  }

  /** What the longest text takes from registration on: three steps a chunk, and the terminator's. */
  const FULL: nat := 3 * Chunks(MAX_CLIPBOARD_BYTES) + 4

  lemma ChunksBound(n: nat)
    requires n <= MAX_CLIPBOARD_BYTES
    ensures Chunks(n) <= Chunks(MAX_CLIPBOARD_BYTES)
  {
  }

  lemma ChunksLeft(total: nat, served: nat, chunk: nat)
    requires served + chunk <= total && 0 < chunk <= OWNER_INCR_CHUNK_SIZE
    requires served + chunk < total ==> chunk == OWNER_INCR_CHUNK_SIZE
    ensures Chunks(total - served) == Chunks(total - served - chunk) + 1
  {
  }

  lemma BudgetRequest(utf8: Bytes -> bool, s: State, a: Action)
    requires Inv(utf8, s) && Enabled(utf8, s, a) && (a.HandleRequest? || a.FinishRequest?)
    ensures Budget(Step(utf8, s, a)) < Budget(s)
  {
    var s' := Step(utf8, s, a);
    RequestKeepsInv(utf8, s, a);
    if a.FinishRequest? {
      if s.t.owned.Some? {
        ChunksBound(|s.t.owned.value|);
      }
    } else {
      assert s.t.toOwner[0] in s.t.toOwner;
      assert Requested(s);
      assert Refused(s') || PlainReady(s') || MidRequest(s');
    }
  }

  lemma BudgetServe(utf8: Bytes -> bool, s: State)
    requires Receiving(s) && s.t.toOwner == [Deleted] && s.t.send.Some?
    ensures Budget(Step(utf8, s, HandleDeleted(true))) < Budget(s)
  {
    var s' := Step(utf8, s, HandleDeleted(true));
    ServeKeepsInv(s, true, s');
    NextCut(s.t.send.value);
    var chunk := NextChunk(s.t.send.value).0;
    if chunk != [] {
      ChunksLeft(|Snapshot(s.h)|, s.h.served, |chunk|);
    }
  }

  lemma BudgetDeleted(utf8: Bytes -> bool, s: State)
    requires Inv(utf8, s) && Enabled(utf8, s, HandleDeleted(true))
    ensures Budget(Step(utf8, s, HandleDeleted(true))) < Budget(s)
  {
    if Receiving(s) && s.t.send.Some? {
      BudgetServe(utf8, s);
    } else {
      DeletedKeepsInv(utf8, s, true);
    }
  }

  lemma BudgetNotify(utf8: Bytes -> bool, s: State)
    requires Inv(utf8, s) && Enabled(utf8, s, HandleNotify(true, true))
    ensures Budget(Step(utf8, s, HandleNotify(true, true))) < Budget(s)
  {
    var s' := Step(utf8, s, HandleNotify(true, true));
    NotifyKeepsInv(utf8, s, true, true);
    assert if Marked(s) then Receiving(s') else Finished(s') && s'.t.toReader == s.t.toReader[1..];
  }

  lemma BudgetNewValue(utf8: Bytes -> bool, s: State)
    requires Inv(utf8, s) && Enabled(utf8, s, HandleNewValue(true))
    ensures Budget(Step(utf8, s, HandleNewValue(true))) < Budget(s)
  {
    var s' := Step(utf8, s, HandleNewValue(true));
    NewValueKeepsInv(utf8, s, true);
    if Receiving(s) {
      assert Receiving(s') && s.t.prop.Content? && s'.t.prop.Absent?;
    } else {
      assert MidRequest(s') == MidRequest(s) && Marked(s') == Marked(s) && !Requested(s) && !Receiving(s');
    }
  }

  lemma BudgetPutAway(utf8: Bytes -> bool, s: State)
    requires Inv(utf8, s) && Enabled(utf8, s, PutAway)
    ensures Budget(Step(utf8, s, PutAway)) < Budget(s)
  {
    PutAwayKeepsInv(utf8, s);
  }

  /** Every protocol step uses up some of the budget; writes and clears leave it alone. */
  lemma BudgetStep(utf8: Bytes -> bool, s: State, a: Action)
    requires Inv(utf8, s) && Enabled(utf8, s, a) && (IsProtocol(a) || IsOwnerChange(a))
    ensures Budget(Step(utf8, s, a)) <= Budget(s) - (if IsProtocol(a) then 1 else 0)
  {
    if a.HandleRequest? || a.FinishRequest? {
      BudgetRequest(utf8, s, a);
    } else if a.HandleDeleted? {
      BudgetDeleted(utf8, s);
    } else if a.HandleNotify? {
      BudgetNotify(utf8, s);
    } else if a.HandleNewValue? {
      BudgetNewValue(utf8, s);
    } else if a.PutAway? {
      BudgetPutAway(utf8, s);
    } else {
      var s' := Step(utf8, s, a);
      assert Requested(s') == Requested(s) && MidRequest(s') == MidRequest(s);
      assert Marked(s') == Marked(s) && Receiving(s') == Receiving(s);
    }
  }

  function ProtocolSteps(actions: seq<Action>): nat {
    if actions == [] then 0
    else (if IsProtocol(actions[0]) then 1 else 0) + ProtocolSteps(actions[1..])
  }

  /** No failed request and no sweep: only protocol steps, writes and clears. */
  ghost predicate Undisturbed(actions: seq<Action>) {
    forall a :: a in actions ==> IsProtocol(a) || IsOwnerChange(a)
  }

  /** No protocol step is left to take. */
  ghost predicate Quiescent(utf8: Bytes -> bool, s: State) {
    forall a :: IsProtocol(a) ==> !Enabled(utf8, s, a)
  }

  lemma {:induction false} UndisturbedRun(utf8: Bytes -> bool, s: State, actions: seq<Action>)
    requires Inv(utf8, s) && Sure(s) && Legal(utf8, s, actions) && Undisturbed(actions)
    ensures Sure(Run(utf8, s, actions))
    ensures ProtocolSteps(actions) + Budget(Run(utf8, s, actions)) <= Budget(s)
    decreases |actions|
  {
    if actions != [] {
      var s' := Step(utf8, s, actions[0]);
      InvStep(utf8, s, actions[0]);
      SureStep(utf8, s, actions[0]);
      BudgetStep(utf8, s, actions[0]);
      assert forall a :: a in actions[1..] ==> a in actions;
      UndisturbedRun(utf8, s', actions[1..]);
    }
  }

  /** Only a read that is done, or one that a clear has stranded, has no step left. */
  lemma SureIsNotStuck(utf8: Bytes -> bool, s: State)
    requires Sure(s) && !Served(s) && !Stranded(s)
    ensures exists a :: IsProtocol(a) && Enabled(utf8, s, a)
  {
    if s.t.taken.Some? {
      assert IsProtocol(PutAway) && Enabled(utf8, s, PutAway);
    } else if s.t.toReader != [] && s.t.toReader[0] == NewValue {
      assert IsProtocol(HandleNewValue(true)) && Enabled(utf8, s, HandleNewValue(true));
    } else if s.t.toReader != [] {
      assert IsProtocol(HandleNotify(true, true)) && Enabled(utf8, s, HandleNotify(true, true));
    } else if s.t.request.Some? {
      assert IsProtocol(FinishRequest(true)) && Enabled(utf8, s, FinishRequest(true));
    } else if Requested(s) {
      assert IsProtocol(HandleRequest(true, true, true)) && Enabled(utf8, s, HandleRequest(true, true, true));
    } else {
      assert IsProtocol(HandleDeleted(true)) && Enabled(utf8, s, HandleDeleted(true));
    }
  }

  /**
   * From the first request on, with no sweep and no failed request, however writes
   * and clears are interleaved: the run takes at most FULL + 4 protocol steps, and
   * when none is left the read is done exactly if it was refused or a text was
   * registered for it (in one piece, or at the second look); done means that text.
   */
  lemma ReadEnds(utf8: Bytes -> bool, s: State, actions: seq<Action>)
    requires Start(utf8, s) && Legal(utf8, s, actions) && Undisturbed(actions)
    ensures var r := Run(utf8, s, actions);
            && ProtocolSteps(actions) <= FULL + 4
            && (Quiescent(utf8, r) ==> (r.t.read.Done? <==> r.h.refused || r.h.snapshot.Some?))
            && (r.t.read.Done? ==> r.t.read.result == Success(if r.h.refused then None else r.h.snapshot))
  {
    UndisturbedRun(utf8, s, actions);
    var r := Run(utf8, s, actions);
    if !Served(r) && !Stranded(r) {
      SureIsNotStuck(utf8, r);
    }
  }

  // ----- the second look -----

  /** The request has been answered, and no other is waiting. */
  ghost predicate Answered(s: State) {
    s.t.request.None? && SelectionRequest !in s.t.toOwner
  }

  lemma {:induction false} RegisteredStays(utf8: Bytes -> bool, s: State, actions: seq<Action>)
    requires Answered(s) && Legal(utf8, s, actions)
    ensures Run(utf8, s, actions).h.snapshot == s.h.snapshot && Run(utf8, s, actions).h.refused == s.h.refused
    decreases |actions|
  {
    if actions != [] {
      var a, s' := actions[0], Step(utf8, s, actions[0]);
      assert s.t.toOwner != [] ==> s.t.toOwner[0] in s.t.toOwner;
      assert Answered(s');
      RegisteredStays(utf8, s', actions[1..]);
    }
  }

  /**
   * An INCR answer looks at the text twice, and the second look decides.  With no
   * sweep and no failed request, when no step is left the read is done exactly if
   * there was a text at the second look, with that text; after a clear in between
   * only the watchdog can end it.
   */
  lemma {:induction false} SecondLookDecides(utf8: Bytes -> bool, s: State, actions: seq<Action>)
    requires Inv(utf8, s) && MidRequest(s) && s.t.watching && Undisturbed(actions)
    requires Legal(utf8, Step(utf8, s, FinishRequest(true)), actions)
    ensures var s' := Step(utf8, s, FinishRequest(true));
            var r := Run(utf8, s', actions);
            && (r.t.read.Done? ==> s.t.owned.Some? && r.t.read.result == Success(s.t.owned))
            && (Quiescent(utf8, r) ==> (r.t.read.Done? <==> s.t.owned.Some?))
            && ProtocolSteps(actions) <= |s'.t.toReader| + if s.t.owned.Some? then 3 * Chunks(|s.t.owned.value|) + 4 else 1
  {
    var s' := Step(utf8, s, FinishRequest(true));
    RequestKeepsInv(utf8, s, FinishRequest(true));
    SureFinish(utf8, s);
    UndisturbedRun(utf8, s', actions);
    RegisteredStays(utf8, s', actions);
    var r := Run(utf8, s', actions);
    if !Served(r) && !Stranded(r) {
      SureIsNotStuck(utf8, r);
    }
  }

  lemma {:induction false} RunThree(utf8: Bytes -> bool, s: State, a: Action, b: Action, c: Action, s1: State, s2: State, s3: State, rest: seq<Action>)
    requires Enabled(utf8, s, a) && s1 == Step(utf8, s, a) && Enabled(utf8, s1, b) && s2 == Step(utf8, s1, b)
    requires Enabled(utf8, s2, c) && s3 == Step(utf8, s2, c) && Legal(utf8, s3, rest)
    ensures Legal(utf8, s, [a, b, c] + rest) && Run(utf8, s, [a, b, c] + rest) == Run(utf8, s3, rest)
  {
    var all := [a, b, c] + rest;
    assert all[1..] == [b, c] + rest && all[1..][1..] == [c] + rest && all[1..][1..][1..] == rest;
    assert Legal(utf8, s2, all[1..][1..]) && Run(utf8, s2, all[1..][1..]) == Run(utf8, s3, rest);
    assert Legal(utf8, s1, all[1..]) && Run(utf8, s1, all[1..]) == Run(utf8, s3, rest);
  }

  function LongRead(text: Bytes): State {
    State(Transfer(Some(text), None, None, Absent, false, true, None, None, Awaiting, [], [SelectionRequest]),
          History(None, false, 0, [], 0, 0))
  }

  function ClearedInBetween(hint: nat): State {
    State(Transfer(None, None, None, IncrMarker(hint), true, true, None, None, Awaiting, [NewValue, SelectionNotify(false)], []),
          History(None, false, 0, [], 0, 0))
  }

  lemma {:induction false} ClearInBetween(utf8: Bytes -> bool, text: Bytes, rest: seq<Action>)
    requires |text| == OWNER_SINGLE_SHOT_CAP + 1 && utf8(text) && Legal(utf8, ClearedInBetween(|text|), rest)
    ensures var all := [HandleRequest(true, true, true), Clear, FinishRequest(true)] + rest;
            && Start(utf8, LongRead(text)) && Legal(utf8, LongRead(text), all)
            && Run(utf8, LongRead(text), all) == Run(utf8, ClearedInBetween(|text|), rest)
  {
    var s := LongRead(text);
    var s1 := Step(utf8, s, HandleRequest(true, true, true));
    var s2 := Step(utf8, s1, Clear);
    RunThree(utf8, s, HandleRequest(true, true, true), Clear, FinishRequest(true), s1, s2, ClearedInBetween(|text|), rest);
  }

  lemma {:induction false} ThenStranded(utf8: Bytes -> bool, hint: nat)
    requires hint <= MAX_CLIPBOARD_BYTES
    ensures var s, rest := ClearedInBetween(hint), [HandleNewValue(true), HandleNotify(true, true), HandleDeleted(true)];
            Legal(utf8, s, rest) && Stranded(Run(utf8, s, rest)) && Quiescent(utf8, Run(utf8, s, rest))
  {
    var s := ClearedInBetween(hint);
    var s1 := Step(utf8, s, HandleNewValue(true));
    var s2 := Step(utf8, s1, HandleNotify(true, true));
    var s3 := Step(utf8, s2, HandleDeleted(true));
    RunThree(utf8, s, HandleNewValue(true), HandleNotify(true, true), HandleDeleted(true), s1, s2, s3, []);
    var rest := [HandleNewValue(true), HandleNotify(true, true), HandleDeleted(true)];
    assert rest + [] == rest;
    assert s3.t.toReader == [] && s3.t.toOwner == [];
  }

  /** A read of one byte more than fits in one piece, cleared between the two looks, is stranded for good. */
  lemma {:induction false} ClearStrandsRead(utf8: Bytes -> bool, text: Bytes)
    requires |text| == OWNER_SINGLE_SHOT_CAP + 1 && utf8(text)
    ensures var actions := [HandleRequest(true, true, true), Clear, FinishRequest(true)]
                           + [HandleNewValue(true), HandleNotify(true, true), HandleDeleted(true)];
            && Start(utf8, LongRead(text)) && Legal(utf8, LongRead(text), actions) && Undisturbed(actions)
            && Stranded(Run(utf8, LongRead(text), actions)) && Quiescent(utf8, Run(utf8, LongRead(text), actions))
  {
    ThenStranded(utf8, |text|);
    ClearInBetween(utf8, text, [HandleNewValue(true), HandleNotify(true, true), HandleDeleted(true)]);
  }
}
