/**
 The key queue of the main loop: bytes are read, carried over while incomplete, decoded, merged into raw
 blocks while a shell has the keyboard, and handed out one event at a time.
 */
module KeyInput {
  import opened Numerals
  import opened KeyDecoding

  // ---------------------------------------------------------------- merging for the shell

  predicate IsMouseKey(key: string) {
    StartsWith(key, "mouse:") || StartsWith(key, "mouse-drag:") || StartsWith(key, "mouse-release:")
  }

  predicate SwitchesContext(key: string) {
    key == "ctrl+]" || StartsWith(key, "alt+") || IsMouseKey(key)
  }

  predicate IsGlobal(key: string) {
    || key in {"ctrl+]", "shift-pageup", "shift-pagedown", "paste-start", "paste-end", "focus-in", "focus-out"}
    || StartsWith(key, "alt+") || IsMouseKey(key)
  }

  /** Number of events before the first that stops a block. */
  function BlockLength(events: seq<Event>, paste: bool): (n: nat)
    ensures n <= |events|
    ensures n < |events| ==> if paste then events[n].key == "paste-end" else IsGlobal(events[n].key)
    ensures forall i | 0 <= i < n :: if paste then events[i].key != "paste-end" else !IsGlobal(events[i].key)
  {
    if events == [] || (if paste then events[0].key == "paste-end" else IsGlobal(events[0].key)) then 0
    else 1 + BlockLength(events[1..], paste)
  }

  function Block(events: seq<Event>): seq<Event> {
    if Raws(events) == [] then [] else [Event("raw", Raws(events))]
  }

  /** The events of a paste up to its end marker as one block; then the rest. */
  function MergePaste(events: seq<Event>): seq<Event>
    decreases |events|, 0
  {
    var n := BlockLength(events, true);
    Block(events[..n]) + if n < |events| then [events[n]] + Merge(events[n + 1..]) else []
  }

  function Merge(events: seq<Event>): seq<Event>
    decreases |events|, 1
  {
    if events == [] then []
    else if events[0].key == "paste-start" then [events[0]] + MergePaste(events[1..])
    else if SwitchesContext(events[0].key) then events
    else if IsGlobal(events[0].key) then [events[0]] + Merge(events[1..])
    else
      var n := BlockLength(events, false);
      [Event("raw", Raws(events[..n]))] + Merge(events[n..])
  }

  function Coalesced(events: seq<Event>, pasteActive: bool): seq<Event> {
    if |events| < 2 then events else if pasteActive then MergePaste(events) else Merge(events)
  }

  lemma {:induction false} RawsConcat(a: seq<Event>, b: seq<Event>)
    ensures Raws(a + b) == Raws(a) + Raws(b)
  {
    if a == [] {
      assert a + b == b;
    } else {
      assert (a + b)[1..] == a[1..] + b;
      RawsConcat(a[1..], b);
    }
  }

  lemma RawsOfOne(e: Event)
    ensures Raws([e]) == e.raw
  {
    assert [e][1..] == [];
  }

  lemma RawsSplit(events: seq<Event>, n: nat)
    requires n <= |events|
    ensures Raws(events) == Raws(events[..n]) + Raws(events[n..])
  {
    assert events == events[..n] + events[n..];
    RawsConcat(events[..n], events[n..]);
  }

  lemma BlockKeepsRaws(events: seq<Event>)
    ensures Raws(Block(events)) == Raws(events)
  {
    RawsOfOne(Event("raw", Raws(events)));
  }

  lemma {:induction false} MergePasteKeepsRaws(events: seq<Event>)
    ensures Raws(MergePaste(events)) == Raws(events)
    decreases |events|, 0
  {
    var n := BlockLength(events, true);
    RawsSplit(events, n);
    BlockKeepsRaws(events[..n]);
    if n < |events| {
      MergeKeepsRaws(events[n + 1..]);
      RawsConcat(Block(events[..n]), [events[n]] + Merge(events[n + 1..]));
      RawsConcat([events[n]], Merge(events[n + 1..]));
      assert events[n..] == [events[n]] + events[n + 1..];
      RawsConcat([events[n]], events[n + 1..]);
    } else {
      assert Block(events[..n]) + [] == Block(events[..n]);
    }
  }

  lemma {:induction false} MergeKeepsRaws(events: seq<Event>)
    ensures Raws(Merge(events)) == Raws(events)
    decreases |events|, 1
  {
    if events != [] {
      assert events == [events[0]] + events[1..];
      RawsConcat([events[0]], events[1..]);
      if events[0].key == "paste-start" {
        MergePasteKeepsRaws(events[1..]);
        RawsConcat([events[0]], MergePaste(events[1..]));
      } else if SwitchesContext(events[0].key) {
      } else if IsGlobal(events[0].key) {
        MergeKeepsRaws(events[1..]);
        RawsConcat([events[0]], Merge(events[1..]));
      } else {
        var n := BlockLength(events, false);
        RawsSplit(events, n);
        MergeKeepsRaws(events[n..]);
        RawsConcat([Event("raw", Raws(events[..n]))], Merge(events[n..]));
        RawsOfOne(Event("raw", Raws(events[..n])));
      }
    }
  }

  predicate NoneEmpty(events: seq<Event>) {
    forall e | e in events :: e.raw != []
  }

  lemma {:induction false} NonEmptyRaws(events: seq<Event>)
    requires NoneEmpty(events) && events != []
    ensures Raws(events) != []
  {
    assert events[0] in events;
  }

  lemma {:induction false} MergePasteNoneEmpty(events: seq<Event>)
    requires NoneEmpty(events)
    ensures NoneEmpty(MergePaste(events)) && (events != [] ==> MergePaste(events) != [])
    decreases |events|, 0
  {
    var n := BlockLength(events, true);
    if n < |events| { MergeNoneEmpty(events[n + 1..]); }
    if n > 0 { NonEmptyRaws(events[..n]); }
  }

  lemma {:induction false} MergeNoneEmpty(events: seq<Event>)
    requires NoneEmpty(events)
    ensures NoneEmpty(Merge(events)) && (events != [] ==> Merge(events) != [])
    decreases |events|, 1
  {
    if events != [] {
      if events[0].key == "paste-start" {
        MergePasteNoneEmpty(events[1..]);
      } else if SwitchesContext(events[0].key) {
      } else if IsGlobal(events[0].key) {
        MergeNoneEmpty(events[1..]);
      } else {
        var n := BlockLength(events, false);
        MergeNoneEmpty(events[n..]);
        NonEmptyRaws(events[..n]);
      }
    }
  }

  /** Merging changes which event a byte belongs to, never the bytes; and no event is empty. */
  lemma CoalescingKeepsRaws(events: seq<Event>, pasteActive: bool)
    requires NoneEmpty(events)
    ensures Raws(Coalesced(events, pasteActive)) == Raws(events)
    ensures NoneEmpty(Coalesced(events, pasteActive)) && (events != [] ==> Coalesced(events, pasteActive) != [])
  {
    MergeKeepsRaws(events);
    MergePasteKeepsRaws(events);
    MergeNoneEmpty(events);
    MergePasteNoneEmpty(events);
  }

  /** What remains of the merge from here. */
  function Rest(events: seq<Event>, pasteActive: bool): seq<Event> {
    if pasteActive then MergePaste(events) else Merge(events)
  }

  /** The inner loops: raw bytes up to the first event that stops a block. */
  method TakeBlock(events: seq<Event>, from: nat, paste: bool) returns (raw: bytes, index: nat)
    requires from <= |events|
    ensures index == from + BlockLength(events[from..], paste) && raw == Raws(events[from..index])
  {
    raw, index := [], from;
    while index < |events| && (if paste then events[index].key != "paste-end" else !IsGlobal(events[index].key))
      invariant from <= index <= |events| && raw == Raws(events[from..index])
      invariant BlockLength(events[from..], paste) == index - from + BlockLength(events[index..], paste)
    {
      assert events[from..index + 1] == events[from..index] + [events[index]];
      RawsConcat(events[from..index], [events[index]]);
      RawsOfOne(events[index]);
      assert events[index..][1..] == events[index + 1..];
      raw, index := raw + events[index].raw, index + 1;
    }
  }

  /** Inside a paste: one block, and the end marker if it has come. */
  method TakePaste(events: seq<Event>, from: nat) returns (out: seq<Event>, next: nat, closed: bool)
    requires from <= |events|
    ensures from <= next <= |events| && (closed ==> from < next) && (!closed ==> next == |events|)
    ensures Rest(events[from..], true) == if closed then out + Rest(events[next..], false) else out
  {
    hide BlockLength, Raws, Rest, IsGlobal;
    var rest := events[from..];
    RestUnfolds(rest, true);
    var raw, end := TakeBlock(events, from, true);
    assert rest[..end - from] == events[from..end];
    out := if |raw| > 0 then [Event("raw", raw)] else [];
    if end == |events| {
      assert out + [] == out;
      return out, end, false;
    }
    assert rest[end - from] == events[end] && rest[end - from + 1..] == events[end + 1..];
    assert (out + [events[end]]) + Rest(events[end + 1..], false) == out + ([events[end]] + Rest(events[end + 1..], false));
    return out + [events[end]], end + 1, true;
  }

  /** Outside a paste: a global event by itself, or one block of the others. */
  method TakeOutside(events: seq<Event>, from: nat) returns (out: Event, next: nat)
    requires from < |events| && events[from].key != "paste-start" && !SwitchesContext(events[from].key)
    ensures from < next <= |events| && Rest(events[from..], false) == [out] + Rest(events[next..], false)
  {
    hide BlockLength, Raws, Rest, IsGlobal, SwitchesContext;
    var rest := events[from..];
    RestUnfolds(rest, false);
    if IsGlobal(events[from].key) {
      assert rest[1..] == events[from + 1..];
      return events[from], from + 1;
    }
    var raw, end := TakeBlock(events, from, false);
    assert rest[..end - from] == events[from..end] && rest[end - from..] == events[end..];
    return Event("raw", raw), end;
  }

  /** coalesceShellKeyEvents. */
  method CoalesceShellKeyEvents(events: seq<Event>, paste: bool) returns (out: seq<Event>)
    ensures out == Coalesced(events, paste)
  {
    hide BlockLength, IsGlobal, SwitchesContext, Raws, Rest, Merge, MergePaste;
    if |events| < 2 {
      return events;
    }
    var index, pasteActive := 0, paste;
    out := [];
    assert events[0..] == events;
    assert Coalesced(events, paste) == Rest(events, paste) by { RestIs(events, paste); }
    while index < |events|
      invariant index <= |events|
      invariant Coalesced(events, paste) == out + Rest(events[index..], pasteActive)
      decreases |events| - index
    {
      if pasteActive || events[index].key == "paste-start" {
        if !pasteActive {
          RestUnfolds(events[index..], false);
          assert events[index..][1..] == events[index + 1..];
          out := out + [events[index]];
          index := index + 1;
        }
        var taken, next, closed := TakePaste(events, index);
        out := out + taken;
        index, pasteActive := next, !closed;
        if !closed {
          return;
        }
        continue;
      }
      if SwitchesContext(events[index].key) {
        RestUnfolds(events[index..], false);
        return out + events[index..];
      }
      var event, next := TakeOutside(events, index);
      out := out + [event];
      index := next;
    }
    RestUnfolds([], pasteActive);
    assert events[index..] == [];
  }

  lemma RestIs(events: seq<Event>, paste: bool)
    requires |events| >= 2
    ensures Coalesced(events, paste) == Rest(events, paste)
  {
  }

  lemma RestUnfolds(events: seq<Event>, pasteActive: bool)
    ensures var n := BlockLength(events, pasteActive);
      Rest(events, pasteActive) ==
        if pasteActive then Block(events[..n]) + if n < |events| then [events[n]] + Rest(events[n + 1..], false) else []
        else if events == [] then []
        else if events[0].key == "paste-start" then [events[0]] + Rest(events[1..], true)
        else if SwitchesContext(events[0].key) then events
        else if IsGlobal(events[0].key) then [events[0]] + Rest(events[1..], false)
        else [Event("raw", Raws(events[..n]))] + Rest(events[n..], false)
    ensures !pasteActive && events != [] && !IsGlobal(events[0].key) ==> BlockLength(events, pasteActive) >= 1
    ensures events == [] ==> BlockLength(events, pasteActive) == 0 && Raws(events) == []
  {
  }

  // ---------------------------------------------------------------- the queue

  /** What a call finds: no input, an expired wait for the rest of a sequence, or bytes. */
  datatype Input = Idle | Expired | Chunk(data: bytes)

  /** Whether a shell has the keyboard, and whether it is in the middle of a paste. */
  datatype Focus = Focus(shell: bool, paste: bool)

  datatype Queue = Queue(pending: seq<Event>, buffer: bytes)

  /** The queue after a call and the event it handed out, if any. */
  datatype Outcome = Outcome(queue: Queue, delivered: seq<Event>)

  function Queued(events: seq<Event>, buffer: bytes, focus: Focus): Outcome {
    var merged := if focus.shell then Coalesced(events, focus.paste) else events;
    if merged == [] then Outcome(Queue([], buffer), []) else Outcome(Queue(merged[1..], buffer), [merged[0]])
  }

  function Step(q: Queue, input: Input, focus: Focus): Outcome {
    if q.pending != [] then Outcome(q.(pending := q.pending[1..]), [q.pending[0]])
    else
      match input
      case Idle => Outcome(q, [])
      case Expired => Queued(DecodeEvents(q.buffer, true), [], focus)
      case Chunk(data) =>
        var all := q.buffer + data;
        var n := Complete(all, false);
        Queued(DecodeEvents(all[..n], true), all[n..], focus)
  }

  /** Bytes a call takes from the terminal: none while earlier events are still queued. */
  function Taken(q: Queue, input: Input): bytes {
    if q.pending == [] && input.Chunk? then input.data else []
  }

  class KeyReader {
    var pendingKeys: seq<string>
    var pendingRaw: seq<bytes>
    var currentRaw: bytes
    var readBuffer: bytes

    predicate Paired()
      reads this
    {
      |pendingKeys| == |pendingRaw|
    }

    function View(): Queue
      requires Paired()
      reads this
    {
      Queue(seq(|pendingKeys|, i requires 0 <= i < |pendingKeys| && Paired() reads this => Event(pendingKeys[i], pendingRaw[i])), readBuffer)
    }

    constructor ()
      ensures Paired() && View() == Queue([], [])
    {
      pendingKeys, pendingRaw, currentRaw, readBuffer := [], [], [], [];
    }

    /** queueAppKeyEvents, called with nothing pending. */
    method QueueAppKeyEvents(decoded: seq<Event>, focus: Focus) returns (key: string)
      requires Paired() && pendingKeys == []
      modifies this
      ensures Paired() && Delivers(old(currentRaw), key, Queued(decoded, old(readBuffer), focus))
    {
      hide Coalesced;
      var events := decoded;
      if focus.shell {
        events := CoalesceShellKeyEvents(decoded, focus.paste);
      }
      if |events| == 0 {
        return "";
      }
      currentRaw := events[0].raw;
      for i := 1 to |events|
        invariant Paired() && currentRaw == events[0].raw && readBuffer == old(readBuffer)
        invariant View().pending == events[1..i]
      {
        ghost var before := View().pending;
        pendingKeys := pendingKeys + [events[i].key];
        pendingRaw := pendingRaw + [events[i].raw];
        assert View().pending == before + [events[i]] == events[1..i + 1];
      }
      assert events[1..|events|] == events[1..];
      return events[0].key;
    }

    /** The fields hold the outcome's queue, and the event handed out is the returned key with currentRaw. */
    predicate Delivers(before: bytes, key: string, o: Outcome)
      requires Paired()
      reads this
    {
      && View() == o.queue
      && if o.delivered == [] then key == "" && currentRaw == before else Event(key, currentRaw) == o.delivered[0]
    }

    /** decodeBufferedKeyEvents. */
    method DecodeBuffered(final: bool) returns (events: seq<Event>)
      requires Paired()
      modifies this`readBuffer
      ensures var n := Complete(old(readBuffer), final);
        events == DecodeEvents(old(readBuffer)[..n], true) && readBuffer == old(readBuffer)[n..]
    {
      var input := readBuffer;
      var complete := CompleteInputBytes(input, final);
      if complete == 0 {
        return [];
      }
      events := DecodeKeyEvents(input[..complete], true);
      readBuffer := input[complete..];
    }

    /** readAppKey, before the key is translated for the editor. */
    method ReadAppKey(input: Input, focus: Focus) returns (key: string)
      requires Paired()
      modifies this
      ensures Paired() && Delivers(old(currentRaw), key, Step(old(View()), input, focus))
    {
      hide Coalesced, DecodeEvents, Complete;
      ghost var before := View();
      if |pendingKeys| > 0 {
        key := pendingKeys[0];
        pendingKeys := pendingKeys[1..];
        currentRaw := [];
        if |pendingRaw| > 0 {
          currentRaw := pendingRaw[0];
          pendingRaw := pendingRaw[1..];
        }
        assert View().pending == before.pending[1..];
        return;
      }
      match input
      case Idle =>
        return "";
      case Expired =>
        FinalTakesAll(readBuffer);
        assert readBuffer[..|readBuffer|] == readBuffer;
        var events := DecodeBuffered(true);
        key := QueueAppKeyEvents(events, focus);
      case Chunk(data) =>
        readBuffer := readBuffer + data;
        var events := DecodeBuffered(false);
        key := QueueAppKeyEvents(events, focus);
    }
  }

  // ---------------------------------------------------------------- whole runs

  lemma QueuedKeepsBytes(events: seq<Event>, buffer: bytes, focus: Focus)
    requires NoneEmpty(events)
    ensures var o := Queued(events, buffer, focus);
      && Raws(o.delivered) + Raws(o.queue.pending) == Raws(events) && o.queue.buffer == buffer
      && NoneEmpty(o.delivered) && NoneEmpty(o.queue.pending)
  {
    hide Coalesced;
    CoalescingKeepsRaws(events, focus.paste);
    var merged := if focus.shell then Coalesced(events, focus.paste) else events;
    if merged != [] {
      RawsOfOne(merged[0]);
      RawsSplit(merged, 1);
      assert merged[..1] == [merged[0]];
    }
  }

  lemma DecodedNoneEmpty(s: bytes)
    ensures NoneEmpty(DecodeEvents(s, true)) && Raws(DecodeEvents(s, true)) == s
  {
    EventsSpellInput(s, true);
  }

  /** No call loses, invents or reorders a byte. */
  lemma StepKeepsBytes(q: Queue, input: Input, focus: Focus)
    requires NoneEmpty(q.pending)
    ensures var o := Step(q, input, focus);
      && Raws(o.delivered) + Raws(o.queue.pending) + o.queue.buffer == Raws(q.pending) + q.buffer + Taken(q, input)
      && NoneEmpty(o.delivered) && NoneEmpty(o.queue.pending)
  {
    hide Queued, DecodeEvents, Complete;
    if q.pending != [] {
      RawsOfOne(q.pending[0]);
      RawsSplit(q.pending, 1);
      assert q.pending[..1] == [q.pending[0]];
      assert q.buffer + [] == q.buffer;
    } else {
      match input
      case Idle =>
      case Expired =>
        DecodedNoneEmpty(q.buffer);
        QueuedKeepsBytes(DecodeEvents(q.buffer, true), [], focus);
      case Chunk(data) =>
        var all := q.buffer + data;
        var n := Complete(all, false);
        DecodedNoneEmpty(all[..n]);
        QueuedKeepsBytes(DecodeEvents(all[..n], true), all[n..], focus);
        assert all[..n] + all[n..] == all;
    }
  }

  /** An expired wait with nothing queued empties the carry-over buffer. */
  lemma ExpiryEmptiesBuffer(q: Queue, focus: Focus)
    requires q.pending == []
    ensures Step(q, Expired, focus).queue.buffer == []
  {
  }

  datatype Call = Call(input: Input, focus: Focus)

  /** Bytes taken, bytes handed out with events, and the queue, after a run of calls. */
  datatype History = History(taken: bytes, given: bytes, queue: Queue)

  function After(calls: seq<Call>): History {
    if calls == [] then History([], [], Queue([], []))
    else
      var h := After(calls[..|calls| - 1]);
      var c := calls[|calls| - 1];
      var o := Step(h.queue, c.input, c.focus);
      History(h.taken + Taken(h.queue, c.input), h.given + Raws(o.delivered), o.queue)
  }

  /**
   Over any run the bytes read are, in order, the raw bytes of the events handed out, those of the events
   still queued, and the carry-over buffer; and no event is empty.
   */
  lemma {:induction false} BytesAreConserved(calls: seq<Call>)
    ensures var h := After(calls);
      h.taken == h.given + Raws(h.queue.pending) + h.queue.buffer && NoneEmpty(h.queue.pending)
  {
    if calls != [] {
      BytesAreConserved(calls[..|calls| - 1]);
      ConservedOneMore(After(calls[..|calls| - 1]), calls[|calls| - 1]);
    }
  }

  lemma ConservedOneMore(h: History, c: Call)
    requires h.taken == h.given + Raws(h.queue.pending) + h.queue.buffer && NoneEmpty(h.queue.pending)
    ensures var o := Step(h.queue, c.input, c.focus);
      && h.taken + Taken(h.queue, c.input) == h.given + Raws(o.delivered) + Raws(o.queue.pending) + o.queue.buffer
      && NoneEmpty(o.queue.pending)
  {
    hide Step, Raws, Taken, NoneEmpty;
    StepKeepsBytes(h.queue, c.input, c.focus);
    var o := Step(h.queue, c.input, c.focus);
    var x := Raws(o.delivered) + Raws(o.queue.pending) + o.queue.buffer;
    assert h.given + Raws(o.delivered) + Raws(o.queue.pending) + o.queue.buffer == h.given + x;
    assert h.taken + Taken(h.queue, c.input) == h.given + (Raws(h.queue.pending) + h.queue.buffer + Taken(h.queue, c.input));
  }

  lemma StepBuffer(q: Queue, input: Input, focus: Focus)
    requires !input.Expired?
    ensures var all := q.buffer + Taken(q, input);
      Step(q, input, focus).queue.buffer == if q.pending == [] && input.Chunk? then all[Complete(all, false)..] else q.buffer
  {
    hide DecodeEvents, Complete, Coalesced;
  }

  /** As long as no wait expires, the carry-over buffer is what the stream read so far leaves incomplete. */
  lemma {:induction false} BufferDependsOnStream(calls: seq<Call>)
    requires forall c | c in calls :: !c.input.Expired?
    ensures HoldsBack(After(calls).queue.buffer, After(calls).taken)
  {
    if calls != [] {
      BufferDependsOnStream(calls[..|calls| - 1]);
      BufferOneMore(After(calls[..|calls| - 1]), calls[|calls| - 1]);
    }
  }

  predicate HoldsBack(buffer: bytes, stream: bytes) {
    buffer == stream[Complete(stream, false)..]
  }

  lemma BufferOneMore(h: History, c: Call)
    requires HoldsBack(h.queue.buffer, h.taken) && !c.input.Expired?
    ensures HoldsBack(Step(h.queue, c.input, c.focus).queue.buffer, h.taken + Taken(h.queue, c.input))
  {
    hide Step, Complete;
    StepBuffer(h.queue, c.input, c.focus);
    if h.queue.pending == [] && c.input.Chunk? {
      HeldBackExtends(h.taken, c.input.data);
    } else {
      assert h.taken + [] == h.taken;
    }
  }

  lemma HeldBackExtends(s: bytes, more: bytes)
    ensures var all := s[Complete(s, false)..] + more; HoldsBack(all[Complete(all, false)..], s + more)
  {
    hide Complete;
    ScanningIsChunkIndependent(s, more);
    var n := Complete(s, false);
    var all := s[n..] + more;
    assert (s + more)[n..] == all;
    assert all[Complete(all, false)..] == (s + more)[n + Complete(all, false)..];
  }
}
