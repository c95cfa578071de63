/**
 What the main loop sees of the keys while a shell has the keyboard: global keys as events of their own, a paste as one
 block, runs of other keys as blocks; and each call hands out the next event of what was decoded.
 */
module KeyDelivery {
  import opened Numerals
  import opened KeyDecoding
  import opened KeyInput

  // ---------------------------------------------------------------- global keys

  /** Mouse events, by their kind. */
  ghost predicate MouseKey(key: string) {
    exists rest :: key == "mouse:" + rest || key == "mouse-drag:" + rest || key == "mouse-release:" + rest
  }

  /** The keys the program keeps for itself while a shell has the keyboard. */
  ghost predicate GlobalKey(key: string) {
    || key == "ctrl+]" || key == "shift-pageup" || key == "shift-pagedown"
    || key == "paste-start" || key == "paste-end" || key == "focus-in" || key == "focus-out"
    || (exists rest :: key == "alt+" + rest) || MouseKey(key)
  }

  lemma StartsIsJoined(key: string, head: string)
    ensures StartsWith(key, head) <==> exists rest :: key == head + rest
  {
    if StartsWith(key, head) { assert key == head + key[|head|..]; }
    forall rest | key == head + rest ensures StartsWith(key, head) { assert key[..|head|] == head; }
  }

  lemma GlobalInWords(key: string)
    ensures IsMouseKey(key) <==> MouseKey(key)
    ensures IsGlobal(key) <==> GlobalKey(key)
  {
    hide StartsWith;
    StartsIsJoined(key, "mouse:");
    StartsIsJoined(key, "mouse-drag:");
    StartsIsJoined(key, "mouse-release:");
    StartsIsJoined(key, "alt+");
  }

  /** Whether a paste is open before event i: opened by a start marker and closed by an end marker only. */
  function InPaste(events: seq<Event>, i: nat, active: bool): bool
    requires i <= |events|
  {
    if i == 0 then active
    else if InPaste(events, i - 1, active) then events[i - 1].key != "paste-end"
    else events[i - 1].key == "paste-start"
  }

  lemma {:induction false} PasteStateFrom(events: seq<Event>, k: nat, i: nat, active: bool)
    requires k <= i <= |events|
    ensures InPaste(events, i, active) == InPaste(events[k..], i - k, InPaste(events, k, active))
  {
    if i > k {
      PasteStateFrom(events, k, i - 1, active);
      assert events[k..][i - 1 - k] == events[i - 1];
    }
  }

  lemma {:induction false} StaysOpen(events: seq<Event>, i: nat)
    requires i <= |events| && forall j | 0 <= j < i :: events[j].key != "paste-end"
    ensures InPaste(events, i, true)
  {
    if i > 0 { StaysOpen(events, i - 1); }
  }

  lemma {:induction false} StaysClosed(events: seq<Event>, i: nat)
    requires i <= |events| && forall j | 0 <= j < i :: !IsGlobal(events[j].key)
    ensures !InPaste(events, i, false)
  {
    if i > 0 { StaysClosed(events, i - 1); }
  }

  /** Event i comes out as event j of the result, behind the bytes that were before it. */
  predicate ComesOutAt(events: seq<Event>, i: nat, out: seq<Event>, j: nat) {
    i < |events| && j < |out| && out[j] == events[i] && Raws(out[..j]) == Raws(events[..i])
  }

  ghost predicate ComesOut(events: seq<Event>, i: nat, out: seq<Event>) {
    exists j: nat :: ComesOutAt(events, i, out, j)
  }

  lemma ComesOutLater(events: seq<Event>, k: nat, i: nat, before: seq<Event>, out: seq<Event>)
    requires k <= i < |events| && ComesOut(events[k..], i - k, out) && Raws(before) == Raws(events[..k])
    ensures ComesOut(events, i, before + out)
  {
    hide Raws;
    var j: nat :| ComesOutAt(events[k..], i - k, out, j);
    assert events[k..][..i - k] == events[k..i] && events[..i] == events[..k] + events[k..i];
    assert (before + out)[..|before| + j] == before + out[..j];
    RawsConcat(events[..k], events[k..i]);
    RawsConcat(before, out[..j]);
    assert ComesOutAt(events, i, before + out, |before| + j);
  }

  lemma ComesOutFirst(events: seq<Event>, out: seq<Event>)
    requires events != [] && out != [] && out[0] == events[0]
    ensures ComesOut(events, 0, out)
  {
    assert ComesOutAt(events, 0, out, 0);
  }

  lemma {:induction false} PastePasses(events: seq<Event>, i: nat)
    requires i < |events| && IsGlobal(events[i].key) && !InPaste(events, i, true)
    ensures ComesOut(events, i, MergePaste(events))
    decreases |events|, 0
  {
    hide IsGlobal, BlockLength, Merge, Raws, ComesOut, Block;
    var n := BlockLength(events, true);
    BlockIs(events, true);
    if i <= n {
      StaysOpen(events, i);
    } else {
      StaysOpen(events, n);
      PasteStateFrom(events, n + 1, i, true);
      assert events[n + 1..][i - n - 1] == events[i];
      MergePasses(events[n + 1..], i - n - 1);
      var before := Block(events[..n]) + [events[n]];
      BlockKeepsRaws(events[..n]);
      RawsConcat(Block(events[..n]), [events[n]]);
      RawsConcat(events[..n], [events[n]]);
      assert events[..n + 1] == events[..n] + [events[n]];
      ComesOutLater(events, n + 1, i, before, Merge(events[n + 1..]));
      assert MergePaste(events) == before + Merge(events[n + 1..]);
    }
  }

  lemma BlockIs(events: seq<Event>, paste: bool)
    ensures var n := BlockLength(events, paste);
      && n <= |events| && (n < |events| ==> if paste then events[n].key == "paste-end" else IsGlobal(events[n].key))
      && forall j | 0 <= j < n :: if paste then events[j].key != "paste-end" else !IsGlobal(events[j].key)
  {
  }

  lemma {:induction false} MergePasses(events: seq<Event>, i: nat)
    requires i < |events| && IsGlobal(events[i].key) && !InPaste(events, i, false)
    ensures ComesOut(events, i, Merge(events))
    decreases |events|, 1
  {
    hide IsGlobal, BlockLength, MergePaste, Raws, ComesOut, SwitchesContext;
    if events[0].key == "paste-start" || (!SwitchesContext(events[0].key) && IsGlobal(events[0].key)) {
      if i == 0 {
        ComesOutFirst(events, Merge(events));
      } else {
        PasteStateFrom(events, 1, i, false);
        assert InPaste(events, 0, false) == false && events[1..][i - 1] == events[i] && events[..1] == [events[0]];
        if events[0].key == "paste-start" {
          PastePasses(events[1..], i - 1);
          ComesOutLater(events, 1, i, [events[0]], MergePaste(events[1..]));
        } else {
          MergePasses(events[1..], i - 1);
          ComesOutLater(events, 1, i, [events[0]], Merge(events[1..]));
        }
      }
    } else if SwitchesContext(events[0].key) {
      PassesAsItIs(events, i);
    } else {
      var n := BlockLength(events, false);
      BlockIs(events, false);
      StaysClosed(events, n);
      PasteStateFrom(events, n, i, false);
      assert events[n..][i - n] == events[i];
      MergePasses(events[n..], i - n);
      RawsOfOne(Event("raw", Raws(events[..n])));
      ComesOutLater(events, n, i, [Event("raw", Raws(events[..n]))], Merge(events[n..]));
    }
  }

  lemma PassesAsItIs(events: seq<Event>, i: nat)
    requires i < |events|
    ensures ComesOut(events, i, events)
  {
    assert ComesOutAt(events, i, events, i);
  }

  /** Outside a paste a global key reaches the program as an event of its own, between the same bytes as before. */
  lemma GlobalKeysReachTheProgram(events: seq<Event>, pasteActive: bool, i: nat)
    requires i < |events| && GlobalKey(events[i].key) && !InPaste(events, i, pasteActive)
    ensures ComesOut(events, i, Coalesced(events, pasteActive))
  {
    hide GlobalKey, IsGlobal, ComesOut, Merge, MergePaste, InPaste;
    GlobalInWords(events[i].key);
    if |events| < 2 {
      PassesAsItIs(events, i);
    } else if pasteActive {
      PastePasses(events, i);
    } else {
      MergePasses(events, i);
    }
  }

  // ---------------------------------------------------------------- blocks

  /** No end marker inside: what is pasted comes as one block, then the marker, then what follows is merged by itself. */
  lemma PasteIsOneBlock(body: seq<Event>, end: Event, rest: seq<Event>)
    requires NoneEmpty(body) && (forall e | e in body :: e.key != "paste-end") && end.key == "paste-end" && body != []
    ensures Coalesced(body + [end] + rest, true) == [Event("raw", Raws(body)), end] + Merge(rest)
  {
    hide Raws;
    var events := body + [end] + rest;
    BlockIs(events, true);
    var n := BlockLength(events, true);
    assert events[|body|] == end;
    assert forall j | 0 <= j < |body| :: events[j] == body[j] && body[j] in body;
    assert n == |body| && events[..n] == body && events[n + 1..] == rest;
    NonEmptyRaws(body);
  }

  /** Without its end marker yet, the paste so far is one block. */
  lemma OpenPasteIsOneBlock(body: seq<Event>)
    requires NoneEmpty(body) && (forall e | e in body :: e.key != "paste-end") && |body| >= 2
    ensures Coalesced(body, true) == [Event("raw", Raws(body))]
  {
    hide Raws, Merge, BlockLength;
    BlockIs(body, true);
    var n := BlockLength(body, true);
    assert n == |body| by { assert forall j | 0 <= j < |body| :: body[j] in body; }
    assert body[..n] == body;
    NonEmptyRaws(body);
    assert Block(body) + [] == Block(body);
  }

  /** A run of other keys before a global one, or before the end, comes as one block of its bytes. */
  lemma RunIsOneBlock(run: seq<Event>, rest: seq<Event>)
    requires run != [] && (forall e | e in run :: !GlobalKey(e.key)) && (rest != [] ==> GlobalKey(rest[0].key))
    ensures Merge(run + rest) == [Event("raw", Raws(run))] + Merge(rest)
  {
    hide Raws, IsGlobal, GlobalKey, SwitchesContext;
    var events := run + rest;
    forall e: Event
      ensures IsGlobal(e.key) <==> GlobalKey(e.key)
      ensures SwitchesContext(e.key) || e.key == "paste-start" ==> IsGlobal(e.key)
    {
      GlobalInWords(e.key);
      SwitchingIsGlobal(e.key);
    }
    BlockIs(events, false);
    var n := BlockLength(events, false);
    assert forall j | 0 <= j < |run| :: events[j] == run[j] && run[j] in run;
    assert rest != [] ==> events[|run|] == rest[0];
    assert n == |run| && events[..n] == run && events[n..] == rest;
    assert events[0] == run[0];
  }

  lemma SwitchingIsGlobal(key: string)
    ensures SwitchesContext(key) ==> IsGlobal(key)
    ensures key == "paste-start" ==> IsGlobal(key)
  {
  }

  /** A key that may take the keyboard away from the shell stops the merging: what follows it is left as it is. */
  lemma SwitchStopsMerging(e: Event, rest: seq<Event>)
    requires e.key == "ctrl+]" || (exists x :: e.key == "alt+" + x) || MouseKey(e.key)
    ensures Merge([e] + rest) == [e] + rest
  {
    hide MouseKey, IsMouseKey, StartsWith;
    GlobalInWords(e.key);
    StartsIsJoined(e.key, "alt+");
    NoMarker(e.key);
  }

  lemma NoMarker(key: string)
    ensures SwitchesContext(key) ==> key != "paste-start"
  {
    if StartsWith(key, "alt+") { assert key[..4][0] == 'a' == key[0]; }
    if StartsWith(key, "mouse:") { assert key[..6][0] == 'm' == key[0]; }
    if StartsWith(key, "mouse-drag:") { assert key[..11][0] == 'm' == key[0]; }
    if StartsWith(key, "mouse-release:") { assert key[..14][0] == 'm' == key[0]; }
  }

  // ---------------------------------------------------------------- one call

  /** The events that come into the queue when nothing is pending. */
  function Arriving(q: Queue, input: Input): seq<Event> {
    match input
    case Idle => []
    case Expired => DecodeEvents(q.buffer, true)
    case Chunk(data) => DecodeEvents((q.buffer + data)[..Complete(q.buffer + data, false)], true)
  }

  /** A call hands out the first event there is, keys and bytes as they were decoded, and keeps the others in order. */
  lemma CallsHandOutInOrder(q: Queue, input: Input, focus: Focus)
    ensures var o := Step(q, input, focus);
      var waiting := if q.pending != [] then q.pending
                     else if focus.shell then Coalesced(Arriving(q, input), focus.paste) else Arriving(q, input);
      && o.delivered + o.queue.pending == waiting
      && |o.delivered| == if waiting == [] then 0 else 1
  {
    hide Coalesced, DecodeEvents, Complete;
    assert Coalesced([], focus.paste) == [] by { NothingMerged(focus.paste); }
  }

  lemma NothingMerged(paste: bool)
    ensures Coalesced([], paste) == []
  {
  }
}
