/** Mouse events on their way to a guest: printed in SGR form, and read back by a terminal's own decoder. */
module MouseInput {
  import opened Numerals
  import opened KeyDecoding

  datatype MouseKind = Press | Drag | Release
  datatype MouseEvent = MouseEvent(x: int, y: int, button: int, kind: MouseKind)

  /** What the guest asked to be told: X10 presses, buttons, motion while pressed, all motion, or nothing. */
  datatype Tracking = X10 | Buttons | Motion | Many | Off

  predicate Accepts(t: Tracking, k: MouseKind) {
    match t
    case X10 => k == Press
    case Buttons => k != Drag
    case Motion => true
    case Many => true
    case Off => false
  }

  /** Addition of one to a 64-bit integer. */
  function Successor(x: int): int {
    if x == MAX_INT64 then MIN_INT64 else x + 1
  }

  predicate IsInt64(n: int) {
    MIN_INT64 <= n <= MAX_INT64
  }

  /** encodeMouseInput in SGR mode. */
  function EncodeSgr(e: MouseEvent, t: Tracking): Option<bytes> {
    if e.x < 0 || e.y <= 0 || !Accepts(t, e.kind) then None
    else Some(SgrText(if e.kind == Drag then WithBit32(e.button) else e.button, Successor(e.x), e.y, if e.kind == Release then 'm' else 'M'))
  }

  function SgrText(button: int, x: int, y: int, final: byte): bytes {
    MOUSE_START + SgrPayload(button, x, y) + [final]
  }

  function SgrPayload(button: int, x: int, y: int): bytes {
    Itoa(button) + [';'] + Itoa(x) + [';'] + Itoa(y)
  }

  function KindName(name: string): Option<MouseKind> {
    if name == "mouse" then Some(Press)
    else if name == "mouse-drag" then Some(Drag)
    else if name == "mouse-release" then Some(Release)
    else None
  }

  function ParseMouseEvent(key: string): Option<MouseEvent> {
    var parts := Split(key, ':');
    if |parts| != 4 then None
    else
      var kind, x, y, button := KindName(parts[0]), Atoi(parts[1]), Atoi(parts[2]), Atoi(parts[3]);
      if kind.None? || x.None? || y.None? || button.None? then None
      else Some(MouseEvent(x.value, y.value, button.value, kind.value))
  }

  // ---------------------------------------------------------------- splitting what was joined

  lemma {:induction false} SplitWhole(s: string, sep: char)
    requires sep !in s
    ensures Split(s, sep) == [s]
  {
    if s != [] {
      SplitWhole(s[..|s| - 1], sep);
      assert s == s[..|s| - 1] + [s[|s| - 1]];
    }
  }

  lemma {:induction false} SplitJoined(s: string, t: string, sep: char)
    requires sep !in t
    ensures Split(s + [sep] + t, sep) == Split(s, sep) + [t]
  {
    var all := s + [sep] + t;
    if t == [] {
      assert all[..|all| - 1] == s && all[|all| - 1] == sep;
    } else {
      var init := t[..|t| - 1];
      SplitJoined(s, init, sep);
      assert all[..|all| - 1] == s + [sep] + init && all[|all| - 1] == t[|t| - 1];
      assert t == init + [t[|t| - 1]];
    }
  }

  lemma ItoaAvoids(n: int, c: char)
    requires c == ';' || c == ':' || c == 'M' || c == 'm'
    ensures c !in Itoa(n)
  {
    ItoaCharacters(n);
  }

  lemma SplitPayload(button: int, x: int, y: int)
    ensures Split(SgrPayload(button, x, y), ';') == [Itoa(button), Itoa(x), Itoa(y)]
  {
    hide Itoa, Split;
    ItoaAvoids(button, ';');
    ItoaAvoids(x, ';');
    ItoaAvoids(y, ';');
    SplitWhole(Itoa(button), ';');
    SplitJoined(Itoa(button), Itoa(x), ';');
    SplitJoined(Itoa(button) + [';'] + Itoa(x), Itoa(y), ';');
  }

  lemma SplitKey(name: string, x: int, y: int, button: int)
    requires ':' !in name
    ensures Split(name + ":" + Itoa(x) + ":" + Itoa(y) + ":" + Itoa(button), ':') == [name, Itoa(x), Itoa(y), Itoa(button)]
  {
    hide Itoa, Split;
    ItoaAvoids(x, ':');
    ItoaAvoids(y, ':');
    ItoaAvoids(button, ':');
    SplitWhole(name, ':');
    SplitJoined(name, Itoa(x), ':');
    SplitJoined(name + ":" + Itoa(x), Itoa(y), ':');
    SplitJoined(name + ":" + Itoa(x) + ":" + Itoa(y), Itoa(button), ':');
  }

  // ---------------------------------------------------------------- decoding what was printed

  lemma PayloadCharacters(button: int, x: int, y: int)
    ensures forall c | c in SgrPayload(button, x, y) :: IsDigit(c) || c == '-' || c == ';'
  {
    ItoaCharacters(button);
    ItoaCharacters(x);
    ItoaCharacters(y);
  }

  lemma SgrShape(button: int, x: int, y: int, final: byte)
    requires final == 'M' || final == 'm'
    ensures var s := SgrText(button, x, y, final); var n := |s| - 1;
      && n >= 3 && StartsWith(s, MOUSE_START) && s[0] == ESC && s[1] == '[' && s[2] == '<' && s[3..n] == SgrPayload(button, x, y) && s[n] == final
      && IndexOfMouseEnd(s) == n && FinalByte(s, 2) == n
  {
    hide SgrPayload;
    var payload := SgrPayload(button, x, y);
    var s := SgrText(button, x, y, final);
    var n := |s| - 1;
    PayloadCharacters(button, x, y);
    assert s[..3] == MOUSE_START && s[3..n] == payload && s[n] == final;
    assert s[0] == MOUSE_START[0] && s[1] == MOUSE_START[1] && s[2] == MOUSE_START[2];
    forall i | 3 <= i < n
      ensures IsDigit(s[i]) || s[i] == '-' || s[i] == ';'
    {
      assert s[i] == payload[i - 3];
    }
  }

  lemma NotAPaste(s: bytes)
    requires |s| >= 3 && s[2] == '<'
    ensures !StartsWith(s, PASTE_START) && !StartsWith(s, PASTE_END) && !StartsWith(PASTE_START, s) && !StartsWith(PASTE_END, s)
  {
    assert PASTE_START[2] == '2' && PASTE_END[2] == '2';
  }

  /** The printed event is complete input by itself and decodes to a single key event. */
  lemma PrintedIsOneEvent(button: int, x: int, y: int, final: byte, commandMode: bool)
    requires final == 'M' || final == 'm'
    ensures var s := SgrText(button, x, y, final);
      && Complete(s, false) == |s| && StartsWith(s, MOUSE_START)
      && DecodeEvents(s, commandMode) == [Event(KeyDecoding.Named(DecodeMouseKey(s).key), s)] && DecodeMouseKey(s).size == |s|
  {
    hide SgrText, IndexOfMouseEnd, FinalByte, Itoa, Split, Atoi;
    var s := SgrText(button, x, y, final);
    SgrShape(button, x, y, final);
    NotAPaste(s);
    assert s[..|s|] == s && s[|s|..] == [];
  }

  lemma DecodedMouseKey(button: int, x: int, y: int, final: byte)
    requires IsInt64(button) && IsInt64(x) && IsInt64(y) && (final == 'M' || final == 'm')
    ensures var s := SgrText(button, x, y, final);
      && StartsWith(s, MOUSE_START)
      && DecodeMouseKey(s).key ==
        if x <= 0 || y <= 0 then ""
        else (if final == 'm' then "mouse-release" else if Bit32(button) then "mouse-drag" else "mouse")
             + ":" + Itoa(x - 1) + ":" + Itoa(y - 1) + ":" + Itoa(WithoutBit32(button))
  {
    hide SgrText, IndexOfMouseEnd, FinalByte, Itoa, Split, Atoi;
    SgrShape(button, x, y, final);
    SplitPayload(button, x, y);
    AtoiItoa(button);
    AtoiItoa(x);
    AtoiItoa(y);
  }

  lemma ParsedKey(name: string, x: int, y: int, button: int)
    requires name in {"mouse", "mouse-drag", "mouse-release"} && IsInt64(x) && IsInt64(y) && IsInt64(button)
    ensures ParseMouseEvent(name + ":" + Itoa(x) + ":" + Itoa(y) + ":" + Itoa(button)) == Some(MouseEvent(x, y, button, KindName(name).value))
  {
    hide Itoa, Split, Atoi;
    SplitKey(name, x, y, button);
    AtoiItoa(x);
    AtoiItoa(y);
    AtoiItoa(button);
  }

  /**
   A terminal that decodes what was printed for an event gets the same kind, column and button, and the row
   one higher (row zero is the tab bar): exactly when bit 32 of the button is clear and the column is not
   the largest integer.
   */
  lemma SgrRoundTrip(e: MouseEvent, t: Tracking, commandMode: bool, text: bytes, events: seq<Event>)
    requires IsInt64(e.x) && IsInt64(e.y) && IsInt64(e.button) && EncodeSgr(e, t) == Some(text) && events == DecodeEvents(text, commandMode)
    ensures |events| == 1 && events[0].raw == text && Complete(text, false) == |text|
    ensures ParseMouseEvent(events[0].key) == Some(MouseEvent(e.x, e.y - 1, e.button, e.kind)) <==> !Bit32(e.button) && e.x < MAX_INT64
  {
    hide SgrText, Itoa, Split, Atoi, DecodeEvents, DecodeMouseKey, ParseMouseEvent, Complete;
    var button := if e.kind == Drag then WithBit32(e.button) else e.button;
    var x := Successor(e.x);
    var final := if e.kind == Release then 'm' else 'M';
    assert IsInt64(button) by { BitStaysInRange(e.button); }
    PrintedIsOneEvent(button, x, e.y, final, commandMode);
    DecodedMouseKey(button, x, e.y, final);
    if e.x < MAX_INT64 {
      var name := if final == 'm' then "mouse-release" else if Bit32(button) then "mouse-drag" else "mouse";
      assert IsInt64(WithoutBit32(button)) by { BitStaysInRange(button); }
      ParsedKey(name, e.x, e.y - 1, WithoutBit32(button));
    } else {
      RawIsNoMouse();
    }
  }

  lemma ReportParses(payload: bytes, final: byte)
    requires ReportKey(payload, final) != ""
    ensures Forwardable(ParseMouseEvent(ReportKey(payload, final)))
  {
    hide Itoa, Split, ParseMouseEvent, Atoi, Bit32, WithoutBit32;
    var parts := Split(payload, ';');
    var button, x, y := Atoi(parts[0]).value, Atoi(parts[1]).value, Atoi(parts[2]).value;
    AtoiFits(parts[0]);
    AtoiFits(parts[1]);
    AtoiFits(parts[2]);
    BitStaysInRange(button);
    ParsedKey(if final == 'm' then "mouse-release" else if Bit32(button) then "mouse-drag" else "mouse", x - 1, y - 1, WithoutBit32(button));
  }

  lemma AtoiFits(s: string)
    ensures Atoi(s).Some? ==> IsInt64(Atoi(s).value)
  {
    hide DigitsValue;
  }

  /** Bit 32 of the button is clear, and the column was counted down from a machine integer. */
  predicate Forwardable(e: Option<MouseEvent>) {
    e.Some? && !Bit32(e.value.button) && IsInt64(e.value.button) && 0 <= e.value.x < MAX_INT64 && 0 <= e.value.y < MAX_INT64
  }

  /** A decoded mouse report always parses to such an event. */
  lemma DecodedIsForwardable(s: bytes)
    requires StartsWith(s, MOUSE_START) && DecodeMouseKey(s).key != ""
    ensures Forwardable(ParseMouseEvent(DecodeMouseKey(s).key))
  {
    hide ReportKey, Forwardable, IndexOfMouseEnd;
    var end := IndexOfMouseEnd(s);
    assert s[0] == MOUSE_START[0] && s[1] == MOUSE_START[1] && s[2] == MOUSE_START[2];
    ReportParses(s[3..end], s[end]);
  }

  /**
   Every event the program forwards comes from a decoded report. Printed again and decoded by the guest's side
   it is the same event, with the row one higher.
   */
  lemma ForwardedRoundTrips(s: bytes, e: MouseEvent, t: Tracking, commandMode: bool, text: bytes, events: seq<Event>)
    requires StartsWith(s, MOUSE_START) && DecodeMouseKey(s).key != "" && ParseMouseEvent(DecodeMouseKey(s).key) == Some(e)
    requires EncodeSgr(e, t) == Some(text) && events == DecodeEvents(text, commandMode)
    ensures |events| == 1 && events[0].raw == text && Complete(text, false) == |text|
    ensures ParseMouseEvent(events[0].key) == Some(MouseEvent(e.x, e.y - 1, e.button, e.kind))
  {
    hide DecodeEvents, DecodeMouseKey, ParseMouseEvent, Complete, EncodeSgr;
    DecodedIsForwardable(s);
    SgrRoundTrip(e, t, commandMode, text, events);
  }

  /** A report is sent exactly for an event right of the left edge and below the tab bar, of a kind that the guest asked to be told of. */
  lemma SentExactly(e: MouseEvent, t: Tracking)
    ensures EncodeSgr(e, t).Some? <==>
      && e.x >= 0 && e.y > 0
      && (e.kind == Press ==> t != Off)
      && (e.kind == Release ==> t != Off && t != X10)
      && (e.kind == Drag ==> t == Motion || t == Many)
  {
  }

  lemma BitStaysInRange(n: int)
    requires IsInt64(n)
    ensures IsInt64(WithBit32(n)) && IsInt64(WithoutBit32(n)) && Bit32(WithBit32(n)) && !Bit32(WithoutBit32(n)) && WithoutBit32(WithBit32(n)) == WithoutBit32(n)
  {
  }

  lemma RawIsNoMouse()
    ensures ParseMouseEvent("raw") == None
  {
    SplitWhole("raw", ':');
  }
}
