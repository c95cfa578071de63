/** Terminal input: how many bytes form complete input, and which key events they decode to. */
module KeyDecoding {
  import opened Numerals

  const ESC: byte := '\U{1b}'
  const PASTE_START: bytes := [ESC] + "[200~"
  const PASTE_END: bytes := [ESC] + "[201~"

  predicate StartsWith(s: bytes, prefix: bytes) {
    |prefix| <= |s| && s[..|prefix|] == prefix
  }

  // ---------------------------------------------------------------- UTF-8 (RFC 3629, section 4)

  /** Length announced by a first byte and the range its second byte must lie in; 1 for ASCII and for bytes that start nothing. */
  datatype Lead = Lead(size: nat, lo: int, hi: int)

  function LeadOf(c: byte): Lead {
    var b := c as int;
    if b < 0xc2 || b > 0xf4 then Lead(1, 0x80, 0xbf)
    else if b < 0xe0 then Lead(2, 0x80, 0xbf)
    else if b == 0xe0 then Lead(3, 0xa0, 0xbf)
    else if b == 0xed then Lead(3, 0x80, 0x9f)
    else if b < 0xf0 then Lead(3, 0x80, 0xbf)
    else if b == 0xf0 then Lead(4, 0x90, 0xbf)
    else if b < 0xf4 then Lead(4, 0x80, 0xbf)
    else Lead(4, 0x80, 0x8f)
  }

  predicate Continues(c: byte, lo: int, hi: int) {
    lo <= c as int <= hi
  }

  /** utf8.FullRune: no further byte can change how the first rune decodes. */
  predicate FullRune(p: bytes) {
    p != [] && var x := LeadOf(p[0]);
      || |p| >= x.size
      || (|p| > 1 && !Continues(p[1], x.lo, x.hi))
      || (|p| > 2 && !Continues(p[2], 0x80, 0xbf))
  }

  /** Size reported by utf8.DecodeRune. */
  function RuneSize(p: bytes): (n: nat)
    ensures n <= |p| && (p != [] ==> n >= 1)
  {
    if p == [] then 0
    else
      var x := LeadOf(p[0]);
      if x.size == 1 || |p| < x.size || !Continues(p[1], x.lo, x.hi) then 1
      else if x.size == 2 then 2
      else if !Continues(p[2], 0x80, 0xbf) then 1
      else if x.size == 3 then 3
      else if !Continues(p[3], 0x80, 0xbf) then 1
      else 4
  }

  lemma RuneIsStable(p: bytes, more: bytes)
    requires FullRune(p)
    ensures FullRune(p + more) && RuneSize(p + more) == RuneSize(p)
  {
  }

  // ---------------------------------------------------------------- complete input

  /** Position of the final byte of a control sequence (0x40 to 0x7e), or the length. */
  function FinalByte(s: bytes, from: nat): (i: nat)
    requires from <= |s|
    ensures from <= i <= |s|
    ensures i < |s| ==> 0x40 <= s[i] as int <= 0x7e
    ensures forall j | from <= j < i :: !(0x40 <= s[j] as int <= 0x7e)
    decreases |s| - from
  {
    if from == |s| || 0x40 <= s[from] as int <= 0x7e then from else FinalByte(s, from + 1)
  }

  /**
   Size of the first unit of the input, or 0 where more bytes have to be awaited. A lone escape byte may
   start a paste marker, so unless the input is final it is awaited before its own case is reached.
   */
  function Unit(s: bytes, final: bool): (n: nat)
    requires s != []
    ensures n <= |s| && (final ==> n >= 1)
  {
    if s[0] != ESC then
      if !FullRune(s) && !final then 0 else RuneSize(s)
    else if |s| < |PASTE_START| && (StartsWith(PASTE_START, s) || StartsWith(PASTE_END, s)) && !final then 0
    else if StartsWith(s, PASTE_START) || StartsWith(s, PASTE_END) then |PASTE_START|
    else if |s| == 1 then 1
    else if s[1] == '[' then
      var end := FinalByte(s, 2);
      if end < |s| then end + 1 else if final then |s| else 0
    else if s[1] == 'O' then
      if |s| < 3 && !final then 0 else if |s| < 3 then |s| else 3
    else if !FullRune(s[1..]) && !final then 0
    else 1 + RuneSize(s[1..])
  }

  function Complete(s: bytes, final: bool): (n: nat)
    ensures n <= |s|
  {
    if s == [] then 0
    else
      var unit := Unit(s, final);
      if unit == 0 then 0 else unit + Complete(s[unit..], final)
  }

  /** One round of the loop of completeInputBytes. */
  method UnitSize(s: bytes, final: bool) returns (n: nat)
    requires s != []
    ensures n == Unit(s, final)
  {
    if s[0] != ESC {
      if !FullRune(s) && !final {
        return 0;
      }
      return RuneSize(s);
    }
    if |s| < |PASTE_START| && (StartsWith(PASTE_START, s) || StartsWith(PASTE_END, s)) && !final {
      return 0;
    }
    if StartsWith(s, PASTE_START) || StartsWith(s, PASTE_END) {
      return |PASTE_START|;
    }
    if |s| == 1 {
      return 1;
    }
    if s[1] == '[' {
      for offset := 2 to |s|
        invariant FinalByte(s, 2) >= offset
      {
        if 0x40 <= s[offset] as int <= 0x7e {
          return offset + 1;
        }
      }
      if final {
        return |s|;
      }
      return 0;
    }
    if s[1] == 'O' {
      if |s| < 3 && !final {
        return 0;
      }
      if |s| < 3 {
        return |s|;
      }
      return 3;
    }
    if !FullRune(s[1..]) && !final {
      return 0;
    }
    return 1 + RuneSize(s[1..]);
  }

  /** completeInputBytes. */
  method CompleteInputBytes(input: bytes, final: bool) returns (n: nat)
    ensures n == Complete(input, final)
  {
    hide Unit;
    n := 0;
    while n < |input|
      invariant n <= |input|
      invariant Complete(input, final) == n + Complete(input[n..], final)
    {
      var unit := UnitSize(input[n..], final);
      if unit == 0 {
        return n;
      }
      assert input[n..][unit..] == input[n + unit..];
      n := n + unit;
    }
  }

  /** A final pass takes everything. */
  lemma {:induction false} FinalTakesAll(s: bytes)
    ensures Complete(s, true) == |s|
  {
    if s != [] { FinalTakesAll(s[Unit(s, true)..]); }
  }

  lemma UnitIsStable(s: bytes, more: bytes)
    requires s != [] && Unit(s, false) > 0
    ensures Unit(s + more, false) == Unit(s, false)
  {
    var t := s + more;
    assert t[0] == s[0];
    if s[0] != ESC {
      RuneIsStable(s, more);
    } else {
      PasteIsStable(s, more);
      if |s| > 1 && s[1] == '[' && !StartsWith(s, PASTE_START) && !StartsWith(s, PASTE_END) {
        FinalByteIsStable(s, more, 2);
      } else if |s| > 1 && s[1] != 'O' {
        assert t[1..] == s[1..] + more;
        if FullRune(s[1..]) { RuneIsStable(s[1..], more); }
      }
    }
  }

  lemma PasteIsStable(s: bytes, more: bytes)
    requires !(|s| < |PASTE_START| && (StartsWith(PASTE_START, s) || StartsWith(PASTE_END, s)))
    ensures var t := s + more;
      && !(|t| < |PASTE_START| && (StartsWith(PASTE_START, t) || StartsWith(PASTE_END, t)))
      && (StartsWith(t, PASTE_START) <==> StartsWith(s, PASTE_START)) && (StartsWith(t, PASTE_END) <==> StartsWith(s, PASTE_END))
  {
    PrefixOfMore(s, more, PASTE_START);
    PrefixOfMore(s, more, PASTE_END);
  }

  lemma PrefixOfMore(s: bytes, more: bytes, p: bytes)
    ensures |s| < |p| && !StartsWith(p, s) ==> !StartsWith(s + more, p) && !StartsWith(p, s + more)
    ensures |s| >= |p| ==> (StartsWith(s + more, p) <==> StartsWith(s, p))
  {
    var t := s + more;
    if |s| >= |p| {
      assert t[..|p|] == s[..|p|];
    } else {
      if StartsWith(t, p) { assert p[..|s|] == t[..|p|][..|s|] == s; }
      if StartsWith(p, t) { assert p[..|s|] == p[..|t|][..|s|] == s; }
    }
  }

  lemma FinalByteIsStable(s: bytes, more: bytes, from: nat)
    requires from <= |s| && FinalByte(s, from) < |s|
    ensures FinalByte(s + more, from) == FinalByte(s, from)
  {
    var i := FinalByte(s, from);
    assert (s + more)[i] == s[i];
    assert forall j | from <= j < i :: (s + more)[j] == s[j];
  }

  /**
   Scanning a stream in pieces, carrying over what is incomplete, finds the same boundary as scanning it
   at once: what is held back depends on the stream alone, not on how it was cut.
   */
  lemma {:induction false} ScanningIsChunkIndependent(s: bytes, more: bytes)
    ensures Complete(s + more, false) == Complete(s, false) + Complete(s[Complete(s, false)..] + more, false)
    decreases |s|
  {
    if s == [] {
      assert s + more == more;
    } else if Unit(s, false) == 0 {
      assert s[0..] + more == s + more;
    } else {
      var unit := Unit(s, false);
      UnitIsStable(s, more);
      assert (s + more)[unit..] == s[unit..] + more;
      ScanningIsChunkIndependent(s[unit..], more);
      assert s[unit..][Complete(s[unit..], false)..] == s[Complete(s, false)..];
    }
  }

  // ---------------------------------------------------------------- key events

  datatype Event = Event(key: string, raw: bytes)

  /** A key name and the number of bytes it was made from. */
  datatype Decoded = Decoded(key: string, size: nat)

  function ConsumeEscapeSequence(s: bytes): (n: nat)
    ensures n <= |s| && (s != [] ==> n >= 1)
  {
    if |s| < 2 then |s|
    else if s[1] == '[' then
      var end := FinalByte(s, 2);
      if end < |s| then end + 1 else |s|
    else if s[1] == 'O' && |s| >= 3 then 3
    else 1
  }

  function IndexOfMouseEnd(s: bytes, from: nat := 0): (i: nat)
    requires from <= |s|
    ensures from <= i <= |s|
    ensures i < |s| ==> s[i] == 'M' || s[i] == 'm'
    ensures forall j | from <= j < i :: s[j] != 'M' && s[j] != 'm'
    decreases |s| - from
  {
    if from == |s| || s[from] == 'M' || s[from] == 'm' then from else IndexOfMouseEnd(s, from + 1)
  }

  function Split(s: string, sep: char): (parts: seq<string>)
    ensures |parts| >= 1
  {
    if s == [] then [""]
    else
      var rest := Split(s[..|s| - 1], sep);
      var last := s[|s| - 1];
      if last == sep then rest + [""] else rest[..|rest| - 1] + [rest[|rest| - 1] + [last]]
  }

  /** Bit 32 of a machine integer in two's complement. */
  predicate Bit32(n: int) {
    n / 32 % 2 == 1
  }

  function WithoutBit32(n: int): int {
    if Bit32(n) then n - 32 else n
  }

  function WithBit32(n: int): int {
    if Bit32(n) then n else n + 32
  }

  const MOUSE_START: bytes := [ESC] + "[<"

  /** The key for what stands between the start of a mouse report and its final byte. */
  function ReportKey(payload: bytes, final: byte): string {
    var parts := Split(payload, ';');
    if |parts| != 3 then ""
    else
      var button, x, y := Atoi(parts[0]), Atoi(parts[1]), Atoi(parts[2]);
      if button.None? || x.None? || y.None? || x.value <= 0 || y.value <= 0 then ""
      else
        var name := if final == 'm' then "mouse-release" else if Bit32(button.value) then "mouse-drag" else "mouse";
        name + ":" + Itoa(x.value - 1) + ":" + Itoa(y.value - 1) + ":" + Itoa(WithoutBit32(button.value))
  }

  function DecodeMouseKey(s: bytes): (d: Decoded)
    requires StartsWith(s, MOUSE_START)
    ensures 1 <= d.size <= |s|
  {
    var end := IndexOfMouseEnd(s);
    if end == |s| then Decoded("", ConsumeEscapeSequence(s))
    else
      assert s[0] == MOUSE_START[0] && s[1] == MOUSE_START[1] && s[2] == MOUSE_START[2];
      Decoded(ReportKey(s[3..end], s[end]), end + 1)
  }

  datatype NamedSequence = NamedSequence(text: bytes, key: string)

  /** Sequences with a fixed meaning, in the order they are tried. */
  const NAMED: seq<NamedSequence> :=
    [ NamedSequence("[1;2B", "shift-down"), NamedSequence("[1;2A", "shift-up"),
      NamedSequence("[1;2D", "shift-left"), NamedSequence("[1;2C", "shift-right"),
      NamedSequence("[B", "down"), NamedSequence("[A", "up"), NamedSequence("[D", "left"), NamedSequence("[C", "right"),
      NamedSequence("[H", "home"), NamedSequence("[1~", "home"), NamedSequence("[F", "end"), NamedSequence("[4~", "end"),
      NamedSequence("[3~", "delete"), NamedSequence("[5~", "pageup"), NamedSequence("[6~", "pagedown"),
      NamedSequence("[I", "focus-in"), NamedSequence("[O", "focus-out"),
      NamedSequence("[5;2~", "shift-pageup"), NamedSequence("[6;2~", "shift-pagedown"), NamedSequence(":", "alt+:") ]

  function FirstNamed(s: bytes, i: nat := 0): (d: Option<Decoded>)
    requires i <= |NAMED| && s != []
    ensures d.Some? ==> 1 <= d.value.size <= |s|
    decreases |NAMED| - i
  {
    if i == |NAMED| then None
    else if StartsWith(s[1..], NAMED[i].text) then Some(Decoded(NAMED[i].key, 1 + |NAMED[i].text|))
    else FirstNamed(s, i + 1)
  }

  function DecodeEscapeKey(s: bytes): (d: Decoded)
    requires s != [] && s[0] == ESC
    ensures 1 <= d.size <= |s|
  {
    if StartsWith(s, MOUSE_START) then DecodeMouseKey(s)
    else
      var named := FirstNamed(s);
      if named.Some? then named.value
      else if |s| >= 2 && ('1' <= s[1] <= '9' || s[1] in "gtT") then Decoded("alt+" + [s[1]], 2)
      else if |s| == 1 then Decoded("escape", 1)
      else if s[1] != '[' && s[1] != 'O' then Decoded("escape", 1)
      else Decoded("", ConsumeEscapeSequence(s))
  }

  /** runeKey for a single-byte rune. */
  function ByteKey(c: byte, commandMode: bool): string {
    if c == 'j' && !commandMode then "down"
    else if c == 'k' && !commandMode then "up"
    else if c == 'h' && !commandMode then "left"
    else if c == 'l' && !commandMode then "right"
    else if c == ' ' && !commandMode then "space"
    else if c == '\t' then "tab"
    else if c == '\r' || c == '\n' then "enter"
    else if c as int == 0x7f || c as int == 8 then "backspace"
    else if c as int == 0x10 then "ctrl+p"
    else if c as int == 3 then "quit"
    else if c as int == 0x1d then "ctrl+]"
    else if (c as int) < 0x20 then "control:" + Itoa(c as int)
    else "char:" + [c]
  }

  function Named(key: string): string {
    if key == "" then "raw" else key
  }

  function DecodeOne(s: bytes, commandMode: bool): (e: Event)
    requires s != []
    ensures 1 <= |e.raw| <= |s| && e.raw == s[..|e.raw|] && e.key != ""
  {
    if StartsWith(s, PASTE_START) then Event("paste-start", s[..|PASTE_START|])
    else if StartsWith(s, PASTE_END) then Event("paste-end", s[..|PASTE_END|])
    else if s[0] == ESC then
      var d := DecodeEscapeKey(s);
      Event(Named(d.key), s[..d.size])
    else if StartsWith(s, "\r\n") then Event("enter", s[..2])
    else
      var size := RuneSize(s);
      if size == 1 then Event(if s[0] as int >= 0x80 then "raw" else Named(ByteKey(s[0], commandMode)), s[..1])
      else Event("char:" + s[..size], s[..size])
  }

  function DecodeEvents(s: bytes, commandMode: bool): seq<Event> {
    if s == [] then []
    else
      var e := DecodeOne(s, commandMode);
      [e] + DecodeEvents(s[|e.raw|..], commandMode)
  }

  /** decodeKeyEvents. */
  method DecodeKeyEvents(input: bytes, commandMode: bool) returns (events: seq<Event>)
    ensures events == DecodeEvents(input, commandMode)
  {
    var s := input;
    events := [];
    while |s| > 0
      invariant DecodeEvents(input, commandMode) == events + DecodeEvents(s, commandMode)
    {
      var e := DecodeOne(s, commandMode);
      events, s := events + [e], s[|e.raw|..];
    }
  }

  function Raws(events: seq<Event>): bytes {
    if events == [] then [] else events[0].raw + Raws(events[1..])
  }

  /** Decoding loses and invents nothing: the events spell the input, each from at least one byte. */
  lemma {:induction false} EventsSpellInput(s: bytes, commandMode: bool)
    ensures Raws(DecodeEvents(s, commandMode)) == s
    ensures forall e | e in DecodeEvents(s, commandMode) :: e.raw != [] && e.key != ""
  {
    if s != [] {
      var e := DecodeOne(s, commandMode);
      EventsSpellInput(s[|e.raw|..], commandMode);
      assert DecodeEvents(s, commandMode)[1..] == DecodeEvents(s[|e.raw|..], commandMode);
    }
  }

  /** Which events come out does depend on the cut: a carriage return and a line feed are one key or two. */
  lemma DecodingDependsOnTheCut()
    ensures Complete("\r", false) == 1 && Complete("\r\n", false) == 2
    ensures |DecodeEvents("\r\n", true)| == 1 && |DecodeEvents("\r", true) + DecodeEvents("\n", true)| == 2
  {
    assert "\r\n"[1..] == "\n" && "\r"[1..] == "" && "\n"[1..] == "" && "\r\n"[2..] == "";
    assert Unit("\r", false) == 1 && Unit("\n", false) == 1 && Unit("\r\n", false) == 1;
    assert Complete("\n", false) == 1;
  }
}
