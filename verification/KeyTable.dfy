/**
 The keys that bytes mean, said without the decoder's own tables: every sequence with a fixed meaning, every single byte,
 every character; and that a byte is held back only where a key can still come of it.
 */
module KeyTable {
  import opened Numerals
  import opened KeyDecoding
  import opened KeyCuts

  /** In either mode these bytes are one event with this key, whatever comes after them. */
  ghost predicate Reads(input: bytes, key: string)
    requires input != []
  {
    forall tail: bytes, mode: bool :: DecodeOne(input + tail, mode) == Event(key, input)
  }

  // ---------------------------------------------------------------- no fixed sequence starts another

  /** Tells the fixed sequences apart by their second, third and fifth bytes; 20 for anything else. */
  function Rank(t: bytes): nat {
    if t != [] && t[0] == ':' then 19
    else if |t| < 2 then 20
    else match t[1]
      case 'B' => 4 case 'A' => 5 case 'D' => 6 case 'C' => 7 case 'H' => 8 case 'F' => 10
      case '4' => 11 case '3' => 12 case 'I' => 15 case 'O' => 16
      case '5' => if |t| > 2 && t[2] == '~' then 13 else 17
      case '6' => if |t| > 2 && t[2] == '~' then 14 else 18
      case '1' =>
        if |t| > 2 && t[2] == '~' then 9
        else if |t| < 5 then 20
        else (match t[4] case 'B' => 0 case 'A' => 1 case 'D' => 2 case 'C' => 3 case _ => 20)
      case _ => 20
  }

  lemma RankOf(t: bytes, i: nat)
    requires i < |NAMED| && StartsWith(t, NAMED[i].text)
    ensures Rank(t) == i
  {
    var text := NAMED[i].text;
    assert forall j | 0 <= j < |text| :: t[j] == t[..|text|][j] == text[j];
    assert Rank(text) == i;
  }

  lemma {:induction false} OnlyOneStarts(s: bytes, i: nat, from: nat)
    requires from <= i < |NAMED| && s != [] && StartsWith(s[1..], NAMED[i].text)
    ensures FirstNamed(s, from) == Some(Decoded(NAMED[i].key, 1 + |NAMED[i].text|))
    decreases i - from
  {
    hide Rank, StartsWith;
    RankOf(s[1..], i);
    if from < i {
      if StartsWith(s[1..], NAMED[from].text) { RankOf(s[1..], from); }
      OnlyOneStarts(s, i, from + 1);
    }
  }

  /** The fixed sequences are neither paste markers nor mouse reports. */
  lemma NeitherPasteNorMouse(s: bytes, i: nat)
    requires i < |NAMED| && s != [] && s[0] == ESC && StartsWith(s[1..], NAMED[i].text)
    ensures !StartsWith(s, PASTE_START) && !StartsWith(s, PASTE_END) && !StartsWith(s, MOUSE_START)
  {
    var text := NAMED[i].text;
    assert s[1] == s[1..][..|text|][0] == text[0];
    if i == |NAMED| - 1 {
      NoPaste(s);
      NoMouse(s);
    } else {
      NamedShapes(i);
      assert s[2] == s[1..][..|text|][1] == text[1];
      SecondByte(i);
      NoMouse(s);
      NotThere(s, PASTE_START, 2);
      NotThere(s, PASTE_END, 2);
    }
  }

  lemma SecondByte(i: nat)
    requires i < |NAMED| - 1
    ensures |NAMED[i].text| >= 2 && NAMED[i].text[1] != '2' && NAMED[i].text[1] != '<'
  {
  }

  lemma NotThere(s: bytes, p: bytes, i: nat)
    requires i < |s| && i < |p| && s[i] != p[i]
    ensures !StartsWith(s, p)
  {
    assert |p| <= |s| ==> s[..|p|][i] == s[i];
  }

  lemma NamedReads(i: nat)
    requires i < |NAMED|
    ensures Reads([ESC] + NAMED[i].text, NAMED[i].key)
  {
    hide FirstNamed, StartsWith;
    forall tail: bytes, mode: bool
      ensures DecodeOne([ESC] + NAMED[i].text + tail, mode) == Event(NAMED[i].key, [ESC] + NAMED[i].text)
    {
      var s := [ESC] + NAMED[i].text + tail;
      StartsHere(s[1..], NAMED[i].text, tail);
      NeitherPasteNorMouse(s, i);
      OnlyOneStarts(s, i, 0);
      HasKey(i);
    }
  }

  lemma HasKey(i: nat)
    requires i < |NAMED|
    ensures NAMED[i].key != ""
  {
  }

  lemma StartsHere(t: bytes, text: bytes, tail: bytes)
    requires t == text + tail
    ensures StartsWith(t, text)
  {
    assert t[..|text|] == text;
  }

  // ---------------------------------------------------------------- sequences with a fixed meaning

  lemma ArrowKeys()
    ensures Reads([ESC] + "[A", "up") && Reads([ESC] + "[B", "down") && Reads([ESC] + "[C", "right") && Reads([ESC] + "[D", "left")
    ensures Reads([ESC] + "[1;2A", "shift-up") && Reads([ESC] + "[1;2B", "shift-down")
    ensures Reads([ESC] + "[1;2C", "shift-right") && Reads([ESC] + "[1;2D", "shift-left")
  {
    hide Reads;
    NamedReads(5); NamedReads(4); NamedReads(7); NamedReads(6);
    NamedReads(1); NamedReads(0); NamedReads(3); NamedReads(2);
  }

  lemma PageKeys()
    ensures Reads([ESC] + "[H", "home") && Reads([ESC] + "[1~", "home") && Reads([ESC] + "[F", "end") && Reads([ESC] + "[4~", "end")
    ensures Reads([ESC] + "[3~", "delete") && Reads([ESC] + "[5~", "pageup") && Reads([ESC] + "[6~", "pagedown")
    ensures Reads([ESC] + "[5;2~", "shift-pageup") && Reads([ESC] + "[6;2~", "shift-pagedown")
    ensures Reads([ESC] + "[I", "focus-in") && Reads([ESC] + "[O", "focus-out") && Reads([ESC] + ":", "alt+:")
  {
    hide Reads;
    NamedReads(8); NamedReads(9); NamedReads(10); NamedReads(11);
    NamedReads(12); NamedReads(13); NamedReads(14); NamedReads(17);
    NamedReads(18); NamedReads(15); NamedReads(16); NamedReads(19);
  }

  /** The escape byte before a digit from 1 to 9, or before g, t or T, is that key with alt. */
  lemma AltKeys(c: byte)
    requires '1' <= c <= '9' || c == 'g' || c == 't' || c == 'T'
    ensures Reads([ESC] + [c], "alt+" + [c])
  {
    hide FirstNamed, StartsWith;
    forall tail: bytes, mode: bool
      ensures DecodeOne([ESC] + [c] + tail, mode) == Event("alt+" + [c], [ESC] + [c])
    {
      var s := [ESC] + [c] + tail;
      NoPaste(s);
      NoMouse(s);
      NamedNone(s, 0);
    }
  }

  lemma PasteMarkers()
    ensures Reads([ESC] + "[200~", "paste-start") && Reads([ESC] + "[201~", "paste-end")
  {
    forall tail: bytes, mode: bool
      ensures DecodeOne(PASTE_START + tail, mode) == Event("paste-start", PASTE_START)
      ensures DecodeOne(PASTE_END + tail, mode) == Event("paste-end", PASTE_END)
    {
      StartsHere(PASTE_START + tail, PASTE_START, tail);
      StartsHere(PASTE_END + tail, PASTE_END, tail);
      NotThere(PASTE_END + tail, PASTE_START, 4);
      assert (PASTE_START + tail)[..6] == PASTE_START && (PASTE_END + tail)[..6] == PASTE_END;
    }
  }

  /** An escape byte alone, or before a byte that goes with it to no key, is the escape key. */
  lemma EscapeKey(mode: bool)
    ensures DecodeOne([ESC], mode) == Event("escape", [ESC])
    ensures forall c: byte, tail: bytes | c !in "[O:gtT" && !('1' <= c <= '9') :: DecodeOne([ESC] + ([c] + tail), mode) == Event("escape", [ESC])
  {
    hide FirstNamed, StartsWith;
    NoPaste([ESC]);
    NoMouse([ESC]);
    NamedNone([ESC], 0);
    forall c: byte, tail: bytes | c !in "[O:gtT" && !('1' <= c <= '9')
      ensures DecodeOne([ESC] + ([c] + tail), mode) == Event("escape", [ESC])
    {
      var s := [ESC] + ([c] + tail);
      NoPaste(s);
      NoMouse(s);
      NamedNone(s, 0);
    }
  }

  // ---------------------------------------------------------------- single bytes

  lemma StartsOtherwise(c: byte, tail: bytes)
    requires c != ESC
    ensures var s := [c] + tail;
      && !StartsWith(s, PASTE_START) && !StartsWith(s, PASTE_END)
      && (StartsWith(s, "\r\n") <==> c == '\r' && tail != [] && tail[0] == '\n')
  {
    var s := [c] + tail;
    NotThere(s, PASTE_START, 0);
    NotThere(s, PASTE_END, 0);
    if StartsWith(s, "\r\n") { assert s[..2][0] == c && s[..2][1] == s[1]; }
    if c == '\r' && tail != [] && tail[0] == '\n' { assert s[..2] == "\r\n"; }
  }

  lemma OneByte(c: byte, tail: bytes, mode: bool)
    requires c as int < 0x80 && c != ESC && !(c == '\r' && tail != [] && tail[0] == '\n')
    ensures DecodeOne([c] + tail, mode) == Event(ByteKey(c, mode), [c])
  {
    hide StartsWith;
    StartsOtherwise(c, tail);
    assert ([c] + tail)[..1] == [c];
    SomeKey(c, mode);
  }

  lemma SomeKey(c: byte, mode: bool)
    ensures ByteKey(c, mode) != ""
  {
  }

  /** The letters of movement and the blank are themselves while a command is typed, and move or mark otherwise. */
  lemma ModeKeys(tail: bytes)
    ensures DecodeOne("j" + tail, false) == Event("down", "j") && DecodeOne("k" + tail, false) == Event("up", "k")
    ensures DecodeOne("h" + tail, false) == Event("left", "h") && DecodeOne("l" + tail, false) == Event("right", "l")
    ensures DecodeOne(" " + tail, false) == Event("space", " ")
    ensures forall c | c in "jkhl " :: DecodeOne([c] + tail, true) == Event("char:" + [c], [c])
  {
    hide DecodeOne;
    OneByte('j', tail, false);
    OneByte('k', tail, false);
    OneByte('h', tail, false);
    OneByte('l', tail, false);
    OneByte(' ', tail, false);
    forall c | c in "jkhl " ensures DecodeOne([c] + tail, true) == Event("char:" + [c], [c]) { OneByte(c, tail, true); }
  }

  lemma SameInBothModes(c: byte, key: string)
    requires c as int < 0x80 && c != ESC && c != '\r' && ByteKey(c, false) == key && ByteKey(c, true) == key
    ensures Reads([c], key)
  {
    hide DecodeOne, ByteKey;
    forall tail: bytes, mode: bool
      ensures DecodeOne([c] + tail, mode) == Event(key, [c])
    {
      OneByte(c, tail, mode);
    }
  }

  /** Every other printing character is itself in either mode. */
  lemma PrintingKeys(c: byte)
    requires 0x20 <= c as int < 0x7f && c !in "jkhl "
    ensures Reads([c], "char:" + [c])
  {
    hide Reads;
    SameInBothModes(c, "char:" + [c]);
  }

  lemma ControlKeys()
    ensures Reads("\t", "tab") && Reads("\n", "enter") && Reads([0x7f as byte], "backspace") && Reads([0x8 as byte], "backspace")
    ensures Reads([0x10 as byte], "ctrl+p") && Reads([0x3 as byte], "quit") && Reads([0x1d as byte], "ctrl+]")
  {
    hide Reads;
    SameInBothModes('\t', "tab");
    SameInBothModes('\n', "enter");
    SameInBothModes(0x7f as byte, "backspace");
    SameInBothModes(0x8 as byte, "backspace");
    SameInBothModes(0x10 as byte, "ctrl+p");
    SameInBothModes(0x3 as byte, "quit");
    SameInBothModes(0x1d as byte, "ctrl+]");
  }

  /** Every other control byte but the escape is named by its number. */
  lemma OtherControls(c: byte)
    requires (c as int) < 0x20 && c !in [ESC, '\t', '\n', '\r', 0x3 as byte, 0x8 as byte, 0x10 as byte, 0x1d as byte]
    ensures Reads([c], "control:" + Itoa(c as int))
  {
    hide Reads, Itoa;
    SameInBothModes(c, "control:" + Itoa(c as int));
  }

  /** A carriage return is the enter key and takes a line feed with it. */
  lemma ReturnKey(tail: bytes, mode: bool)
    ensures DecodeOne("\r" + tail, mode) == Event("enter", if tail != [] && tail[0] == '\n' then "\r\n" else "\r")
  {
    StartsOtherwise('\r', tail);
    var s := "\r" + tail;
    if tail != [] && tail[0] == '\n' { assert s[..2] == "\r\n"; } else { OneByte('\r', tail, mode); }
  }

  // ---------------------------------------------------------------- characters of more bytes

  /** UTF-8 (RFC 3629, section 3). */
  function Utf8(cp: nat): (s: bytes)
    requires cp <= 0x10_ffff
    ensures 1 <= |s| <= 4
  {
    if cp < 0x80 then [cp as char]
    else if cp < 0x800 then [(0xc0 + cp / 64) as char, (0x80 + cp % 64) as char]
    else if cp < 0x1_0000 then [(0xe0 + cp / 4096) as char, (0x80 + cp / 64 % 64) as char, (0x80 + cp % 64) as char]
    else [(0xf0 + cp / 262144) as char, (0x80 + cp / 4096 % 64) as char, (0x80 + cp / 64 % 64) as char, (0x80 + cp % 64) as char]
  }

  predicate Scalar(cp: nat) {
    cp < 0xd800 || 0xe000 <= cp <= 0x10_ffff
  }

  lemma RuneOf(cp: nat, tail: bytes)
    requires Scalar(cp)
    ensures FullRune(Utf8(cp) + tail) && RuneSize(Utf8(cp) + tail) == |Utf8(cp)| && (cp >= 0x80 ==> |Utf8(cp)| > 1 && Utf8(cp)[0] as int >= 0x80)
  {
    var s := Utf8(cp) + tail;
    assert forall i | 0 <= i < |Utf8(cp)| :: s[i] == Utf8(cp)[i];
  }

  /** A character beyond ASCII is its own key, from all its bytes. */
  lemma CharacterKeys(cp: nat)
    requires Scalar(cp) && cp >= 0x80
    ensures Reads(Utf8(cp), "char:" + Utf8(cp))
  {
    hide StartsWith, RuneSize, FullRune, Utf8;
    forall tail: bytes, mode: bool
      ensures DecodeOne(Utf8(cp) + tail, mode) == Event("char:" + Utf8(cp), Utf8(cp))
    {
      RuneOf(cp, tail);
      var s := Utf8(cp) + tail;
      assert s == [s[0]] + s[1..] && s[0] == Utf8(cp)[0];
      StartsOtherwise(s[0], s[1..]);
      assert s[..|Utf8(cp)|] == Utf8(cp);
    }
  }

  lemma TwoBytes(a: int, b: int)
    requires 2 <= a < 32 && 0 <= b < 64
    ensures var cp := a * 64 + b; Scalar(cp) && Utf8(cp) == [(0xc0 + a) as char, (0x80 + b) as char]
  {
    var cp := a * 64 + b;
    assert cp / 64 == a && cp % 64 == b;
  }

  lemma ThreeBytes(a: int, b: int, c: int)
    requires 0 <= a < 16 && 0 <= b < 64 && 0 <= c < 64 && (a == 0 ==> b >= 32) && (a == 13 ==> b < 32)
    ensures var cp := a * 4096 + b * 64 + c; Scalar(cp) && Utf8(cp) == [(0xe0 + a) as char, (0x80 + b) as char, (0x80 + c) as char]
  {
    var cp := a * 4096 + b * 64 + c;
    assert cp / 4096 == a && cp / 64 == a * 64 + b && (a * 64 + b) % 64 == b && cp % 64 == c;
  }

  lemma FourBytes(a: int, b: int, c: int, d: int)
    requires 0 <= a < 5 && 0 <= b < 64 && 0 <= c < 64 && 0 <= d < 64 && (a == 0 ==> b >= 16) && (a == 4 ==> b < 16)
    ensures var cp := a * 262144 + b * 4096 + c * 64 + d;
      Scalar(cp) && Utf8(cp) == [(0xf0 + a) as char, (0x80 + b) as char, (0x80 + c) as char, (0x80 + d) as char]
  {
    var cp := a * 262144 + b * 4096 + c * 64 + d;
    assert cp / 262144 == a && cp / 4096 == a * 64 + b && (a * 64 + b) % 64 == b;
    assert cp / 64 == (a * 64 + b) * 64 + c && ((a * 64 + b) * 64 + c) % 64 == c && cp % 64 == d;
  }

  lemma RuneIsCharacter(s: bytes) returns (cp: nat)
    requires s != [] && RuneSize(s) > 1
    ensures Scalar(cp) && Utf8(cp) == s[..RuneSize(s)]
  {
    hide Utf8;
    var n := RuneSize(s);
    var b := s[1] as int - 0x80;
    if n == 2 {
      var a := s[0] as int - 0xc0;
      cp := a * 64 + b;
      TwoBytes(a, b);
      assert s[..2] == [s[0], s[1]];
    } else if n == 3 {
      var a := s[0] as int - 0xe0;
      var c := s[2] as int - 0x80;
      cp := a * 4096 + b * 64 + c;
      ThreeBytes(a, b, c);
      assert s[..3] == [s[0], s[1], s[2]];
    } else {
      var a := s[0] as int - 0xf0;
      var c, d := s[2] as int - 0x80, s[3] as int - 0x80;
      cp := a * 262144 + b * 4096 + c * 64 + d;
      FourBytes(a, b, c, d);
      assert s[..4] == [s[0], s[1], s[2], s[3]];
    }
  }

  /** A byte beyond ASCII that starts no character is passed on raw, alone. */
  lemma StrayByte(s: bytes, mode: bool)
    requires s != [] && s[0] as int >= 0x80 && forall cp: nat | Scalar(cp) :: !StartsWith(s, Utf8(cp))
    ensures DecodeOne(s, mode) == Event("raw", s[..1])
  {
    hide StartsWith, RuneSize, Utf8;
    assert s == [s[0]] + s[1..];
    StartsOtherwise(s[0], s[1..]);
    if RuneSize(s) > 1 {
      var cp := RuneIsCharacter(s);
      StartsHere(s, Utf8(cp), s[RuneSize(s)..]);
    }
  }

  // ---------------------------------------------------------------- sequences without a meaning

  /** The control sequences above, without their escape byte. */
  const KNOWN: set<bytes> :=
    { "[A", "[B", "[C", "[D", "[1;2A", "[1;2B", "[1;2C", "[1;2D", "[H", "[1~", "[F", "[4~", "[3~", "[5~", "[6~", "[5;2~", "[6;2~",
      "[I", "[O", "[200~", "[201~" }

  lemma NamedIsKnown(i: nat)
    requires i < |NAMED|
    ensures NAMED[i].text == ":" || NAMED[i].text in KNOWN
  {
  }

  predicate IsFinal(c: byte) {
    0x40 <= c as int <= 0x7e
  }

  /** Any other control sequence that is no mouse report is passed on raw, up to its final byte. */
  lemma UnknownSequence(params: bytes, last: byte)
    requires IsFinal(last) && (forall i | 0 <= i < |params| :: !IsFinal(params[i])) && (params == [] || params[0] != '<')
    requires "[" + params + [last] !in KNOWN
    ensures Reads([ESC] + ("[" + params + [last]), "raw")
  {
    hide FirstNamed, StartsWith;
    var text := "[" + params + [last];
    forall tail: bytes, mode: bool
      ensures DecodeOne([ESC] + text + tail, mode) == Event("raw", [ESC] + text)
    {
      var s := [ESC] + text + tail;
      assert s[1..] == text + tail && s[0] == ESC && s[1] == '[';
      assert s[2] == (if params == [] then last else params[0]);
      NoMouse(s);
      EndsThere(s, text);
      OnlyItself(s, text, PASTE_START[1..]);
      OnlyItself(s, text, PASTE_END[1..]);
      FixedText(s, PASTE_START);
      FixedText(s, PASTE_END);
      NoneFixed(s, text, 0);
      assert s[..|text| + 1] == [ESC] + text;
    }
  }

  lemma EndsThere(s: bytes, text: bytes)
    requires |text| >= 2 && s != [] && StartsHereAfterFirst(s, text) && IsFinal(text[|text| - 1]) && forall j | 1 <= j < |text| - 1 :: !IsFinal(text[j])
    ensures |s| > |text| && FinalByte(s, 2) == |text|
  {
    assert forall j | 0 <= j < |text| :: s[j + 1] == s[1..][j] == text[j];
    assert s[|text|] == text[|text| - 1];
  }

  predicate StartsHereAfterFirst(s: bytes, text: bytes) {
    s != [] && |s| > |text| && s[1..][..|text|] == text
  }

  lemma FixedText(s: bytes, p: bytes)
    requires s != [] && p != []
    ensures StartsWith(s, p) ==> StartsWith(s[1..], p[1..])
  {
    if StartsWith(s, p) { assert s[1..][..|p| - 1] == s[..|p|][1..]; }
  }

  /** Of two sequences that each end in their only final byte, none starts the other. */
  lemma OnlyItself(s: bytes, text: bytes, other: bytes)
    requires |s| > |text| >= 2 && FinalByte(s, 2) == |text| && StartsHereAfterFirst(s, text)
    requires |other| >= 2 && IsFinal(other[|other| - 1]) && (forall j | 1 <= j < |other| - 1 :: !IsFinal(other[j])) && other != text
    ensures !StartsWith(s[1..], other)
  {
    hide FinalByte;
    if StartsWith(s[1..], other) {
      assert StartsHereAfterFirst(s, other);
      EndsThere(s, other);
    }
  }

  lemma {:induction false} NoneFixed(s: bytes, text: bytes, from: nat)
    requires from <= |NAMED| && |s| > |text| >= 2 && FinalByte(s, 2) == |text| && StartsHereAfterFirst(s, text) && text !in KNOWN && s[1] == '['
    ensures FirstNamed(s, from) == None
    decreases |NAMED| - from
  {
    hide StartsHereAfterFirst, StartsWith;
    if from < |NAMED| {
      NamedIsKnown(from);
      NamedShapes(from);
      if from < |NAMED| - 1 {
        OnlyItself(s, text, NAMED[from].text);
      } else {
        NotThere(s[1..], ":", 0);
      }
      NoneFixed(s, text, from + 1);
    }
  }

  // ---------------------------------------------------------------- what is held back

  lemma RuneCompletes(p: bytes) returns (more: bytes)
    requires p != [] && !FullRune(p)
    ensures FullRune(p + more) && RuneSize(p + more) > |p| && p[0] as int >= 0x80
  {
    var x := LeadOf(p[0]);
    var low: byte := x.lo as char;
    var other: byte := 0x80 as char;
    if |p| == 1 {
      more := if x.size == 2 then [low] else if x.size == 3 then [low, other] else [low, other, other];
    } else if |p| == 2 {
      more := if x.size == 3 then [other] else [other, other];
    } else {
      more := [other];
    }
    assert forall j | 0 <= j < |p| :: (p + more)[j] == p[j];
    assert forall j | 0 <= j < |more| :: (p + more)[|p| + j] == more[j];
  }

  lemma NoPasteThere(s: bytes, at: nat)
    requires at < |s| && at < |PASTE_START| && s[at] == 'A'
    ensures !StartsWith(s, PASTE_START) && !StartsWith(s, PASTE_END) && !StartsWith(PASTE_START, s) && !StartsWith(PASTE_END, s)
  {
    assert forall j | 0 <= j < 6 :: PASTE_START[j] != 'A' && PASTE_END[j] != 'A';
    NotThere(s, PASTE_START, at);
    NotThere(s, PASTE_END, at);
    NotThere(PASTE_START, s, at);
    NotThere(PASTE_END, s, at);
  }

  lemma PasteHasFinalLast(s: bytes)
    requires |s| >= 2 && |s| < |PASTE_START| && (StartsWith(PASTE_START, s) || StartsWith(PASTE_END, s))
    ensures FinalByte(s, 2) == |s|
  {
    assert forall j | 2 <= j < 5 :: !IsFinal(PASTE_START[j]) && !IsFinal(PASTE_END[j]);
    if StartsWith(PASTE_START, s) { assert forall j | 0 <= j < |s| :: s[j] == PASTE_START[..|s|][j]; } else { assert forall j | 0 <= j < |s| :: s[j] == PASTE_END[..|s|][j]; }
  }

  lemma EndsInA(s: bytes)
    requires |s| >= 2 && FinalByte(s, 2) == |s|
    ensures FinalByte(s + "A", 2) == |s|
  {
    assert (s + "A")[|s|] == 'A';
    assert forall j | 0 <= j < |s| :: (s + "A")[j] == s[j];
  }

  lemma SequenceCompletes(s: bytes)
    requires |s| >= 2 && s[0] == ESC && s[1] == '[' && Unit(s, false) == 0
    ensures Unit(s + "A", false) == |s| + 1
  {
    hide FinalByte, StartsWith;
    var t := s + "A";
    assert t[0] == s[0] && t[1] == s[1] && t[|s|] == 'A';
    if |s| < |PASTE_START| {
      if StartsWith(PASTE_START, s) || StartsWith(PASTE_END, s) { PasteHasFinalLast(s); }
      NoPasteThere(t, |s|);
    } else {
      PrefixOfMore(s, "A", PASTE_START);
      PrefixOfMore(s, "A", PASTE_END);
    }
    EndsInA(s);
  }

  lemma EscapeCompletes()
    ensures Unit([ESC] + "[A", false) == 3
  {
    NoPasteThere([ESC] + "[A", 2);
    assert FinalByte([ESC] + "[A", 2) == 2;
  }

  /** Whatever input is held back, there are bytes that complete it: nothing is awaited in vain. */
  lemma AwaitedCanComplete(s: bytes)
    requires s != [] && Unit(s, false) == 0
    ensures exists more: bytes :: Unit(s + more, false) > |s|
  {
    hide FullRune, RuneSize, FinalByte, StartsWith;
    if s[0] != ESC {
      var more := RuneCompletes(s);
      assert s[0] == (s + more)[0];
      assert Unit(s + more, false) > |s|;
    } else if |s| == 1 {
      EscapeCompletes();
      assert s == [ESC];
      assert Unit(s + "[A", false) > |s|;
    } else if s[1] == '[' {
      SequenceCompletes(s);
    } else if s[1] == 'O' {
      OpensNoPaste(s);
      NoPaste(s);
      assert |s| == 2;
      assert (s + "A")[2] == 'A' && (s + "A")[1] == 'O' && (s + "A")[0] == ESC;
      NoPasteThere(s + "A", 2);
      assert Unit(s + "A", false) > |s|;
    } else {
      NoPaste(s);
      OpensNoPaste(s);
      var more := RuneCompletes(s[1..]);
      var t := s + more;
      assert t[0] == ESC && t[1] == s[1] && t[1..] == s[1..] + more;
      NoPaste(t);
      OpensNoPaste(t);
      assert Unit(t, false) > |s|;
    }
  }

  lemma OpensNoPaste(s: bytes)
    requires |s| >= 2 && s[1] != '['
    ensures !StartsWith(PASTE_START, s) && !StartsWith(PASTE_END, s)
  {
    NotThere(PASTE_START, s, 1);
    NotThere(PASTE_END, s, 1);
  }
}
