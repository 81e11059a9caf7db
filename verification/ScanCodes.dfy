/** The scan-code machine: which character a key press types, given the presses and releases before it. */
module ScanCodes {
  import opened Words
  import opened Memory
  import KeyQueue

  /** A scan code; the table lookup `keys[key_code - 1]` demands that it is not 0. */
  type Code = c: nat | 0 < c < 256 witness 1

  /** The table `keys`. */
  function Keys(i: nat): Byte {
    match i
    case 0 => 27 case 1 => 49 case 2 => 50 case 3 => 51 case 4 => 52 case 5 => 53 case 6 => 54
    case 7 => 55 case 8 => 56 case 9 => 57 case 10 => 48 case 11 => 45 case 12 => 61 case 13 => 8
    case 14 => 9 case 15 => 113 case 16 => 119 case 17 => 101 case 18 => 114 case 19 => 116 case 20 => 121
    case 21 => 117 case 22 => 105 case 23 => 111 case 24 => 112 case 25 => 91 case 26 => 93 case 27 => 10
    case 28 => 128 case 29 => 97 case 30 => 115 case 31 => 100 case 32 => 102 case 33 => 103 case 34 => 104
    case 35 => 106 case 36 => 107 case 37 => 108 case 38 => 59 case 39 => 39 case 40 => 96 case 41 => 129
    case 42 => 92 case 43 => 122 case 44 => 120 case 45 => 99 case 46 => 118 case 47 => 98 case 48 => 110
    case 49 => 109 case 50 => 44 case 51 => 46 case 52 => 47 case 53 => 130 case 54 => 42 case 55 => 131
    case 56 => 32 case 57 => 132 case 58 => 133 case 59 => 134 case 60 => 135 case 61 => 136 case 62 => 137
    case 63 => 138 case 64 => 139 case 65 => 140 case 66 => 141 case 67 => 142 case 68 => 143 case 69 => 144
    case 70 => 55 case 71 => 56 case 72 => 57 case 73 => 45 case 74 => 52 case 75 => 53 case 76 => 54
    case 77 => 43 case 78 => 49 case 79 => 50 case 80 => 51 case 81 => 48 case 82 => 46 case 83 => 147
    case 84 => 147 case 85 => 147 case 86 => 145 case 87 => 146
    case _ => 0
  }

  /** The table `alternate_keys`. */
  function AlternateKeys(i: nat): Byte {
    match i
    case 0 => 27 case 1 => 33 case 2 => 64 case 3 => 35 case 4 => 36 case 5 => 37 case 6 => 94
    case 7 => 38 case 8 => 42 case 9 => 40 case 10 => 41 case 11 => 95 case 12 => 43 case 13 => 8
    case 14 => 9 case 15 => 113 case 16 => 119 case 17 => 101 case 18 => 114 case 19 => 116 case 20 => 121
    case 21 => 117 case 22 => 105 case 23 => 111 case 24 => 112 case 25 => 123 case 26 => 125 case 27 => 10
    case 28 => 128 case 29 => 97 case 30 => 115 case 31 => 100 case 32 => 102 case 33 => 103 case 34 => 104
    case 35 => 106 case 36 => 107 case 37 => 108 case 38 => 58 case 39 => 34 case 40 => 126 case 41 => 129
    case 42 => 124 case 43 => 122 case 44 => 120 case 45 => 99 case 46 => 118 case 47 => 98 case 48 => 110
    case 49 => 109 case 50 => 60 case 51 => 62 case 52 => 63 case 53 => 130 case 54 => 42 case 55 => 131
    case 56 => 32 case 57 => 132 case 58 => 133 case 59 => 134 case 60 => 135 case 61 => 136 case 62 => 137
    case 63 => 138 case 64 => 139 case 65 => 140 case 66 => 141 case 67 => 142 case 68 => 143 case 69 => 144
    case 70 => 55 case 71 => 56 case 72 => 57 case 73 => 45 case 74 => 52 case 75 => 53 case 76 => 54
    case 77 => 43 case 78 => 49 case 79 => 50 case 80 => 51 case 81 => 48 case 82 => 46 case 83 => 147
    case 84 => 147 case 85 => 147 case 86 => 145 case 87 => 146
    case _ => 0
  }

  predicate IsUpper(c: Byte) { 65 <= c <= 90 }

  predicate IsLower(c: Byte) { 97 <= c <= 122 }

  predicate IsAlpha(c: Byte) { IsUpper(c) || IsLower(c) }

  function ToUpper(c: Byte): Byte { if IsLower(c) then c - 32 else c }

  datatype Modifiers = Modifiers(
    leftShift: bool,
    rightShift: bool,
    numLock: bool,
    scrollLock: bool,
    capsLock: bool,
    leftAlt: bool,
    leftControl: bool
  )

  const RELEASED: Modifiers := Modifiers(false, false, false, false, false, false, false)

  /** The switch over a modifier key. */
  function Modify(m: Modifiers, key: Byte): Modifiers {
    match key
    case 128 => m.(leftControl := true)
    case 129 => m.(leftShift := true)
    case 130 => m.(rightShift := true)
    case 131 => m.(leftAlt := true)
    case 132 => m.(capsLock := !m.capsLock)
    case 143 => m.(numLock := !m.numLock)
    case 144 => m.(scrollLock := !m.scrollLock)
    case _ => m
  }

  /** The character that a key which is not a modifier adds to the queue. */
  function Typed(m: Modifiers, code: Code): Byte {
    var key := Keys(code - 1);
    if m.capsLock && !m.leftShift && !m.rightShift then
      if IsAlpha(key) then ToUpper(key) else key
    else if m.leftShift || m.rightShift then
      if m.capsLock then key
      else if IsAlpha(key) then ToUpper(key)
      else AlternateKeys(code - 1)
    else key
  }

  /** `handle_press`: the modifiers afterwards, and the character handed to `add_to_buffer`, if any. */
  function HandlePress(m: Modifiers, code: Code): (Modifiers, Option<Byte>) {
    if code == 0xAA then (m.(leftShift := false), None)
    else if code == 0xB6 then (m.(rightShift := false), None)
    else if code > 0x58 then (m, None)
    else
      var key := Keys(code - 1);
      if 128 <= key <= 146 then (Modify(m, key), None)
      else if key == 147 then (m, None)
      else (m, Some(Typed(m, code)))
  }

  /** Modifiers and characters typed, after a history of scan codes. */
  function Run(history: seq<Code>): (Modifiers, seq<Byte>) {
    if history == [] then (RELEASED, [])
    else
      var (m, text) := Run(history[..|history| - 1]);
      var (m', c) := HandlePress(m, history[|history| - 1]);
      (m', if c.Some? then text + [c.value] else text)
  }

  // ---- the layout ----

  /** What is printed on a key: what it types, and what it types with shift. */
  datatype KeyCap = KeyCap(first: char, second: char)

  /** The scan codes of a row of keys. */
  predicate InRow(code: Code, start: Code, row: string) { start <= code < start + |row| }

  /** The keyboard, key by key from left to right. A key that is not here types nothing. */
  function Layout(code: Code): Option<KeyCap> {
    if code == 1 then Some(KeyCap(27 as char, 27 as char))
    else if InRow(code, 2, "1234567890-=") then Some(KeyCap("1234567890-="[code - 2], "!@#$%^&*()_+"[code - 2]))
    else if code == 14 then Some(KeyCap(8 as char, 8 as char))
    else if code == 15 then Some(KeyCap('\t', '\t'))
    else if InRow(code, 16, "qwertyuiop[]") then Some(KeyCap("qwertyuiop[]"[code - 16], "QWERTYUIOP{}"[code - 16]))
    else if code == 28 then Some(KeyCap('\n', '\n'))
    else if InRow(code, 30, "asdfghjkl;'`") then Some(KeyCap("asdfghjkl;'`"[code - 30], "ASDFGHJKL:\"~"[code - 30]))
    else if InRow(code, 43, "\\zxcvbnm,./") then Some(KeyCap("\\zxcvbnm,./"[code - 43], "|ZXCVBNM<>?"[code - 43]))
    else if code == 55 then Some(KeyCap('*', '*'))
    else if code == 57 then Some(KeyCap(' ', ' '))
    else if InRow(code, 71, "789-456+1230.") then Some(KeyCap("789-456+1230."[code - 71], "789-456+1230."[code - 71]))
    else None
  }

  // ---- what the tables hold ----

  /** Which scan code is which modifier, and what the character keys type. */
  lemma TableRows(i: nat)
    requires i < 88
    ensures 0 < Keys(i) <= 147
    ensures Keys(i) == 128 <==> i == 0x1C
    ensures Keys(i) == 129 <==> i == 0x29
    ensures Keys(i) == 130 <==> i == 0x35
    ensures Keys(i) == 131 <==> i == 0x37
    ensures Keys(i) == 132 <==> i == 0x39
    ensures Keys(i) == 143 <==> i == 0x44
    ensures Keys(i) == 144 <==> i == 0x45
    ensures Keys(i) < 128 ==> !IsUpper(Keys(i)) && 0 < AlternateKeys(i) < 128
    ensures IsAlpha(Keys(i)) || Keys(i) >= 128 ==> AlternateKeys(i) == Keys(i)
  {
  }

  /** The four rows of the main block and the keypad, as the tables have them. */
  lemma TopRow(i: nat)
    requires i < 12
    ensures Keys(1 + i) as char == "1234567890-="[i] && Shifted(1 + i) == "!@#$%^&*()_+"[i]
  {
  }

  lemma UpperRow(i: nat)
    requires i < 12
    ensures Keys(15 + i) as char == "qwertyuiop[]"[i] && Shifted(15 + i) == "QWERTYUIOP{}"[i]
  {
  }

  lemma HomeRow(i: nat)
    requires i < 12
    ensures Keys(29 + i) as char == "asdfghjkl;'`"[i] && Shifted(29 + i) == "ASDFGHJKL:\"~"[i]
  {
  }

  lemma LowerRow(i: nat)
    requires i < 11
    ensures Keys(42 + i) as char == "\\zxcvbnm,./"[i] && Shifted(42 + i) == "|ZXCVBNM<>?"[i]
  {
  }

  lemma Keypad(i: nat)
    requires i < 13
    ensures Keys(70 + i) as char == "789-456+1230."[i] && Shifted(70 + i) == "789-456+1230."[i]
  {
  }

  /** Escape, backspace, tab, enter, the keypad's asterisk, and space. */
  lemma SingleKeys()
    ensures Keys(0) == 27 && Keys(13) == 8 && Keys(14) == 9 && Keys(27) == 10 && Keys(54) == 42 && Keys(56) == 32
    ensures Shifted(0) as nat == 27 && Shifted(13) as nat == 8 && Shifted(14) as nat == 9
    ensures Shifted(27) as nat == 10 && Shifted(54) as nat == 42 && Shifted(56) as nat == 32
  {
  }

  /** The keys that type nothing. */
  lemma OtherKeys(i: nat)
    requires i == 28 || i == 41 || i == 53 || i == 55 || 57 <= i < 70 || 83 <= i < 88
    ensures Keys(i) >= 128
  {
  }

  /** What shift alone makes of a key. */
  function Shifted(i: nat): char {
    (if IsAlpha(Keys(i)) then ToUpper(Keys(i)) else AlternateKeys(i)) as char
  }

  // ---- what a history means ----

  /** The last make or break of a key was a make. */
  ghost predicate Held(history: seq<Code>, make: Code, release: Code) {
    exists i :: 0 <= i < |history| && history[i] == make && forall j :: i < j < |history| ==> history[j] != release
  }

  /** The number of makes of a key is odd. */
  ghost predicate Toggled(history: seq<Code>, make: Code) { multiset(history)[make] % 2 == 1 }

  ghost predicate Shift(history: seq<Code>) { Held(history, 0x2A, 0xAA) || Held(history, 0x36, 0xB6) }

  ghost predicate Caps(history: seq<Code>) { Toggled(history, 0x3A) }

  lemma HeldAfter(history: seq<Code>, make: Code, release: Code)
    requires history != [] && make != release
    ensures
      var last, before := history[|history| - 1], history[..|history| - 1];
      Held(history, make, release) <==> last == make || (last != release && Held(before, make, release))
  {
    var last, before := history[|history| - 1], history[..|history| - 1];
    if last != release && Held(before, make, release) {
      var i :| 0 <= i < |before| && before[i] == make && forall j :: i < j < |before| ==> before[j] != release;
      assert history[i] == make;
    }
    if Held(history, make, release) && last != make {
      var i :| 0 <= i < |history| && history[i] == make && forall j :: i < j < |history| ==> history[j] != release;
      assert before[i] == make;
    }
  }

  lemma ToggledAfter(history: seq<Code>, make: Code)
    requires history != []
    ensures
      var last, before := history[|history| - 1], history[..|history| - 1];
      Toggled(history, make) <==> (last == make) != Toggled(before, make)
  {
    assert history == history[..|history| - 1] + [history[|history| - 1]];
  }

  /** The flags are what the history says: shifts are held keys, locks are parities, and alt and control, once
      pressed, are never seen released. */
  ghost predicate Reflects(m: Modifiers, history: seq<Code>) {
    && m.leftShift == Held(history, 0x2A, 0xAA)
    && m.rightShift == Held(history, 0x36, 0xB6)
    && m.capsLock == Toggled(history, 0x3A)
    && m.numLock == Toggled(history, 0x45)
    && m.scrollLock == Toggled(history, 0x46)
    && m.leftAlt == (0x38 in history)
    && m.leftControl == (0x1D in history)
  }

  lemma TableModifies(m: Modifiers, i: nat)
    requires i < 88
    ensures Modify(m, Keys(i)) == Modifiers(
      i == 0x29 || m.leftShift, i == 0x35 || m.rightShift, (i == 0x44) != m.numLock, (i == 0x45) != m.scrollLock,
      (i == 0x39) != m.capsLock, i == 0x37 || m.leftAlt, i == 0x1C || m.leftControl)
  {
    hide Keys;
    TableRows(i);
  }

  lemma PressIsModify(m: Modifiers, code: Code, i: nat)
    requires code == i + 1 <= 0x58
    ensures HandlePress(m, code).0 == Modify(m, Keys(i))
  {
    hide Keys, Typed;
    TableRows(i);
  }

  /** What one scan code does to each flag. */
  lemma PressModifies(m: Modifiers, code: Code)
    ensures HandlePress(m, code).0 == Modifiers(
      code == 0x2A || (code != 0xAA && m.leftShift), code == 0x36 || (code != 0xB6 && m.rightShift),
      (code == 0x45) != m.numLock, (code == 0x46) != m.scrollLock, (code == 0x3A) != m.capsLock,
      code == 0x38 || m.leftAlt, code == 0x1D || m.leftControl)
  {
    if code <= 0x58 {
      hide Keys, Modify, HandlePress;
      PressIsModify(m, code, code - 1);
      TableModifies(m, code - 1);
    } else {
      hide Keys, Modify, Typed;
    }
  }

  lemma ReflectsAfter(m: Modifiers, history: seq<Code>)
    requires history != [] && Reflects(m, history[..|history| - 1])
    ensures Reflects(HandlePress(m, history[|history| - 1]).0, history)
  {
    hide Held, Toggled, HandlePress;
    var code, before := history[|history| - 1], history[..|history| - 1];
    assert history == before + [code];
    HeldAfter(history, 0x2A, 0xAA);
    HeldAfter(history, 0x36, 0xB6);
    ToggledAfter(history, 0x3A);
    ToggledAfter(history, 0x45);
    ToggledAfter(history, 0x46);
    PressModifies(m, code);
  }

  lemma {:induction false} FlagsAreTheHistory(history: seq<Code>)
    ensures Reflects(Run(history).0, history)
  {
    if history != [] {
      FlagsAreTheHistory(history[..|history| - 1]);
      ReflectsAfter(Run(history[..|history| - 1]).0, history);
    }
  }

  /** Is there a letter on the key? */
  predicate IsLetter(cap: KeyCap) { 'a' <= cap.first <= 'z' }

  /** The character a key types: a letter is upper-case exactly when one of shift and caps lock is on, any other
      key gives its second legend exactly when shift is held and caps lock is off. */
  function Legend(shift: bool, caps: bool, cap: KeyCap): char {
    if (if IsLetter(cap) then shift != caps else shift && !caps) then cap.second else cap.first
  }

  /** The code of the character that a scan code types, if it types one. */
  function Types(shift: bool, caps: bool, code: Code): Option<nat> {
    match Layout(code)
    case None => None
    case Some(cap) => Some(Legend(shift, caps, cap) as nat)
  }

  /** The text a history types. */
  ghost function Text(history: seq<Code>): seq<nat> {
    if history == [] then []
    else
      var before, code := history[..|history| - 1], history[|history| - 1];
      match Types(Shift(before), Caps(before), code)
      case None => Text(before)
      case Some(c) => Text(before) + [c]
  }

  /** The table has this key as it is in the layout. */
  predicate AsLaidOut(code: Code)
    requires code <= 0x58
  {
    match Layout(code)
    case None => Keys(code - 1) >= 128
    case Some(cap) => cap.first as nat == Keys(code - 1) < 128 && cap.second == Shifted(code - 1)
  }

  /** The tables are the layout, key by key. */
  lemma TablesAreTheLayout(code: Code)
    requires code <= 0x58
    ensures AsLaidOut(code)
  {
    if code < 30 {
      UpperKeys(code);
    } else {
      LowerKeys(code);
    }
  }

  lemma UpperKeys(code: Code)
    requires code < 30
    ensures AsLaidOut(code)
  {
    hide Keys, Shifted;
    SingleKeys();
    if 2 <= code < 14 {
      TopRow(code - 2);
    } else if 16 <= code < 28 {
      UpperRow(code - 16);
    } else if code == 29 {
      OtherKeys(28);
    }
  }

  lemma LowerKeys(code: Code)
    requires 30 <= code <= 0x58
    ensures AsLaidOut(code)
  {
    hide Keys, Shifted;
    SingleKeys();
    if 30 <= code < 42 {
      HomeRow(code - 30);
    } else if 43 <= code < 54 {
      LowerRow(code - 43);
    } else if 71 <= code < 84 {
      Keypad(code - 71);
    } else if code != 55 && code != 57 {
      OtherKeys(code - 1);
    }
  }

  /** A press types what the layout says, by the flags. */
  lemma TypedIsLegend(m: Modifiers, code: Code)
    ensures HandlePress(m, code).1 == Types(m.leftShift || m.rightShift, m.capsLock, code)
    ensures HandlePress(m, code).1.Some? ==> 0 < HandlePress(m, code).1.value < 128
  {
    hide Keys, AlternateKeys, Modify, Layout;
    if code <= 0x58 {
      TableRows(code - 1);
      TablesAreTheLayout(code);
    } else {
      NothingBeyond(code);
    }
  }

  lemma NothingBeyond(code: Code)
    requires code > 0x58
    ensures Layout(code).None?
  {
  }

  /** Every history types its text. */
  lemma {:induction false} HistoryTypesItsText(history: seq<Code>)
    ensures Run(history).1 == Text(history)
  {
    hide HandlePress, Types, Held, Toggled;
    if history != [] {
      var before, code := history[..|history| - 1], history[|history| - 1];
      HistoryTypesItsText(before);
      FlagsAreTheHistory(before);
      TypedIsLegend(Run(before).0, code);
    }
  }

  /** No NUL and no code from 128 up is ever typed. */
  lemma {:induction false} TextIsAscii(history: seq<Code>)
    ensures forall c :: c in Text(history) ==> 0 < c < 128
  {
    hide Keys, AlternateKeys, Types, Held, Toggled;
    if history != [] {
      var before, code := history[..|history| - 1], history[|history| - 1];
      TextIsAscii(before);
      TypedIsLegend(Modifiers(Shift(before), false, false, false, Caps(before), false, false), code);
    }
  }

  // ---- scan codes and reader together ----

  /** The keyboard interrupt with a scan code, or a step of `kgetc`. */
  datatype Event = Scan(code: Code) | Step

  /** The scan codes among events. */
  function Codes(events: seq<Event>): seq<Code> {
    if events == [] then []
    else
      var before, e := Codes(events[..|events| - 1]), events[|events| - 1];
      if e.Scan? then before + [e.code] else before
  }

  /** Modifiers, and the queue with its history, after any interleaving of interrupts and reader steps. */
  function RunAll(events: seq<Event>): (Modifiers, KeyQueue.Trace) {
    if events == [] then (RELEASED, KeyQueue.START)
    else
      var (m, t) := RunAll(events[..|events| - 1]);
      match events[|events| - 1]
      case Step => (m, KeyQueue.After(t, KeyQueue.Step))
      case Scan(code) =>
        var (m', c) := HandlePress(m, code);
        (m', if c.Some? then KeyQueue.After(t, KeyQueue.Press(c.value)) else t)
  }

  lemma {:induction false} RunAllIsRun(events: seq<Event>)
    ensures
      var (m, t) := RunAll(events);
      && m == Run(Codes(events)).0
      && KeyQueue.TraceOk(t)
      && |t.accepted| + |t.dropped| == |Run(Codes(events)).1|
      && (t.dropped == [] ==> t.accepted == Run(Codes(events)).1)
  {
    hide HandlePress, KeyQueue.TraceOk, KeyQueue.Add, KeyQueue.Tick, KeyQueue.Accepts;
    if events == [] {
      KeyQueue.NoKeyIsLost([]);
      assert KeyQueue.Run(KeyQueue.START, []) == KeyQueue.START;
    } else {
      var before, e := events[..|events| - 1], events[|events| - 1];
      RunAllIsRun(before);
      var (m, t) := RunAll(before);
      if e.Scan? {
        var all, codes := Codes(events), Codes(before);
        assert all[..|all| - 1] == codes;
        var c := HandlePress(m, e.code).1;
        if c.Some? {
          KeyQueue.AfterKeepsOk(t, KeyQueue.Press(c.value));
        }
      } else {
        KeyQueue.AfterKeepsOk(t, KeyQueue.Step);
      }
    }
  }

  /** From key to reader: whatever the interleaving, if no key was dropped then what was read, followed by what is
      in flight and what is queued, is the text of the scan codes. */
  lemma ReaderGetsTheText(events: seq<Event>)
    ensures
      var t := RunAll(events).1;
      && |t.accepted| + |t.dropped| == |Text(Codes(events))|
      && t.accepted == t.delivered + KeyQueue.InFlight(t.queue) + KeyQueue.Contents(t.queue)
      && (t.dropped == [] ==>
            Text(Codes(events)) == t.delivered + KeyQueue.InFlight(t.queue) + KeyQueue.Contents(t.queue))
  {
    RunAllIsRun(events);
    HistoryTypesItsText(Codes(events));
  }
}
