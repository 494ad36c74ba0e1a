/**
The keyboard's line editor as a value: the command buffer, the shift and caps
states, the lines handed to execute_command, and the terminal it echoes to.
Source: keyboard_handler and get_ascii_char of drivers/keyboard.c.
*/
module LineEditor {
  import opened Terminal

  const BACKSPACE_KEY := 0x0E
  const ENTER_KEY := 0x1C
  const LEFT_SHIFT := 0x2A
  const RIGHT_SHIFT := 0x36
  const CAPS_LOCK := 0x3A
  const BUFFER_MAX := 255

  /** The character of a key without modifiers; NUL for a key that has none. */
  function AsciiChar(code: nat): char {
    match code
    case 0x02 => '1' case 0x03 => '2' case 0x04 => '3' case 0x05 => '4'
    case 0x06 => '5' case 0x07 => '6' case 0x08 => '7' case 0x09 => '8'
    case 0x0A => '9' case 0x0B => '0' case 0x0C => '-' case 0x0D => '='
    case 0x10 => 'q' case 0x11 => 'w' case 0x12 => 'e' case 0x13 => 'r'
    case 0x14 => 't' case 0x15 => 'y' case 0x16 => 'u' case 0x17 => 'i'
    case 0x18 => 'o' case 0x19 => 'p' case 0x1A => '[' case 0x1B => ']'
    case 0x2B => '\\' case 0x1E => 'a' case 0x1F => 's' case 0x20 => 'd'
    case 0x21 => 'f' case 0x22 => 'g' case 0x23 => 'h' case 0x24 => 'j'
    case 0x25 => 'k' case 0x26 => 'l' case 0x27 => ';' case 0x28 => '\''
    case 0x29 => '`' case 0x2C => 'z' case 0x2D => 'x' case 0x2E => 'c'
    case 0x2F => 'v' case 0x30 => 'b' case 0x31 => 'n' case 0x32 => 'm'
    case 0x33 => ',' case 0x34 => '.' case 0x35 => '/' case 0x39 => ' '
    case _ => '\0'
  }

  /** What shift makes of a character that is not a letter. */
  function ShiftedChar(c: char): char {
    match c
    case '1' => '!' case '2' => '@' case '3' => '#' case '4' => '$' case '5' => '%' case '6' => '^'
    case '7' => '&' case '8' => '*' case '9' => '(' case '0' => ')' case '-' => '_' case '=' => '+'
    case '[' => '{' case ']' => '}' case '\\' => '|' case ';' => ':' case '\'' => '\"' case ',' => '<'
    case '.' => '>' case '/' => '?' case '`' => '~'
    case _ => c
  }

  function Modified(letter: char, shift: bool, caps: bool): char {
    if 'a' <= letter <= 'z' then
      if caps != shift then (letter as int - 32) as char else letter
    else if shift then ShiftedChar(letter)
    else letter
  }

  /** Keys never type a newline, a backspace or the terminator. */
  lemma TypesText(code: nat, shift: bool, caps: bool)
    requires AsciiChar(code) != '\0'
    ensures var c := Modified(AsciiChar(code), shift, caps); Printable(c) && c != '\0'
  {
  }

  // ---- what an executed command may do to the screen ----

  datatype Output = Print(text: string) | Clear

  function Emit(t: Terminal, ops: seq<Output>): (r: Terminal)
    requires t.Ok()
    ensures r.Ok()
    decreases |ops|
  {
    if ops == [] then t
    else Emit(if ops[0].Print? then Puts(t, ops[0].text) else Cleared(), ops[1..])
  }

  // ---- the editor ----

  /** home is the grid position just after the last prompt. */
  datatype Editor = Editor(buffer: string, shift: bool, caps: bool, lines: seq<string>, term: Terminal, home: int) {
    /** Between keys the cursor is on the screen, at least two cells past the length of the buffer. */
    predicate InStep() {
      term.Ok() && |buffer| <= BUFFER_MAX && term.Cursor() >= |buffer| + 2
    }
  }

  const PROMPT := "> "

  /** Enter: the line is executed unless it is empty, and the prompt is printed again. */
  function Submit(e: Editor, output: seq<Output>): Editor
    requires e.InStep()
  {
    var t := Puts(e.term, "\n");
    var u := Puts(if e.buffer != "" then Emit(t, output) else t, PROMPT);
    e.(buffer := "", term := u, home := u.pos, lines := if e.buffer != "" then e.lines + [e.buffer] else e.lines)
  }

  function RubOut(e: Editor): Editor
    requires e.InStep()
  {
    if e.buffer == "" then e else e.(buffer := e.buffer[..|e.buffer| - 1], term := Erase(e.term))
  }

  /** A character is always echoed, and kept only while there is room. */
  function Type(e: Editor, c: char): Editor
    requires e.InStep()
  {
    e.(buffer := if |e.buffer| < BUFFER_MAX then e.buffer + [c] else e.buffer, term := Puts(e.term, [c]))
  }

  predicate IsShift(code: nat) {
    code == LEFT_SHIFT || code == RIGHT_SHIFT
  }

  /** One scancode; codes from 0x80 on are releases. */
  function Key(e: Editor, code: nat, output: seq<Output>): Editor
    requires e.InStep()
  {
    if code >= 0x80 then
      if IsShift(code - 0x80) then e.(shift := false) else e
    else if IsShift(code) then e.(shift := true)
    else if code == CAPS_LOCK then e.(caps := !e.caps)
    else if code == ENTER_KEY then Submit(e, output)
    else if code == BACKSPACE_KEY then RubOut(e)
    else if AsciiChar(code) == '\0' then e
    else Type(e, Modified(AsciiChar(code), e.shift, e.caps))
  }

  // ---- the cursor stays ahead of the buffer ----

  lemma PromptAhead(t: Terminal)
    requires t.Ok()
    ensures var u := Puts(t, PROMPT); u.Ok() && u.Cursor() >= 2
  {
    var a := Put(t, '>', WHITE_ON_BLACK);
    assert PROMPT[1..] == " " && " "[1..] == "";
    assert Puts(t, PROMPT) == Puts(a, " ") == Put(a, ' ', WHITE_ON_BLACK);
  }

  lemma PutsOne(t: Terminal, c: char)
    requires t.Ok()
    ensures Puts(t, [c]) == Put(t, c, WHITE_ON_BLACK)
  {
    assert [c][1..] == "";
  }

  /** Every key keeps the cursor at least two cells past the buffer's length, so a backspace never leaves the screen. */
  lemma KeyInStep(e: Editor, code: nat, output: seq<Output>)
    requires e.InStep()
    ensures Key(e, code, output).InStep()
  {
    if code < 0x80 && code == ENTER_KEY {
      var t := Puts(e.term, "\n");
      PromptAhead(if e.buffer != "" then Emit(t, output) else t);
    } else if code < 0x80 && AsciiChar(code) != '\0' {
      var c := Modified(AsciiChar(code), e.shift, e.caps);
      TypesText(code, e.shift, e.caps);
      PutsOne(e.term, c);
    }
  }

  datatype Input = Input(code: nat, output: seq<Output>)

  function Run(e: Editor, inputs: seq<Input>): (r: Editor)
    requires e.InStep()
    ensures r.InStep()
    decreases |inputs|
  {
    if inputs == [] then e
    else
      var n := |inputs| - 1;
      var last := Run(e, inputs[..n]);
      KeyInStep(last, inputs[n].code, inputs[n].output);
      Key(last, inputs[n].code, inputs[n].output)
  }

  // ---- what a run means ----

  /** Shift is down when the last shift event is a press. */
  function ShiftDown(inputs: seq<Input>): bool {
    if inputs == [] then false
    else
      var code := inputs[|inputs| - 1].code;
      if IsShift(code) then true
      else if code >= 0x80 && IsShift(code - 0x80) then false
      else ShiftDown(inputs[..|inputs| - 1])
  }

  /** How often caps lock has been pressed. */
  function CapsPresses(inputs: seq<Input>): nat {
    if inputs == [] then 0
    else CapsPresses(inputs[..|inputs| - 1]) + if inputs[|inputs| - 1].code == CAPS_LOCK then 1 else 0
  }

  datatype Event = Char(c: char) | Back | Enter

  /** The event of the last input, if it is one, under the modifiers of those before it. */
  function LastEvent(inputs: seq<Input>): seq<Event>
    requires inputs != []
  {
    var before, code := inputs[..|inputs| - 1], inputs[|inputs| - 1].code;
    if code == ENTER_KEY then [Enter]
    else if code == BACKSPACE_KEY then [Back]
    else if AsciiChar(code) != '\0' then
      [Char(Modified(AsciiChar(code), ShiftDown(before), CapsPresses(before) % 2 == 1))]
    else []
  }

  function Events(inputs: seq<Input>): seq<Event> {
    if inputs == [] then [] else Events(inputs[..|inputs| - 1]) + LastEvent(inputs)
  }

  /** The events split at every Enter; the last part is the line being typed. */
  function Parts(events: seq<Event>): (ps: seq<seq<Event>>)
    ensures |ps| > 0
  {
    if events == [] then [[]]
    else
      var n := |events| - 1;
      var ps := Parts(events[..n]);
      if events[n] == Enter then ps + [[]]
      else ps[..|ps| - 1] + [ps[|ps| - 1] + [events[n]]]
  }

  /** The text a part leaves in the buffer: a backspace drops the last character, one past the 255th is ignored. */
  function TextOf(part: seq<Event>): (s: string)
    ensures |s| <= BUFFER_MAX
  {
    if part == [] then ""
    else
      var s := TextOf(part[..|part| - 1]);
      match part[|part| - 1]
      case Char(c) => if |s| < BUFFER_MAX then s + [c] else s
      case Back => if s == "" then s else s[..|s| - 1]
      case Enter => s
  }

  /** The texts of the parts that are not empty. */
  function NonEmptyTexts(parts: seq<seq<Event>>): seq<string> {
    if parts == [] then []
    else
      var n := |parts| - 1;
      NonEmptyTexts(parts[..n]) + if TextOf(parts[n]) == "" then [] else [TextOf(parts[n])]
  }

  /** The editor at the prompt with nothing typed, no modifier and nothing executed. */
  predicate AtPrompt(e: Editor) {
    e.InStep() && e.buffer == "" && !e.shift && !e.caps && e.lines == []
  }

  lemma PartsStep(events: seq<Event>, more: seq<Event>)
    requires |more| <= 1
    ensures var ps := Parts(events);
            Parts(events + more) ==
              if more == [] then ps
              else if more[0] == Enter then ps + [[]]
              else ps[..|ps| - 1] + [ps[|ps| - 1] + more]
  {
    if more == [] {
      assert events + more == events;
    } else {
      assert (events + more)[..|events|] == events && [more[0]] == more;
    }
  }

  lemma ModifiersTypeNothing(code: nat)
    requires code >= 0x80 || IsShift(code) || code == CAPS_LOCK
    ensures AsciiChar(code) == '\0'
  {
  }

  /** What the editor holds of the line and the lines so far, given the parts of the events. */
  predicate Holds(e: Editor, ps: seq<seq<Event>>)
    requires |ps| > 0
  {
    e.lines == NonEmptyTexts(ps[..|ps| - 1]) && e.buffer == TextOf(ps[|ps| - 1])
  }

  lemma PartClosed(e: Editor, ps: seq<seq<Event>>, output: seq<Output>)
    requires |ps| > 0 && e.InStep() && Holds(e, ps)
    ensures Holds(Submit(e, output), ps + [[]])
  {
    var all := ps + [[]];
    assert all[..|all| - 1] == ps;
  }

  lemma PartExtended(e: Editor, ps: seq<seq<Event>>, ev: Event)
    requires |ps| > 0 && e.InStep() && Holds(e, ps) && ev != Enter
    ensures Holds(if ev == Back then RubOut(e) else Type(e, ev.c), ps[..|ps| - 1] + [ps[|ps| - 1] + [ev]])
  {
    var part := ps[|ps| - 1] + [ev];
    var ps' := ps[..|ps| - 1] + [part];
    assert ps'[..|ps'| - 1] == ps[..|ps| - 1] && part[..|part| - 1] == ps[|ps| - 1];
  }

  /** One key more. */
  lemma KeyMeans(r: Editor, inputs: seq<Input>)
    requires inputs != [] && r.InStep()
    requires var before := inputs[..|inputs| - 1];
             && r.shift == ShiftDown(before) && r.caps == (CapsPresses(before) % 2 == 1)
             && Holds(r, Parts(Events(before)))
    ensures var last := inputs[|inputs| - 1]; var k := Key(r, last.code, last.output);
            && k.shift == ShiftDown(inputs) && k.caps == (CapsPresses(inputs) % 2 == 1)
            && Holds(k, Parts(Events(inputs)))
  {
    hide AsciiChar;
    hide Modified;
    hide Puts;
    hide Parts;
    hide TextOf;
    hide NonEmptyTexts;
    var n := |inputs| - 1;
    var ps := Parts(Events(inputs[..n]));
    var code, events := inputs[n].code, LastEvent(inputs);
    PartsStep(Events(inputs[..n]), events);
    if code >= 0x80 || IsShift(code) || code == CAPS_LOCK {
      ModifiersTypeNothing(code);
    } else if code == ENTER_KEY {
      PartClosed(r, ps, inputs[n].output);
    } else if events != [] {
      PartExtended(r, ps, events[0]);
    }
  }

  /**
  For every sequence of scancodes: shift is the last shift event, caps the parity
  of its presses, the executed lines are the non-empty texts between Enters, and
  the buffer is the text since the last one.
  */
  lemma {:induction false} RunMeans(e: Editor, inputs: seq<Input>)
    requires AtPrompt(e)
    ensures Run(e, inputs).shift == ShiftDown(inputs) && Run(e, inputs).caps == (CapsPresses(inputs) % 2 == 1)
    ensures Holds(Run(e, inputs), Parts(Events(inputs)))
    decreases |inputs|
  {
    if inputs != [] {
      var n := |inputs| - 1;
      RunMeans(e, inputs[..n]);
      KeyMeans(Run(e, inputs[..n]), inputs);
    }
  }

  // ---- the echo agrees with the buffer ----

  /** The grid from the prompt to the cursor spells the buffer. */
  predicate Echoes(e: Editor) {
    && e.term.pos == e.home + |e.buffer|
    && 0 <= e.home
    && e.term.pos <= |e.term.cells|
    && forall k :: 0 <= k < |e.buffer| ==> e.term.cells[e.home + k].ch == e.buffer[k]
  }

  /** More cells than buffered characters after the prompt, or exactly the buffer; blank from the cursor on. */
  predicate Tracks(e: Editor) {
    && e.InStep() && FreshBelow(e.term)
    && (Echoes(e) || (e.home >= 0 && e.term.pos > e.home + |e.buffer|))
  }

  /** A character key while the buffer is full: it is echoed and lost. */
  predicate Overflows(e: Editor, code: nat) {
    |e.buffer| == BUFFER_MAX && code < 0x80 && !IsShift(code) && code != CAPS_LOCK
    && code != ENTER_KEY && code != BACKSPACE_KEY && AsciiChar(code) != '\0'
  }

  lemma {:induction false} EmitFresh(t: Terminal, ops: seq<Output>)
    requires t.Ok() && FreshBelow(t)
    ensures FreshBelow(Emit(t, ops))
    decreases |ops|
  {
    if ops != [] {
      if ops[0].Print? { PutsFresh(t, ops[0].text); }
      EmitFresh(if ops[0].Print? then Puts(t, ops[0].text) else Cleared(), ops[1..]);
    }
  }

  /**
  After Enter the echo agrees; after any other key exactly if it did before and
  nothing was typed past a full buffer.
  */
  lemma KeyEcho(e: Editor, code: nat, output: seq<Output>)
    requires Tracks(e)
    ensures Tracks(Key(e, code, output))
    ensures Echoes(Key(e, code, output)) <==> code == ENTER_KEY || (Echoes(e) && !Overflows(e, code))
  {
    hide AsciiChar;
    hide Modified;
    hide Emit;
    KeyInStep(e, code, output);
    if code == ENTER_KEY {
      var t := Puts(e.term, "\n");
      PutsFresh(e.term, "\n");
      EmitFresh(t, output);
      PutsFresh(if e.buffer != "" then Emit(t, output) else t, PROMPT);
    } else if code == BACKSPACE_KEY {
      if e.buffer != "" { EraseFresh(e.term); }
    } else if code < 0x80 && !IsShift(code) && code != CAPS_LOCK && AsciiChar(code) != '\0' {
      var c := Modified(AsciiChar(code), e.shift, e.caps);
      TypesText(code, e.shift, e.caps);
      PutsOne(e.term, c);
      PutsFresh(e.term, [c]);
      PutsText(e.term, [c]);
    }
  }

  /** The editor the first prompt starts. */
  function Start(t: Terminal): Editor
    requires t.Ok()
  {
    var u := Puts(t, PROMPT);
    Editor("", false, false, [], u, u.pos)
  }

  lemma StartAgrees(t: Terminal)
    requires t.Ok() && FreshBelow(t)
    ensures AtPrompt(Start(t)) && Tracks(Start(t)) && Echoes(Start(t))
  {
    PromptAhead(t);
    PutsFresh(t, PROMPT);
  }

  /** How many characters have been typed past a full buffer since the last Enter. */
  function Overflow(e: Editor, inputs: seq<Input>): nat
    requires e.InStep()
    decreases |inputs|
  {
    if inputs == [] then 0
    else
      var n := |inputs| - 1;
      if inputs[n].code == ENTER_KEY then 0
      else Overflow(e, inputs[..n]) + if Overflows(Run(e, inputs[..n]), inputs[n].code) then 1 else 0
  }

  /** In every run from an agreeing state the echo agrees exactly if nothing overflowed since the last Enter. */
  lemma {:induction false} RunEcho(e: Editor, inputs: seq<Input>)
    requires Tracks(e) && Echoes(e)
    ensures Tracks(Run(e, inputs))
    ensures Echoes(Run(e, inputs)) <==> Overflow(e, inputs) == 0
    decreases |inputs|
  {
    if inputs != [] {
      var n := |inputs| - 1;
      RunEcho(e, inputs[..n]);
      KeyEcho(Run(e, inputs[..n]), inputs[n].code, inputs[n].output);
    }
  }

  /**
  A character key and a backspace always restore the plane of the grid and the
  position in it, and everything else exactly when the buffer had room.
  */
  lemma TypeThenBackspace(e: Editor, code: nat, one: seq<Output>, two: seq<Output>)
    requires e.InStep() && FreshBelow(e.term)
    requires code < 0x80 && !IsShift(code) && code != CAPS_LOCK && code != ENTER_KEY && code != BACKSPACE_KEY
    requires AsciiChar(code) != '\0'
    ensures Key(e, code, one).InStep()
    ensures var r := Key(Key(e, code, one), BACKSPACE_KEY, two);
            SamePlane(r.term, e.term) && (r == e.(term := r.term) <==> |e.buffer| < BUFFER_MAX)
  {
    KeyInStep(e, code, one);
    var c := Modified(AsciiChar(code), e.shift, e.caps);
    TypesText(code, e.shift, e.caps);
    PutsOne(e.term, c);
    PutThenErase(e.term, c);
    assert (e.buffer + [c])[..|e.buffer|] == e.buffer;
  }

  // ---- typing past a full buffer ----

  /** The same key n times, with nothing executed. */
  function Presses(code: nat, n: nat): (inputs: seq<Input>)
    ensures |inputs| == n
  {
    seq(n, _ => Input(code, []))
  }

  lemma {:induction false} PressesFill(e: Editor, code: nat, n: nat)
    requires AtPrompt(e) && code < 0x80 && !IsShift(code) && code != CAPS_LOCK
    requires code != ENTER_KEY && code != BACKSPACE_KEY && AsciiChar(code) != '\0'
    ensures |Run(e, Presses(code, n)).buffer| == if n <= BUFFER_MAX then n else BUFFER_MAX
    ensures Overflow(e, Presses(code, n)) == if n <= BUFFER_MAX then 0 else n - BUFFER_MAX
    decreases n
  {
    hide AsciiChar;
    hide Modified;
    if n > 0 {
      assert Presses(code, n)[..n - 1] == Presses(code, n - 1) && Presses(code, n)[n - 1] == Input(code, []);
      PressesFill(e, code, n - 1);
    }
  }

  /** From an agreeing prompt, the same character key n times: the echo agrees exactly up to 255 presses. */
  lemma PressesEcho(e: Editor, code: nat, n: nat)
    requires AtPrompt(e) && Tracks(e) && Echoes(e) && code < 0x80 && !IsShift(code) && code != CAPS_LOCK
    requires code != ENTER_KEY && code != BACKSPACE_KEY && AsciiChar(code) != '\0'
    ensures Echoes(Run(e, Presses(code, n))) <==> n <= BUFFER_MAX
  {
    PressesFill(e, code, n);
    RunEcho(e, Presses(code, n));
  }

  /** So 256 times the key A at the first prompt break it. */
  lemma StartOverfull(t: Terminal)
    requires t.Ok() && FreshBelow(t)
    ensures !Echoes(Run(Start(t), Presses(0x1E, 256)))
  {
    StartAgrees(t);
    PressesEcho(Start(t), 0x1E, 256);
  }

  // ---- what the keys type ----

  /** A character key that is not handled otherwise types c under these modifiers. */
  predicate Types(code: nat, shift: bool, caps: bool, c: char) {
    && code < 0x80 && !IsShift(code) && code != CAPS_LOCK && code != ENTER_KEY && code != BACKSPACE_KEY
    && AsciiChar(code) != '\0' && Modified(AsciiChar(code), shift, caps) == c
  }

  /** The keys from one scancode on, each pressed once. */
  function Row(from: nat, n: nat): seq<Input> {
    seq(n, k requires 0 <= k < n => Input(from + k, []))
  }

  lemma KeyTypes(e: Editor, code: nat, c: char)
    requires e.InStep() && |e.buffer| < BUFFER_MAX && Types(code, e.shift, e.caps, c)
    ensures var r := Key(e, code, []); r.buffer == e.buffer + [c] && r.shift == e.shift && r.caps == e.caps
  {
    hide AsciiChar;
    hide Modified;
  }

  lemma {:induction false} RowTypes(e: Editor, from: nat, text: string)
    requires e.InStep() && |e.buffer| + |text| <= BUFFER_MAX
    requires forall k :: 0 <= k < |text| ==> Types(from + k, e.shift, e.caps, text[k])
    ensures var r := Run(e, Row(from, |text|));
            r.buffer == e.buffer + text && r.shift == e.shift && r.caps == e.caps
    decreases |text|
  {
    hide Types;
    hide Key;
    if text != "" {
      var n := |text| - 1;
      assert Row(from, n + 1)[..n] == Row(from, n) && Row(from, n + 1)[n] == Input(from + n, []);
      RowTypes(e, from, text[..n]);
      KeyTypes(Run(e, Row(from, n)), from + n, text[n]);
      assert text == text[..n] + [text[n]];
    } else {
      assert Row(from, 0) == [];
    }
  }

  lemma QRow(k: nat, shift: bool, caps: bool)
    requires k < 10
    ensures Types(0x10 + k, shift, caps, (if caps != shift then "QWERTYUIOP" else "qwertyuiop")[k])
  {
  }

  lemma ARow(k: nat, shift: bool, caps: bool)
    requires k < 9
    ensures Types(0x1E + k, shift, caps, (if caps != shift then "ASDFGHJKL" else "asdfghjkl")[k])
  {
  }

  lemma ZRow(k: nat, shift: bool, caps: bool)
    requires k < 7
    ensures Types(0x2C + k, shift, caps, (if caps != shift then "ZXCVBNM" else "zxcvbnm")[k])
  {
  }

  lemma DigitRow(k: nat, shift: bool, caps: bool)
    requires k < 12
    ensures Types(0x02 + k, shift, caps, (if shift then "!@#$%^&*()_+" else "1234567890-=")[k])
  {
  }

  lemma BracketKeys(k: nat, shift: bool, caps: bool)
    requires k < 2
    ensures Types(0x1A + k, shift, caps, (if shift then "{}" else "[]")[k])
  {
  }

  lemma QuoteKeys(k: nat, shift: bool, caps: bool)
    requires k < 3
    ensures Types(0x27 + k, shift, caps, (if shift then ":\"~" else ";'`")[k])
  {
  }

  lemma BackslashKey(k: nat, shift: bool, caps: bool)
    requires k < 1
    ensures Types(0x2B + k, shift, caps, (if shift then "|" else "\\")[k])
  {
  }

  lemma StopKeys(k: nat, shift: bool, caps: bool)
    requires k < 3
    ensures Types(0x33 + k, shift, caps, (if shift then "<>?" else ",./")[k])
  {
  }

  lemma SpaceBar(shift: bool, caps: bool)
    ensures Types(0x39, shift, caps, ' ')
  {
  }

  /** The letter keys type capitals exactly when one of caps lock and shift is on, and not both. */
  lemma LetterRows(e: Editor)
    requires e.InStep() && |e.buffer| <= 245
    ensures Run(e, Row(0x10, 10)).buffer == e.buffer + if e.caps != e.shift then "QWERTYUIOP" else "qwertyuiop"
    ensures Run(e, Row(0x1E, 9)).buffer == e.buffer + if e.caps != e.shift then "ASDFGHJKL" else "asdfghjkl"
    ensures Run(e, Row(0x2C, 7)).buffer == e.buffer + if e.caps != e.shift then "ZXCVBNM" else "zxcvbnm"
  {
    hide Types;
    hide Run;
    hide Row;
    var qRow := if e.caps != e.shift then "QWERTYUIOP" else "qwertyuiop";
    forall k | 0 <= k < 10 ensures Types(0x10 + k, e.shift, e.caps, qRow[k]) {
      QRow(k, e.shift, e.caps);
    }
    RowTypes(e, 0x10, qRow);
    var aRow := if e.caps != e.shift then "ASDFGHJKL" else "asdfghjkl";
    forall k | 0 <= k < 9 ensures Types(0x1E + k, e.shift, e.caps, aRow[k]) {
      ARow(k, e.shift, e.caps);
    }
    RowTypes(e, 0x1E, aRow);
    var zRow := if e.caps != e.shift then "ZXCVBNM" else "zxcvbnm";
    forall k | 0 <= k < 7 ensures Types(0x2C + k, e.shift, e.caps, zRow[k]) {
      ZRow(k, e.shift, e.caps);
    }
    RowTypes(e, 0x2C, zRow);
  }

  /** The other keys follow shift alone. */
  lemma SymbolRows(e: Editor)
    requires e.InStep() && |e.buffer| <= 243
    ensures Run(e, Row(0x02, 12)).buffer == e.buffer + if e.shift then "!@#$%^&*()_+" else "1234567890-="
    ensures Run(e, Row(0x1A, 2)).buffer == e.buffer + if e.shift then "{}" else "[]"
    ensures Run(e, Row(0x27, 3)).buffer == e.buffer + if e.shift then ":\"~" else ";'`"
    ensures Run(e, Row(0x2B, 1)).buffer == e.buffer + if e.shift then "|" else "\\"
    ensures Run(e, Row(0x33, 3)).buffer == e.buffer + if e.shift then "<>?" else ",./"
    ensures Run(e, Row(0x39, 1)).buffer == e.buffer + " "
  {
    hide Types;
    hide Run;
    hide Row;
    var digitRow := if e.shift then "!@#$%^&*()_+" else "1234567890-=";
    forall k | 0 <= k < 12 ensures Types(0x02 + k, e.shift, e.caps, digitRow[k]) {
      DigitRow(k, e.shift, e.caps);
    }
    RowTypes(e, 0x02, digitRow);
    var bracketKeys := if e.shift then "{}" else "[]";
    forall k | 0 <= k < 2 ensures Types(0x1A + k, e.shift, e.caps, bracketKeys[k]) {
      BracketKeys(k, e.shift, e.caps);
    }
    RowTypes(e, 0x1A, bracketKeys);
    var quoteKeys := if e.shift then ":\"~" else ";'`";
    forall k | 0 <= k < 3 ensures Types(0x27 + k, e.shift, e.caps, quoteKeys[k]) {
      QuoteKeys(k, e.shift, e.caps);
    }
    RowTypes(e, 0x27, quoteKeys);
    var backslashKey := if e.shift then "|" else "\\";
    forall k | 0 <= k < 1 ensures Types(0x2B + k, e.shift, e.caps, backslashKey[k]) {
      BackslashKey(k, e.shift, e.caps);
    }
    RowTypes(e, 0x2B, backslashKey);
    var stopKeys := if e.shift then "<>?" else ",./";
    forall k | 0 <= k < 3 ensures Types(0x33 + k, e.shift, e.caps, stopKeys[k]) {
      StopKeys(k, e.shift, e.caps);
    }
    RowTypes(e, 0x33, stopKeys);
    SpaceBar(e.shift, e.caps);
    assert forall k :: 0 <= k < 1 ==> Types(0x39 + k, e.shift, e.caps, " "[k]);
    RowTypes(e, 0x39, " ");
  }

  /** The keys that type, among those that are not handled otherwise. */
  predicate Typing(code: nat) {
    0x02 <= code <= 0x0D || 0x10 <= code <= 0x1B || 0x1E <= code <= 0x29 || 0x2B <= code <= 0x35 || code == 0x39
  }

  lemma TypingKeys(code: nat)
    ensures Typing(code) <==> AsciiChar(code) != '\0'
  {
  }

  /** A pressed key does nothing at all exactly when it is none of these. */
  lemma OtherKeys(e: Editor, code: nat, output: seq<Output>)
    requires e.InStep() && code < 0x80 && !IsShift(code) && code != CAPS_LOCK
    requires code != ENTER_KEY && code != BACKSPACE_KEY
    ensures Key(e, code, output) == e <==> !Typing(code)
  {
    hide AsciiChar;
    hide Modified;
    TypingKeys(code);
    if AsciiChar(code) != '\0' {
      var c := Modified(AsciiChar(code), e.shift, e.caps);
      TypesText(code, e.shift, e.caps);
      PutsOne(e.term, c);
      PutMeans(e.term, c, WHITE_ON_BLACK);
    }
  }

  lemma LettersOnly(code: nat)
    requires 'a' <= AsciiChar(code) <= 'z'
    ensures !IsShift(code) && code != CAPS_LOCK && code != ENTER_KEY && code != BACKSPACE_KEY
  {
  }

  /** One letter key: the letter of the key, a capital exactly when one of caps lock and shift is on, and not both. */
  lemma LetterKey(e: Editor, code: nat, output: seq<Output>)
    requires e.InStep() && |e.buffer| < BUFFER_MAX && code < 0x80 && 'a' <= AsciiChar(code) <= 'z'
    ensures var r := Key(e, code, output);
            && |r.buffer| == |e.buffer| + 1 && r.buffer[..|e.buffer|] == e.buffer
            && var c := r.buffer[|e.buffer|];
               ('A' <= c <= 'Z' <==> e.caps != e.shift)
               && (c == AsciiChar(code) || c as int + 32 == AsciiChar(code) as int)
  {
    LettersOnly(code);
    hide AsciiChar;
  }

  // ---- what Enter shows ----

  /** After Enter and what an executed line prints, the prompt is on the grid and the cursor just after it. */
  lemma EnterPrompts(e: Editor, output: seq<Output>)
    requires e.InStep()
    ensures var t := Puts(e.term, "\n"); var u := if e.buffer == "" then t else Emit(t, output);
            var r := Key(e, ENTER_KEY, output);
            && r.buffer == "" && r.shift == e.shift && r.caps == e.caps
            && r.lines == (if e.buffer == "" then e.lines else e.lines + [e.buffer])
            && r.home == r.term.pos == u.pos + 2
            && r.term.At(u.pos) == Cell('>', WHITE_ON_BLACK) && r.term.At(u.pos + 1) == Cell(' ', WHITE_ON_BLACK)
            && forall p: nat :: p != u.pos && p != u.pos + 1 ==> r.term.At(p) == u.At(p)
  {
    hide Put;
    hide Emit;
    var t := Puts(e.term, "\n");
    PutsText(if e.buffer == "" then t else Emit(t, output), PROMPT);
  }
}
