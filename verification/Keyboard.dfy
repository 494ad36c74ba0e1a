/**
The keyboard interrupt handler with its buffer and flags, echoing to the console.
It is proved to be the line editor. Source: drivers/keyboard.c.
*/
module Keyboard {
  import opened Terminal
  import opened Console
  import opened LineEditor

  class Keyboard {
    const console: Console
    const commandBuffer: array<char>
    var bufferPos: nat
    var shiftPressed: bool
    var capsLockOn: bool

    ghost var lines: seq<string>
    ghost var home: int

    ghost predicate Valid()
      reads this, commandBuffer, console, console.vidmem
    {
      && console.Valid() && commandBuffer != console.vidmem
      && commandBuffer.Length == BUFFER_MAX + 1 && bufferPos <= BUFFER_MAX
      && State().InStep()
    }

    ghost function State(): Editor
      requires bufferPos <= commandBuffer.Length
      reads this, commandBuffer, console
    {
      Editor(commandBuffer[..bufferPos], shiftPressed, capsLockOn, lines, console.term, home)
    }

    /** An empty buffer at a prompt that has just been printed. */
    constructor (screen: Console)
      requires screen.Valid() && screen.term.Cursor() >= 2
      ensures Valid() && fresh(commandBuffer) && console == screen
      ensures State() == Editor("", false, false, [], screen.term, screen.term.pos)
    {
      console := screen;
      commandBuffer := new char[BUFFER_MAX + 1](_ => '\0');
      bufferPos, shiftPressed, capsLockOn := 0, false, false;
      lines, home := [], screen.term.pos;
    }

    /** execute_command, as far as the screen is concerned: it prints and clears. */
    method Execute(output: seq<Output>)
      requires console.Valid()
      modifies console, console.vidmem
      ensures console.Valid() && console.term == Emit(old(console.term), output)
    {
      var i := 0;
      while i < |output|
        invariant 0 <= i <= |output| && console.Valid()
        invariant Emit(old(console.term), output) == Emit(console.term, output[i..])
      {
        assert output[i..][1..] == output[i + 1..];
        match output[i] {
          case Print(text) =>
            console.Kprint(text);
          case Clear =>
            console.ClearScreen();
        }
        i := i + 1;
      }
    }

    method PressEnter(output: seq<Output>)
      requires Valid()
      modifies this, commandBuffer, console, console.vidmem
      ensures Valid() && State() == Submit(old(State()), output)
    {
      hide Puts;
      hide Emit;
      ghost var e := State();
      console.Kprint("\n");
      commandBuffer[bufferPos] := '\0';
      ghost var line := commandBuffer[..bufferPos];
      if bufferPos > 0 {
        Execute(output);
        lines := lines + [line];
      }
      console.Kprint(PROMPT);
      bufferPos := 0;
      home := console.term.pos;
      KeyInStep(e, ENTER_KEY, output);
    }

    method PressBackspace()
      requires Valid()
      modifies this, commandBuffer, console, console.vidmem
      ensures Valid() && State() == RubOut(old(State()))
    {
      if bufferPos > 0 {
        ghost var e := State();
        bufferPos := bufferPos - 1;
        commandBuffer[bufferPos] := '\0';
        console.KprintBackspace();
        KeyInStep(e, BACKSPACE_KEY, []);
      }
    }

    method PressCharacter(code: nat)
      requires Valid() && AsciiChar(code) != '\0'
      modifies this, commandBuffer, console, console.vidmem
      ensures console.Valid() && bufferPos <= BUFFER_MAX
      ensures State() == Type(old(State()), Modified(AsciiChar(code), old(shiftPressed), old(capsLockOn)))
    {
      var letter := AsciiChar(code);
      if 'a' <= letter <= 'z' {
        if capsLockOn != shiftPressed {
          letter := (letter as int - 32) as char;
        }
      } else if shiftPressed {
        letter := ShiftedChar(letter);
      }
      console.Kprint([letter]);
      if bufferPos < BUFFER_MAX {
        commandBuffer[bufferPos] := letter;
        bufferPos := bufferPos + 1;
      }
    }

    /** keyboard_handler: nothing unless the status byte says there is a scancode. */
    method KeyboardHandler(status: bv8, scancode: nat, output: seq<Output>)
      requires Valid() && scancode < 0x100
      modifies this, commandBuffer, console, console.vidmem
      ensures Valid()
      ensures State() == if status & 0x01 != 0 then Key(old(State()), scancode, output) else old(State())
    {
      if status & 0x01 != 0 {
        KeyInStep(State(), scancode, output);
        if scancode >= 0x80 {
          var released := scancode - 0x80;
          if released == LEFT_SHIFT || released == RIGHT_SHIFT {
            shiftPressed := false;
          }
        } else if scancode == LEFT_SHIFT || scancode == RIGHT_SHIFT {
          shiftPressed := true;
        } else if scancode == CAPS_LOCK {
          capsLockOn := !capsLockOn;
        } else if scancode == ENTER_KEY {
          PressEnter(output);
        } else if scancode == BACKSPACE_KEY {
          PressBackspace();
        } else if AsciiChar(scancode) != '\0' {
          PressCharacter(scancode);
        }
      }
    }
  }

  /** The kernel's start, on any video memory: a cleared screen, the banner, the prompt and the keyboard. */
  method StartShell(video: array<char>, high: nat, low: nat, banner: string) returns (keyboard: Keyboard)
    requires video.Length == SCREEN_BYTES
    modifies video
    ensures fresh(keyboard) && fresh(keyboard.console) && keyboard.console.vidmem == video
    ensures keyboard.Valid() && keyboard.State() == Start(Puts(Cleared(), banner))
    ensures AtPrompt(keyboard.State()) && Tracks(keyboard.State()) && Echoes(keyboard.State())
  {
    var console := new Console(video, high, low);
    console.ClearScreen();
    console.Kprint(banner);
    PutsFresh(Cleared(), banner);
    StartAgrees(console.term);
    console.Kprint(PROMPT);
    keyboard := new Keyboard(console);
  }
}
