/** The terminal's line discipline in canonical mode: a line editor in one buffer, and the read of a line. */
module Tty {
  import opened Words

  const BACKSPACE: int := 0x08
  const ENDL: int := 0x0a
  const ESC: int := 0x1b
  const ARROW_UP: int := 0x1b5b41
  const ARROW_DOWN: int := 0x1b5b42
  const ARROW_RIGHT: int := 0x1b5b43
  const ARROW_LEFT: int := 0x1b5b44

  predicate IsArrow(c: int) {
    c == ARROW_LEFT || c == ARROW_RIGHT || c == ARROW_UP || c == ARROW_DOWN
  }

  /** The conversion of an `int` to `char`, which is unsigned on the target. */
  function ToChar(c: int): byte { c % 0x100 }

  // ----- The editor as a value

  /** The text left and right of the cursor, the escape sequence under way, and whether newline was typed. */
  datatype Line = Line(left: seq<byte>, right: seq<byte>, esc: seq<byte>, done: bool)

  const EMPTY: Line := Line([], [], [], false)

  function Moved(k: Line, c: int): Line {
    if c == ARROW_LEFT && k.left != [] then
      k.(left := k.left[..|k.left| - 1], right := [k.left[|k.left| - 1]] + k.right)
    else if c == ARROW_RIGHT && k.right != [] then
      k.(left := k.left + [k.right[0]], right := k.right[1..])
    else k
  }

  function Rubbed(k: Line): Line {
    if k.left == [] then k else k.(left := k.left[..|k.left| - 1])
  }

  function Inserted(k: Line, c: int): Line {
    k.(left := k.left + [ToChar(c)])
  }

  /** The code that three characters of an escape sequence make up. */
  function Joined(a: byte, b: byte, c: byte): int {
    a * 0x1_0000 + b * 0x100 + c
  }

  /** What one key does to the line. */
  function Press(k: Line, c: int): Line {
    if k.esc != [] || c == ESC then
      var code := if |k.esc| == 2 then Joined(k.esc[0], k.esc[1], ToChar(c)) else c;
      var esc := if |k.esc| == 2 then [] else k.esc + [ToChar(c)];
      if IsArrow(code) then Moved(k.(esc := esc), code) else k.(esc := esc)
    else if c == BACKSPACE then Rubbed(k)
    else if c == ENDL then k.(done := true)
    else if 0 <= c < 32 then k
    else Inserted(k, c)
  }

  /** The arrows keep the text and undo each other inside it. */
  lemma ArrowLaws(k: Line)
    ensures Moved(k, ARROW_LEFT).left + Moved(k, ARROW_LEFT).right == k.left + k.right
    ensures Moved(k, ARROW_RIGHT).left + Moved(k, ARROW_RIGHT).right == k.left + k.right
    ensures k.left != [] ==>
              Moved(Moved(k, ARROW_LEFT), ARROW_RIGHT) == k && |Moved(k, ARROW_LEFT).left| == |k.left| - 1
    ensures k.right != [] ==>
              Moved(Moved(k, ARROW_RIGHT), ARROW_LEFT) == k && |Moved(k, ARROW_RIGHT).left| == |k.left| + 1
  {
    if k.left != [] { LeftThenRight(k); }
    if k.right != [] { RightThenLeft(k); }
  }

  lemma LeftThenRight(k: Line)
    requires k.left != []
    ensures Moved(Moved(k, ARROW_LEFT), ARROW_RIGHT) == k
    ensures Moved(k, ARROW_LEFT).left + Moved(k, ARROW_LEFT).right == k.left + k.right
  {
    assert k.left == k.left[..|k.left| - 1] + [k.left[|k.left| - 1]];
    assert Moved(k, ARROW_LEFT).right[1..] == k.right;
  }

  lemma RightThenLeft(k: Line)
    requires k.right != []
    ensures Moved(Moved(k, ARROW_RIGHT), ARROW_LEFT) == k
    ensures Moved(k, ARROW_RIGHT).left + Moved(k, ARROW_RIGHT).right == k.left + k.right
  {
    assert k.right == [k.right[0]] + k.right[1..];
    assert Moved(k, ARROW_RIGHT).left[..|k.left|] == k.left;
  }

  /** A character goes in at the cursor, and backspace takes it back. */
  lemma TypingLaws(k: Line, c: int)
    ensures Inserted(k, c).left + Inserted(k, c).right == k.left + [ToChar(c)] + k.right
    ensures Rubbed(Inserted(k, c)) == k
  {
    assert Inserted(k, c).left[..|k.left|] == k.left;
  }

  function Typed(keys: seq<int>): Line {
    if keys == [] then EMPTY else Press(Typed(keys[..|keys| - 1]), keys[|keys| - 1])
  }

  // ----- The same in terms of commands

  /** An escape sequence of three keys is one command; any other key is one. */
  datatype Command = Key(c: byte) | Sequence(second: byte, third: byte)

  /** The commands that complete key presses make up, and the keys of a sequence still under way. */
  datatype Commands = Commands(all: seq<Command>, partial: seq<byte>)

  function Parse(keys: seq<byte>): Commands {
    if keys == [] then Commands([], [])
    else if keys[0] == ESC then
      if |keys| < 3 then Commands([], keys)
      else
        var rest := Parse(keys[3..]);
        Commands([Sequence(keys[1], keys[2])] + rest.all, rest.partial)
    else
      var rest := Parse(keys[1..]);
      Commands([Key(keys[0])] + rest.all, rest.partial)
  }

  /** What a command means: only `ESC [ C` and `ESC [ D` move the cursor. */
  function Obey(k: Line, command: Command): Line {
    match command
    case Key(c) =>
      if c == BACKSPACE then Rubbed(k)
      else if c == ENDL then k.(done := true)
      else if c < 32 then k
      else Inserted(k, c)
    case Sequence(second, third) =>
      if second == '[' as int && third == 'D' as int then Moved(k, ARROW_LEFT)
      else if second == '[' as int && third == 'C' as int then Moved(k, ARROW_RIGHT)
      else k
  }

  /** What each command does to the text and the place of the cursor in it, in the codes of the keyboard: 8 is
      backspace, 10 ends the line, ESC [ D and ESC [ C are the arrows to the left and to the right. */
  lemma ObeyEdits(k: Line, command: Command)
    ensures var r, text, at := Obey(k, command), k.left + k.right, |k.left|;
            && r.esc == k.esc && r.done == (k.done || command == Key(10))
            && match command
               case Key(c) =>
                 if c == 8 then
                   if at == 0 then r == k
                   else r.left + r.right == text[..at - 1] + text[at..] && |r.left| == at - 1
                 else if c < 32 then r.left == k.left && r.right == k.right
                 else r.left + r.right == text[..at] + [c] + text[at..] && |r.left| == at + 1
               case Sequence(second, third) =>
                 && r.left + r.right == text
                 && |r.left| == if second == '[' as int && third == 'D' as int then if at == 0 then 0 else at - 1
                                else if second == '[' as int && third == 'C' as int then
                                  if at == |text| then at else at + 1
                                else at
  {
    var text, at := k.left + k.right, |k.left|;
    assert text[..at] == k.left && text[at..] == k.right;
    if at > 0 { assert text[..at - 1] == k.left[..at - 1]; }
    if command.Sequence? {
      ArrowLaws(k);
    }
  }

  function ObeyAll(k: Line, commands: seq<Command>): Line
    decreases |commands|
  {
    if commands == [] then k else ObeyAll(Obey(k, commands[0]), commands[1..])
  }

  function PressAll(k: Line, keys: seq<int>): Line
    decreases |keys|
  {
    if keys == [] then k else PressAll(Press(k, keys[0]), keys[1..])
  }

  lemma {:induction false} TypedIs(keys: seq<int>, n: nat)
    requires n <= |keys|
    ensures PressAll(Typed(keys[..n]), keys[n..]) == Typed(keys)
    decreases |keys| - n
  {
    if n == |keys| {
      assert keys[..n] == keys;
    } else {
      assert keys[n..][1..] == keys[n + 1..] && keys[..n + 1][..n] == keys[..n];
      TypedIs(keys, n + 1);
    }
  }

  lemma JoinedIsArrow(second: byte, third: byte)
    ensures Joined(ESC, second, third) == ARROW_LEFT <==> second == '[' as int && third == 'D' as int
    ensures Joined(ESC, second, third) == ARROW_RIGHT <==> second == '[' as int && third == 'C' as int
  {
  }

  lemma SequencePressed(k: Line, second: byte, third: byte)
    requires k.esc == []
    ensures Press(Press(Press(k, ESC), second), third) == Obey(k, Sequence(second, third))
  {
    JoinedIsArrow(second, third);
    assert k.esc + [ToChar(ESC)] == [ESC] && [ESC] + [ToChar(second)] == [ESC, second];
    assert k.(esc := []) == k;
  }

  /** Keys pressed one call at a time do what the commands mean that they make up. */
  lemma {:induction false} PressesObey(k: Line, keys: seq<byte>)
    requires k.esc == []
    ensures PressAll(k, keys) == ObeyAll(k, Parse(keys).all).(esc := Parse(keys).partial)
    decreases |keys|
  {
    if keys == [] {
      assert k.(esc := []) == k;
    } else if keys[0] == ESC {
      PartialPresses(k, keys);
      if |keys| >= 3 {
        SequencePressed(k, keys[1], keys[2]);
        var k' := Obey(k, Sequence(keys[1], keys[2]));
        PressesObey(k', keys[3..]);
        assert ObeyAll(k, Parse(keys).all) == ObeyAll(k', Parse(keys[3..]).all) by {
          assert Parse(keys).all[1..] == Parse(keys[3..]).all;
        }
      }
    } else {
      PressesObey(Press(k, keys[0]), keys[1..]);
      assert Parse(keys).all[1..] == Parse(keys[1..]).all;
    }
  }

  lemma PressFirst(k: Line, keys: seq<int>)
    requires keys != []
    ensures PressAll(k, keys) == PressAll(Press(k, keys[0]), keys[1..])
  {
  }

  lemma PartialPresses(k: Line, keys: seq<byte>)
    requires k.esc == [] && keys != [] && keys[0] == ESC
    ensures |keys| < 3 ==> PressAll(k, keys) == k.(esc := keys)
    ensures |keys| >= 3 ==> PressAll(k, keys) == PressAll(Press(Press(Press(k, ESC), keys[1]), keys[2]), keys[3..])
  {
    hide Press;
    EscWaits(k, if |keys| > 1 then keys[1] else 0);
    PressFirst(k, keys);
    if |keys| == 1 {
      assert keys[1..] == [] && keys == [ESC];
    } else {
      SecondPress(Press(k, ESC), keys);
      if |keys| == 2 {
        assert keys[2..] == [] && keys == [ESC, keys[1]];
      } else {
        PressFirst(Press(Press(k, ESC), keys[1]), keys[2..]);
        assert keys[2..][1..] == keys[3..];
      }
    }
  }

  lemma SecondPress(k: Line, keys: seq<byte>)
    requires |keys| >= 2
    ensures PressAll(k, keys[1..]) == PressAll(Press(k, keys[1]), keys[2..])
  {
    hide Press;
    PressFirst(k, keys[1..]);
    assert keys[1..][1..] == keys[2..];
  }

  /** An escape character and the one behind it only wait. */
  lemma EscWaits(k: Line, c: byte)
    requires k.esc == []
    ensures Press(k, ESC) == k.(esc := [ESC])
    ensures Press(Press(k, ESC), c) == k.(esc := [ESC, c])
  {
    hide Moved, Inserted, Rubbed;
    assert k.esc + [ToChar(ESC)] == [ESC];
    assert [ESC as byte] + [ToChar(c)] == [ESC, c];
  }

  /** Typing a line, key by key, gives what its commands mean. */
  lemma TypingObeys(keys: seq<byte>)
    ensures Typed(keys) == ObeyAll(EMPTY, Parse(keys).all).(esc := Parse(keys).partial)
  {
    assert keys[..0] == [] && keys[0..] == keys;
    TypedIs(keys, 0);
    PressesObey(EMPTY, keys);
  }

  // ----- The terminal

  class Terminal {
    const buffer: array<byte>
    const escape: array<byte>
    var finalLength: int
    var position: int
    var escapePosition: nat
    var newlinePresent: bool

    /** The buffer, the cursor and the escape sequence are those of a line. From newline to the next read the
        cursor stands one past the length. */
    ghost predicate Shows(k: Line)
      reads this, buffer, escape
    {
      && escape.Length == 4 && buffer != escape
      && newlinePresent == k.done
      && escapePosition == |k.esc| <= 2 && escape[..escapePosition] == k.esc
      && finalLength == |k.left| + |k.right| + (if k.done then 1 else 0) <= buffer.Length
      && position == (if k.done then finalLength + 1 else |k.left|)
      && buffer[..finalLength] == k.left + k.right + (if k.done then [ENDL] else [])
    }

    constructor (capacity: nat)
      ensures Shows(EMPTY) && buffer.Length == capacity
      ensures fresh(buffer) && fresh(escape)
    {
      buffer := new byte[capacity];
      escape := new byte[4];
      finalLength, position, escapePosition, newlinePresent := 0, 0, 0, false;
    }

    /** insert_and_shift: what stood between the place and the end moves up by one. */
    method InsertAndShift(c: byte, pos: nat, len: nat)
      requires pos < len <= buffer.Length
      modifies buffer
      ensures buffer[..len] == old(buffer[..pos]) + [c] + old(buffer[pos..len - 1])
      ensures buffer[len..] == old(buffer[len..])
    {
      ghost var b := buffer[..];
      var temp := pos;
      var nextChar := buffer[temp];
      buffer[temp] := c;
      temp := temp + 1;
      while temp < len
        invariant pos < temp <= len && nextChar == b[temp - 1]
        invariant buffer[..pos] == b[..pos] && buffer[pos] == c
        invariant forall j | pos < j < temp :: buffer[j] == b[j - 1]
        invariant forall j | temp <= j < buffer.Length :: buffer[j] == b[j]
      {
        var currentChar := nextChar;
        nextChar := buffer[temp];
        buffer[temp] := currentChar;
        temp := temp + 1;
      }
    }

    /** delete_and_shift: what stands behind the place, up to the old end, moves down by one. */
    method DeleteAndShift(pos: nat, len: nat)
      requires pos <= len < buffer.Length
      modifies buffer
      ensures buffer[..len] == old(buffer[..pos]) + old(buffer[pos + 1..len + 1])
    {
      ghost var b := buffer[..];
      var temp := pos;
      while temp < len
        invariant pos <= temp <= len
        invariant forall j | 0 <= j < pos :: buffer[j] == b[j]
        invariant forall j | pos <= j < temp :: buffer[j] == b[j + 1]
        invariant forall j | temp <= j < buffer.Length :: buffer[j] == b[j]
      {
        buffer[temp] := buffer[temp + 1];
        temp := temp + 1;
      }
    }

    /** handle_backspace_character */
    method HandleBackspace(ghost k: Line)
      requires Shows(k) && !k.done
      modifies this`finalLength, this`position, buffer
      ensures Shows(Rubbed(k))
    {
      if position != 0 {
        ghost var text := buffer[..finalLength];
        finalLength := finalLength - 1;
        position := position - 1;
        DeleteAndShift(position, finalLength);
        assert k.left == k.left[..position] + [k.left[position]];
        assert text[..position] == k.left[..position] && text[position + 1..] == k.right;
      }
    }

    /** handle_newline_character, without the echo of its loop. */
    method HandleNewline(ghost k: Line)
      requires Shows(k) && !k.done && k.esc == [] && finalLength < buffer.Length
      modifies this`finalLength, this`position, this`newlinePresent, buffer
      ensures Shows(k.(done := true))
    {
      ghost var text := buffer[..finalLength];
      buffer[finalLength] := ENDL;
      while position <= finalLength
        invariant position <= finalLength + 1 == |text| + 1 <= buffer.Length
        invariant buffer[..finalLength] == text && buffer[finalLength] == ENDL
        invariant escapePosition == 0
      {
        position := position + 1;
      }
      newlinePresent := true;
      finalLength := finalLength + 1;
      position := position + 1;
    }

    /** handle_ascii_printable_character */
    method HandlePrintable(c: int, ghost k: Line)
      requires Shows(k) && !k.done && finalLength < buffer.Length
      modifies this`finalLength, this`position, buffer
      ensures Shows(Inserted(k, c))
    {
      ghost var text := buffer[..finalLength];
      InsertAndShift(ToChar(c), position, finalLength + 1);
      assert text[..position] == k.left && text[position..] == k.right;
      finalLength := finalLength + 1;
      position := position + 1;
    }

    /** handle_ansi_escape_sequence */
    method HandleSequence(c: int, ghost k: Line)
      requires Shows(k) && !k.done
      modifies this`position
      ensures Shows(Moved(k, c))
    {
      if c == ARROW_LEFT {
        if position != 0 {
          position := position - 1;
          assert k.left == k.left[..position] + [k.left[position]];
        }
      } else if c == ARROW_RIGHT {
        if position < finalLength {
          position := position + 1;
          assert k.right == [k.right[0]] + k.right[1..];
        }
      }
    }

    /** The assembly of an escape sequence in write_to_keyboard_buffer: the code to act on. */
    method Assemble(c: int, ghost k: Line) returns (code: int)
      requires Shows(k) && !k.done
      modifies this`escapePosition, escape
      ensures code == if |k.esc| == 2 then Joined(k.esc[0], k.esc[1], ToChar(c)) else c
      ensures Shows(k.(esc := if |k.esc| == 2 then [] else k.esc + [ToChar(c)]))
    {
      code := c;
      escape[escapePosition] := ToChar(c);
      if escapePosition == 2 {
        code := Joined(escape[0], escape[1], escape[2]);
        escapePosition := 0;
      } else {
        escapePosition := escapePosition + 1;
      }
    }

    /** write_to_keyboard_buffer in canonical mode: one key, with room for one more character. */
    method WriteToKeyboardBuffer(c: int, ghost k: Line)
      requires Shows(k) && !k.done && finalLength < buffer.Length
      modifies this, buffer, escape
      ensures Shows(Press(k, c))
    {
      if escapePosition != 0 || c == ESC {
        var code := Assemble(c, k);
        if IsArrow(code) {
          HandleSequence(code, k.(esc := if |k.esc| == 2 then [] else k.esc + [ToChar(c)]));
        }
        return;
      }
      if 0 <= c < 32 {
        if c == BACKSPACE {
          HandleBackspace(k);
        } else if c == ENDL {
          HandleNewline(k);
        }
        return;
      }
      HandlePrintable(c, k);
    }

    /**
     tty_read with a line typed: the line and its newline, cut to `count`, come in front of a terminating
     zero, which takes one place more; nothing behind it is written. The terminal is empty again.
     */
    method Read(out: array<byte>, count: nat, ghost k: Line) returns (n: nat)
      requires Shows(k) && k.done && k.esc == []
      requires out != buffer && out != escape
      requires (if count < finalLength then count else finalLength) < out.Length
      modifies this, out
      ensures n == (if count < |k.left| + |k.right| + 1 then count else |k.left| + |k.right| + 1)
      ensures n < out.Length && out[..n] == (k.left + k.right + [ENDL])[..n] && out[n] == 0
      ensures forall j | n < j < out.Length :: out[j] == old(out[j])
      ensures Shows(EMPTY)
    {
      var streamSize := finalLength;
      n := 0;
      while n < count && n < streamSize
        invariant 0 <= n <= streamSize && n <= count && n < out.Length
        invariant Shows(k) && streamSize == finalLength
        invariant out[..n] == buffer[..n] && forall j | n <= j < out.Length :: out[j] == old(out[j])
      {
        out[n] := buffer[n];
        n := n + 1;
      }
      assert buffer[..n] == buffer[..finalLength][..n];
      Reset();
      out[n] := 0;
    }

    /** reset_keyboard_buffer */
    method Reset()
      requires escape.Length == 4 && buffer != escape && escapePosition == 0
      modifies this`newlinePresent, this`finalLength, this`position
      ensures Shows(EMPTY)
    {
      newlinePresent := false;
      finalLength := 0;
      position := 0;
    }

    /** A line typed from reset to newline, and read. */
    method TypeThenRead(keys: seq<byte>, out: array<byte>, count: nat) returns (n: nat)
      requires Shows(EMPTY) && FitsIn(keys, buffer.Length) && Ends(keys)
      requires out != buffer && out != escape && count < out.Length
      modifies this, buffer, escape, out
      ensures var line := ObeyAll(EMPTY, Parse(keys).all);
              && n == (if count < |line.left| + |line.right| + 1 then count else |line.left| + |line.right| + 1)
              && n < out.Length && out[..n] == (line.left + line.right + [ENDL])[..n] && out[n] == 0
      ensures Shows(EMPTY)
    {
      assert keys[..0] == [];
      for i := 0 to |keys|
        invariant Shows(Typed(keys[..i]))
      {
        assert keys[..i + 1][..i] == keys[..i];
        WriteToKeyboardBuffer(keys[i], Typed(keys[..i]));
      }
      assert keys[..|keys|] == keys;
      TypingObeys(keys);
      EndsPlain(keys);
      n := Read(out, count, Typed(keys));
    }
  }

  /** Before every key there is room for one more character. */
  ghost predicate FitsIn(keys: seq<byte>, capacity: nat) {
    forall i | 0 <= i < |keys| :: |Typed(keys[..i]).left| + |Typed(keys[..i]).right| < capacity
  }

  /** The last key is the first newline that is not part of an escape sequence. */
  ghost predicate Ends(keys: seq<byte>) {
    Typed(keys).done && forall i | 0 <= i < |keys| :: !Typed(keys[..i]).done
  }

  lemma EndsPlain(keys: seq<byte>)
    requires Ends(keys)
    ensures Typed(keys).esc == []
  {
    if keys != [] {
      var k, c := Typed(keys[..|keys| - 1]), keys[|keys| - 1];
      assert !k.done;
    }
  }
}
