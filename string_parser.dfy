/**
  * `Accessibility::Core::StringParser` (lib/accessibility/core/string_parser.rb): turns
  * human-readable text into the key events that type it, each a key code (or none) and
  * whether the key goes down or up.
  *
  * `MAPPING`, the character-to-key-code table built from the keyboard layout at run time,
  * is a parameter `mapping` of every operation. `ESCAPES` and `ALT` are the literal tables.
  */
module KeyParser {
  import opened Wrappers

  /** One key event: the key code (nil when a table has no entry) and key down / key up. */
  datatype Event = Event(code: Option<int>, down: bool)

  /** The exceptions `parse` can raise. */
  datatype ParseError =
    | NoMapping(c: char)          // ArgumentError "... has no mapping, bail!"
    | HotkeysNotImplemented       // NotImplementedError "Hotkeys is not finished yet"

  /** The code of the shift key, wrapped around every `ALT` character. */
  const Shift: int := 56

  /**
    * Named keys, written after a backslash (string_parser.rb:24-89). The table is one hash;
    * it is written here as the union of six groups with no key in common.
    */
  const Escapes: map<string, int> := NamedKeys + EscapeReturn

  /** The entries written as a backslash and a key name. */
  const NamedKeys: map<string, int> :=
    EscapeKeypad + EscapeNavigation + EscapeFunctionKeys + EscapeMedia + EscapeModifiers

  /** The only entry that is not a backslash name: a newline, the return key. */
  const EscapeReturn: map<string, int> := map["\n" := 0x24]

  const EscapeModifiers: map<string, int> := map[
    "\\ESCAPE" := 0x35,
    "\\COMMAND" := 0x37,
    "\\SHIFT" := 0x38,
    "\\CAPS" := 0x39,
    "\\OPTION" := 0x3A,
    "\\CONTROL" := 0x3B,
    "\\RSHIFT" := 0x3C,
    "\\ROPTION" := 0x3D,
    "\\RCONTROL" := 0x3E,
    "\\FUNCTION" := 0x3F
  ]

  const EscapeMedia: map<string, int> := map[
    "\\VOLUP" := 0x48,
    "\\VOLDOWN" := 0x49,
    "\\MUTE" := 0x4A
  ]

  const EscapeFunctionKeys: map<string, int> := map[
    "\\F1" := 0x7A,
    "\\F2" := 0x78,
    "\\F3" := 0x63,
    "\\F4" := 0x76,
    "\\F5" := 0x60,
    "\\F6" := 0x61,
    "\\F7" := 0x62,
    "\\F8" := 0x64,
    "\\F9" := 0x65,
    "\\F10" := 0x6D,
    "\\F11" := 0x67,
    "\\F12" := 0x6F,
    "\\F13" := 0x69,
    "\\F14" := 0x6B,
    "\\F15" := 0x71,
    "\\F16" := 0x6A,
    "\\F17" := 0x40,
    "\\F18" := 0x4F,
    "\\F19" := 0x50,
    "\\F20" := 0x5A
  ]

  const EscapeNavigation: map<string, int> := map[
    "\\HELP" := 0x72,
    "\\HOME" := 0x73,
    "\\PAGEUP" := 0x74,
    "\\DELETE" := 0x75,
    "\\END" := 0x77,
    "\\PAGEDOWN" := 0x79,
    "\\<-" := 0x7B,
    "\\LEFT" := 0x7B,
    "\\->" := 0x7C,
    "\\RIGHT" := 0x7C,
    "\\DOWN" := 0x7D,
    "\\UP" := 0x7E
  ]

  const EscapeKeypad: map<string, int> := map[
    "\\KEYPAD0" := 0x52,
    "\\KEYPAD1" := 0x53,
    "\\KEYPAD2" := 0x54,
    "\\KEYPAD3" := 0x55,
    "\\KEYPAD4" := 0x56,
    "\\KEYPAD5" := 0x57,
    "\\KEYPAD6" := 0x58,
    "\\KEYPAD7" := 0x59,
    "\\KEYPAD8" := 0x5B,
    "\\KEYPAD9" := 0x5C,
    "\\KEYPADDecimal" := 0x41,
    "\\KEYPADMultiply" := 0x43,
    "\\KEYPADPlus" := 0x45,
    "\\KEYPADClear" := 0x47,
    "\\KEYPADDivide" := 0x4B,
    "\\KEYPADEnter" := 0x4C,
    "\\KEYPADMinus" := 0x4E,
    "\\KEYPADEquals" := 0x51
  ]

  /**
    * Characters typed as shift plus another key, and that key's character
    * (string_parser.rb:92-140): the shifted symbols and the capital letters.
    */
  const Alt: map<char, char> := AltSymbols + AltLetters

  const AltSymbols: map<char, char> := map[
    '~' := '`', '!' := '1', '@' := '2', '#' := '3', '$' := '4', '%' := '5', '^' := '6',
    '&' := '7', '*' := '8', '(' := '9', ')' := '0', '{' := '[', '}' := ']', '?' := '/',
    '+' := '=', '|' := '\\', ':' := ';', '_' := '-', '"' := '\'', '<' := ',', '>' := '.'
  ]

  const AltLetters: map<char, char> := map[
    'A' := 'a', 'B' := 'b', 'C' := 'c', 'D' := 'd', 'E' := 'e', 'F' := 'f', 'G' := 'g',
    'H' := 'h', 'I' := 'i', 'J' := 'j', 'K' := 'k', 'L' := 'l', 'M' := 'm', 'N' := 'n',
    'O' := 'o', 'P' := 'p', 'Q' := 'q', 'R' := 'r', 'S' := 's', 'T' := 't', 'U' := 'u',
    'V' := 'v', 'W' := 'w', 'X' := 'x', 'Y' := 'y', 'Z' := 'z'
  ]

  /**
    * The two literal tables the parser consults. The parser is stated for any tables; the
    * laws that do not depend on particular entries are proved for all of them, and
    * `BuiltIn` holds the ones string_parser.rb defines.
    */
  datatype Tables = Tables(alt: map<char, char>, escapes: map<string, int>)

  const BuiltIn: Tables := Tables(Alt, Escapes)

  /** The backslash is not an `ALT` key, so it always starts an escape. */
  lemma BackslashIsNotAlt()
    ensures '\\' !in Alt
  {
  }

  lemma NewlineIsEscape()
    ensures "\n" in Escapes && Escapes["\n"] == 0x24
  {
    UnionRight(NamedKeys, EscapeReturn, "\n");
  }

  /** A key of the right operand of a union has its value there. */
  lemma UnionRight<K, V>(left: map<K, V>, right: map<K, V>, key: K)
    requires key in right
    ensures key in left + right && (left + right)[key] == right[key]
  {
  }

  /** A key of the left operand that the right one lacks keeps its value. */
  lemma UnionLeft<K, V>(left: map<K, V>, right: map<K, V>, key: K)
    requires key in left && key !in right
    ensures key in left + right && (left + right)[key] == left[key]
  {
  }

  lemma NewlineIsNotAlt()
    ensures '\n' !in Alt
  {
  }

  /** A hash lookup: nil when the key is absent. */
  function Lookup(table: map<string, int>, key: string): Option<int>
  {
    if key in table then Some(table[key]) else None
  }

  /** The key goes down and comes back up. */
  function Press(code: Option<int>): seq<Event>
  {
    [Event(code, true), Event(code, false)]
  }

  /** `parse_alt`: shift down, the key pressed, shift up; the key may have no code. */
  function ParseAlt(t: Tables, mapping: map<string, int>, c: char): (r: seq<Event>)
    requires c in t.alt
    ensures |r| == 4
    ensures r[0] == Event(Some(Shift), true) && r[3] == Event(Some(Shift), false)
    ensures r[1].down && !r[2].down && r[1].code == r[2].code
    ensures r[1].code.Some? <==> [t.alt[c]] in mapping
    ensures [t.alt[c]] in mapping ==> r[1].code == Some(mapping[[t.alt[c]]])
  {
    var code := Lookup(mapping, [t.alt[c]]);
    [Event(Some(Shift), true)] + Press(code) + [Event(Some(Shift), false)]
  }

  /** `parse_dynamic`: the character's key pressed, or ArgumentError when it has no code. */
  function ParseDynamic(mapping: map<string, int>, c: char): (r: Result<seq<Event>, ParseError>)
    ensures r.Err? <==> [c] !in mapping
    ensures r.Err? ==> r.error == NoMapping(c)
    ensures r.Ok? ==> r.value == Press(Some(mapping[[c]]))
  {
    match Lookup(mapping, [c])
    case Some(code) => Ok(Press(Some(code)))
    case None => Err(NoMapping(c))
  }

  // ---------------------------------------------------------------------------------------
  // Escapes

  /** The characters an escape collects: everything up to the first space or the end. */
  function EscapeName(chars: seq<char>): (r: seq<char>)
    ensures |r| <= |chars| && r == chars[..|r|]
    ensures ' ' !in r
    ensures |r| < |chars| ==> chars[|r|] == ' '
  {
    if chars == [] || chars[0] == ' ' then [] else [chars[0]] + EscapeName(chars[1..])
  }

  /**
    * What `parse_custom` does to the shared character queue: NotImplementedError when a `+`
    * comes before the first space; otherwise the named key pressed (no code when the name is
    * not in `ESCAPES`) and the queue from the terminating space on.
    */
  function Custom(t: Tables, chars: seq<char>): (r: Result<(seq<Event>, seq<char>), ParseError>)
    ensures r.Err? <==> '+' in EscapeName(chars)
    ensures r.Err? ==> r.error == HotkeysNotImplemented
    ensures r.Ok? ==> r.value.1 == chars[|EscapeName(chars)|..]
    ensures r.Ok? && chars != [] && chars[0] != ' ' ==> |r.value.1| < |chars|
  {
    var name := EscapeName(chars);
    if '+' in name then Err(HotkeysNotImplemented)
    else Ok((Press(Lookup(t.escapes, name)), chars[|name|..]))
  }

  /**
    * `parse_custom`: collects characters from the front of the queue until a space or the
    * end; a `+` met first raises. The loop of the source has no other exit, so the final
    * `raise` after it cannot be reached.
    */
  method ParseCustom(chars: seq<char>) returns (r: Result<(seq<Event>, seq<char>), ParseError>)
    ensures r == Custom(BuiltIn, chars)
  {
    var sequence: seq<char> := [];
    var queue := chars;
    while true
      invariant chars == sequence + queue
      invariant EscapeName(chars) == sequence + EscapeName(queue)
      invariant '+' !in sequence
      decreases |queue|
    {
      if queue != [] && queue[0] == '+' {
        assert '+' in EscapeName(queue);
        return Err(HotkeysNotImplemented);
      }
      if queue == [] || queue[0] == ' ' {
        assert EscapeName(chars) == sequence;
        assert chars[|sequence|..] == queue;
        return Ok((Press(Lookup(Escapes, sequence)), queue));
      }
      assert EscapeName(queue) == [queue[0]] + EscapeName(queue[1..]);
      sequence := sequence + [queue[0]];
      queue := queue[1..];
    }
  }

  // ---------------------------------------------------------------------------------------
  // The whole string

  /** The events so far, followed by whatever the rest of the input yields. */
  function Then(done: seq<Event>, rest: Result<seq<Event>, ParseError>): Result<seq<Event>, ParseError>
  {
    match rest
    case Ok(events) => Ok(done + events)
    case Err(e) => Err(e)
  }

  /**
    * `parse` as a function of the tables and the remaining characters: an `ALT` character
    * first, then a backslash, then any other character; the events of each are followed by
    * the events of what remains, and the first exception ends the parse.
    */
  function ParseSpec(t: Tables, mapping: map<string, int>, chars: seq<char>): Result<seq<Event>, ParseError>
    decreases |chars|
  {
    if chars == [] then Ok([])
    else
      var c := chars[0];
      if c in t.alt then Then(ParseAlt(t, mapping, c), ParseSpec(t, mapping, chars[1..]))
      else if c == '\\' then
        match Custom(t, chars)
        case Err(e) => Err(e)
        case Ok((events, rest)) => Then(events, ParseSpec(t, mapping, rest))
      else
        match ParseDynamic(mapping, c)
        case Err(e) => Err(e)
        case Ok(events) => Then(events, ParseSpec(t, mapping, chars[1..]))
  }

  lemma ThenTwice(done: seq<Event>, more: seq<Event>, rest: Result<seq<Event>, ParseError>)
    ensures Then(done, Then(more, rest)) == Then(done + more, rest)
  {
    if rest.Ok? {
      assert done + (more + rest.value) == (done + more) + rest.value;
    }
  }

  /**
    * The events of the character at the front of the queue and the queue after it: an `ALT`
    * character, else a backslash, put back at the front for the escape to consume from the
    * same queue, else the character through `MAPPING`. The queue always shrinks.
    */
  method ParseOne(mapping: map<string, int>, chars: seq<char>) returns (r: Result<(seq<Event>, seq<char>), ParseError>)
    requires chars != []
    ensures r.Err? ==> ParseSpec(BuiltIn, mapping, chars) == Err(r.error)
    ensures r.Ok? ==> |r.value.1| < |chars|
    ensures r.Ok? ==> ParseSpec(BuiltIn, mapping, chars) == Then(r.value.0, ParseSpec(BuiltIn, mapping, r.value.1))
  {
    var c := chars[0];
    var rest := chars[1..];
    if c in Alt {
      r := Ok((ParseAlt(BuiltIn, mapping, c), rest));
    } else if c == '\\' {
      assert [c] + rest == chars;
      r := ParseCustom([c] + rest);
    } else {
      var press := ParseDynamic(mapping, c);
      if press.Err? {
        return Err(press.error);
      }
      r := Ok((press.value, rest));
    }
  }

  /** `parse`: takes events from the front of the queue until it is empty, appending each. */
  method Parse(mapping: map<string, int>, s: string) returns (r: Result<seq<Event>, ParseError>)
    ensures r == ParseSpec(BuiltIn, mapping, s)
  {
    var chars := s;
    var events: seq<Event> := [];
    assert Then([], ParseSpec(BuiltIn, mapping, s)) == ParseSpec(BuiltIn, mapping, s) by {
      if ParseSpec(BuiltIn, mapping, s).Ok? {
        assert [] + ParseSpec(BuiltIn, mapping, s).value == ParseSpec(BuiltIn, mapping, s).value;
      }
    }
    while chars != []
      invariant ParseSpec(BuiltIn, mapping, s) == Then(events, ParseSpec(BuiltIn, mapping, chars))
      decreases |chars|
    {
      var step := ParseOne(mapping, chars);
      if step.Err? {
        return Err(step.error);
      }
      ThenTwice(events, step.value.0, ParseSpec(BuiltIn, mapping, step.value.1));
      events := events + step.value.0;
      chars := step.value.1;
    }
    assert events + [] == events;
    return Ok(events);
  }

  // ---------------------------------------------------------------------------------------
  // Laws of the parser

  /** An `ALT` character is shift-wrapped even when a backslash or `+` is its key (`|`, `+`). */
  lemma AltFirst(t: Tables, mapping: map<string, int>, c: char, rest: seq<char>)
    requires c in t.alt
    ensures ParseSpec(t, mapping, [c] + rest) ==
      Then([Event(Some(Shift), true), Event(Lookup(mapping, [t.alt[c]]), true),
            Event(Lookup(mapping, [t.alt[c]]), false), Event(Some(Shift), false)],
           ParseSpec(t, mapping, rest))
  {
    assert ([c] + rest)[0] == c && ([c] + rest)[1..] == rest;
    assert ParseAlt(t, mapping, c) ==
      [Event(Some(Shift), true), Event(Lookup(mapping, [t.alt[c]]), true),
       Event(Lookup(mapping, [t.alt[c]]), false), Event(Some(Shift), false)];
  }

  /** Any other character but the backslash is pressed through `mapping`, or raises. */
  lemma DynamicOtherwise(t: Tables, mapping: map<string, int>, c: char, rest: seq<char>)
    requires c !in t.alt && c != '\\'
    ensures [c] in mapping ==>
      ParseSpec(t, mapping, [c] + rest) ==
        Then([Event(Some(mapping[[c]]), true), Event(Some(mapping[[c]]), false)], ParseSpec(t, mapping, rest))
    ensures [c] !in mapping ==> ParseSpec(t, mapping, [c] + rest) == Err(NoMapping(c))
  {
    assert ([c] + rest)[0] == c && ([c] + rest)[1..] == rest;
  }

  /**
    * When the backslash is not an `ALT` key, an escape name with no space and no `+`
    * presses the named key (no code when unknown); the space that ends it is not consumed
    * but parsed next.
    */
  lemma EscapeThenSpace(t: Tables, mapping: map<string, int>, name: seq<char>, rest: seq<char>)
    requires '\\' !in t.alt
    requires ' ' !in name && '+' !in name
    ensures ParseSpec(t, mapping, "\\" + name + " " + rest) ==
      Then(Press(Lookup(t.escapes, "\\" + name)), ParseSpec(t, mapping, " " + rest))
  {
    var chars := "\\" + name + " " + rest;
    EscapeNameUpToSpace("\\" + name, " " + rest);
    assert chars == ("\\" + name) + (" " + rest);
    assert chars[0] == '\\';
    assert chars[|"\\" + name|..] == " " + rest;
  }

  /**
    * An escape that runs to the end of the input presses the named key; a name that is not
    * in the escape table gives a press with no code rather than an exception.
    */
  lemma EscapeAtEnd(t: Tables, mapping: map<string, int>, name: seq<char>)
    requires '\\' !in t.alt
    requires ' ' !in name && '+' !in name
    ensures ParseSpec(t, mapping, "\\" + name) == Ok(Press(Lookup(t.escapes, "\\" + name)))
    ensures "\\" + name !in t.escapes ==> ParseSpec(t, mapping, "\\" + name) == Ok(Press(None))
  {
    var chars := "\\" + name;
    EscapeNamePrefix(chars, []);
    assert chars + [] == chars;
    assert chars[0] == '\\';
    assert chars[|chars|..] == [];
    assert Press(Lookup(t.escapes, chars)) + [] == Press(Lookup(t.escapes, chars));
  }

  /** An escape that meets `+` before any space raises NotImplementedError. */
  lemma EscapePlusRaises(t: Tables, mapping: map<string, int>, name: seq<char>, rest: seq<char>)
    requires '\\' !in t.alt
    requires ' ' !in name
    ensures ParseSpec(t, mapping, "\\" + name + "+" + rest) == Err(HotkeysNotImplemented)
  {
    var chars := "\\" + name + "+" + rest;
    assert chars == ("\\" + name) + ("+" + rest);
    EscapeNamePrefix("\\" + name, "+" + rest);
    assert chars[0] == '\\';
    assert '+' in EscapeName(chars) by {
      assert EscapeName(chars)[|"\\" + name|] == '+';
    }
  }

  /** The name collected from `front + back` stops at a space that ends `front`. */
  lemma {:induction false} EscapeNameUpToSpace(front: seq<char>, back: seq<char>)
    requires ' ' !in front
    requires back != [] && back[0] == ' '
    ensures EscapeName(front + back) == front
  {
    if front == [] {
      assert front + back == back;
    } else {
      assert (front + back)[0] == front[0] && (front + back)[1..] == front[1..] + back;
      EscapeNameUpToSpace(front[1..], back);
    }
  }

  /** A name collected through a space-free `front` keeps going into what follows. */
  lemma {:induction false} EscapeNamePrefix(front: seq<char>, back: seq<char>)
    requires ' ' !in front
    ensures EscapeName(front + back) == front + EscapeName(back)
  {
    if front == [] {
      assert front + back == back;
    } else {
      assert (front + back)[0] == front[0] && (front + back)[1..] == front[1..] + back;
      EscapeNamePrefix(front[1..], back);
    }
  }

  // ---------------------------------------------------------------------------------------
  // The built-in tables

  /** `\FUNCTION` presses the fn key, code 0x3F. */
  lemma EscapeFunction(mapping: map<string, int>)
    ensures ParseSpec(BuiltIn, mapping, "\\" + "FUNCTION") == Ok(Press(Some(0x3F)))
  {
    BackslashIsNotAlt();
    assert ' ' !in "FUNCTION" && '+' !in "FUNCTION";
    EscapeAtEnd(BuiltIn, mapping, "FUNCTION");
    FunctionKeyCode();
  }

  lemma FunctionKeyCode()
    ensures "\\" + "FUNCTION" in Escapes && Escapes["\\" + "FUNCTION"] == 0x3F
  {
    var key := "\\" + "FUNCTION";
    FunctionKeyIsModifier(key);
    UnionRight(EscapeKeypad + EscapeNavigation + EscapeFunctionKeys + EscapeMedia, EscapeModifiers, key);
    assert |key| != 1;
    assert key !in EscapeReturn;
    UnionLeft(NamedKeys, EscapeReturn, key);
  }

  lemma FunctionKeyIsModifier(key: string)
    requires key == "\\" + "FUNCTION"
    ensures key in EscapeModifiers && EscapeModifiers[key] == 0x3F
  {
    assert key == "\\FUNCTION";
  }

  lemma PlusIsAlt()
    ensures '+' in Alt && Alt['+'] == '='
  {
    UnionLeft(AltSymbols, AltLetters, '+');
  }

  /** A string of one `ALT` character gives just that character's four events. */
  lemma AltAlone(t: Tables, mapping: map<string, int>, c: char)
    requires c in t.alt
    ensures ParseSpec(t, mapping, [c]) ==
      Ok([Event(Some(Shift), true), Event(Lookup(mapping, [t.alt[c]]), true),
          Event(Lookup(mapping, [t.alt[c]]), false), Event(Some(Shift), false)])
  {
    AltFirst(t, mapping, c, []);
    assert [c] + [] == [c];
    var events := [Event(Some(Shift), true), Event(Lookup(mapping, [t.alt[c]]), true),
                   Event(Lookup(mapping, [t.alt[c]]), false), Event(Some(Shift), false)];
    assert events + [] == events;
  }

  /** Outside an escape `+` is an `ALT` key: shift and the `=` key. */
  lemma PlusOutsideEscape(mapping: map<string, int>)
    ensures ParseSpec(BuiltIn, mapping, "+") ==
      Ok([Event(Some(Shift), true), Event(Lookup(mapping, "="), true),
          Event(Lookup(mapping, "="), false), Event(Some(Shift), false)])
  {
    PlusIsAlt();
    AltAlone(BuiltIn, mapping, '+');
    assert ['+'] == "+" && ['='] == "=";
  }

  /** The newline entry of `ESCAPES` is never used: a newline goes through `mapping`. */
  lemma NewlineUsesMapping(mapping: map<string, int>, rest: seq<char>)
    ensures "\n" in BuiltIn.escapes && BuiltIn.escapes["\n"] == 0x24
    ensures ['\n'] in mapping ==>
      ParseSpec(BuiltIn, mapping, ['\n'] + rest) == Then(Press(Some(mapping[['\n']])), ParseSpec(BuiltIn, mapping, rest))
    ensures ['\n'] !in mapping ==> ParseSpec(BuiltIn, mapping, ['\n'] + rest) == Err(NoMapping('\n'))
  {
    NewlineIsNotAlt();
    NewlineIsEscape();
    DynamicOtherwise(BuiltIn, mapping, '\n', rest);
  }

  // ---------------------------------------------------------------------------------------
  // Balance: every key pressed is released, innermost first

  /**
    * Replays events against the keys held down, most recent last: a release must name the
    * most recently pressed key still held. None when a release does not.
    */
  function Release(events: seq<Event>, held: seq<Option<int>>): Option<seq<Option<int>>>
  {
    if events == [] then Some(held)
    else if events[0].down then Release(events[1..], held + [events[0].code])
    else if held != [] && held[|held| - 1] == events[0].code then Release(events[1..], held[..|held| - 1])
    else None
  }

  function Downs(events: seq<Event>): nat
  {
    if events == [] then 0 else (if events[0].down then 1 else 0) + Downs(events[1..])
  }

  function Ups(events: seq<Event>): nat
  {
    if events == [] then 0 else (if events[0].down then 0 else 1) + Ups(events[1..])
  }

  lemma {:induction false} ReleaseAppend(a: seq<Event>, b: seq<Event>, held: seq<Option<int>>)
    ensures Release(a + b, held) ==
      match Release(a, held)
      case None => None
      case Some(after) => Release(b, after)
  {
    if a == [] {
      assert a + b == b;
    } else {
      assert (a + b)[0] == a[0] && (a + b)[1..] == a[1..] + b;
      if a[0].down {
        ReleaseAppend(a[1..], b, held + [a[0].code]);
      } else if held != [] && held[|held| - 1] == a[0].code {
        ReleaseAppend(a[1..], b, held[..|held| - 1]);
      }
    }
  }

  /** The held keys grow by the presses and shrink by the releases. */
  lemma {:induction false} ReleaseCounts(events: seq<Event>, held: seq<Option<int>>)
    requires Release(events, held).Some?
    ensures |Release(events, held).value| + Ups(events) == |held| + Downs(events)
    ensures |events| == Downs(events) + Ups(events)
  {
    if events != [] {
      if events[0].down {
        ReleaseCounts(events[1..], held + [events[0].code]);
      } else {
        ReleaseCounts(events[1..], held[..|held| - 1]);
      }
    }
  }

  /** Events that release everything they press have as many presses as releases. */
  lemma Balanced(events: seq<Event>)
    requires Release(events, []) == Some([])
    ensures Downs(events) == Ups(events)
    ensures |events| % 2 == 0
  {
    ReleaseCounts(events, []);
  }

  lemma PressReleases(code: Option<int>, held: seq<Option<int>>)
    ensures Release(Press(code), held) == Some(held)
  {
    var pressed := held + [code];
    assert pressed[..|pressed| - 1] == held;
    assert Press(code)[0].down && Press(code)[1..] == [Event(code, false)];
    assert Release(Press(code), held) == Release([Event(code, false)], pressed);
    assert [Event(code, false)][1..] == [];
  }

  lemma AltReleases(t: Tables, mapping: map<string, int>, c: char, held: seq<Option<int>>)
    requires c in t.alt
    ensures Release(ParseAlt(t, mapping, c), held) == Some(held)
  {
    var code := Lookup(mapping, [t.alt[c]]);
    var events := ParseAlt(t, mapping, c);
    assert events == [Event(Some(Shift), true)] + (Press(code) + [Event(Some(Shift), false)]);
    var shifted := held + [Some(Shift)];
    assert Release(events, held) == Release(Press(code) + [Event(Some(Shift), false)], shifted);
    ReleaseAppend(Press(code), [Event(Some(Shift), false)], shifted);
    PressReleases(code, shifted);
    assert shifted[..|shifted| - 1] == held;
  }

  /**
    * Every successful parse is balanced: replayed from any held keys it releases each key it
    * presses, innermost first, and leaves the same keys held.
    */
  lemma {:induction false} ParseReleasesAll(t: Tables, mapping: map<string, int>, chars: seq<char>, held: seq<Option<int>>)
    requires ParseSpec(t, mapping, chars).Ok?
    ensures Release(ParseSpec(t, mapping, chars).value, held) == Some(held)
    decreases |chars|
  {
    if chars != [] {
      var c := chars[0];
      if c in t.alt {
        ParseReleasesAll(t, mapping, chars[1..], held);
        ReleaseAppend(ParseAlt(t, mapping, c), ParseSpec(t, mapping, chars[1..]).value, held);
        AltReleases(t, mapping, c, held);
      } else if c == '\\' {
        var rest := Custom(t, chars).value.1;
        ParseReleasesAll(t, mapping, rest, held);
        ReleaseAppend(Custom(t, chars).value.0, ParseSpec(t, mapping, rest).value, held);
        PressReleases(Lookup(t.escapes, EscapeName(chars)), held);
      } else {
        ParseReleasesAll(t, mapping, chars[1..], held);
        ReleaseAppend(ParseDynamic(mapping, c).value, ParseSpec(t, mapping, chars[1..]).value, held);
        PressReleases(Some(mapping[[c]]), held);
      }
    }
  }

  /**
    * Balance of a successful parse: no key is left down, as many presses as releases, an
    * even number of events.
    */
  lemma ParseBalanced(t: Tables, mapping: map<string, int>, s: string)
    requires ParseSpec(t, mapping, s).Ok?
    ensures Release(ParseSpec(t, mapping, s).value, []) == Some([])
    ensures Downs(ParseSpec(t, mapping, s).value) == Ups(ParseSpec(t, mapping, s).value)
    ensures |ParseSpec(t, mapping, s).value| % 2 == 0
  {
    ParseReleasesAll(t, mapping, s, []);
    Balanced(ParseSpec(t, mapping, s).value);
  }

  // ---------------------------------------------------------------------------------------
  // Concatenation

  /** Every escape in the text ends at a space inside it, so it cannot swallow what follows. */
  predicate EscapesClosed(chars: seq<char>)
  {
    forall i :: 0 <= i < |chars| && chars[i] == '\\' ==> ' ' in chars[i..]
  }

  /** The first exception of either part, or both parts' events in order. */
  function Join(first: Result<seq<Event>, ParseError>, second: Result<seq<Event>, ParseError>): Result<seq<Event>, ParseError>
  {
    match first
    case Err(e) => Err(e)
    case Ok(events) => Then(events, second)
  }

  lemma {:induction false} EscapeNameClosed(a: seq<char>, b: seq<char>)
    requires ' ' in a
    ensures EscapeName(a + b) == EscapeName(a)
    ensures |EscapeName(a)| < |a|
  {
    if a[0] == ' ' {
      assert (a + b)[0] == ' ';
    } else {
      assert (a + b)[0] == a[0] && (a + b)[1..] == a[1..] + b;
      assert ' ' in a[1..];
      EscapeNameClosed(a[1..], b);
    }
  }

  lemma JoinThen(events: seq<Event>, first: Result<seq<Event>, ParseError>, second: Result<seq<Event>, ParseError>)
    ensures Join(Then(events, first), second) == Then(events, Join(first, second))
  {
    if first.Ok? && second.Ok? {
      assert (events + first.value) + second.value == events + (first.value + second.value);
    }
  }

  /**
    * Events of successive pieces of input are concatenated in input order: parsing `a + b`
    * is parsing `a` and then `b`, as long as no escape in `a` runs on into `b`.
    */
  lemma {:induction false} ParseConcat(t: Tables, mapping: map<string, int>, a: seq<char>, b: seq<char>)
    requires EscapesClosed(a)
    ensures ParseSpec(t, mapping, a + b) == Join(ParseSpec(t, mapping, a), ParseSpec(t, mapping, b))
    decreases |a|
  {
    if a == [] {
      assert a + b == b;
      if ParseSpec(t, mapping, b).Ok? {
        assert [] + ParseSpec(t, mapping, b).value == ParseSpec(t, mapping, b).value;
      }
    } else {
      var c := a[0];
      assert (a + b)[0] == c && (a + b)[1..] == a[1..] + b;
      assert EscapesClosed(a[1..]) by {
        forall i | 0 <= i < |a[1..]| && a[1..][i] == '\\'
          ensures ' ' in a[1..][i..]
        {
          assert a[i + 1] == '\\';
          assert a[1..][i..] == a[i + 1..];
        }
      }
      if c in t.alt {
        ParseConcat(t, mapping, a[1..], b);
        JoinThen(ParseAlt(t, mapping, c), ParseSpec(t, mapping, a[1..]), ParseSpec(t, mapping, b));
      } else if c == '\\' {
        assert ' ' in a[0..];
        assert a[0..] == a;
        EscapeNameClosed(a, b);
        var n := |EscapeName(a)|;
        assert (a + b)[n..] == a[n..] + b;
        if '+' !in EscapeName(a) {
          assert EscapesClosed(a[n..]) by {
            forall i | 0 <= i < |a[n..]| && a[n..][i] == '\\'
              ensures ' ' in a[n..][i..]
            {
              assert a[n + i] == '\\';
              assert a[n..][i..] == a[n + i..];
            }
          }
          ParseConcat(t, mapping, a[n..], b);
          JoinThen(Press(Lookup(t.escapes, EscapeName(a))), ParseSpec(t, mapping, a[n..]), ParseSpec(t, mapping, b));
        }
      } else {
        ParseConcat(t, mapping, a[1..], b);
        if ParseDynamic(mapping, c).Ok? {
          JoinThen(ParseDynamic(mapping, c).value, ParseSpec(t, mapping, a[1..]), ParseSpec(t, mapping, b));
        }
      }
    }
  }

  /** The empty string gives no events. */
  lemma ParseEmpty(t: Tables, mapping: map<string, int>)
    ensures ParseSpec(t, mapping, "") == Ok([])
  {
  }
}
