/** The PS/2 keyboard driver: bytes from the interrupt handler go through a ring to a decoder
    that runs as deferred work (drivers/input/keyboard/ps2.c). */
module Ps2Keyboard {
  import Ring

  datatype Modifier = Shift | Ctrl | Alt | CapsLock | NumLock | ScrollLock

  /** Keys that matter to the decoder; all other keymap values are `Other`. */
  datatype Key = Reserved | LeftShift | RightShift | LeftCtrl | RightCtrl | LeftAlt | RightAlt
               | CapsKey | NumKey | ScrollKey | Other(code: int)

  datatype Event = Event(key: Key, pressed: bool, modifiers: set<Modifier>)

  datatype Decoder = Decoder(extended: bool, pause: nat, modifiers: set<Modifier>)

  /** The set-1 keymaps, plain and extended, as some function of a 7-bit code. */
  type Keymap = (int, bool) -> Key

  const RELEASE := 0x80
  const EXTENDED := 0xe0
  const PAUSE := 0xe1
  const CAPACITY := 32

  function Group(key: Key): set<Modifier> {
    match key
    case LeftShift => {Shift}
    case RightShift => {Shift}
    case LeftCtrl => {Ctrl}
    case RightCtrl => {Ctrl}
    case LeftAlt => {Alt}
    case RightAlt => {Alt}
    case _ => {}
  }

  function Lock(key: Key): set<Modifier> {
    match key
    case CapsKey => {CapsLock}
    case NumKey => {NumLock}
    case ScrollKey => {ScrollLock}
    case _ => {}
  }

  /** ps2_update_modifier(): held modifiers follow the last event, locks toggle on a press. */
  function UpdateModifier(m: set<Modifier>, key: Key, pressed: bool): set<Modifier> {
    if pressed then (m + Group(key) + Lock(key)) - (m * Lock(key)) else m - Group(key)
  }

  /** One round of ps2_keyboard_work(). */
  function DecodeByte(d: Decoder, byte: int, keymap: Keymap): (Decoder, seq<Event>) {
    var key := keymap(byte % RELEASE, d.extended);
    var pressed := byte < RELEASE;
    if d.pause != 0 then (d.(pause := d.pause - 1), [])
    else if byte == PAUSE then (d.(pause := 5), [])
    else if byte == EXTENDED then (d.(extended := true), [])
    else if key == Reserved then (d.(extended := false), [])
    else
      var m := UpdateModifier(d.modifiers, key, pressed);
      (d.(extended := false, modifiers := m), [Event(key, pressed, m)])
  }

  /** A whole stream of bytes. */
  function Decode(d: Decoder, bytes: seq<int>, keymap: Keymap): (Decoder, seq<Event>)
    decreases |bytes|
  {
    if bytes == [] then (d, [])
    else
      var (d1, e1) := DecodeByte(d, bytes[0], keymap);
      var (d2, e2) := Decode(d1, bytes[1..], keymap);
      (d2, e1 + e2)
  }

  /** How the stream is cut into runs of the callback does not matter. */
  lemma {:induction false} DecodeSplits(d: Decoder, a: seq<int>, b: seq<int>, keymap: Keymap)
    ensures var (d1, e1) := Decode(d, a, keymap);
      var (d2, e2) := Decode(d1, b, keymap);
      Decode(d, a + b, keymap) == (d2, e1 + e2)
    decreases |a|
  {
    if a == [] {
      assert a + b == b;
      assert [] + Decode(d, b, keymap).1 == Decode(d, b, keymap).1;
    } else {
      assert (a + b)[1..] == a[1..] + b;
      DecodeSplits(DecodeByte(d, a[0], keymap).0, a[1..], b, keymap);
      var e0 := DecodeByte(d, a[0], keymap).1;
      var (d1, e1) := Decode(DecodeByte(d, a[0], keymap).0, a[1..], keymap);
      var (d2, e2) := Decode(d1, b, keymap);
      assert e0 + (e1 + e2) == (e0 + e1) + e2;
    }
  }

  // ----- modifiers -----

  /** A decoded key movement. */
  datatype Stroke = Stroke(key: Key, pressed: bool)

  function Modifiers(m: set<Modifier>, strokes: seq<Stroke>): set<Modifier>
    decreases |strokes|
  {
    if strokes == [] then m
    else
      var last := strokes[|strokes| - 1];
      UpdateModifier(Modifiers(m, strokes[..|strokes| - 1]), last.key, last.pressed)
  }

  /** The keys down after a run of strokes. */
  function Held(strokes: seq<Stroke>): set<Key>
    decreases |strokes|
  {
    if strokes == [] then {}
    else
      var last := strokes[|strokes| - 1];
      var before := Held(strokes[..|strokes| - 1]);
      if last.pressed then before + {last.key} else before - {last.key}
  }

  /** Which keys each modifier belongs to. */
  lemma ModifierKeys(x: Modifier, key: Key)
    ensures x in Group(key) <==>
      match x
      case Shift => key == LeftShift || key == RightShift
      case Ctrl => key == LeftCtrl || key == RightCtrl
      case Alt => key == LeftAlt || key == RightAlt
      case _ => false
    ensures x in Lock(key) <==>
      match x
      case CapsLock => key == CapsKey
      case NumLock => key == NumKey
      case ScrollLock => key == ScrollKey
      case _ => false
  {
  }

  /** The index of the last stroke of a modifier's keys, or -1. */
  function LastOf(strokes: seq<Stroke>, x: Modifier): (i: int)
    ensures -1 <= i < |strokes|
    ensures i >= 0 ==> x in Group(strokes[i].key)
    ensures forall j :: i < j < |strokes| ==> x !in Group(strokes[j].key)
    decreases |strokes|
  {
    if strokes == [] then -1
    else if x in Group(strokes[|strokes| - 1].key) then |strokes| - 1
    else LastOf(strokes[..|strokes| - 1], x)
  }

  predicate Holdable(x: Modifier) { x == Shift || x == Ctrl || x == Alt }

  predicate Down(strokes: seq<Stroke>, x: Modifier) {
    exists k :: k in Held(strokes) && x in Group(k)
  }

  /** Shift, control and alt tell whether the last stroke of one of their keys was a press. */
  lemma {:induction false} FollowsLastStroke(strokes: seq<Stroke>, x: Modifier)
    requires Holdable(x)
    ensures x in Modifiers({}, strokes) <==> LastOf(strokes, x) >= 0 && strokes[LastOf(strokes, x)].pressed
    decreases |strokes|
  {
    if strokes != [] {
      FollowsLastStroke(strokes[..|strokes| - 1], x);
    }
  }

  /** Documented as "either key is active", which holds exactly unless the last stroke of the
      group released one key while the other was down. */
  lemma {:induction false} ActiveExactly(strokes: seq<Stroke>, x: Modifier)
    requires Holdable(x)
    ensures (x in Modifiers({}, strokes) <==> Down(strokes, x)) <==> !(LastOf(strokes, x) >= 0 && !strokes[LastOf(strokes, x)].pressed && OtherDown(strokes, x))
  {
    FollowsLastStroke(strokes, x);
    var i := LastOf(strokes, x);
    SinceLast(strokes, x);
    if i >= 0 && strokes[i].pressed {
      assert strokes[i].key in Held(strokes);
    }
  }

  /** Another key of the group is down when the group's last stroke comes. */
  predicate OtherDown(strokes: seq<Stroke>, x: Modifier)
  {
    var i := LastOf(strokes, x);
    i >= 0 && exists k :: k in Held(strokes[..i]) && x in Group(k) && k != strokes[i].key
  }

  /** The group's keys are as its last stroke left them. */
  lemma {:induction false} SinceLast(strokes: seq<Stroke>, x: Modifier)
    ensures var i := LastOf(strokes, x);
      && (i < 0 ==> !Down(strokes, x))
      && (i >= 0 && strokes[i].pressed ==> strokes[i].key in Held(strokes))
      && (i >= 0 && !strokes[i].pressed ==> (Down(strokes, x) <==> OtherDown(strokes, x)))
    decreases |strokes|
  {
    if strokes != [] {
      var n := |strokes| - 1;
      var before := strokes[..n];
      if x !in Group(strokes[n].key) {
        SinceLast(before, x);
        var i := LastOf(before, x);
        assert forall k :: x in Group(k) ==> (k in Held(strokes) <==> k in Held(before));
        if i >= 0 {
          assert strokes[..i] == before[..i];
        }
      }
    }
  }

  /** The documented meaning fails on: left shift down, right shift down, right shift up. */
  lemma ShiftLostWhileHeld()
    ensures var strokes := [Stroke(LeftShift, true), Stroke(RightShift, true), Stroke(RightShift, false)];
      LeftShift in Held(strokes) && Shift !in Modifiers({}, strokes)
  {
  }

  /** The lock modifiers tell whether their key was pressed an odd number of times. */
  lemma {:induction false} LockParity(strokes: seq<Stroke>, key: Key, x: Modifier)
    requires Lock(key) == {x}
    ensures x in Modifiers({}, strokes) <==> Presses(strokes, key) % 2 == 1
    decreases |strokes|
  {
    if strokes != [] {
      LockParity(strokes[..|strokes| - 1], key, x);
    }
  }

  function Presses(strokes: seq<Stroke>, key: Key): nat
    decreases |strokes|
  {
    if strokes == [] then 0
    else Presses(strokes[..|strokes| - 1], key) + if strokes[|strokes| - 1] == Stroke(key, true) then 1 else 0
  }

  // ----- what the keyboard sends -----

  /** A movement of the key with a 7-bit set-1 code, plain or extended, or the pause key, which sends
      six bytes at once and no release. */
  datatype Input = Keyed(code: int, extended: bool, pressed: bool) | PauseKey(tail: seq<int>)

  /** The bytes on the wire. The release of codes 0x60 and 0x61 would read as a prefix. */
  predicate Sendable(i: Input) {
    match i
    case Keyed(code, _, pressed) => 0 <= code < 0x80 && (pressed || (code != 0x60 && code != 0x61))
    case PauseKey(tail) => |tail| == 5
  }

  function Bytes(i: Input): seq<int> {
    match i
    case Keyed(code, extended, pressed) => (if extended then [0xe0] else []) + [if pressed then code else code + 0x80]
    case PauseKey(tail) => [0xe1] + tail
  }

  function AllBytes(inputs: seq<Input>): seq<int>
    decreases |inputs|
  {
    if inputs == [] then [] else AllBytes(inputs[..|inputs| - 1]) + Bytes(inputs[|inputs| - 1])
  }

  /** The strokes of known keys. */
  function Strokes(inputs: seq<Input>, keymap: Keymap): seq<Stroke>
    decreases |inputs|
  {
    if inputs == [] then []
    else
      var last := inputs[|inputs| - 1];
      Strokes(inputs[..|inputs| - 1], keymap) +
      if last.PauseKey? || keymap(last.code, last.extended) == Reserved then []
      else [Stroke(keymap(last.code, last.extended), last.pressed)]
  }

  /** One event for each stroke, with the modifiers as that stroke leaves them. */
  function Events(strokes: seq<Stroke>): (events: seq<Event>)
    ensures |events| == |strokes|
  {
    seq(|strokes|, i requires 0 <= i < |strokes| => Event(strokes[i].key, strokes[i].pressed, Modifiers({}, strokes[..i + 1])))
  }

  /** Whatever is typed, the decoder reports exactly the strokes of known keys, in order, and is
      then ready for the next. */
  lemma {:induction false} DecodesStrokes(inputs: seq<Input>, keymap: Keymap)
    requires forall i :: 0 <= i < |inputs| ==> Sendable(inputs[i])
    ensures var strokes := Strokes(inputs, keymap);
      Decode(Decoder(false, 0, {}), AllBytes(inputs), keymap) == (Decoder(false, 0, Modifiers({}, strokes)), Events(strokes))
    decreases |inputs|
  {
    if inputs != [] {
      var before, last := inputs[..|inputs| - 1], inputs[|inputs| - 1];
      DecodesStrokes(before, keymap);
      DecodeSplits(Decoder(false, 0, {}), AllBytes(before), Bytes(last), keymap);
      var strokes := Strokes(before, keymap);
      DecodesInput(Decoder(false, 0, Modifiers({}, strokes)), last, keymap);
      if last.PauseKey? || keymap(last.code, last.extended) == Reserved {
        assert strokes + [] == strokes && Events(strokes) + [] == Events(strokes);
      } else {
        EventsGrow(strokes, Stroke(keymap(last.code, last.extended), last.pressed));
      }
    }
  }

  lemma EventsGrow(strokes: seq<Stroke>, s: Stroke)
    ensures Modifiers({}, strokes + [s]) == UpdateModifier(Modifiers({}, strokes), s.key, s.pressed)
    ensures Events(strokes + [s]) == Events(strokes) + [Event(s.key, s.pressed, Modifiers({}, strokes + [s]))]
  {
    var all := strokes + [s];
    assert all[..|strokes|] == strokes && all[..|strokes| + 1] == all;
    forall i | 0 <= i < |strokes|
      ensures Events(all)[i] == Events(strokes)[i]
    {
      assert all[..i + 1] == strokes[..i + 1];
    }
  }

  /** One key movement, from a decoder between two. */
  lemma DecodesInput(d: Decoder, i: Input, keymap: Keymap)
    requires !d.extended && d.pause == 0 && Sendable(i)
    ensures Decode(d, Bytes(i), keymap) ==
      if i.PauseKey? || keymap(i.code, i.extended) == Reserved then (d, [])
      else
        var key := keymap(i.code, i.extended);
        var m := UpdateModifier(d.modifiers, key, i.pressed);
        (d.(modifiers := m), [Event(key, i.pressed, m)])
  {
    match i
    case PauseKey(tail) =>
      DecodeOne(d, 0xe1, keymap);
      DecodeSplits(d, [0xe1], tail, keymap);
      Skips(d.(pause := 5), tail, keymap);
    case Keyed(code, extended, pressed) =>
      var byte := if pressed then code else code + 0x80;
      assert byte % RELEASE == code;
      if extended {
        DecodeOne(d, 0xe0, keymap);
        DecodeSplits(d, [0xe0], [byte], keymap);
        DecodeOne(d.(extended := true), byte, keymap);
        var e := DecodeByte(d.(extended := true), byte, keymap).1;
        assert [] + e == e;
      } else {
        DecodeOne(d, byte, keymap);
        assert Bytes(i) == [byte];
      }
  }

  /** The release of code 0x60 or 0x61 is not seen: its byte is a prefix. */
  lemma PrefixSwallows(d: Decoder, code: int, keymap: Keymap)
    requires !d.extended && d.pause == 0 && (code == 0x60 || code == 0x61)
    ensures Decode(d, Bytes(Keyed(code, false, false)), keymap).1 == []
  {
    DecodeOne(d, code + 0x80, keymap);
    assert Bytes(Keyed(code, false, false)) == [code + 0x80];
  }

  /** Inside the pause sequence nothing is read. */
  lemma {:induction false} Skips(d: Decoder, bytes: seq<int>, keymap: Keymap)
    requires |bytes| <= d.pause
    ensures Decode(d, bytes, keymap) == (d.(pause := d.pause - |bytes|), [])
    decreases |bytes|
  {
    if bytes != [] {
      var d1 := d.(pause := d.pause - 1);
      Skips(d1, bytes[1..], keymap);
      var (d2, none) := Decode(d1, bytes[1..], keymap);
      assert [] + none == [];
    }
  }

  // ----- the driver -----

  class Driver {
    const raw: Ring.Queue<int>
    const keymap: Keymap
    var modifiers: set<Modifier>
    var extendedPending: bool
    var pauseBytes: nat

    ghost function State(): Decoder
      reads this
    {
      Decoder(extendedPending, pauseBytes, modifiers)
    }

    /** ps2_keyboard_init(). */
    constructor (keymap: Keymap)
      ensures raw.Valid() && raw.items == [] && State() == Decoder(false, 0, {}) && this.keymap == keymap
      ensures fresh(raw) && fresh(raw.data)
    {
      raw := new Ring.Queue(CAPACITY, 0);
      this.keymap := keymap;
      modifiers, extendedPending, pauseBytes := {}, false, 0;
    }

    /** ps2_update_modifier(). */
    method Update(key: Key, pressed: bool)
      modifies this`modifiers
      ensures modifiers == UpdateModifier(old(modifiers), key, pressed)
    {
      var mask: set<Modifier> := {};
      if key == LeftShift || key == RightShift {
        mask := {Shift};
      } else if key == LeftCtrl || key == RightCtrl {
        mask := {Ctrl};
      } else if key == LeftAlt || key == RightAlt {
        mask := {Alt};
      } else if pressed && (key == CapsKey || key == NumKey || key == ScrollKey) {
        var flag := if key == CapsKey then CapsLock else if key == NumKey then NumLock else ScrollLock;
        modifiers := if flag in modifiers then modifiers - {flag} else modifiers + {flag};
        return;
      }
      if mask == {} {
        return;
      }
      modifiers := if pressed then modifiers + mask else modifiers - mask;
    }

    /** The body of ps2_keyboard_work()'s loop. */
    method Step(scancode: int) returns (events: seq<Event>)
      modifies this`modifiers, this`extendedPending, this`pauseBytes
      ensures (State(), events) == DecodeByte(old(State()), scancode, keymap)
    {
      var extended := extendedPending;
      var pressed := scancode < RELEASE;
      if pauseBytes != 0 {
        pauseBytes := pauseBytes - 1;
        return [];
      }
      if scancode == PAUSE {
        pauseBytes := 5;
        return [];
      }
      if scancode == EXTENDED {
        extendedPending := true;
        return [];
      }
      extendedPending := false;
      var key := keymap(scancode % RELEASE, extended);
      if key == Reserved {
        return [];
      }
      Update(key, pressed);
      return [Event(key, pressed, modifiers)];
    }

    /** ps2_keyboard_work() over the bytes in the ring: it decodes them all, in order. */
    method Work() returns (events: seq<Event>)
      requires raw.Valid()
      modifies this`modifiers, this`extendedPending, this`pauseBytes, raw`head, raw`count, raw`items
      ensures raw.Valid() && raw.items == []
      ensures (State(), events) == Decode(old(State()), old(raw.items), keymap)
    {
      events := [];
      ghost var done: seq<int>, left := [], raw.items;
      var found, scancode := raw.Pop(0);
      while found
        invariant raw.Valid() && old(raw.items) == done + left
        invariant (State(), events) == Decode(old(State()), done, keymap)
        invariant if found then left == [scancode] + raw.items else left == [] == raw.items
        decreases |raw.items| + if found then 1 else 0
      {
        DecodeNext(old(State()), done, scancode, keymap);
        OneMore(done, scancode, raw.items);
        var more := Step(scancode);
        events := events + more;
        done, left := done + [scancode], raw.items;
        found, scancode := raw.Pop(0);
      }
      assert done == old(raw.items);
    }
  }

  lemma OneMore(done: seq<int>, x: int, rest: seq<int>)
    ensures done + ([x] + rest) == (done + [x]) + rest
  {
  }

  lemma DecodeNext(d: Decoder, done: seq<int>, byte: int, keymap: Keymap)
    ensures var (d1, events) := Decode(d, done, keymap);
      var (d2, more) := DecodeByte(d1, byte, keymap);
      Decode(d, done + [byte], keymap) == (d2, events + more)
  {
    DecodeSplits(d, done, [byte], keymap);
    DecodeOne(Decode(d, done, keymap).0, byte, keymap);
  }

  lemma DecodeOne(d: Decoder, byte: int, keymap: Keymap)
    ensures Decode(d, [byte], keymap) == DecodeByte(d, byte, keymap)
  {
    var (d1, e1) := DecodeByte(d, byte, keymap);
    assert [byte][1..] == [];
    assert Decode(d1, [], keymap) == (d1, []);
    assert e1 + [] == e1;
  }
}
