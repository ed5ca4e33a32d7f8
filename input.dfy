/** The key dispatch of Frame. Each getch() result is stored in a (signed)
    char; a -1 there ends the frame, as does running out of input, where
    getch() returns ERR. Backspace (8) drops the last character of the
    input buffer, Enter (10) sends the buffer to the primary room and
    empties it, '_' (95) asks for the next room, 27 (what KEY_MOUSE and
    Escape both narrow to) reads the mouse event and passes a button-1
    click to the tab hit test, and every other code is appended to the
    buffer as a byte. Requests to the client are returned as commands. */
module Input {
  import opened CLib
  import opened Optional
  import opened Client
  import TabBar

  const Backspace: int := 8
  const Enter: int := 10
  const Mouse: int := 27
  /** '_', which the source's comment calls Shift + Tab. */
  const NextRoom: int := 95

  /** What nc_getmouse reports: the cell clicked and whether BUTTON1_CLICKED
      is set in the button state. */
  datatype MouseEvent = MouseEvent(x: int, y: int, button1Clicked: bool)

  /** One getch() result, with what nc_getmouse would report if it is read
      next (None when nc_getmouse does not return OK). */
  datatype Key = Key(code: int, mouse: Option<MouseEvent>)

  /** `char ch = getch()`: the low byte of the code, as a signed char. */
  function SignedChar(code: int): (ch: int)
    ensures -128 <= ch < 128
    ensures (ch - code) % 256 == 0
  {
    (code + 128) % 256 - 128
  }

  /** The key that ends the frame: ch == -1. */
  predicate Stops(k: Key) {
    SignedChar(k.code) == -1
  }

  /** The buffer after a key, and the commands the key sends. */
  datatype Effect = Effect(buffer: string, commands: seq<Command>)

  /** The commands of a mouse key: a room selection when the event was read,
      button 1 was clicked and the click is on a tab. */
  function Click(mouse: Option<MouseEvent>, names: seq<string>): seq<Command> {
    if mouse.Some? && mouse.value.button1Clicked then
      match TabBar.Hit(names, mouse.value.x, mouse.value.y)
      case Some(k) => [SelectRoom(k)]
      case None => []
    else []
  }

  /** One pass of the switch in Frame: a key sends at most one command, and
      leaves the buffer cleared, as it was, one character shorter, or one
      byte longer. */
  function Step(k: Key, names: seq<string>, buffer: string): (e: Effect)
    ensures |e.commands| <= 1
    ensures e.buffer == [] || e.buffer == buffer
      || (|buffer| > 0 && e.buffer == buffer[..|buffer| - 1])
      || (|e.buffer| == |buffer| + 1 && e.buffer[..|buffer|] == buffer)
  {
    var ch := SignedChar(k.code);
    if ch == Backspace then
      Effect(if |buffer| > 0 then buffer[..|buffer| - 1] else buffer, [])
    else if ch == Enter then Effect("", [SendChat(buffer)])
    else if ch == NextRoom then Effect(buffer, [SelectDelta(1)])
    else if ch == Mouse then Effect(buffer, Click(k.mouse, names))
    else Effect(buffer + [NarrowToChar(ch)], [])
  }

  /** What a frame leaves: the buffer, the commands in order, and how many
      keys it dispatched before the stop. */
  datatype Outcome = Outcome(buffer: string, commands: seq<Command>, consumed: nat)

  /** The keys of a frame, dispatched one by one up to the first stop. */
  function Drain(keys: seq<Key>, names: seq<string>, buffer: string): Outcome {
    if keys == [] || Stops(keys[0]) then Outcome(buffer, [], 0)
    else
      var e := Step(keys[0], names, buffer);
      var o := Drain(keys[1..], names, e.buffer);
      Outcome(o.buffer, e.commands + o.commands, o.consumed + 1)
  }

  /** The keys a frame consumes are exactly those before the first stop, or
      all of them when there is none, and each sends at most one command. */
  lemma {:induction false} DrainConsumes(keys: seq<Key>, names: seq<string>, buffer: string)
    ensures var o := Drain(keys, names, buffer);
      && o.consumed <= |keys|
      && (forall j :: 0 <= j < o.consumed ==> !Stops(keys[j]))
      && (o.consumed < |keys| ==> Stops(keys[o.consumed]))
      && |o.commands| <= o.consumed
  {
    if keys != [] && !Stops(keys[0]) {
      var e := Step(keys[0], names, buffer);
      DrainConsumes(keys[1..], names, e.buffer);
      var o := Drain(keys[1..], names, e.buffer);
      forall j | 0 < j < o.consumed + 1
        ensures !Stops(keys[j])
      {
        assert keys[j] == keys[1..][j - 1];
      }
    }
  }

  /** One key of a frame: a key that is not a stop is dispatched, and the
      rest of the frame goes on from the buffer it leaves. */
  lemma DrainStep(keys: seq<Key>, i: nat, names: seq<string>, buffer: string, done: seq<Command>)
    requires i < |keys| && !Stops(keys[i])
    ensures var e := Step(keys[i], names, buffer);
      var o := Drain(keys[i + 1..], names, e.buffer);
      var p := Drain(keys[i..], names, buffer);
      Outcome(p.buffer, done + p.commands, i + p.consumed)
        == Outcome(o.buffer, done + e.commands + o.commands, i + 1 + o.consumed)
  {
    assert keys[i..][1..] == keys[i + 1..];
    var e := Step(keys[i], names, buffer);
    var o := Drain(keys[i + 1..], names, e.buffer);
    assert done + (e.commands + o.commands) == done + e.commands + o.commands;
  }

  /** Whether a room is selected whenever an Enter is dispatched (Enter
      dereferences the primary room without checking it): a click on a tab
      selects one; '_' is passed to the client, whose effect is not known
      here, and leaves the answer as it was. */
  predicate SelectedAtEnters(keys: seq<Key>, names: seq<string>, selected: bool) {
    if keys == [] || Stops(keys[0]) then true
    else
      var ch := SignedChar(keys[0].code);
      if ch == Enter then selected && SelectedAtEnters(keys[1..], names, selected)
      else if ch == Mouse && Click(keys[0].mouse, names) != [] then SelectedAtEnters(keys[1..], names, true)
      else SelectedAtEnters(keys[1..], names, selected)
  }

  /** Backspace removes exactly the last character, and leaves an empty
      buffer empty. */
  lemma BackspaceErases(k: Key, names: seq<string>, buffer: string)
    requires SignedChar(k.code) == Backspace
    ensures var e := Step(k, names, buffer);
      && e.commands == []
      && (buffer == [] ==> e.buffer == [])
      && (buffer != [] ==> e.buffer + [buffer[|buffer| - 1]] == buffer)
  {
  }

  /** Enter sends the whole buffer and empties it. */
  lemma EnterSends(k: Key, names: seq<string>, buffer: string)
    requires SignedChar(k.code) == Enter
    ensures Step(k, names, buffer) == Effect("", [SendChat(buffer)])
  {
  }

  /** '_' asks for the next room and leaves the buffer alone. */
  lemma NextRoomKeepsBuffer(k: Key, names: seq<string>, buffer: string)
    requires SignedChar(k.code) == NextRoom
    ensures Step(k, names, buffer) == Effect(buffer, [SelectDelta(1)])
  {
  }

  /** A mouse key leaves the buffer alone and selects room r exactly when
      button 1 was clicked on room r's tab. */
  lemma MouseSelects(k: Key, names: seq<string>, buffer: string, r: nat)
    requires SignedChar(k.code) == Mouse
    ensures Step(k, names, buffer).buffer == buffer
    ensures Step(k, names, buffer).commands == [SelectRoom(r)] <==>
      k.mouse.Some? && k.mouse.value.button1Clicked
      && TabBar.Hit(names, k.mouse.value.x, k.mouse.value.y) == Some(r)
    ensures |Step(k, names, buffer).commands| <= 1
  {
  }

  /** The codes the switch has no case for. */
  predicate Typed(code: int) {
    var ch := SignedChar(code);
    ch != -1 && ch != Backspace && ch != Enter && ch != NextRoom && ch != Mouse
  }

  /** Any other key appends its byte. */
  lemma OtherKeyAppends(k: Key, names: seq<string>, buffer: string)
    requires Typed(k.code)
    ensures Step(k, names, buffer) == Effect(buffer + [NarrowToChar(k.code)], [])
  {
    var ch := SignedChar(k.code);
    assert (ch - k.code) % 256 == 0;
    assert NarrowToChar(ch) == NarrowToChar(k.code) by {
      assert ch % 256 == k.code % 256;
    }
  }

  /** A typed character followed by Backspace leaves the buffer as it was. */
  lemma TypeThenErase(k: Key, bs: Key, names: seq<string>, buffer: string)
    requires Typed(k.code) && SignedChar(bs.code) == Backspace
    ensures Drain([k, bs], names, buffer) == Outcome(buffer, [], 2)
  {
    OtherKeyAppends(k, names, buffer);
    var typed := buffer + [NarrowToChar(k.code)];
    assert typed[..|typed| - 1] == buffer;
    assert [k, bs][1..] == [bs];
    assert [bs][1..] == [];
    assert Drain([bs], names, typed) == Outcome(buffer, [], 1);
  }

  /** The keys that type the characters of s, none of them a key the switch
      handles. */
  predicate TypesOut(keys: seq<Key>, s: string) {
    |keys| == |s|
    && forall j :: 0 <= j < |keys| ==> Typed(keys[j].code) && NarrowToChar(keys[j].code) == s[j]
  }

  /** Typing is appending: keys that type s append s, in order, and send
      nothing. */
  lemma {:induction false} TypingAppends(keys: seq<Key>, s: string, names: seq<string>, buffer: string)
    requires TypesOut(keys, s)
    ensures Drain(keys, names, buffer) == Outcome(buffer + s, [], |s|)
  {
    if keys != [] {
      OtherKeyAppends(keys[0], names, buffer);
      assert TypesOut(keys[1..], s[1..]);
      TypingAppends(keys[1..], s[1..], names, buffer + [s[0]]);
      assert buffer + [s[0]] + s[1..] == buffer + s;
    }
  }

  /** Dispatch is sequential: draining two runs of keys, the first without a
      stop, is draining the first and then the second from where it left
      the buffer. */
  lemma {:induction false} DrainAppend(a: seq<Key>, b: seq<Key>, names: seq<string>, buffer: string)
    requires forall j :: 0 <= j < |a| ==> !Stops(a[j])
    ensures var first := Drain(a, names, buffer);
      var second := Drain(b, names, first.buffer);
      Drain(a + b, names, buffer)
        == Outcome(second.buffer, first.commands + second.commands, |a| + second.consumed)
  {
    if a == [] {
      assert a + b == b;
    } else {
      var e := Step(a[0], names, buffer);
      assert (a + b)[1..] == a[1..] + b;
      DrainAppend(a[1..], b, names, e.buffer);
      var first := Drain(a[1..], names, e.buffer);
      var second := Drain(b, names, first.buffer);
      assert e.commands + (first.commands + second.commands)
        == (e.commands + first.commands) + second.commands;
    }
  }

  /** Nothing after the first stop is read: the keys before it are the
      whole frame. */
  lemma {:induction false} StopEndsFrame(a: seq<Key>, stop: Key, rest: seq<Key>, names: seq<string>, buffer: string)
    requires forall j :: 0 <= j < |a| ==> !Stops(a[j])
    requires Stops(stop)
    ensures Drain(a + [stop] + rest, names, buffer) == Drain(a, names, buffer)
    ensures Drain(a, names, buffer).consumed == |a|
  {
    if a != [] {
      assert (a + [stop] + rest)[1..] == a[1..] + [stop] + rest;
      StopEndsFrame(a[1..], stop, rest, names, Step(a[0], names, buffer).buffer);
    } else {
      assert (a + [stop] + rest)[0] == stop;
    }
  }

  /** A byte 0xFF from the keyboard reads back as -1 and ends the frame as
      ERR does. */
  lemma ByteFFStops(mouse: Option<MouseEvent>)
    ensures Stops(Key(255, mouse)) && Stops(Key(-1, mouse))
    ensures !Typed(255)
  {
  }
}
