/** The event handlers of `LinearTouchPhidgetManager` as a state machine:
    device attach and detach notifications, touch input changes and
    position changes, each turned into at most one line on the telnet
    connection. Events are handled one at a time, in delivery order. */
module PhidgetManager {
  import opened Common
  import JavaInts
  import Handshake

  const PauseCommand: string := "pause"
  const PlayCommand: string := "play"

  /** The raw position is divided by this to get a percentage. */
  const SeekDivisor: int := 10

  /** A notification from the device runtime. `serial` is the device's
      serial number and `isLinearTouch` says whether its device id is the
      linear-touch sensor's. */
  datatype Event =
    | Attach(serial: int, isLinearTouch: bool)
    | Detach(serial: int)
    | Input(index: int, state: bool)
    | Sensor(value: int)

  /** The manager's fields: the attached-device counter, the serial of the
      device handle it last opened (`mPhidget`), every handle it opened and
      subscribed to (none is ever closed), the last seek percentage, and the
      command lines written so far. */
  datatype Manager = Manager(count: int, active: Option<int>, handles: seq<int>, seekTo: int, out: seq<string>)

  const Initial: Manager := Manager(0, None, [], 0, [])

  /** Raw positions whose percentage Java prints as plain `N.0`: from 10^7
      on, `Double.toString` switches to scientific notation. */
  predicate Renderable(v: int) {
    -100_000_000 < v < 100_000_000
  }

  predicate ValidEvent(e: Event) {
    e.Sensor? ==> Renderable(e.value)
  }

  predicate AllValid(es: seq<Event>) {
    forall i :: 0 <= i < |es| ==> ValidEvent(es[i])
  }

  predicate IsLinearAttach(e: Event) {
    e.Attach? && e.isLinearTouch
  }

  /** The percentage for a raw position: Java's `int` division, which
      truncates toward zero; `Math.round` of the integral result changes
      nothing. */
  function SeekPercent(v: int): (p: int)
    ensures 0 <= v ==> p * SeekDivisor <= v < p * SeekDivisor + SeekDivisor
    ensures v < 0 ==> p * SeekDivisor - SeekDivisor < v <= p * SeekDivisor
    ensures 0 <= v <= 1000 ==> 0 <= p <= 100
    ensures Renderable(v) ==> -10_000_000 < p < 10_000_000
  {
    JavaInts.TruncDiv(v, SeekDivisor)
  }

  /** The seek line: the percentage is held in a `double`, so it prints
      with a trailing `.0`. */
  function SeekCommand(v: int): (c: string)
    requires Renderable(v)
    ensures 8 < |c| && c[..5] == "seek " && c[|c| - 3..] == ".0%"
    ensures c[5] == '-' <==> v <= -SeekDivisor
  {
    "seek " + JavaInts.IntToString(SeekPercent(v)) + ".0%"
  }

  /** The lines one event writes to the connection. */
  function Emit(e: Event): (cmds: seq<string>)
    requires ValidEvent(e)
    ensures |cmds| <= 1
    ensures cmds != [] <==> (e.Input? && e.index == 0) || e.Sensor?
    ensures e.Input? && cmds != [] ==> cmds[0] == (if e.state then PauseCommand else PlayCommand)
    ensures e.Sensor? ==> 5 < |cmds[0]| && cmds[0][..5] == "seek "
  {
    match e
    case Input(index, state) =>
      if index == 0 then (if state then [PauseCommand] else [PlayCommand]) else []
    case Sensor(v) => [SeekCommand(v)]
    case Attach(_, _) => []
    case Detach(_) => []
  }

  /** One handler call. `attached` counts every device and, for a linear
      touch sensor, opens and subscribes a new handle before its capacity
      check, which throws; the catch only prints the stack trace. `detached`
      only decrements the counter. */
  function Step(m: Manager, e: Event): (m': Manager)
    requires ValidEvent(e)
    ensures m.out <= m'.out && |m'.out| <= |m.out| + 1
    ensures m.handles <= m'.handles && |m'.handles| <= |m.handles| + 1
    ensures (e.Attach? || e.Detach?) ==> m'.out == m.out && m'.seekTo == m.seekTo
    ensures !e.Sensor? ==> m'.seekTo == m.seekTo
    ensures !(e.Attach? || e.Detach?) ==> m'.count == m.count && m'.active == m.active && m'.handles == m.handles
    ensures !IsLinearAttach(e) ==> m'.active == m.active && m'.handles == m.handles
  {
    match e
    case Attach(serial, isLinearTouch) =>
      var m1 := m.(count := m.count + 1);
      if isLinearTouch then m1.(active := Some(serial), handles := m.handles + [serial]) else m1
    case Detach(_) => m.(count := m.count - 1)
    case Input(_, _) => m.(out := m.out + Emit(e))
    case Sensor(v) => m.(seekTo := SeekPercent(v), out := m.out + Emit(e))
  }

  /** The handlers run over a sequence of events, oldest first. */
  function Replay(m: Manager, es: seq<Event>): (r: Manager)
    requires AllValid(es)
    ensures m.out <= r.out && |r.out| <= |m.out| + |es|
    ensures m.handles <= r.handles && |r.handles| <= |m.handles| + |es|
    ensures r.count - |es| <= m.count <= r.count + |es|
    decreases |es|
  {
    if es == [] then m else Step(Replay(m, es[..|es| - 1]), es[|es| - 1])
  }

  // ---- The input handler

  /** Touch input 0 pressed writes exactly `pause`, released writes exactly
      `play` (after the handler's delay), any other input writes nothing;
      nothing but the output changes. */
  lemma InputCommands(m: Manager, index: int, state: bool)
    ensures index == 0 && state ==> Step(m, Input(index, state)).out == m.out + [PauseCommand]
    ensures index == 0 && !state ==> Step(m, Input(index, state)).out == m.out + [PlayCommand]
    ensures index != 0 ==> Step(m, Input(index, state)) == m
    ensures Step(m, Input(index, state)).(out := m.out) == m
  {
  }

  // ---- The sensor handler

  /** A seek line is `seek `, a decimal `int`, then `.0%`, and the number
      in it reads back as the percentage for the raw position. */
  lemma SeekCommandDecodes(v: int)
    requires Renderable(v)
    ensures var c := SeekCommand(v);
            && 8 < |c|
            && c[..5] == "seek "
            && c[|c| - 3..] == ".0%"
            && JavaInts.ParseInt(c[5..|c| - 3]) == Some(SeekPercent(v))
  {
    var p := SeekPercent(v);
    var digits := JavaInts.IntToString(p);
    var c := SeekCommand(v);
    assert c == "seek " + digits + ".0%";
    assert c[5..|c| - 3] == digits;
    JavaInts.ParseIntToString(p);
  }

  /** A sensor event writes its seek line, records the percentage and
      changes nothing else. */
  lemma SensorCommand(m: Manager, v: int)
    requires Renderable(v)
    ensures Step(m, Sensor(v)) == m.(seekTo := SeekPercent(v), out := m.out + [SeekCommand(v)])
  {
  }

  /** Moving further along the sensor never seeks backwards. */
  lemma SeekMonotone(v: int, w: int)
    requires v <= w
    ensures SeekPercent(v) <= SeekPercent(w)
  {
    JavaInts.TruncDivMonotone(v, w, SeekDivisor);
  }

  /** Truncation, not rounding: 455 seeks to 45, the full range to 100, and
      both sides of the resting position to 0. */
  lemma SeekExamples()
    ensures SeekCommand(455) == "seek 45.0%"
    ensures SeekCommand(1000) == "seek 100.0%"
    ensures SeekCommand(-15) == "seek -1.0%"
    ensures SeekCommand(-9) == "seek 0.0%" && SeekCommand(9) == "seek 0.0%"
  {
    assert SeekPercent(455) == 45;
    assert JavaInts.IntToString(45) == "45" by {
      assert JavaInts.NatToString(4) == "4";
    }
    assert SeekPercent(1000) == 100;
    assert JavaInts.IntToString(100) == "100" by {
      assert JavaInts.NatToString(1) == "1";
      assert JavaInts.NatToString(10) == "10";
    }
    assert SeekPercent(-15) == -1;
    assert JavaInts.IntToString(-1) == "-1" by {
      assert JavaInts.NatToString(1) == "1";
    }
  }

  // ---- Attach and detach

  /** An attach counts every device and a detach uncounts it, so an attach
      followed by a detach restores the counter; neither writes a line. */
  lemma AttachThenDetach(m: Manager, serial: int, isLinearTouch: bool, gone: int)
    ensures Step(m, Attach(serial, isLinearTouch)).count == m.count + 1
    ensures Step(m, Detach(gone)).count == m.count - 1
    ensures Step(m, Detach(gone)) == m.(count := m.count - 1)
    ensures !isLinearTouch ==> Step(m, Attach(serial, isLinearTouch)) == m.(count := m.count + 1)
    ensures isLinearTouch ==>
              (Step(m, Attach(serial, isLinearTouch)) ==
               m.(count := m.count + 1, active := Some(serial), handles := m.handles + [serial]))
    ensures Step(Step(m, Attach(serial, isLinearTouch)), Detach(gone)).count == m.count
    ensures Step(Step(m, Attach(serial, isLinearTouch)), Detach(gone)).out == m.out
  {
  }

  /** A device that is not a linear touch sensor leaves the handle alone;
      a linear touch sensor becomes the handle even when one is already
      counted, and a detach never clears it. */
  lemma AttachSetsHandle(m: Manager, serial: int, isLinearTouch: bool, gone: int)
    ensures !isLinearTouch ==> Step(m, Attach(serial, isLinearTouch)).active == m.active
    ensures isLinearTouch ==> Step(m, Attach(serial, isLinearTouch)).active == Some(serial)
    ensures isLinearTouch ==> Step(m, Attach(serial, isLinearTouch)).handles == m.handles + [serial]
    ensures Step(m, Detach(gone)).active == m.active
  {
  }

  /** Two linear touch sensors attached one after the other: the second
      replaces the first as the handle, both stay subscribed, and the
      counter reads two. */
  lemma SecondAttachReplaces(a: int, b: int)
    ensures Replay(Initial, [Attach(a, true), Attach(b, true)]) ==
              Manager(2, Some(b), [a, b], 0, [])
  {
    var es := [Attach(a, true), Attach(b, true)];
    var one := [Attach(a, true)];
    assert es[..1] == one;
    assert one[..0] == [];
    assert Replay(Initial, one) == Step(Replay(Initial, []), Attach(a, true));
    var first := Replay(Initial, one);
    assert Replay(Initial, es) == Step(first, Attach(b, true));
  }

  // ---- Whole event sequences

  function Attaches(es: seq<Event>): nat
    decreases |es|
  {
    if es == [] then 0 else Attaches(es[..|es| - 1]) + (if es[|es| - 1].Attach? then 1 else 0)
  }

  function Detaches(es: seq<Event>): nat
    decreases |es|
  {
    if es == [] then 0 else Detaches(es[..|es| - 1]) + (if es[|es| - 1].Detach? then 1 else 0)
  }

  /** The serials of the linear touch sensors attached, in order. */
  function LinearSerials(es: seq<Event>): seq<int>
    decreases |es|
  {
    if es == [] then []
    else LinearSerials(es[..|es| - 1]) + (if IsLinearAttach(es[|es| - 1]) then [es[|es| - 1].serial] else [])
  }

  /** The lines the events write, each event's lines in turn. */
  function Commands(es: seq<Event>): seq<string>
    requires AllValid(es)
    decreases |es|
  {
    if es == [] then [] else Commands(es[..|es| - 1]) + Emit(es[|es| - 1])
  }

  /** Events that write a line: touch input 0 and every position change. */
  function Dispatching(es: seq<Event>): nat
    decreases |es|
  {
    if es == [] then 0
    else
      var e := es[|es| - 1];
      Dispatching(es[..|es| - 1]) + (if (e.Input? && e.index == 0) || e.Sensor? then 1 else 0)
  }

  ghost predicate LastLinearAttach(es: seq<Event>, i: int) {
    0 <= i < |es| && IsLinearAttach(es[i]) && forall j :: i < j < |es| ==> !IsLinearAttach(es[j])
  }

  /** The counter is the number of attaches minus the number of detaches,
      with no lower bound: more detaches than attaches make it negative. */
  lemma {:induction false} ReplayCount(m: Manager, es: seq<Event>)
    requires AllValid(es)
    ensures Replay(m, es).count == m.count + Attaches(es) - Detaches(es)
    decreases |es|
  {
    if es != [] {
      ReplayCount(m, es[..|es| - 1]);
    }
  }

  /** Every linear touch sensor attached gets a handle that stays
      subscribed, in attach order. */
  lemma {:induction false} ReplayHandleList(m: Manager, es: seq<Event>)
    requires AllValid(es)
    ensures Replay(m, es).handles == m.handles + LinearSerials(es)
    decreases |es|
  {
    if es != [] {
      var init, last := es[..|es| - 1], es[|es| - 1];
      var prev := Replay(m, init);
      assert Replay(m, es) == Step(prev, last);
      assert LinearSerials(es) == LinearSerials(init) + (if IsLinearAttach(last) then [last.serial] else []);
      ReplayHandleList(m, init);
      if IsLinearAttach(last) {
        assert Step(prev, last).handles == prev.handles + [last.serial];
      } else {
        assert Step(prev, last).handles == prev.handles;
      }
    }
  }

  /** The handle is the last linear touch sensor attached, or the starting
      handle if none was. */
  lemma {:induction false} ReplayActive(m: Manager, es: seq<Event>)
    requires AllValid(es)
    ensures (forall i :: 0 <= i < |es| ==> !IsLinearAttach(es[i])) ==> Replay(m, es).active == m.active
    ensures forall i :: LastLinearAttach(es, i) ==> Replay(m, es).active == Some(es[i].serial)
    decreases |es|
  {
    if es != [] {
      var init, last := es[..|es| - 1], es[|es| - 1];
      var prev := Replay(m, init);
      assert Replay(m, es) == Step(prev, last);
      ReplayActive(m, init);
      if IsLinearAttach(last) {
        assert Step(prev, last).active == Some(last.serial);
      } else {
        assert Step(prev, last).active == prev.active;
        forall i | LastLinearAttach(es, i)
          ensures LastLinearAttach(init, i)
        {
        }
      }
    }
  }

  /** The handle is the last linear touch sensor attached, or the starting
      handle if none was; every such sensor's handle stays subscribed. */
  lemma ReplayHandles(m: Manager, es: seq<Event>)
    requires AllValid(es)
    ensures Replay(m, es).handles == m.handles + LinearSerials(es)
    ensures (forall i :: 0 <= i < |es| ==> !IsLinearAttach(es[i])) ==> Replay(m, es).active == m.active
    ensures forall i :: LastLinearAttach(es, i) ==> Replay(m, es).active == Some(es[i].serial)
  {
    ReplayHandleList(m, es);
    ReplayActive(m, es);
  }

  /** The connection receives exactly the events' own lines, in event order,
      whatever the device state: attach and detach contribute nothing. */
  lemma {:induction false} ReplayOutput(m: Manager, es: seq<Event>)
    requires AllValid(es)
    ensures Replay(m, es).out == m.out + Commands(es)
    decreases |es|
  {
    if es != [] {
      var init, last := es[..|es| - 1], es[|es| - 1];
      var prev := Replay(m, init);
      assert Replay(m, es) == Step(prev, last);
      assert Commands(es) == Commands(init) + Emit(last);
      ReplayOutput(m, init);
      assert Step(prev, last).out == prev.out + Emit(last);
      assert m.out + Commands(init) + Emit(last) == m.out + (Commands(init) + Emit(last));
    }
  }

  /** One line per touch-input-0 or position event and none for any other. */
  lemma {:induction false} CommandsCount(es: seq<Event>)
    requires AllValid(es)
    ensures |Commands(es)| == Dispatching(es) <= |es|
    decreases |es|
  {
    if es != [] {
      CommandsCount(es[..|es| - 1]);
    }
  }

  // ---- The whole program after argument parsing

  /** The constructor's handshake, then the handlers over the events the
      device runtime delivers once the listeners are registered. */
  datatype Session = Session(connection: Handshake.Connection, manager: Option<Manager>, wire: seq<string>)

  function Run(password: string, greeting: seq<string>, events: seq<Event>): (s: Session)
    requires AllValid(events)
    ensures 0 < |s.wire| && s.wire[0] == password
    ensures s.manager.Some? <==> Handshake.WrongPassword !in greeting
    ensures s.manager.None? ==> s.wire == [password]
    ensures s.manager.Some? ==> s.wire[1..] == s.manager.value.out
  {
    var c := Handshake.Connect(password, greeting);
    if c.listening then
      var m := Replay(Initial, events);
      Session(c, Some(m), c.sent + m.out)
    else Session(c, None, c.sent)
  }

  /** The password is the first line on the wire and the only one the
      handshake writes; a rejected password leaves no manager and nothing
      else on the wire, an accepted one is followed by the events' lines. */
  lemma RunWire(password: string, greeting: seq<string>, events: seq<Event>)
    requires AllValid(events)
    ensures 0 < |Run(password, greeting, events).wire|
    ensures Run(password, greeting, events).wire[0] == password
    ensures Handshake.WrongPassword in greeting ==>
              Run(password, greeting, events).wire == [password] && Run(password, greeting, events).manager.None?
    ensures Handshake.WrongPassword !in greeting ==>
              && Run(password, greeting, events).wire == [password] + Commands(events)
              && Run(password, greeting, events).manager.Some?
              && Run(password, greeting, events).manager.value.count == Attaches(events) - Detaches(events)
  {
    ReplayOutput(Initial, events);
    ReplayCount(Initial, events);
  }
}
