/** What every call of the JTAG driver clocks out, and the proof that the state it keeps
    in `jam_jtag_state` is the state the controller is really in. */
module JtagCalls {
  import opened JtagTap

  const LOW: Pulse := Pulse(false, false)
  const HIGH: Pulse := Pulse(true, false)

  datatype Register = DR | IR

  function PauseCode(r: Register): Code {
    if r.DR? then DRPAUSE else IRPAUSE
  }

  function ShiftTap(r: Register): Tap {
    if r.DR? then ShiftDr else ShiftIr
  }

  function Exit1Tap(r: Register): Tap {
    if r.DR? then Exit1Dr else Exit1Ir
  }

  // ---------------------------------------------------------------------------
  // jam_goto_jtag_state and jam_jtag_reset_idle
  // ---------------------------------------------------------------------------

  const RESET_IDLE: seq<Pulse> := Levels([true, true, true, true, true, false])

  /** Step by step along the path map; the source gives up after nine steps. */
  function Path(c: Code, target: Code): (ps: seq<Pulse>)
    ensures |ps| <= 8
    ensures |ps| == Distance(c, target)
    decreases Distance(c, target)
  {
    if c == target then []
    else
      DistanceStep(c, target);
      [Pulse(TmsToward(c, target), false)] + Path(Toward(c, target), target)
  }

  /** Already there: one clock that stays in a stable state, none in the others. */
  function Hold(target: Code): seq<Pulse> {
    if target == IDLE || target == DRSHIFT || target == DRPAUSE || target == IRSHIFT || target == IRPAUSE
    then [LOW]
    else if target == RESET then [HIGH]
    else []
  }

  function GotoFrom(c: Code, target: Code): seq<Pulse> {
    if c == target then Hold(target) else Path(c, target)
  }

  function GotoPulses(s: State, target: Code): seq<Pulse> {
    match s
    case Unknown => RESET_IDLE + GotoFrom(IDLE, target)
    case At(c) => GotoFrom(c, target)
  }

  lemma {:induction false} PathArrives(c: Code, target: Code)
    ensures Run(TapOf(c), Path(c, target)) == TapOf(target)
    decreases Distance(c, target)
  {
    hide PathMap, TmsHigh, TmsLow, TapOf, NextTap, Distance;
    if c != target {
      DistanceStep(c, target);
      TableIsController(c, TmsToward(c, target));
      PathArrives(Toward(c, target), target);
    }
  }

  lemma ShiftIsNeverPassedThrough(c: Code, target: Code)
    requires c != target && Toward(c, target) != target
    ensures TapOf(Toward(c, target)) !in {ShiftDr, ShiftIr}
  {
  }

  /** On its way the controller is never left in a Shift state, so moving from state to
      state never shifts a register that was not being shifted already. */
  lemma {:induction false} PathAvoidsShift(c: Code, target: Code, k: nat)
    requires 0 < k < |Path(c, target)|
    ensures Run(TapOf(c), Path(c, target)[..k]) !in {ShiftDr, ShiftIr}
    decreases k
  {
    hide PathMap, TmsHigh, TmsLow, TapOf, NextTap, Distance;
    var next := Toward(c, target);
    DistanceStep(c, target);
    TableIsController(c, TmsToward(c, target));
    var p := Path(c, target);
    assert p[..k][1..] == Path(next, target)[..k - 1];
    if k == 1 {
      ShiftIsNeverPassedThrough(c, target);
    } else {
      PathAvoidsShift(next, target, k - 1);
    }
  }

  lemma HoldStays(target: Code)
    ensures Run(TapOf(target), Hold(target)) == TapOf(target)
  {
  }

  lemma GotoFromArrives(c: Code, target: Code)
    ensures Run(TapOf(c), GotoFrom(c, target)) == TapOf(target)
  {
    PathArrives(c, target);
    HoldStays(target);
  }

  /** A run of TMS levels with TDI low, as the source writes them out call by call. */
  function Levels(tms: seq<bool>): (ps: seq<Pulse>)
    ensures |ps| == |tms|
  {
    if tms == [] then [] else [Pulse(tms[0], false)] + Levels(tms[1..])
  }

  function Walk(t: Tap, tms: seq<bool>): Tap
    decreases |tms|
  {
    if tms == [] then t else Walk(NextTap(t, tms[0]), tms[1..])
  }

  lemma {:induction false} LevelsWalk(t: Tap, tms: seq<bool>)
    ensures Run(t, Levels(tms)) == Walk(t, tms)
    decreases |tms|
  {
    if tms != [] {
      RunCons(t, Pulse(tms[0], false), Levels(tms[1..]));
      LevelsWalk(NextTap(t, tms[0]), tms[1..]);
    }
  }

  /** Five clocks with TMS high reach Test-Logic-Reset from anywhere. */
  lemma ResetIdleArrives(t: Tap)
    ensures Run(t, RESET_IDLE) == TapOf(IDLE)
  {
    LevelsWalk(t, [true, true, true, true, true, false]);
    var t1 := NextTap(NextTap(t, true), true);
    var t2 := NextTap(NextTap(t1, true), true);
    assert Walk(t, [true, true, true, true, true, false]) == Walk(t1, [true, true, true, false]);
    assert Walk(t1, [true, true, true, false]) == Walk(t2, [true, false]);
    assert t2 in {TestLogicReset, RunTestIdle, SelectDrScan, SelectIrScan};
  }

  // ---------------------------------------------------------------------------
  // Scans
  // ---------------------------------------------------------------------------

  /** The stable state a scan is entered from, given what the player believes. */
  function StartCode(s: State): Code {
    if s.Unknown? || s.code <= IDLE then IDLE
    else if s.code <= DRUPDATE then DRPAUSE
    else IRPAUSE
  }

  /** The levels clocked to get from that state into Shift. */
  function EnterShift(r: Register, start: Code): seq<Pulse> {
    match r
    case DR =>
      if start == IDLE then Levels([true, false, false])
      else Levels([true, true, true, false, false])
    case IR =>
      if start == IDLE then Levels([true, true, false, false])
      else if start == DRPAUSE then Levels([true, true, true, true, false, false])
      else Levels([true, false])
  }

  /** One clock per bit; TMS rises with the last one only. */
  function ShiftPulses(bits: seq<bool>): (ps: seq<Pulse>)
    ensures |ps| == |bits|
  {
    seq(|bits|, i requires 0 <= i < |bits| => Pulse(i == |bits| - 1, bits[i]))
  }

  /** Everything clocked before the first data bit. */
  function Approach(r: Register, s: State): seq<Pulse> {
    var start := StartCode(s);
    (if s == At(start) then [] else GotoPulses(s, start)) + EnterShift(r, start)
  }

  /** Everything clocked after the last data bit. */
  function Leave(r: Register, stop: Code): seq<Pulse> {
    [LOW] + (if stop == PauseCode(r) then [] else GotoFrom(PauseCode(r), stop))
  }

  function ScanPulses(r: Register, s: State, bits: seq<bool>, stop: Code): seq<Pulse> {
    Approach(r, s) + ShiftPulses(bits) + Leave(r, stop)
  }

  /** The kept state, if any, is the one the controller is in, whatever state it was in
      when the first pulse arrived. */
  ghost predicate Tracks(s: State, sent: seq<Pulse>) {
    s.At? ==> forall t0: Tap :: Run(t0, sent) == TapOf(s.code)
  }

  lemma GotoArrives(s: State, target: Code, sent: seq<Pulse>, t0: Tap)
    requires Tracks(s, sent)
    ensures Run(t0, sent + GotoPulses(s, target)) == TapOf(target)
  {
    hide PathMap, TmsHigh, TmsLow, TapOf, Path, Hold, NextTap, GotoFrom;
    RunAppend(t0, sent, GotoPulses(s, target));
    match s
    case Unknown =>
      var t := Run(t0, sent);
      RunAppend(t, RESET_IDLE, GotoFrom(IDLE, target));
      ResetIdleArrives(t);
      GotoFromArrives(IDLE, target);
    case At(c) =>
      GotoFromArrives(c, target);
  }

  lemma EnterArrives(r: Register, start: Code)
    requires start == IDLE || start == DRPAUSE || start == IRPAUSE
    ensures Run(TapOf(start), EnterShift(r, start)) == ShiftTap(r)
  {
    var t := TapOf(start);
    match r
    case DR =>
      LevelsWalk(t, [true, false, false]);
      LevelsWalk(t, [true, true, true, false, false]);
    case IR =>
      LevelsWalk(t, [true, true, false, false]);
      LevelsWalk(t, [true, true, true, true, false, false]);
      LevelsWalk(t, [true, false]);
  }

  /** Before the first data bit the controller is in the right Shift state. */
  lemma ApproachArrives(r: Register, s: State, sent: seq<Pulse>, t0: Tap)
    requires Tracks(s, sent)
    ensures Run(t0, sent + Approach(r, s)) == ShiftTap(r)
  {
    hide TapOf, EnterShift, GotoPulses;
    var start := StartCode(s);
    var ahead := if s == At(start) then [] else GotoPulses(s, start);
    assert sent + Approach(r, s) == (sent + ahead) + EnterShift(r, start);
    RunAppend(t0, sent + ahead, EnterShift(r, start));
    if s == At(start) {
      assert sent + ahead == sent;
    } else {
      GotoArrives(s, start, sent, t0);
    }
    EnterArrives(r, start);
  }

  /** While data is clocked the controller stays in Shift until the last bit is in. */
  lemma {:induction false} ShiftStays(r: Register, bits: seq<bool>, k: nat)
    requires k <= |bits|
    ensures Run(ShiftTap(r), ShiftPulses(bits)[..k])
      == if k == |bits| && k > 0 then Exit1Tap(r) else ShiftTap(r)
    decreases k
  {
    if k != 0 {
      ShiftStays(r, bits, k - 1);
      var ps := ShiftPulses(bits);
      assert ps[..k] == ps[..k - 1] + [ps[k - 1]];
      RunAppend(ShiftTap(r), ps[..k - 1], [ps[k - 1]]);
      RunCons(ShiftTap(r), ps[k - 1], []);
    }
  }

  /** Every data bit is presented in the Shift state of the scanned register. */
  lemma DataReachesRegister(r: Register, s: State, bits: seq<bool>, sent: seq<Pulse>, t0: Tap, k: nat)
    requires Tracks(s, sent) && k < |bits|
    ensures Run(t0, sent + Approach(r, s) + ShiftPulses(bits)[..k]) == ShiftTap(r)
  {
    ApproachArrives(r, s, sent, t0);
    RunAppend(t0, sent + Approach(r, s), ShiftPulses(bits)[..k]);
    ShiftStays(r, bits, k);
  }

  lemma LeaveArrives(r: Register, stop: Code)
    ensures Run(Exit1Tap(r), Leave(r, stop)) == TapOf(stop)
  {
    hide GotoFrom;
    var rest := if stop == PauseCode(r) then [] else GotoFrom(PauseCode(r), stop);
    RunCons(Exit1Tap(r), LOW, rest);
    GotoFromArrives(PauseCode(r), stop);
  }

  function Exit2Code(r: Register): Code {
    if r.DR? then DREXIT2 else IREXIT2
  }

  function UpdateCode(r: Register): Code {
    if r.DR? then DRUPDATE else IRUPDATE
  }

  lemma PathFromPause(r: Register, stop: Code)
    ensures stop != PauseCode(r) ==> Toward(PauseCode(r), stop) == Exit2Code(r) && TmsToward(PauseCode(r), stop)
    ensures stop != Exit2Code(r) ==> Toward(Exit2Code(r), stop) == UpdateCode(r) && TmsToward(Exit2Code(r), stop)
  {
  }

  lemma PathStep(c: Code, target: Code)
    requires c != target
    ensures Path(c, target) == [Pulse(TmsToward(c, target), false)] + Path(Toward(c, target), target)
  {
  }

  lemma PauseAndExit2(r: Register)
    ensures TapOf(PauseCode(r)) != ShiftTap(r) && TapOf(Exit2Code(r)) != Exit1Tap(r)
    ensures NextTap(ShiftTap(r), true) == Exit1Tap(r) && NextTap(ShiftTap(r), false) == ShiftTap(r)
    ensures NextTap(Exit1Tap(r), true) == TapOf(UpdateCode(r))
    ensures PauseCode(r) != Exit2Code(r)
  {
  }

  /** A scan of no bits at all leaves Shift too late: the driver goes on as if from
      Pause. The two meet again in Update, unless the driver stops before that. */
  lemma LeaveFromShift(r: Register, stop: Code)
    ensures Run(ShiftTap(r), Leave(r, stop)) == TapOf(stop) <==> stop != PauseCode(r) && stop != Exit2Code(r)
  {
    hide NextTap, TapOf, ShiftTap, Exit1Tap, PauseCode, Exit2Code, UpdateCode;
    hide TmsToward, Toward, PathMap, TmsHigh, TmsLow;
    var pause, exit2, update := PauseCode(r), Exit2Code(r), UpdateCode(r);
    var rest := if stop == pause then [] else GotoFrom(pause, stop);
    PauseAndExit2(r);
    RunCons(ShiftTap(r), LOW, rest);
    if stop != pause {
      PathFromPause(r, stop);
      PathStep(pause, stop);
      RunCons(ShiftTap(r), HIGH, Path(exit2, stop));
      if stop != exit2 {
        PathStep(exit2, stop);
        RunCons(Exit1Tap(r), HIGH, Path(update, stop));
        PathArrives(update, stop);
      }
    }
  }

  /** After a scan the kept state is right if and only if a bit was shifted or the stop
      state lies past the point where the two paths meet. */
  lemma ScanTracks(r: Register, s: State, bits: seq<bool>, stop: Code, sent: seq<Pulse>)
    requires Tracks(s, sent)
    ensures Tracks(At(stop), sent + ScanPulses(r, s, bits, stop))
      <==> |bits| > 0 || (stop != PauseCode(r) && stop != Exit2Code(r))
  {
    hide Approach, Leave, TapOf;
    forall t0: Tap ensures Run(t0, sent + ScanPulses(r, s, bits, stop))
      == Run(if |bits| > 0 then Exit1Tap(r) else ShiftTap(r), Leave(r, stop))
    {
      var ps := ShiftPulses(bits);
      var head := sent + Approach(r, s);
      assert sent + ScanPulses(r, s, bits, stop) == (head + ps) + Leave(r, stop);
      RunAppend(t0, head + ps, Leave(r, stop));
      RunAppend(t0, head, ps);
      ApproachArrives(r, s, sent, t0);
      ShiftStays(r, bits, |bits|);
      assert ps[..|bits|] == ps;
    }
    assert Run(TestLogicReset, sent + ScanPulses(r, s, bits, stop))
      == Run(if |bits| > 0 then Exit1Tap(r) else ShiftTap(r), Leave(r, stop));
    LeaveArrives(r, stop);
    LeaveFromShift(r, stop);
  }

  // ---------------------------------------------------------------------------
  // Waiting
  // ---------------------------------------------------------------------------

  predicate Stable(c: Code) {
    c == RESET || c == IDLE || c == DRSHIFT || c == DRPAUSE || c == IRSHIFT || c == IRPAUSE
  }

  function Repeat(p: Pulse, n: nat): (ps: seq<Pulse>)
    ensures |ps| == n
  {
    if n == 0 then [] else [p] + Repeat(p, n - 1)
  }

  /** A negative cycle count loops no times. */
  function WaitPulses(s: State, cycles: int, at: Code): seq<Pulse> {
    (if s == At(at) then [] else GotoPulses(s, at)) + WaitLoop(cycles, at)
  }

  lemma {:induction false} LowSettles(t: Tap, n: nat)
    ensures Run(t, Repeat(LOW, n)) ==
      if n == 0 then t else if n == 1 then NextTap(t, false) else NextTap(NextTap(t, false), false)
    decreases n
  {
    if n != 0 {
      RunCons(t, LOW, Repeat(LOW, n - 1));
      LowSettles(NextTap(t, false), n - 1);
    }
  }

  lemma {:induction false} HighStaysReset(n: nat)
    ensures Run(TestLogicReset, Repeat(HIGH, n)) == TestLogicReset
  {
    if n != 0 {
      RunCons(TestLogicReset, HIGH, Repeat(HIGH, n - 1));
      HighStaysReset(n - 1);
    }
  }

  lemma LoopStays(at: Code, n: nat)
    ensures Run(TapOf(at), Repeat(if at == RESET then HIGH else LOW, n)) == TapOf(at) <==> n == 0 || Stable(at)
  {
    hide Run, Repeat;
    LowSettles(TapOf(at), n);
    HighStaysReset(n);
  }

  function WaitLoop(cycles: int, at: Code): seq<Pulse> {
    Repeat(if at == RESET then HIGH else LOW, if cycles < 0 then 0 else cycles)
  }

  lemma WaitRuns(s: State, cycles: int, at: Code, sent: seq<Pulse>, t0: Tap)
    requires Tracks(s, sent)
    ensures Run(t0, sent + WaitPulses(s, cycles, at)) == Run(TapOf(at), WaitLoop(cycles, at))
  {
    hide TapOf, GotoPulses, WaitLoop, Run;
    var ahead := if s == At(at) then [] else GotoPulses(s, at);
    assert sent + WaitPulses(s, cycles, at) == (sent + ahead) + WaitLoop(cycles, at);
    RunAppend(t0, sent + ahead, WaitLoop(cycles, at));
    if s == At(at) {
      assert sent + ahead == sent;
    } else {
      GotoArrives(s, at, sent, t0);
    }
  }

  /** Waiting keeps the state right if and only if it waits in a stable state. */
  lemma WaitTracks(s: State, cycles: int, at: Code, sent: seq<Pulse>)
    requires Tracks(s, sent)
    ensures Tracks(At(at), sent + WaitPulses(s, cycles, at)) <==> cycles <= 0 || Stable(at)
  {
    hide WaitPulses, Repeat, TapOf, Stable, Run;
    forall t0: Tap { WaitRuns(s, cycles, at, sent, t0); }
    WaitRuns(s, cycles, at, sent, TestLogicReset);
    LoopStays(at, if cycles < 0 then 0 else cycles);
  }

  // ---------------------------------------------------------------------------
  // Whole runs
  // ---------------------------------------------------------------------------

  datatype Call =
    | Goto(target: Code)
    | SetStop(register: Register, stop: Code)
    | WaitCycles(cycles: int, at: Code)
    | WaitMicroseconds(at: Code)
    | Scan(register: Register, bits: seq<bool>)
    | RefusedScan
    | Finish

  datatype Driver = Driver(state: State, drStop: Code, irStop: Code, sent: seq<Pulse>) {
    function Stop(r: Register): Code {
      if r.DR? then drStop else irStop
    }
  }

  const POWER_UP: Driver := Driver(Unknown, IDLE, IDLE, [])

  function Perform(d: Driver, c: Call): Driver {
    match c
    case Goto(target) => d.(state := At(target), sent := d.sent + GotoPulses(d.state, target))
    case SetStop(r, stop) => if r.DR? then d.(drStop := stop) else d.(irStop := stop)
    case WaitCycles(cycles, at) => d.(state := At(at), sent := d.sent + WaitPulses(d.state, cycles, at))
    case WaitMicroseconds(at) =>
      if d.state.Unknown? || d.state == At(at) then d
      else d.(state := At(at), sent := d.sent + GotoPulses(d.state, at))
    case Scan(r, bits) =>
      d.(state := At(d.Stop(r)), sent := d.sent + ScanPulses(r, d.state, bits, d.Stop(r)))
    case RefusedScan => // no room for the bits, which is found out in the start state
      var start := StartCode(d.state);
      if d.state == At(start) then d
      else d.(state := At(start), sent := d.sent + GotoPulses(d.state, start))
    case Finish => if d.state.Unknown? then d else d.(state := At(IDLE), sent := d.sent + RESET_IDLE)
  }

  function PerformAll(d: Driver, calls: seq<Call>): Driver
    decreases |calls|
  {
    if calls == [] then d else PerformAll(Perform(d, calls[0]), calls[1..])
  }

  /** The calls that keep the driver in step with the controller. */
  predicate Harmless(d: Driver, c: Call) {
    match c
    case WaitCycles(cycles, at) => cycles <= 0 || Stable(at)
    case Scan(r, bits) => |bits| > 0 || (d.Stop(r) != PauseCode(r) && d.Stop(r) != Exit2Code(r))
    case _ => true
  }

  predicate AllHarmless(d: Driver, calls: seq<Call>)
    decreases |calls|
  {
    calls == [] || (Harmless(d, calls[0]) && AllHarmless(Perform(d, calls[0]), calls[1..]))
  }

  /** A single call keeps the driver in step exactly when it is harmless. */
  lemma CallTracks(d: Driver, c: Call)
    requires Tracks(d.state, d.sent)
    ensures Tracks(Perform(d, c).state, Perform(d, c).sent) <==> Harmless(d, c)
  {
    hide GotoPulses, WaitPulses, ScanPulses, TapOf, Stable, StartCode;
    match c
    case Goto(target) =>
      forall t0: Tap { GotoArrives(d.state, target, d.sent, t0); }
    case SetStop(r, stop) =>
    case WaitCycles(cycles, at) =>
      WaitTracks(d.state, cycles, at, d.sent);
    case WaitMicroseconds(at) =>
      forall t0: Tap { GotoArrives(d.state, at, d.sent, t0); }
    case Scan(r, bits) =>
      ScanTracks(r, d.state, bits, d.Stop(r), d.sent);
    case RefusedScan =>
      forall t0: Tap { GotoArrives(d.state, StartCode(d.state), d.sent, t0); }
    case Finish =>
      forall t0: Tap ensures Run(t0, d.sent + RESET_IDLE) == TapOf(IDLE) {
        RunAppend(t0, d.sent, RESET_IDLE);
        ResetIdleArrives(Run(t0, d.sent));
      }
  }

  ghost predicate InStep(d: Driver) {
    Tracks(d.state, d.sent)
  }

  /** After each of the calls the kept state is right. */
  ghost predicate InStepThroughout(d: Driver, calls: seq<Call>) {
    forall k: nat :: k <= |calls| ==> InStep(PerformAll(d, calls[..k]))
  }

  lemma FirstCall(d: Driver, calls: seq<Call>)
    requires calls != []
    ensures InStepThroughout(d, calls)
      <==> InStep(d) && InStepThroughout(Perform(d, calls[0]), calls[1..])
  {
    hide Perform, InStep;
    var next, rest := Perform(d, calls[0]), calls[1..];
    assert PerformAll(d, calls[..0]) == d;
    forall k: nat | k < |calls|
      ensures PerformAll(d, calls[..k + 1]) == PerformAll(next, rest[..k])
    {
      assert calls[..k + 1][1..] == rest[..k];
    }
    if InStep(d) && InStepThroughout(next, rest) {
      forall k: nat | k <= |calls| ensures InStep(PerformAll(d, calls[..k])) {
        if k != 0 {
          assert InStep(PerformAll(next, rest[..k - 1]));
        }
      }
    }
    if InStepThroughout(d, calls) {
      forall k: nat | k <= |rest| ensures InStep(PerformAll(next, rest[..k])) {
        assert InStep(PerformAll(d, calls[..k + 1]));
      }
    }
  }

  lemma {:induction false} RunsTrackFrom(d: Driver, calls: seq<Call>)
    requires InStep(d)
    ensures InStepThroughout(d, calls) <==> AllHarmless(d, calls)
    decreases |calls|
  {
    hide Perform, Harmless, Tracks;
    if calls != [] {
      var next := Perform(d, calls[0]);
      FirstCall(d, calls);
      CallTracks(d, calls[0]);
      if InStep(next) {
        RunsTrackFrom(next, calls[1..]);
      } else {
        assert !InStepThroughout(next, calls[1..]) by {
          assert PerformAll(next, calls[1..][..0]) == next;
        }
      }
    }
  }

  /** From power-up, with the controller in any state, the driver is in step throughout a
      run exactly when every call of it is harmless. */
  lemma RunsTrack(calls: seq<Call>)
    ensures InStepThroughout(POWER_UP, calls) <==> AllHarmless(POWER_UP, calls)
  {
    RunsTrackFrom(POWER_UP, calls);
  }
}
