/** What a scan does to the register of a device in the chain: section 6.1 of IEEE Std 1149.1
    shifts it in the Shift state, loads it in Capture and hands it on in Update. */
module JtagRegister {
  import opened JtagTap
  import opened JtagCalls

  /** The controller, the stages of one register from TDI to TDO, and its latched outputs. */
  datatype Device = Device(tap: Tap, stages: seq<bool>, latch: seq<bool>)

  function CaptureTap(r: Register): Tap {
    if r.DR? then CaptureDr else CaptureIr
  }

  function UpdateTap(r: Register): Tap {
    if r.DR? then UpdateDr else UpdateIr
  }

  /** One clock; `captured` is what the register loads in parallel. */
  function Clock(r: Register, captured: seq<bool>, d: Device, p: Pulse): Device {
    var tap := NextTap(d.tap, p.tms);
    var stages :=
      if d.tap == CaptureTap(r) then captured
      else if d.tap == ShiftTap(r) && d.stages != [] then [p.tdi] + d.stages[..|d.stages| - 1]
      else d.stages;
    Device(tap, stages, if tap == UpdateTap(r) then stages else d.latch)
  }

  function Clocks(r: Register, captured: seq<bool>, d: Device, ps: seq<Pulse>): Device
    decreases |ps|
  {
    if ps == [] then d else Clocks(r, captured, Clock(r, captured, d, ps[0]), ps[1..])
  }

  lemma {:induction false} ClocksAppend(r: Register, captured: seq<bool>, d: Device, a: seq<Pulse>, b: seq<Pulse>)
    ensures Clocks(r, captured, d, a + b) == Clocks(r, captured, Clocks(r, captured, d, a), b)
    decreases |a|
  {
    hide Clock;
    if a == [] {
      assert a + b == b;
    } else {
      assert (a + b)[1..] == a[1..] + b;
      ClocksAppend(r, captured, Clock(r, captured, d, a[0]), a[1..], b);
    }
  }

  lemma {:induction false} ClocksRun(r: Register, captured: seq<bool>, d: Device, ps: seq<Pulse>)
    requires |captured| == |d.stages|
    ensures Clocks(r, captured, d, ps).tap == Run(d.tap, ps)
    ensures |Clocks(r, captured, d, ps).stages| == |d.stages|
    decreases |ps|
  {
    if ps != [] {
      ClocksRun(r, captured, Clock(r, captured, d, ps[0]), ps[1..]);
    }
  }

  function Reversed(bits: seq<bool>): (r: seq<bool>)
    ensures |r| == |bits| && forall i :: 0 <= i < |r| ==> r[i] == bits[|bits| - 1 - i]
  {
    seq(|bits|, i requires 0 <= i < |bits| => bits[|bits| - 1 - i])
  }

  /** After k data bits the register holds them, the first one furthest on, and in front of TDO
      what it held before. */
  lemma {:induction false} ShiftedIn(r: Register, captured: seq<bool>, d: Device, bits: seq<bool>, k: nat)
    requires d.tap == ShiftTap(r) && |captured| == |d.stages| == |bits| && k <= |bits|
    ensures var n := |bits|;
      Clocks(r, captured, d, ShiftPulses(bits)[..k]).stages == Reversed(bits[..k]) + d.stages[..n - k]
    decreases k
  {
    hide Clocks, Clock, ShiftTap, NextTap, ShiftPulses, Reversed, Run;
    var n, ps := |bits|, ShiftPulses(bits);
    if k == 0 {
      NothingShifted(r, captured, d, bits);
    } else {
      ShiftedIn(r, captured, d, bits, k - 1);
      var before := Clocks(r, captured, d, ps[..k - 1]);
      assert ps[..k] == ps[..k - 1] + [ps[k - 1]];
      ClocksAppend(r, captured, d, ps[..k - 1], [ps[k - 1]]);
      ClocksRun(r, captured, d, ps[..k - 1]);
      ShiftStays(r, bits, k - 1);
      OneClock(r, captured, before, ps[k - 1]);
      OneShift(r, captured, before, bits, k - 1);
      OneFurther(bits, d.stages, k);
    }
  }

  lemma NothingShifted(r: Register, captured: seq<bool>, d: Device, bits: seq<bool>)
    requires |d.stages| == |bits|
    ensures Clocks(r, captured, d, ShiftPulses(bits)[..0]).stages == Reversed(bits[..0]) + d.stages[..|bits|]
  {
    assert ShiftPulses(bits)[..0] == [] && Reversed(bits[..0]) == [];
    assert d.stages[..|bits|] == d.stages;
  }

  lemma OneShift(r: Register, captured: seq<bool>, d: Device, bits: seq<bool>, k: nat)
    requires d.tap == ShiftTap(r) && d.stages != [] && k < |bits|
    ensures Clock(r, captured, d, ShiftPulses(bits)[k]).stages == [bits[k]] + d.stages[..|d.stages| - 1]
  {
  }

  lemma OneFurther(bits: seq<bool>, st: seq<bool>, k: nat)
    requires 0 < k <= |bits| == |st|
    ensures var n := |bits|;
      [bits[k - 1]] + (Reversed(bits[..k - 1]) + st[..n - (k - 1)])[..n - 1] == Reversed(bits[..k]) + st[..n - k]
  {
  }

  lemma OneClock(r: Register, captured: seq<bool>, d: Device, p: Pulse)
    ensures Clocks(r, captured, d, [p]) == Clock(r, captured, d, p)
  {
    assert [p][1..] == [];
  }

  /** A register as long as the data ends up holding it, whatever it held and wherever the
      controller was when the first pulse arrived: preamble, target and postamble, the first
      bit next to TDO. */
  lemma ScanLoadsRegister(r: Register, s: State, bits: seq<bool>, sent: seq<Pulse>, captured: seq<bool>, d: Device)
    requires Tracks(s, sent) && |captured| == |d.stages| == |bits| > 0
    requires exists t0: Tap :: d.tap == Run(t0, sent)
    ensures var after := Clocks(r, captured, d, Approach(r, s) + ShiftPulses(bits));
      after.stages == Reversed(bits) && after.tap == Exit1Tap(r)
  {
    hide Approach, Clocks;
    var t0: Tap :| d.tap == Run(t0, sent);
    var n := |bits|;
    ApproachArrives(r, s, sent, t0);
    RunAppend(t0, sent, Approach(r, s));
    ClocksRun(r, captured, d, Approach(r, s));
    var d1 := Clocks(r, captured, d, Approach(r, s));
    ClocksAppend(r, captured, d, Approach(r, s), ShiftPulses(bits));
    ShiftedIn(r, captured, d1, bits, n);
    assert ShiftPulses(bits)[..n] == ShiftPulses(bits) && bits[..n] == bits;
    ClocksRun(r, captured, d1, ShiftPulses(bits));
    ShiftStays(r, bits, n);
  }

  /** While bit k is clocked in, TDO shows what stage n - 1 - k held when shifting began. */
  lemma ScanReturnsRegister(r: Register, captured: seq<bool>, d: Device, bits: seq<bool>, k: nat)
    requires d.tap == ShiftTap(r) && |captured| == |d.stages| == |bits| && k < |bits|
    ensures var before := Clocks(r, captured, d, ShiftPulses(bits)[..k]);
      var n := |bits|;
      |before.stages| == n && before.stages[n - 1] == d.stages[n - 1 - k]
  {
    hide Clocks, Clock, ShiftTap, NextTap, ShiftPulses, Reversed;
    ShiftedIn(r, captured, d, bits, k);
    var st := Reversed(bits[..k]) + d.stages[..|bits| - k];
    assert st[|bits| - 1] == d.stages[|bits| - 1 - k];
  }

  /** And the register hands it on, in the Update state, unless the scan is to stop before it. */
  lemma ScanUpdatesRegister(r: Register, s: State, bits: seq<bool>, stop: Code, sent: seq<Pulse>, captured: seq<bool>,
      d: Device)
    returns (n: nat)
    requires Tracks(s, sent) && |captured| == |d.stages| == |bits| > 0
    requires exists t0: Tap :: d.tap == Run(t0, sent)
    requires stop != PauseCode(r) && stop != Exit2Code(r)
    ensures n <= |ScanPulses(r, s, bits, stop)|
    ensures var after := Clocks(r, captured, d, ScanPulses(r, s, bits, stop)[..n]);
      after.tap == UpdateTap(r) && after.latch == Reversed(bits)
  {
    hide Approach, Clocks, Leave, ShiftPulses, Clock, Reversed, Run, Exit1Tap, UpdateTap;
    ScanLoadsRegister(r, s, bits, sent, captured, d);
    LeaveByUpdate(r, stop);
    var head := Approach(r, s) + ShiftPulses(bits);
    var after := Clocks(r, captured, d, head);
    var tail := [LOW, HIGH, HIGH];
    n := |head| + 3;
    assert ScanPulses(r, s, bits, stop) == head + Leave(r, stop);
    assert ScanPulses(r, s, bits, stop)[..n] == head + Leave(r, stop)[..3] == head + tail;
    ClocksAppend(r, captured, d, head, tail);
    ThreeClocks(r, captured, after);
  }

  lemma LeaveByUpdate(r: Register, stop: Code)
    requires stop != PauseCode(r) && stop != Exit2Code(r)
    ensures |Leave(r, stop)| >= 3 && Leave(r, stop)[..3] == [LOW, HIGH, HIGH]
  {
    hide Path, PathMap, TmsToward, Toward, PauseCode, Exit2Code, UpdateCode, NextTap, TapOf;
    PathFromPause(r, stop);
    PauseAndExit2(r);
    PathStep(PauseCode(r), stop);
    PathStep(Exit2Code(r), stop);
    assert Path(PauseCode(r), stop) == [HIGH] + ([HIGH] + Path(UpdateCode(r), stop));
  }

  lemma ThreeClocks(r: Register, captured: seq<bool>, d: Device)
    requires d.tap == Exit1Tap(r)
    ensures var after := Clocks(r, captured, d, [LOW, HIGH, HIGH]);
      after.tap == UpdateTap(r) && after.latch == d.stages
  {
    var ps := [LOW, HIGH, HIGH];
    assert ps[1..] == [HIGH, HIGH] && ps[1..][1..] == [HIGH] && ps[1..][1..][1..] == [];
    var d1 := Clock(r, captured, d, LOW);
    var d2 := Clock(r, captured, d1, HIGH);
    assert Clocks(r, captured, d2, [HIGH]) == Clock(r, captured, d2, HIGH) by {
      OneClock(r, captured, d2, HIGH);
    }
    assert Clocks(r, captured, d, ps) == Clocks(r, captured, d1, [HIGH, HIGH]) == Clocks(r, captured, d2, [HIGH]);
  }
}
