/** The TAP controller as IEEE Std 1149.1 defines it, the tables by which the Jam player
    follows it without ever reading it back, and what each call clocks out. */
module JtagTap {

  // ---------------------------------------------------------------------------
  // Section 6.1 of IEEE Std 1149.1
  // ---------------------------------------------------------------------------

  datatype Tap =
    | TestLogicReset | RunTestIdle
    | SelectDrScan | CaptureDr | ShiftDr | Exit1Dr | PauseDr | Exit2Dr | UpdateDr
    | SelectIrScan | CaptureIr | ShiftIr | Exit1Ir | PauseIr | Exit2Ir | UpdateIr

  /** The state after one rising edge of TCK. */
  function NextTap(t: Tap, tms: bool): Tap {
    match t
    case TestLogicReset => if tms then TestLogicReset else RunTestIdle
    case RunTestIdle => if tms then SelectDrScan else RunTestIdle
    case SelectDrScan => if tms then SelectIrScan else CaptureDr
    case CaptureDr => if tms then Exit1Dr else ShiftDr
    case ShiftDr => if tms then Exit1Dr else ShiftDr
    case Exit1Dr => if tms then UpdateDr else PauseDr
    case PauseDr => if tms then Exit2Dr else PauseDr
    case Exit2Dr => if tms then UpdateDr else ShiftDr
    case UpdateDr => if tms then SelectDrScan else RunTestIdle
    case SelectIrScan => if tms then TestLogicReset else CaptureIr
    case CaptureIr => if tms then Exit1Ir else ShiftIr
    case ShiftIr => if tms then Exit1Ir else ShiftIr
    case Exit1Ir => if tms then UpdateIr else PauseIr
    case PauseIr => if tms then Exit2Ir else PauseIr
    case Exit2Ir => if tms then UpdateIr else ShiftIr
    case UpdateIr => if tms then SelectDrScan else RunTestIdle
  }

  datatype Pulse = Pulse(tms: bool, tdi: bool)

  /** Where the controller ends up when the pulses are clocked into it. */
  function Run(t: Tap, ps: seq<Pulse>): Tap
    decreases |ps|
  {
    if ps == [] then t else Run(NextTap(t, ps[0].tms), ps[1..])
  }

  lemma {:induction false} RunAppend(t: Tap, a: seq<Pulse>, b: seq<Pulse>)
    ensures Run(t, a + b) == Run(Run(t, a), b)
    decreases |a|
  {
    if a == [] {
      assert a + b == b;
    } else {
      assert (a + b)[1..] == a[1..] + b;
      RunAppend(NextTap(t, a[0].tms), a[1..], b);
    }
  }

  lemma RunCons(t: Tap, p: Pulse, rest: seq<Pulse>)
    ensures Run(t, [p] + rest) == Run(NextTap(t, p.tms), rest)
  {
    assert ([p] + rest)[1..] == rest;
  }

  // ---------------------------------------------------------------------------
  // The player's tables
  // ---------------------------------------------------------------------------

  /** State codes, in the order of the player's enumeration. */
  type Code = bv4

  const RESET: Code := 0
  const IDLE: Code := 1
  const DRSELECT: Code := 2
  const DRCAPTURE: Code := 3
  const DRSHIFT: Code := 4
  const DREXIT1: Code := 5
  const DRPAUSE: Code := 6
  const DREXIT2: Code := 7
  const DRUPDATE: Code := 8
  const IRSELECT: Code := 9
  const IRCAPTURE: Code := 10
  const IRSHIFT: Code := 11
  const IREXIT1: Code := 12
  const IRPAUSE: Code := 13
  const IREXIT2: Code := 14
  const IRUPDATE: Code := 15

  /** JAM_ILLEGAL_JTAG_STATE, or a state the player believes the controller is in. */
  datatype State = Unknown | At(code: Code)

  function TapOf(c: Code): Tap {
    match c
    case RESET => TestLogicReset case IDLE => RunTestIdle case DRSELECT => SelectDrScan case DRCAPTURE => CaptureDr
    case DRSHIFT => ShiftDr case DREXIT1 => Exit1Dr case DRPAUSE => PauseDr case DREXIT2 => Exit2Dr
    case DRUPDATE => UpdateDr case IRSELECT => SelectIrScan case IRCAPTURE => CaptureIr case IRSHIFT => ShiftIr
    case IREXIT1 => Exit1Ir case IRPAUSE => PauseIr case IREXIT2 => Exit2Ir case _ => UpdateIr
  }

  function TmsHigh(c: Code): Code {
    match c
    case RESET => RESET case IDLE => DRSELECT case DRSELECT => IRSELECT case DRCAPTURE => DREXIT1
    case DRSHIFT => DREXIT1 case DREXIT1 => DRUPDATE case DRPAUSE => DREXIT2 case DREXIT2 => DRUPDATE
    case DRUPDATE => DRSELECT case IRSELECT => RESET case IRCAPTURE => IREXIT1 case IRSHIFT => IREXIT1
    case IREXIT1 => IRUPDATE case IRPAUSE => IREXIT2 case IREXIT2 => IRUPDATE case _ => DRSELECT
  }

  function TmsLow(c: Code): Code {
    match c
    case RESET => IDLE case IDLE => IDLE case DRSELECT => DRCAPTURE case DRCAPTURE => DRSHIFT
    case DRSHIFT => DRSHIFT case DREXIT1 => DRPAUSE case DRPAUSE => DRPAUSE case DREXIT2 => DRSHIFT
    case DRUPDATE => IDLE case IRSELECT => IRCAPTURE case IRCAPTURE => IRSHIFT case IRSHIFT => IRSHIFT
    case IREXIT1 => IRPAUSE case IRPAUSE => IRPAUSE case IREXIT2 => IRSHIFT case _ => IDLE
  }

  /** Row c, bit t: the TMS level that leads from state c towards state t. */
  function PathMap(c: Code): bv16 {
    match c
    case RESET => 0x0001 case IDLE => 0xFFFD case DRSELECT => 0xFE01 case DRCAPTURE => 0xFFE7
    case DRSHIFT => 0xFFEF case DREXIT1 => 0xFF0F case DRPAUSE => 0xFFBF case DREXIT2 => 0xFFFF
    case DRUPDATE => 0xFEFD case IRSELECT => 0x0001 case IRCAPTURE => 0xF3FF case IRSHIFT => 0xF7FF
    case IREXIT1 => 0x87FF case IRPAUSE => 0xDFFF case IREXIT2 => 0xFFFF case _ => 0x7FFD
  }

  predicate TmsToward(c: Code, target: Code) {
    PathMap(c) & ((1 as bv16) << target) != 0
  }

  function TableNext(c: Code, tms: bool): Code {
    if tms then TmsHigh(c) else TmsLow(c)
  }

  lemma TableIsController(c: Code, tms: bool)
    ensures TapOf(TableNext(c, tms)) == NextTap(TapOf(c), tms)
  {
  }

  function Toward(c: Code, target: Code): Code {
    TableNext(c, TmsToward(c, target))
  }

  // ---------------------------------------------------------------------------
  // Every path arrives
  // ---------------------------------------------------------------------------

  /** Nibble t of row c: how many clocks the path map takes from c to t. */
  ghost function RankRow(c: Code): bv64 {
    match c
    case 0 => 0x6765543565443210 case 1 => 0x5654432454332103
    case 2 => 0x4543321343221042 case 3 => 0x7876654232110335
    case 4 => 0x7876654232104335 case 5 => 0x6765543121063224
    case 6 => 0x7876654210554335 case 7 => 0x6765543105443224
    case 8 => 0x5654432054332113 case 9 => 0x3432210787665441
    case 10 => 0x2321104676554335 case 11 => 0x2321054676554335
    case 12 => 0x1210743565443224 case 13 => 0x2106654676554335
    case 14 => 0x1065543565443224 case _ => 0x0654432454332113
  }

  ghost function Rank(c: Code, target: Code): bv64 {
    (RankRow(c) >> ((target as bv8) << 2)) & 0xF
  }

  ghost predicate OneCloser(c: Code, target: Code) {
    c == target || Rank(c, target) == Rank(Toward(c, target), target) + 1
  }

  lemma OneCloserQuarter0(c: Code, target: Code)
    requires c < 4
    ensures OneCloser(c, target)
  {
  }

  lemma OneCloserQuarter1(c: Code, target: Code)
    requires 4 <= c < 8
    ensures OneCloser(c, target)
  {
  }

  lemma OneCloserQuarter2(c: Code, target: Code)
    requires 8 <= c < 12
    ensures OneCloser(c, target)
  {
  }

  lemma OneCloserQuarter3(c: Code, target: Code)
    requires 12 <= c
    ensures OneCloser(c, target)
  {
  }

  ghost function CountTo8(k: bv64): nat {
    if k == 0 then 0 else if k == 1 then 1 else if k == 2 then 2 else if k == 3 then 3 else if k == 4 then 4
    else if k == 5 then 5 else if k == 6 then 6 else if k == 7 then 7 else 8
  }

  lemma RankAtMost8(c: Code, target: Code)
    ensures Rank(c, target) <= 8
    ensures Rank(c, target) == 0 <==> c == target
  {
  }

  lemma CountStep(k: bv64)
    requires k < 8
    ensures CountTo8(k + 1) == CountTo8(k) + 1
  {
  }

  /** Clocks needed to walk from one state to another along the path map. */
  ghost function Distance(c: Code, target: Code): (n: nat)
    ensures n <= 8
    ensures n == 0 <==> c == target
  {
    RankAtMost8(c, target);
    CountTo8(Rank(c, target))
  }

  lemma DistanceStep(c: Code, target: Code)
    requires c != target
    ensures Distance(c, target) == Distance(Toward(c, target), target) + 1
  {
    hide RankRow, TableNext, PathMap, TmsHigh, TmsLow, Rank;
    RankAtMost8(c, target);
    RankAtMost8(Toward(c, target), target);
    if c < 4 {
      OneCloserQuarter0(c, target);
    } else if c < 8 {
      OneCloserQuarter1(c, target);
    } else if c < 12 {
      OneCloserQuarter2(c, target);
    } else {
      OneCloserQuarter3(c, target);
    }
    CountStep(Rank(Toward(c, target), target));
  }
}
