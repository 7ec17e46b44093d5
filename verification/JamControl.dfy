/** Loops, saved values and subroutines of a Jam program. The interpreter has no nesting:
    it reads the statement at a position, changes one stack, and jumps. A program written
    as nested blocks is laid out as statements, and the jumping machine is proved to do on
    the layout exactly what the nested reading says, errors and endless runs included. */
module JamControl {
  import opened Bits
  import opened Options
  import opened JamStack

  /** The integer variables that are declared, with their values. */
  type Store = map<Name, long>

  /** An expression, None when its evaluation reports an error. */
  type Expr = Store -> Option<long>

  /** Any other statement, None when it reports an error. */
  type Effect = Store -> Option<Store>

  datatype Status =
    | Refused
    | SyntaxError
    | UndefinedSymbol
    | TypeMismatch
    | OutOfMemory
    | NextUnexpected
    | PopUnexpected
    | ReturnUnexpected
    | UnexpectedEnd

  /** The variables, and the other statements executed so far, oldest first. */
  datatype Memory = Memory(store: Store, trace: seq<nat>)

  // ---------------------------------------------------------------------------
  // What one statement does to the variables
  // ---------------------------------------------------------------------------

  datatype Change = Changed(memory: Memory) | Rejected(status: Status)

  function Visit(id: nat, effect: Effect, m: Memory): Change {
    match effect(m.store)
    case None => Rejected(Refused)
    case Some(store) => Changed(Memory(store, m.trace + [id]))
  }

  /** FOR evaluates its three expressions before it touches the loop variable. */
  datatype ForHeader = Ready(memory: Memory, stop: long, step: long) | BadHeader(status: Status)

  function Begin(v: Name, start: Expr, stop: Expr, step: Expr, m: Memory): ForHeader {
    match (start(m.store), stop(m.store), step(m.store))
    case (Some(first), Some(last), Some(stride)) =>
      if stride == 0 then BadHeader(SyntaxError)
      else if v !in m.store then BadHeader(UndefinedSymbol)
      else Ready(m.(store := m.store[v := first]), last, stride)
    case _ => BadHeader(Refused)
  }

  predicate LastTurn(value: int, stop: int, step: int) {
    (step > 0 && value >= stop) || (step < 0 && value <= stop)
  }

  // ---------------------------------------------------------------------------
  // The jumping machine
  // ---------------------------------------------------------------------------

  datatype Instruction =
    | Other(id: nat, effect: Effect)
    | For(loopVar: Name, start: Expr, stop: Expr, step: Expr)
    | Next(loopVar: Name)
    | Push(value: Expr)
    | Pop(target: Name)
    | Call(entry: Option<nat>)
    | Return
    | Exit

  type Program = seq<Instruction>

  datatype State = State(position: nat, memory: Memory, stack: seq<Record>)

  datatype Progress =
    | Running(state: State)
    | Halted(memory: Memory)
    | Stopped(status: Status, memory: Memory)

  function PushAndGo(s: State, m: Memory, r: Record, position: nat): Progress {
    match Pushed(s.stack, r)
    case None => Stopped(OutOfMemory, m)
    case Some(stack) => Running(State(position, m, stack))
  }

  function StepNext(s: State, v: Name): Progress {
    if v !in s.memory.store then Stopped(UndefinedSymbol, s.memory)
    else match Top(s.stack)
      case Some(ForNext(loopVar, forPosition, stop, step)) =>
        if loopVar != v then Stopped(NextUnexpected, s.memory)
        else if LastTurn(s.memory.store[v], stop, step) then
          Running(State(s.position + 1, s.memory, Popped(s.stack).value))
        else
          Running(State(forPosition,
            s.memory.(store := s.memory.store[v := ToLong(s.memory.store[v] + step)]), s.stack))
      case _ => Stopped(NextUnexpected, s.memory)
  }

  function StepPop(s: State, v: Name): Progress {
    match Top(s.stack)
    case Some(PushPop(value)) =>
      if v !in s.memory.store then Stopped(TypeMismatch, s.memory)
      else Running(State(s.position + 1, s.memory.(store := s.memory.store[v := value]), Popped(s.stack).value))
    case _ => Stopped(PopUnexpected, s.memory)
  }

  function StepReturn(s: State): Progress {
    match Top(s.stack)
    case Some(CallReturn(position)) => Running(State(position, s.memory, Popped(s.stack).value))
    case _ => Stopped(ReturnUnexpected, s.memory)
  }

  function Step(program: Program, s: State): Progress {
    if s.position >= |program| then Stopped(UnexpectedEnd, s.memory)
    else match program[s.position]
      case Other(id, effect) => (
        match Visit(id, effect, s.memory)
        case Changed(m) => Running(State(s.position + 1, m, s.stack))
        case Rejected(status) => Stopped(status, s.memory)
      )
      case For(v, start, stop, step) => (
        match Begin(v, start, stop, step, s.memory)
        case Ready(m, last, stride) => PushAndGo(s, m, ForNext(v, s.position + 1, last, stride), s.position + 1)
        case BadHeader(status) => Stopped(status, s.memory)
      )
      case Next(v) => StepNext(s, v)
      case Push(e) => (
        match e(s.memory.store)
        case Some(value) => PushAndGo(s, s.memory, PushPop(value), s.position + 1)
        case None => Stopped(Refused, s.memory)
      )
      case Pop(v) => StepPop(s, v)
      case Call(None) => Stopped(UndefinedSymbol, s.memory)
      case Call(Some(target)) => PushAndGo(s, s.memory, CallReturn(s.position + 1), target)
      case Return => StepReturn(s)
      case Exit => Halted(s.memory)
  }

  function Run(program: Program, s: State, n: nat): Progress
    decreases n, s.position
  {
    if n == 0 then Running(s)
    else match Step(program, s)
      case Running(next) => Run(program, next, n - 1)
      case ended => ended
  }

  lemma {:induction false} RunOn(program: Program, s: State, a: nat, b: nat)
    requires Run(program, s, a).Running?
    ensures Run(program, s, a + b) == Run(program, Run(program, s, a).state, b)
    decreases a
  {
    if a != 0 {
      RunOn(program, Step(program, s).state, a - 1, b);
    }
  }

  /** A run that has ended stays as it ended. */
  lemma {:induction false} RunEnded(program: Program, s: State, a: nat, b: nat)
    requires a <= b && !Run(program, s, a).Running?
    ensures Run(program, s, b) == Run(program, s, a)
    decreases a
  {
    if Step(program, s).Running? {
      RunEnded(program, Step(program, s).state, a - 1, b - 1);
    }
  }

  // ---------------------------------------------------------------------------
  // The nested reading
  // ---------------------------------------------------------------------------

  datatype Block =
    | Empty
    | Then(first: Block, second: Block)
    | Single(id: nat, effect: Effect)
    | Repeat(loopVar: Name, start: Expr, stop: Expr, step: Expr, body: Block)
    | Saving(value: Expr, target: Name, body: Block)
    | Invoke(subroutine: nat)

  datatype Outcome =
    | Done(memory: Memory)
    | Failed(status: Status, memory: Memory)
    | OutOfFuel

  /** `depth` records are on the stack already. One more is needed by each loop, saved
      value and call, and its far end is reached only when it is not the last slot. */
  function Exec(subs: seq<Block>, b: Block, m: Memory, depth: nat, fuel: nat): Outcome
    decreases fuel, b, 0
  {
    match b
    case Empty => Done(m)
    case Then(first, second) => (
      match Exec(subs, first, m, depth, fuel)
      case Done(m1) => Exec(subs, second, m1, depth, fuel)
      case bad => bad
    )
    case Single(id, effect) => (
      match Visit(id, effect, m)
      case Changed(m1) => Done(m1)
      case Rejected(status) => Failed(status, m)
    )
    case Repeat(v, start, stop, step, body) => (
      match Begin(v, start, stop, step, m)
      case BadHeader(status) => Failed(status, m)
      case Ready(m1, last, stride) =>
        if depth >= MAX_NESTING_DEPTH then Failed(OutOfMemory, m1)
        else Turns(subs, v, last, stride, body, m1, depth + 1, fuel)
    )
    case Saving(e, v, body) => (
      match e(m.store)
      case None => Failed(Refused, m)
      case Some(value) =>
        if depth >= MAX_NESTING_DEPTH then Failed(OutOfMemory, m)
        else match Exec(subs, body, m, depth + 1, fuel)
          case Done(m1) => Restore(v, value, m1, depth + 1)
          case bad => bad
    )
    case Invoke(k) =>
      if k >= |subs| then Failed(UndefinedSymbol, m)
      else if depth >= MAX_NESTING_DEPTH then Failed(OutOfMemory, m)
      else if fuel == 0 then OutOfFuel
      else match Exec(subs, subs[k], m, depth + 1, fuel - 1)
        case Done(m1) => if depth + 1 < MAX_NESTING_DEPTH then Done(m1) else Failed(ReturnUnexpected, m1)
        case bad => bad
  }

  function Restore(v: Name, value: long, m: Memory, depth: nat): Outcome {
    if depth >= MAX_NESTING_DEPTH then Failed(PopUnexpected, m)
    else if v !in m.store then Failed(TypeMismatch, m)
    else Done(m.(store := m.store[v := value]))
  }

  /** Turns of a loop whose variable is already set, until the last one. */
  function Turns(subs: seq<Block>, v: Name, stop: long, step: long, body: Block, m: Memory, depth: nat, fuel: nat)
    : Outcome
    decreases fuel, body, 1
  {
    match Exec(subs, body, m, depth, fuel)
    case Done(m1) =>
      if v !in m1.store then Failed(UndefinedSymbol, m1)
      else if depth >= MAX_NESTING_DEPTH then Failed(NextUnexpected, m1)
      else if LastTurn(m1.store[v], stop, step) then Done(m1)
      else if fuel == 0 then OutOfFuel
      else Turns(subs, v, stop, step, body, NextTurn(v, step, m1), depth, fuel - 1)
    case bad => bad
  }

  function NextTurn(v: Name, step: long, m: Memory): Memory
    requires v in m.store
  {
    m.(store := m.store[v := ToLong(m.store[v] + step)])
  }

  // ---------------------------------------------------------------------------
  // Layout
  // ---------------------------------------------------------------------------

  function Label(entries: seq<nat>, k: nat): Option<nat> {
    if k < |entries| then Some(entries[k]) else None
  }

  function Code(b: Block, entries: seq<nat>): Program {
    match b
    case Empty => []
    case Then(first, second) => Code(first, entries) + Code(second, entries)
    case Single(id, effect) => [Other(id, effect)]
    case Repeat(v, start, stop, step, body) => [For(v, start, stop, step)] + Code(body, entries) + [Next(v)]
    case Saving(e, v, body) => [Push(e)] + Code(body, entries) + [Pop(v)]
    case Invoke(k) => [Call(Label(entries, k))]
  }

  ghost predicate Placed(program: Program, at: nat, code: Program) {
    at + |code| <= |program| && forall i :: at <= i < at + |code| ==> program[i] == code[i - at]
  }

  ghost predicate Linked(program: Program, subs: seq<Block>, entries: seq<nat>) {
    && |entries| == |subs|
    && forall k :: 0 <= k < |subs| ==> Placed(program, entries[k], Code(subs[k], entries) + [Return])
  }

  // ---------------------------------------------------------------------------
  // The machine does what the nested reading says
  // ---------------------------------------------------------------------------

  /** After n statements from `s` the machine is where `o` says: behind the block with the
      stack as it was, stopped with the same error and variables, or still running. */
  ghost predicate Agrees(program: Program, s: State, n: nat, o: Outcome, position: nat, stack: seq<Record>, fuel: nat) {
    match o
    case Done(m) => Run(program, s, n) == Running(State(position, m, stack))
    case Failed(status, m) => Run(program, s, n) == Stopped(status, m)
    case OutOfFuel => n >= fuel && Run(program, s, n).Running?
  }

  lemma Chain(program: Program, s: State, a: nat, t: State, n: nat, o: Outcome, position: nat, stack: seq<Record>,
      fuel: nat, fuel': nat)
    requires Run(program, s, a) == Running(t)
    requires Agrees(program, t, n, o, position, stack, fuel) && fuel' <= fuel + a
    ensures Agrees(program, s, a + n, o, position, stack, fuel')
  {
    RunOn(program, s, a, n);
  }

  lemma OneStep(program: Program, s: State)
    ensures Run(program, s, 1) == Step(program, s)
  {
    var p := Step(program, s);
    assert p.Running? ==> Run(program, p.state, 0) == p;
  }

  /** The whole of one statement that ends a run or leads to `t`. */
  lemma {:induction false} Simulates(program: Program, subs: seq<Block>, entries: seq<nat>, b: Block, s: State, fuel: nat)
    returns (n: nat)
    requires Linked(program, subs, entries) && Placed(program, s.position, Code(b, entries))
    requires |s.stack| <= MAX_NESTING_DEPTH
    ensures Agrees(program, s, n, Exec(subs, b, s.memory, |s.stack|, fuel),
      s.position + |Code(b, entries)|, s.stack, fuel)
    decreases fuel, b, 1
  {
    hide Step, Agrees, Run, Linked, Begin;
    match b
    case Empty =>
      n := 0;
      NoSteps(program, s, fuel);
    case Then(first, second) =>
      n := SimulatesThen(program, subs, entries, first, second, s, fuel);
    case Single(id, effect) =>
      n := 1;
      OneStep(program, s);
      SimulatesSingle(program, s, id, effect, fuel);
    case Repeat(v, start, stop, step, body) =>
      n := SimulatesRepeat(program, subs, entries, b, s, fuel);
    case Saving(e, v, body) =>
      n := SimulatesSaving(program, subs, entries, b, s, fuel);
    case Invoke(k) =>
      n := SimulatesInvoke(program, subs, entries, k, s, fuel);
  }

  lemma NoSteps(program: Program, s: State, fuel: nat)
    ensures Agrees(program, s, 0, Done(s.memory), s.position, s.stack, fuel)
  {
  }

  lemma SimulatesSingle(program: Program, s: State, id: nat, effect: Effect, fuel: nat)
    requires Placed(program, s.position, [Other(id, effect)])
    requires Run(program, s, 1) == Step(program, s)
    ensures Agrees(program, s, 1, match Visit(id, effect, s.memory)
      case Changed(m1) => Done(m1)
      case Rejected(status) => Failed(status, s.memory), s.position + 1, s.stack, fuel)
  {
    hide Run, Visit;
  }

  lemma {:induction false} SimulatesThen(program: Program, subs: seq<Block>, entries: seq<nat>, first: Block, second: Block,
      s: State, fuel: nat)
    returns (n: nat)
    requires Linked(program, subs, entries) && Placed(program, s.position, Code(Then(first, second), entries))
    requires |s.stack| <= MAX_NESTING_DEPTH
    ensures Agrees(program, s, n, Exec(subs, Then(first, second), s.memory, |s.stack|, fuel),
      s.position + |Code(Then(first, second), entries)|, s.stack, fuel)
    decreases fuel, Then(first, second), 0
  {
    hide Run, Step, Linked, Begin;
    n := Simulates(program, subs, entries, first, s, fuel);
    match Exec(subs, first, s.memory, |s.stack|, fuel)
    case Done(m1) =>
      var t := State(s.position + |Code(first, entries)|, m1, s.stack);
      var n2 := Simulates(program, subs, entries, second, t, fuel);
      var o := Exec(subs, second, m1, |s.stack|, fuel);
      Chain(program, s, n, t, n2, o, t.position + |Code(second, entries)|, s.stack, fuel, fuel);
      n := n + n2;
    case _ =>
  }

  lemma SimulatesRepeat(program: Program, subs: seq<Block>, entries: seq<nat>, b: Block, s: State, fuel: nat)
    returns (n: nat)
    requires b.Repeat?
    requires Linked(program, subs, entries) && Placed(program, s.position, Code(b, entries))
    requires |s.stack| <= MAX_NESTING_DEPTH
    ensures Agrees(program, s, n, Exec(subs, b, s.memory, |s.stack|, fuel),
      s.position + |Code(b, entries)|, s.stack, fuel)
    decreases fuel, b, 0
  {
    hide Run, Linked, Begin, StepNext, Turns;
    OneStep(program, s);
    var code := Code(b, entries);
    assert program[s.position] == code[0];
    n := 1;
    match Begin(b.loopVar, b.start, b.stop, b.step, s.memory)
    case BadHeader(_) =>
    case Ready(m1, last, stride) =>
      if |s.stack| < MAX_NESTING_DEPTH {
        var record := ForNext(b.loopVar, s.position + 1, last, stride);
        var t := State(s.position + 1, m1, s.stack + [record]);
        assert Step(program, s) == Running(t);
        var k := SimulatesTurns(program, subs, entries, b.loopVar, last, stride, b.body, t, s.stack, fuel);
        Chain(program, s, 1, t, k, Turns(subs, b.loopVar, last, stride, b.body, m1, |t.stack|, fuel),
          s.position + |code|, s.stack, fuel, fuel);
        n := 1 + k;
      }
  }

  lemma SimulatesTurns(program: Program, subs: seq<Block>, entries: seq<nat>, v: Name, stop: long, step: long, body: Block,
      s: State, below: seq<Record>, fuel: nat)
    returns (n: nat)
    requires Linked(program, subs, entries) && Placed(program, s.position, Code(body, entries) + [Next(v)])
    requires s.stack == below + [ForNext(v, s.position, stop, step)] && |s.stack| <= MAX_NESTING_DEPTH
    ensures Agrees(program, s, n, Turns(subs, v, stop, step, body, s.memory, |s.stack|, fuel),
      s.position + |Code(body, entries)| + 1, below, fuel)
    decreases fuel, body, 2
  {
    hide Run, Linked, Begin;
    var code := Code(body, entries) + [Next(v)];
    n := Simulates(program, subs, entries, body, s, fuel);
    match Exec(subs, body, s.memory, |s.stack|, fuel)
    case Done(m1) =>
      var t := State(s.position + |code| - 1, m1, s.stack);
      assert program[t.position] == code[|code| - 1];
      OneStep(program, t);
      var p := Step(program, t);
      assert p == StepNext(t, v);
      RunOn(program, s, n, 1);
      if p.Running? && p.state.position == s.position && fuel > 0 {
        var k := SimulatesTurns(program, subs, entries, v, stop, step, body, p.state, below, fuel - 1);
        Chain(program, s, n + 1, p.state, k, Turns(subs, v, stop, step, body, p.state.memory, |s.stack|, fuel - 1),
          s.position + |code|, below, fuel - 1, fuel);
        n := n + 1 + k;
      } else {
        n := n + 1;
      }
    case _ =>
  }

  lemma SimulatesSaving(program: Program, subs: seq<Block>, entries: seq<nat>, b: Block, s: State, fuel: nat)
    returns (n: nat)
    requires b.Saving?
    requires Linked(program, subs, entries) && Placed(program, s.position, Code(b, entries))
    requires |s.stack| <= MAX_NESTING_DEPTH
    ensures Agrees(program, s, n, Exec(subs, b, s.memory, |s.stack|, fuel),
      s.position + |Code(b, entries)|, s.stack, fuel)
    decreases fuel, b, 0
  {
    hide Run, Linked, StepPop;
    OneStep(program, s);
    var code := Code(b, entries);
    assert program[s.position] == code[0];
    n := 1;
    var value := b.value(s.memory.store);
    if value.Some? && |s.stack| < MAX_NESTING_DEPTH {
      var t := State(s.position + 1, s.memory, s.stack + [PushPop(value.value)]);
      assert Step(program, s) == Running(t);
      assert Placed(program, t.position, Code(b.body, entries));
      var k := Simulates(program, subs, entries, b.body, t, fuel);
      var o := Exec(subs, b.body, s.memory, |t.stack|, fuel);
      var end := t.position + |Code(b.body, entries)|;
      Chain(program, s, 1, t, k, o, end, t.stack, fuel, fuel);
      n := 1 + k;
      if o.Done? {
        var u := State(end, o.memory, t.stack);
        assert program[end] == code[|code| - 1];
        PopRestores(program, u, b.target, value.value, s.stack);
        RunOn(program, s, n, 1);
        n := n + 1;
      }
    }
  }

  lemma PopRestores(program: Program, u: State, v: Name, value: long, below: seq<Record>)
    requires u.position < |program| && program[u.position] == Pop(v)
    requires u.stack == below + [PushPop(value)] && |u.stack| <= MAX_NESTING_DEPTH
    ensures Agrees(program, u, 1, Restore(v, value, u.memory, |u.stack|), u.position + 1, below, 0)
    ensures Run(program, u, 1) == Step(program, u)
  {
    OneStep(program, u);
    hide Run;
  }

  lemma SimulatesInvoke(program: Program, subs: seq<Block>, entries: seq<nat>, k: nat, s: State, fuel: nat)
    returns (n: nat)
    requires Linked(program, subs, entries) && Placed(program, s.position, Code(Invoke(k), entries))
    requires |s.stack| <= MAX_NESTING_DEPTH
    ensures Agrees(program, s, n, Exec(subs, Invoke(k), s.memory, |s.stack|, fuel), s.position + 1, s.stack, fuel)
    decreases fuel, Invoke(k), 0
  {
    hide Run, StepReturn;
    OneStep(program, s);
    assert program[s.position] == Call(Label(entries, k));
    n := 1;
    if k < |subs| && |s.stack| < MAX_NESTING_DEPTH {
      var t := State(entries[k], s.memory, s.stack + [CallReturn(s.position + 1)]);
      assert Step(program, s) == Running(t);
      if fuel > 0 {
        var code := Code(subs[k], entries) + [Return];
        assert Placed(program, t.position, Code(subs[k], entries));
        var j := Simulates(program, subs, entries, subs[k], t, fuel - 1);
        var o := Exec(subs, subs[k], s.memory, |t.stack|, fuel - 1);
        var end := t.position + |code| - 1;
        Chain(program, s, 1, t, j, o, end, t.stack, fuel - 1, fuel);
        n := 1 + j;
        if o.Done? {
          var u := State(end, o.memory, t.stack);
          assert program[end] == code[|code| - 1];
          ReturnGoesBack(program, u, s.position + 1, s.stack);
          RunOn(program, s, n, 1);
          n := n + 1;
        }
      }
    }
  }

  lemma ReturnGoesBack(program: Program, u: State, position: nat, below: seq<Record>)
    requires u.position < |program| && program[u.position] == Return
    requires u.stack == below + [CallReturn(position)] && |u.stack| <= MAX_NESTING_DEPTH
    ensures Agrees(program, u, 1,
      if |u.stack| < MAX_NESTING_DEPTH then Done(u.memory) else Failed(ReturnUnexpected, u.memory), position, below, 0)
    ensures Run(program, u, 1) == Step(program, u)
  {
    OneStep(program, u);
    hide Run;
  }

  // ---------------------------------------------------------------------------
  // Whole programs: the main block, EXIT, then the subroutines
  // ---------------------------------------------------------------------------

  function Size(b: Block): nat {
    match b
    case Empty => 0
    case Then(first, second) => Size(first) + Size(second)
    case Repeat(_, _, _, _, body) => Size(body) + 2
    case Saving(_, _, body) => Size(body) + 2
    case _ => 1
  }

  lemma SizeIsLength(b: Block, entries: seq<nat>)
    ensures |Code(b, entries)| == Size(b)
  {
  }

  function Entries(subs: seq<Block>, at: nat): (entries: seq<nat>)
    ensures |entries| == |subs|
  {
    if subs == [] then [] else [at] + Entries(subs[1..], at + Size(subs[0]) + 1)
  }

  function Bodies(subs: seq<Block>, entries: seq<nat>): Program {
    if subs == [] then [] else Code(subs[0], entries) + [Return] + Bodies(subs[1..], entries)
  }

  function Link(main: Block, subs: seq<Block>): Program {
    var entries := Entries(subs, Size(main) + 1);
    Code(main, entries) + [Exit] + Bodies(subs, entries)
  }

  lemma {:induction false} BodiesPlaced(program: Program, subs: seq<Block>, entries: seq<nat>, at: nat, k: nat)
    requires Placed(program, at, Bodies(subs, entries)) && k < |subs|
    ensures Placed(program, Entries(subs, at)[k], Code(subs[k], entries) + [Return])
  {
    hide Code, Size;
    SizeIsLength(subs[0], entries);
    if k != 0 {
      BodiesPlaced(program, subs[1..], entries, at + Size(subs[0]) + 1, k - 1);
    }
  }

  lemma LinkParts(main: Block, subs: seq<Block>)
    ensures var program, entries := Link(main, subs), Entries(subs, Size(main) + 1);
      && Placed(program, 0, Code(main, entries))
      && Placed(program, Size(main) + 1, Bodies(subs, entries))
      && Size(main) < |program| && program[Size(main)] == Exit
  {
    hide Code, Bodies, Entries, Size;
    SizeIsLength(main, Entries(subs, Size(main) + 1));
  }

  lemma LinkIsLinked(main: Block, subs: seq<Block>)
    ensures var entries := Entries(subs, Size(main) + 1);
      && Linked(Link(main, subs), subs, entries)
      && Placed(Link(main, subs), 0, Code(main, entries))
      && Size(main) < |Link(main, subs)| && Link(main, subs)[Size(main)] == Exit
  {
    hide Code, Bodies, Entries, Size, Link, Placed;
    var entries := Entries(subs, Size(main) + 1);
    LinkParts(main, subs);
    forall k | 0 <= k < |subs|
      ensures Placed(Link(main, subs), entries[k], Code(subs[k], entries) + [Return])
    {
      BodiesPlaced(Link(main, subs), subs, entries, Size(main) + 1, k);
    }
  }

  function AtStart(store: Store): State {
    State(0, Memory(store, []), [])
  }

  function Reading(main: Block, subs: seq<Block>, store: Store, fuel: nat): Outcome {
    Exec(subs, main, Memory(store, []), 0, fuel)
  }

  /** How a finished or failed reading looks from outside. */
  ghost predicate Ends(p: Progress, o: Outcome) {
    match o
    case Done(m) => p == Halted(m)
    case Failed(status, m) => p == Stopped(status, m)
    case OutOfFuel => false
  }

  /** Whatever the nested reading of a program does, the machine does on its layout. */
  lemma RunsAsRead(main: Block, subs: seq<Block>, store: Store, fuel: nat) returns (n: nat)
    ensures var p, o := Run(Link(main, subs), AtStart(store), n), Reading(main, subs, store, fuel);
      if o == OutOfFuel then n >= fuel && p.Running? else Ends(p, o)
  {
    hide Link, Linked, Code, Placed, Run, Exec, Step;
    var entries := Entries(subs, Size(main) + 1);
    LinkIsLinked(main, subs);
    SizeIsLength(main, entries);
    var program, s := Link(main, subs), AtStart(store);
    n := Simulates(program, subs, entries, main, s, fuel);
    var o := Reading(main, subs, store, fuel);
    if o.Done? {
      var t := State(Size(main), o.memory, []);
      ExitHalts(program, t);
      RunOn(program, s, n, 1);
      n := n + 1;
    }
  }

  lemma ExitHalts(program: Program, t: State)
    requires t.position < |program| && program[t.position] == Exit
    ensures Run(program, t, 1) == Halted(t.memory)
  {
    OneStep(program, t);
  }

  /** And whenever the machine ends, it ends as the nested reading does. */
  lemma ReadAsRun(main: Block, subs: seq<Block>, store: Store, n: nat)
    requires !Run(Link(main, subs), AtStart(store), n).Running?
    ensures Ends(Run(Link(main, subs), AtStart(store), n), Reading(main, subs, store, n + 1))
  {
    hide Link, Run, Exec, Reading;
    var program, s := Link(main, subs), AtStart(store);
    var k := RunsAsRead(main, subs, store, n + 1);
    if n <= k {
      RunEnded(program, s, n, k);
    } else {
      RunEnded(program, s, k, n);
    }
  }

  // ---------------------------------------------------------------------------
  // The stack never shows in a program that is not too deep
  // ---------------------------------------------------------------------------

  function Max(a: nat, b: nat): nat {
    if a < b then b else a
  }

  /** Records a block needs at once, when subroutine k needs levels[k]. */
  function Nesting(b: Block, levels: seq<nat>): nat {
    match b
    case Empty => 0
    case Then(first, second) => Max(Nesting(first, levels), Nesting(second, levels))
    case Single(_, _) => 0
    case Repeat(_, _, _, _, body) => 1 + Nesting(body, levels)
    case Saving(_, _, body) => 1 + Nesting(body, levels)
    case Invoke(k) => if k < |levels| then 1 + levels[k] else 0
  }

  /** No recursion: every subroutine's need is bounded by a number of its own. */
  ghost predicate Levelled(subs: seq<Block>, levels: seq<nat>) {
    |levels| == |subs| && forall k :: 0 <= k < |subs| ==> Nesting(subs[k], levels) <= levels[k]
  }

  predicate StackTrouble(o: Outcome) {
    o.Failed? && o.status in {OutOfMemory, NextUnexpected, PopUnexpected, ReturnUnexpected}
  }

  /** Up to depth 127 the outcome does not depend on what is already on the stack, and no
      error about the stack is reported. */
  lemma {:induction false} StackInvisible(subs: seq<Block>, levels: seq<nat>, b: Block, m: Memory, depth: nat, depth': nat,
      fuel: nat)
    requires Levelled(subs, levels)
    requires depth + Nesting(b, levels) < MAX_NESTING_DEPTH && depth' + Nesting(b, levels) < MAX_NESTING_DEPTH
    ensures Exec(subs, b, m, depth, fuel) == Exec(subs, b, m, depth', fuel)
    ensures !StackTrouble(Exec(subs, b, m, depth, fuel))
    decreases fuel, b, 0
  {
    hide Begin, Visit;
    match b
    case Empty =>
    case Single(_, _) =>
      SingleIsQuiet(b, m);
    case Then(first, second) =>
      StackInvisible(subs, levels, first, m, depth, depth', fuel);
      var o := Exec(subs, first, m, depth, fuel);
      if o.Done? {
        StackInvisible(subs, levels, second, o.memory, depth, depth', fuel);
      }
    case Repeat(v, start, stop, step, body) =>
      RepeatIsQuiet(v, start, stop, step, m);
      var h := Begin(v, start, stop, step, m);
      if h.Ready? {
        TurnsInvisible(subs, levels, v, h.stop, h.step, body, h.memory, depth + 1, depth' + 1, fuel);
      }
    case Saving(_, _, body) =>
      StackInvisible(subs, levels, body, m, depth + 1, depth' + 1, fuel);
    case Invoke(k) =>
      if k < |subs| && fuel > 0 {
        StackInvisible(subs, levels, subs[k], m, depth + 1, depth' + 1, fuel - 1);
      }
  }

  lemma SingleIsQuiet(b: Block, m: Memory)
    requires b.Single?
    ensures var c := Visit(b.id, b.effect, m); c.Rejected? ==> c.status == Refused
  {
  }

  lemma RepeatIsQuiet(v: Name, start: Expr, stop: Expr, step: Expr, m: Memory)
    ensures var h := Begin(v, start, stop, step, m);
      h.BadHeader? ==> !StackTrouble(Failed(h.status, m))
  {
  }

  lemma {:induction false} TurnsInvisible(subs: seq<Block>, levels: seq<nat>, v: Name, stop: long, step: long, body: Block,
      m: Memory, depth: nat, depth': nat, fuel: nat)
    requires Levelled(subs, levels)
    requires depth + Nesting(body, levels) < MAX_NESTING_DEPTH && depth' + Nesting(body, levels) < MAX_NESTING_DEPTH
    ensures Turns(subs, v, stop, step, body, m, depth, fuel) == Turns(subs, v, stop, step, body, m, depth', fuel)
    ensures !StackTrouble(Turns(subs, v, stop, step, body, m, depth, fuel))
    decreases fuel, body, 1
  {
    StackInvisible(subs, levels, body, m, depth, depth', fuel);
    var o := Exec(subs, body, m, depth, fuel);
    if o.Done? && fuel > 0 && v in o.memory.store {
      TurnsInvisible(subs, levels, v, stop, step, body, NextTurn(v, step, o.memory), depth, depth', fuel - 1);
    }
  }

  /** With 127 records on the stack no loop, saved value or call ever comes to its end. */
  lemma {:induction false} LastSlotIsUseless(subs: seq<Block>, b: Block, m: Memory, depth: nat, fuel: nat)
    requires b.Repeat? || b.Saving? || b.Invoke?
    requires depth >= MAX_NESTING_DEPTH - 1
    ensures !Exec(subs, b, m, depth, fuel).Done?
  {
    hide Begin;
    if b.Repeat? {
      var h := Begin(b.loopVar, b.start, b.stop, b.step, m);
      if h.Ready? {
        assert !Turns(subs, b.loopVar, h.stop, h.step, b.body, h.memory, depth + 1, fuel).Done?;
      }
    }
  }

  // ---------------------------------------------------------------------------
  // How often a loop runs
  // ---------------------------------------------------------------------------

  function CeilDiv(a: int, d: nat): nat
    requires d > 0
  {
    if a <= 0 then 0
    else
      DivNonNegative(a - 1, d);
      (a - 1) / d + 1
  }

  /** A first turn, and one more for each step still needed to reach the stop value. */
  function TurnCount(start: int, stop: int, step: int): nat
    requires step != 0
  {
    1 + if step > 0 then CeilDiv(stop - start, step) else CeilDiv(start - stop, -step)
  }

  lemma CeilDivStep(a: int, d: nat)
    requires d > 0 && a > 0
    ensures CeilDiv(a, d) == CeilDiv(a - d, d) + 1
  {
    var q, r := (a - 1) / d, (a - 1) % d;
    DivisionRule(a - 1, d);
    if a <= d {
      DivUnique(a - 1, d, 0, a - 1);
    } else {
      MulDistributes(d, q, -1);
      if q == 0 {
        assert false;
      }
      DivUnique(a - 1 - d, d, q - 1, r);
    }
  }

  lemma TurnCountStep(value: int, stop: int, step: int)
    requires step != 0
    ensures LastTurn(value, stop, step) ==> TurnCount(value, stop, step) == 1
    ensures !LastTurn(value, stop, step) ==> TurnCount(value, stop, step) == TurnCount(value + step, stop, step) + 1
  {
    if !LastTurn(value, stop, step) {
      if step > 0 {
        CeilDivStep(stop - value, step);
      } else {
        CeilDivStep(value - stop, -step);
      }
    }
  }

  predicate IsLong(x: int) {
    -0x8000_0000 <= x < 0x8000_0000
  }

  /** The loop variable in turn k, None when the loop has ended before. */
  function ValueInTurn(start: long, stop: long, step: long, k: nat): Option<long> {
    if k == 0 then Some(start)
    else match ValueInTurn(start, stop, step, k - 1)
      case None => None
      case Some(value) => if LastTurn(value, stop, step) then None else Some(ToLong(value + step))
  }

  /** The loop counts from start by step, and its n-th turn is the last. */
  ghost predicate CountsTo(start: long, stop: long, step: long, n: nat) {
    && (forall k: nat :: k < n ==> TurnSees(start, stop, step, k, start + k * step))
    && ValueInTurn(start, stop, step, n) == None
  }

  predicate TurnSees(start: long, stop: long, step: long, k: nat, value: int) {
    match ValueInTurn(start, stop, step, k)
    case Some(x) => x == value
    case None => false
  }

  lemma Between(step: int, k: nat, n: nat)
    requires k <= n
    ensures step >= 0 ==> 0 <= k * step <= n * step
    ensures step <= 0 ==> n * step <= k * step <= 0
  {
    if step >= 0 {
      MulMono(k, n, step);
      MulMono(0, k, step);
    } else {
      MulMono(k, n, -step);
      MulMono(0, k, -step);
    }
  }

  lemma {:induction false} CountsWhileInRange(start: long, stop: long, step: long, k: nat)
    requires step != 0 && k < TurnCount(start, stop, step)
    requires IsLong(start + k * step)
    ensures TurnSees(start, stop, step, k, start + k * step)
    ensures TurnCount(start + k * step, stop, step) == TurnCount(start, stop, step) - k
    decreases k, start
  {
    hide TurnCount;
    if k != 0 {
      Between(step, k - 1, k);
      CountsWhileInRange(start, stop, step, k - 1);
      var x := start + (k - 1) * step;
      TurnCountStep(x, stop, step);
      MulDistributes(step, k - 1, 1);
      assert x + step == start + k * step;
    }
  }

  /** A last value that does not fit is wrapped to the other side of the stop value, so the
      loop goes on. */
  lemma WrapsPastTheEnd(start: long, stop: long, step: long)
    requires step != 0 && !IsLong(start + (TurnCount(start, stop, step) - 1) * step)
    ensures ValueInTurn(start, stop, step, TurnCount(start, stop, step)).Some?
  {
    hide TurnCount, LastTurn;
    var n := TurnCount(start, stop, step);
    CountIsMoreThanOne(start, stop, step);
    assert n >= 2;
    var x := start + (n - 2) * step;
    MulDistributes(step, n - 2, 1);
    BeforeTheEnd(start, stop, step, n - 2);
    WrapsBack(start, stop, step, n - 2);
    CountsWhileInRange(start, stop, step, n - 2);
    assert ValueInTurn(start, stop, step, n - 1) == Some(ToLong(x + step));
  }

  lemma WrapsBack(start: long, stop: long, step: long, k: nat)
    requires step != 0 && !LastTurn(start + k * step, stop, step) && !IsLong(start + k * step + step)
    ensures IsLong(start + k * step) && !LastTurn(ToLong(start + k * step + step), stop, step)
  {
    Between(step, 0, k);
    var x := start + k * step;
    var y := x + step;
    assert step > 0 ==> ToLong(y) == y - 0x1_0000_0000;
    assert step < 0 ==> ToLong(y) == y + 0x1_0000_0000;
  }

  /** The unbounded count is short of the stop value before its last turn. */
  lemma {:induction false} BeforeTheEnd(start: int, stop: int, step: int, k: nat)
    requires step != 0 && k + 1 < TurnCount(start, stop, step)
    ensures TurnCount(start + k * step, stop, step) == TurnCount(start, stop, step) - k
    ensures !LastTurn(start + k * step, stop, step)
  {
    hide TurnCount;
    if k != 0 {
      BeforeTheEnd(start, stop, step, k - 1);
      TurnCountStep(start + (k - 1) * step, stop, step);
      MulDistributes(step, k - 1, 1);
      assert start + (k - 1) * step + step == start + k * step;
    }
    TurnCountStep(start + k * step, stop, step);
  }

  /** The count ends in the documented turn exactly when its last value fits in a long:
      nothing else in the loop looks at the wrap-around of the addition in NEXT. */
  lemma CountsIff(start: long, stop: long, step: long)
    requires step != 0
    ensures var n := TurnCount(start, stop, step);
      && (CountsTo(start, stop, step, n) <==> IsLong(start + (n - 1) * step))
      && (CountsTo(start, stop, step, n) <==> ValueInTurn(start, stop, step, n) == None)
  {
    hide CeilDiv;
    var n := TurnCount(start, stop, step);
    var last := start + (n - 1) * step;
    if IsLong(last) {
      forall k: nat | k < n ensures TurnSees(start, stop, step, k, start + k * step) {
        Between(step, k, n - 1);
        CountsWhileInRange(start, stop, step, k);
      }
      CountsWhileInRange(start, stop, step, n - 1);
      TurnCountStep(last, stop, step);
      CountIsMoreThanOne(last + step, stop, step);
      assert ValueInTurn(start, stop, step, n) == None;
    } else {
      WrapsPastTheEnd(start, stop, step);
    }
  }

  lemma CountIsMoreThanOne(value: int, stop: int, step: int)
    requires step != 0
    ensures TurnCount(value, stop, step) >= 1
  {
  }

  // ---------------------------------------------------------------------------
  // A loop is its body, repeated that often
  // ---------------------------------------------------------------------------

  /** More fuel changes nothing but an OutOfFuel. */
  lemma {:induction false} MoreFuel(subs: seq<Block>, b: Block, m: Memory, depth: nat, fuel: nat)
    ensures Exec(subs, b, m, depth, fuel) == OutOfFuel
      || Exec(subs, b, m, depth, fuel + 1) == Exec(subs, b, m, depth, fuel)
    decreases fuel, b, 0
  {
    hide Begin, Visit, Restore;
    match b
    case Then(first, second) =>
      MoreFuel(subs, first, m, depth, fuel);
      var o := Exec(subs, first, m, depth, fuel);
      if o.Done? {
        MoreFuel(subs, second, o.memory, depth, fuel);
      }
    case Repeat(v, start, stop, step, body) =>
      var h := Begin(v, start, stop, step, m);
      if h.Ready? {
        MoreFuelTurns(subs, v, h.stop, h.step, body, h.memory, depth + 1, fuel);
      }
    case Saving(_, _, body) =>
      MoreFuel(subs, body, m, depth + 1, fuel);
    case Invoke(k) =>
      if k < |subs| && fuel > 0 {
        MoreFuel(subs, subs[k], m, depth + 1, fuel - 1);
      }
    case _ =>
  }

  lemma {:induction false} MoreFuelTurns(subs: seq<Block>, v: Name, stop: long, step: long, body: Block, m: Memory,
      depth: nat, fuel: nat)
    ensures Turns(subs, v, stop, step, body, m, depth, fuel) == OutOfFuel
      || Turns(subs, v, stop, step, body, m, depth, fuel + 1) == Turns(subs, v, stop, step, body, m, depth, fuel)
    decreases fuel, body, 1
  {
    MoreFuel(subs, body, m, depth, fuel);
    var o := Exec(subs, body, m, depth, fuel);
    if o.Done? && fuel > 0 && v in o.memory.store {
      MoreFuelTurns(subs, v, stop, step, body, NextTurn(v, step, o.memory), depth, fuel - 1);
    }
  }

  /** A loop while it runs: its record on the stack, its body, and what the body runs with. */
  datatype Loop = Loop(subs: seq<Block>, v: Name, stop: long, step: long, body: Block, depth: nat, fuel: nat) {
    function Body(m: Memory): Outcome {
      Exec(subs, body, m, depth, fuel)
    }

    function From(m: Memory, extra: nat): Outcome {
      Turns(subs, v, stop, step, body, m, depth, fuel + extra)
    }
  }

  /** The memory when turn k begins, None when there is no such turn. */
  function AtTurn(l: Loop, m: Memory, k: nat): Option<Memory>
    decreases k, l.depth
  {
    if k == 0 then Some(m)
    else match AtTurn(l, m, k - 1)
      case None => None
      case Some(before) => AfterTurn(l, before)
  }

  function AfterTurn(l: Loop, m: Memory): Option<Memory> {
    match l.Body(m)
    case Done(m1) =>
      if l.v in m1.store && !LastTurn(m1.store[l.v], l.stop, l.step) then Some(NextTurn(l.v, l.step, m1)) else None
    case _ => None
  }

  /** From any memory a turn can begin with, the body completes and leaves the loop variable
      alone, and the next turn, if any, begins with such a memory again. */
  ghost predicate Keeps(l: Loop, begins: Memory -> bool) {
    forall m: Memory :: begins(m) && l.v in m.store ==> KeepsOn(l, begins, m)
  }

  ghost predicate KeepsOn(l: Loop, begins: Memory -> bool, m: Memory)
    requires l.v in m.store
  {
    && l.Body(m).Done?
    && l.v in l.Body(m).memory.store
    && l.Body(m).memory.store[l.v] == m.store[l.v]
    && (!LastTurn(m.store[l.v], l.stop, l.step) ==> begins(NextTurn(l.v, l.step, l.Body(m).memory)))
  }

  /** The memories with which the turns of this very run begin: with these the condition
      asks nothing but that the body leaves the variable alone whenever it is run. */
  ghost predicate Begins(l: Loop, m: Memory, m': Memory) {
    exists k: nat :: AtTurn(l, m, k) == Some(m')
  }

  lemma KeepsInEachTurn(l: Loop, m: Memory)
    requires forall k: nat :: AtTurn(l, m, k).Some? && l.v in AtTurn(l, m, k).value.store ==>
      var before := AtTurn(l, m, k).value;
      && l.Body(before).Done? && l.v in l.Body(before).memory.store
      && l.Body(before).memory.store[l.v] == before.store[l.v]
    ensures Keeps(l, m' => Begins(l, m, m'))
  {
    hide Exec;
    forall m': Memory | Begins(l, m, m') && l.v in m'.store ensures KeepsOn(l, m' => Begins(l, m, m'), m') {
      var k: nat :| AtTurn(l, m, k) == Some(m');
      if !LastTurn(m'.store[l.v], l.stop, l.step) {
        assert AtTurn(l, m, k + 1) == Some(NextTurn(l.v, l.step, l.Body(m').memory));
      }
    }
  }

  /** In turn k the variable holds what the count says, and there is a turn k exactly when
      the count has one. */
  lemma {:induction false} TurnHolds(l: Loop, begins: Memory -> bool, m: Memory, k: nat)
    requires begins(m) && l.v in m.store && Keeps(l, begins)
    ensures match AtTurn(l, m, k)
      case None => ValueInTurn(m.store[l.v], l.stop, l.step, k) == None
      case Some(m1) =>
        && begins(m1) && l.v in m1.store
        && ValueInTurn(m.store[l.v], l.stop, l.step, k) == Some(m1.store[l.v])
  {
    hide Exec;
    if k != 0 {
      TurnHolds(l, begins, m, k - 1);
      var before := AtTurn(l, m, k - 1);
      if before.Some? {
        assert KeepsOn(l, begins, before.value);
      }
    }
  }

  ghost predicate Lasts(l: Loop, m: Memory, n: nat) {
    n > 0 && AtTurn(l, m, n - 1).Some? && AtTurn(l, m, n) == None
  }

  /** A loop whose body leaves the variable alone makes the documented number of turns
      exactly when its last value fits in a long, and then counts by step. */
  lemma LoopCountsIff(l: Loop, begins: Memory -> bool, m: Memory)
    requires l.step != 0 && begins(m) && l.v in m.store && Keeps(l, begins)
    ensures var start := m.store[l.v];
      var n := TurnCount(start, l.stop, l.step);
      && (Lasts(l, m, n) <==> IsLong(start + (n - 1) * l.step))
      && (Lasts(l, m, n) ==> forall k: nat :: k < n ==> TurnSees(start, l.stop, l.step, k, start + k * l.step))
  {
    hide Keeps, TurnCount, AtTurn, ValueInTurn;
    var start := m.store[l.v];
    var n := TurnCount(start, l.stop, l.step);
    CountIsMoreThanOne(start, l.stop, l.step);
    CountsIff(start, l.stop, l.step);
    TurnHolds(l, begins, m, n);
    TurnHolds(l, begins, m, n - 1);
    if CountsTo(start, l.stop, l.step, n) {
      assert TurnSees(start, l.stop, l.step, n - 1, start + (n - 1) * l.step);
    }
  }

  /** v := value; body; v := value + step; body; ... `count` times: no stack, no jump, no
      comparison. */
  function Written(subs: seq<Block>, v: Name, value: int, step: int, count: nat, body: Block, m: Memory, depth: nat, fuel: nat)
    : Outcome
    requires count > 0 ==> IsLong(value) && IsLong(value + (count - 1) * step)
    decreases count, fuel
  {
    if count == 0 then Done(m)
    else match Exec(subs, body, m.(store := m.store[v := value]), depth, fuel)
      case Done(m1) =>
        Between(step, 1, if count > 1 then count - 1 else 1);
        MulDistributes(step, 1, count - 2);
        Written(subs, v, value + step, step, count - 1, body, m1, depth, fuel)
      case bad => bad
  }

  lemma {:induction false} FuelBy(subs: seq<Block>, b: Block, m: Memory, depth: nat, fuel: nat, extra: nat)
    requires Exec(subs, b, m, depth, fuel) != OutOfFuel
    ensures Exec(subs, b, m, depth, fuel + extra) == Exec(subs, b, m, depth, fuel)
    decreases extra
  {
    hide Exec;
    if extra != 0 {
      FuelBy(subs, b, m, depth, fuel, extra - 1);
      MoreFuel(subs, b, m, depth, fuel + extra - 1);
    }
  }

  lemma OneTurn(subs: seq<Block>, v: Name, stop: long, step: long, body: Block, m: Memory, m1: Memory, depth: nat, fuel: nat)
    requires v in m1.store && depth < MAX_NESTING_DEPTH
    requires Exec(subs, body, m, depth, fuel) == Done(m1)
    ensures LastTurn(m1.store[v], stop, step) ==> Turns(subs, v, stop, step, body, m, depth, fuel) == Done(m1)
    ensures !LastTurn(m1.store[v], stop, step) && fuel > 0 ==>
      Turns(subs, v, stop, step, body, m, depth, fuel)
        == Turns(subs, v, stop, step, body, NextTurn(v, step, m1), depth, fuel - 1)
  {
    hide Exec;
  }

  lemma OneWritten(subs: seq<Block>, v: Name, value: int, step: int, count: nat, body: Block, m: Memory, m1: Memory,
      depth: nat, fuel: nat)
    requires v in m.store && m.store[v] == value && count > 0 && IsLong(value + (count - 1) * step)
    requires Exec(subs, body, m, depth, fuel) == Done(m1)
    ensures count == 1 ==> Written(subs, v, value, step, count, body, m, depth, fuel) == Done(m1)
    ensures count > 1 ==>
      && IsLong(value + step) && IsLong(value + step + (count - 2) * step)
      && Written(subs, v, value, step, count, body, m, depth, fuel)
        == Written(subs, v, value + step, step, count - 1, body, m1.(store := m1.store[v := value + step]), depth, fuel)
  {
    hide Exec;
    assert m.store[v := value] == m.store;
    if count > 1 {
      Between(step, 1, count - 1);
      MulDistributes(step, 1, count - 2);
      var x := value + step;
      assert m1.store[v := x][v := x] == m1.store[v := x];
    }
  }

  lemma TurnsAreWritten(l: Loop, begins: Memory -> bool, m: Memory, n: nat)
    requires l.step != 0 && begins(m) && l.v in m.store && l.depth < MAX_NESTING_DEPTH
    requires Keeps(l, begins)
    requires n == TurnCount(m.store[l.v], l.stop, l.step) && IsLong(m.store[l.v] + (n - 1) * l.step)
    ensures n > 0 && l.From(m, n - 1) == Written(l.subs, l.v, m.store[l.v], l.step, n, l.body, m, l.depth, l.fuel)
    ensures l.From(m, n - 1).Done?
    decreases n
  {
    hide Exec, TurnCount, Keeps, Turns, Written;
    var value := m.store[l.v];
    TurnCountStep(value, l.stop, l.step);
    CountIsMoreThanOne(value, l.stop, l.step);
    KeepsHere(l, begins, m);
    FuelBy(l.subs, l.body, m, l.depth, l.fuel, n - 1);
    var m1 := l.Body(m).memory;
    OneTurn(l.subs, l.v, l.stop, l.step, l.body, m, m1, l.depth, l.fuel + n - 1);
    OneWritten(l.subs, l.v, value, l.step, n, l.body, m, m1, l.depth, l.fuel);
    if !LastTurn(value, l.stop, l.step) {
      CountIsMoreThanOne(value + l.step, l.stop, l.step);
      TurnsAreWritten(l, begins, NextTurn(l.v, l.step, m1), n - 1);
    }
  }

  lemma KeepsHere(l: Loop, begins: Memory -> bool, m: Memory)
    requires Keeps(l, begins) && begins(m) && l.v in m.store
    ensures KeepsOn(l, begins, m)
  {
  }

  /** The loop of a FOR that has just been executed. */
  function Started(subs: seq<Block>, b: Block, h: ForHeader, depth: nat, fuel: nat): Loop
    requires b.Repeat? && h.Ready?
  {
    Loop(subs, b.loopVar, h.stop, h.step, b.body, depth + 1, fuel)
  }

  /** A loop whose body leaves the loop variable alone whenever a turn begins makes the
      documented number of turns exactly when its last value fits in a long, and is then its
      body written out that often. */
  lemma LoopIsWritten(subs: seq<Block>, b: Block, m: Memory, depth: nat, fuel: nat, begins: Memory -> bool)
    requires b.Repeat? && depth < MAX_NESTING_DEPTH - 1
    requires var h := Begin(b.loopVar, b.start, b.stop, b.step, m);
      h.Ready? && begins(h.memory) && Keeps(Started(subs, b, h, depth, fuel), begins)
    ensures var h := Begin(b.loopVar, b.start, b.stop, b.step, m);
      var l := Started(subs, b, h, depth, fuel);
      var start := h.memory.store[b.loopVar];
      var n := TurnCount(start, h.stop, h.step);
      && (Lasts(l, h.memory, n) <==> IsLong(start + (n - 1) * h.step))
      && (IsLong(start + (n - 1) * h.step) ==>
            && Exec(subs, b, m, depth, fuel + n - 1)
              == Written(subs, b.loopVar, start, h.step, n, b.body, h.memory, depth + 1, fuel)
            && Exec(subs, b, m, depth, fuel + n - 1).Done?)
  {
    hide Written, Keeps, TurnCount, Turns, Lasts;
    var h := Begin(b.loopVar, b.start, b.stop, b.step, m);
    var l := Started(subs, b, h, depth, fuel);
    var start := h.memory.store[b.loopVar];
    var n := TurnCount(start, h.stop, h.step);
    CountIsMoreThanOne(start, h.stop, h.step);
    LoopCountsIff(l, begins, h.memory);
    if IsLong(start + (n - 1) * h.step) {
      TurnsAreWritten(l, begins, h.memory, n);
      assert Exec(subs, b, m, depth, fuel + n - 1) == l.From(h.memory, n - 1);
    }
  }

  // ---------------------------------------------------------------------------
  // Turns are what the reading and the machine go through
  // ---------------------------------------------------------------------------

  lemma {:induction false} ReadingPassesTurn(l: Loop, m: Memory, k: nat, extra: nat)
    requires AtTurn(l, m, k).Some? && l.depth < MAX_NESTING_DEPTH
    ensures l.From(m, k + extra) == l.From(AtTurn(l, m, k).value, extra)
    decreases k
  {
    hide Exec, Turns;
    if k != 0 {
      ReadingPassesTurn(l, m, k - 1, extra + 1);
      var before := AtTurn(l, m, k - 1).value;
      FuelBy(l.subs, l.body, before, l.depth, l.fuel, extra + 1);
      OneTurn(l.subs, l.v, l.stop, l.step, l.body, before, l.Body(before).memory, l.depth, l.fuel + extra + 1);
    }
  }

  /** The machine stands at the first statement of the body once for each turn. */
  lemma {:induction false} MachinePassesTurn(program: Program, entries: seq<nat>, l: Loop, s: State, below: seq<Record>,
      k: nat)
    returns (j: nat)
    requires Linked(program, l.subs, entries) && Placed(program, s.position, Code(l.body, entries) + [Next(l.v)])
    requires s.stack == below + [ForNext(l.v, s.position, l.stop, l.step)]
    requires |s.stack| == l.depth < MAX_NESTING_DEPTH
    requires AtTurn(l, s.memory, k).Some?
    ensures j >= k && Run(program, s, j) == Running(State(s.position, AtTurn(l, s.memory, k).value, s.stack))
    decreases k
  {
    hide Run, Linked, Exec;
    if k == 0 {
      j := 0;
      NoSteps(program, s, 0);
      assert Run(program, s, 0) == Running(s);
    } else {
      j := MachinePassesTurn(program, entries, l, s, below, k - 1);
      var t := State(s.position, AtTurn(l, s.memory, k - 1).value, s.stack);
      var code := Code(l.body, entries) + [Next(l.v)];
      assert Placed(program, t.position, Code(l.body, entries));
      var n := Simulates(program, l.subs, entries, l.body, t, l.fuel);
      var u := State(s.position + |code| - 1, l.Body(t.memory).memory, s.stack);
      assert program[u.position] == code[|code| - 1];
      OneStep(program, u);
      RunOn(program, t, n, 1);
      RunOn(program, s, j, n + 1);
      j := j + n + 1;
    }
  }

  // ---------------------------------------------------------------------------
  // What a loop leaves behind, and loops in loops
  // ---------------------------------------------------------------------------

  function Times(t: seq<nat>, n: nat): seq<nat> {
    if n == 0 then [] else Times(t, n - 1) + t
  }

  lemma {:induction false} TimesAdd(t: seq<nat>, a: nat, b: nat)
    ensures Times(t, a) + Times(t, b) == Times(t, a + b)
  {
    if b != 0 {
      TimesAdd(t, a, b - 1);
      assert Times(t, a) + Times(t, b) == (Times(t, a) + Times(t, b - 1)) + t;
    }
  }

  lemma {:induction false} TimesTimes(t: seq<nat>, a: nat, b: nat)
    ensures Times(Times(t, a), b) == Times(t, b * a)
  {
    if b != 0 {
      TimesTimes(t, a, b - 1);
      TimesAdd(t, (b - 1) * a, a);
      MulDistributes(a, b - 1, 1);
    }
  }

  /** Each turn executes the statements `t`. */
  ghost predicate Visits(l: Loop, begins: Memory -> bool, t: seq<nat>) {
    forall m: Memory :: begins(m) && l.v in m.store && l.Body(m).Done? ==> l.Body(m).memory.trace == m.trace + t
  }

  lemma {:induction false} TurnVisits(l: Loop, begins: Memory -> bool, m: Memory, t: seq<nat>, k: nat)
    requires begins(m) && l.v in m.store && Keeps(l, begins) && Visits(l, begins, t)
    ensures AtTurn(l, m, k).Some? ==> AtTurn(l, m, k).value.trace == m.trace + Times(t, k)
  {
    hide Exec, Keeps, Visits, KeepsOn;
    if k != 0 && AtTurn(l, m, k).Some? {
      TurnVisits(l, begins, m, t, k - 1);
      TurnHolds(l, begins, m, k - 1);
      var before := AtTurn(l, m, k - 1).value;
      VisitsHere(l, begins, before, t);
      assert before.trace + t == m.trace + Times(t, k);
    }
  }

  /** The loop ends as the body of its last turn does, and has executed the statements of
      the body once per turn. */
  lemma LoopEnds(subs: seq<Block>, b: Block, m: Memory, depth: nat, fuel: nat, begins: Memory -> bool, t: seq<nat>)
    returns (before: Memory)
    requires b.Repeat? && depth < MAX_NESTING_DEPTH - 1
    requires var h := Begin(b.loopVar, b.start, b.stop, b.step, m);
      && h.Ready? && begins(h.memory)
      && Keeps(Started(subs, b, h, depth, fuel), begins) && Visits(Started(subs, b, h, depth, fuel), begins, t)
    requires var h := Begin(b.loopVar, b.start, b.stop, b.step, m);
      var start := h.memory.store[b.loopVar];
      IsLong(start + (TurnCount(start, h.stop, h.step) - 1) * h.step)
    ensures var h := Begin(b.loopVar, b.start, b.stop, b.step, m);
      var l := Started(subs, b, h, depth, fuel);
      var n := TurnCount(h.memory.store[b.loopVar], h.stop, h.step);
      && begins(before) && b.loopVar in before.store && l.Body(before).Done?
      && AtTurn(l, h.memory, n - 1) == Some(before)
      && Exec(subs, b, m, depth, fuel + n - 1) == l.Body(before)
      && l.Body(before).memory.trace == m.trace + Times(t, n)
  {
    hide Exec, Keeps, Visits, TurnCount, Turns;
    var h := Begin(b.loopVar, b.start, b.stop, b.step, m);
    var l := Started(subs, b, h, depth, fuel);
    var n := TurnCount(h.memory.store[b.loopVar], h.stop, h.step);
    CountIsMoreThanOne(h.memory.store[b.loopVar], h.stop, h.step);
    LoopCountsIff(l, begins, h.memory);
    before := AtTurn(l, h.memory, n - 1).value;
    TurnHolds(l, begins, h.memory, n - 1);
    KeepsHere(l, begins, before);
    TurnVisits(l, begins, h.memory, t, n - 1);
    VisitsHere(l, begins, before, t);
    ReadingPassesTurn(l, h.memory, n - 1, 0);
    OneTurn(subs, l.v, l.stop, l.step, l.body, before, l.Body(before).memory, l.depth, fuel);
    RepeatIsTurns(subs, b, m, depth, fuel + n - 1);
    assert h.memory.trace + Times(t, n - 1) + t == m.trace + Times(t, n);
  }

  lemma VisitsHere(l: Loop, begins: Memory -> bool, m: Memory, t: seq<nat>)
    requires Visits(l, begins, t) && begins(m) && l.v in m.store && l.Body(m).Done?
    ensures l.Body(m).memory.trace == m.trace + t
  {
  }

  lemma RepeatIsTurns(subs: seq<Block>, b: Block, m: Memory, depth: nat, fuel: nat)
    requires b.Repeat? && depth < MAX_NESTING_DEPTH
    ensures var h := Begin(b.loopVar, b.start, b.stop, b.step, m);
      h.Ready? ==> Exec(subs, b, m, depth, fuel) == Turns(subs, b.loopVar, h.stop, h.step, b.body, h.memory, depth + 1, fuel)
  {
  }

  datatype Range = Range(start: long, stop: long, step: long) {
    function Count(): (n: nat)
      ensures n > 0
    {
      if step == 0 then 1 else TurnCount(start, stop, step)
    }

    predicate Fits() {
      step != 0 && IsLong(start + (Count() - 1) * step)
    }
  }

  function Counting(v: Name, r: Range, body: Block): Block {
    Repeat(v, _ => Some(r.start), _ => Some(r.stop), _ => Some(r.step), body)
  }

  function CountingLoop(subs: seq<Block>, v: Name, r: Range, body: Block, depth: nat, fuel: nat): Loop {
    Loop(subs, v, r.stop, r.step, body, depth + 1, fuel)
  }

  lemma CountingEnds(subs: seq<Block>, v: Name, r: Range, body: Block, m: Memory, depth: nat, fuel: nat,
      begins: Memory -> bool, t: seq<nat>)
    returns (before: Memory)
    requires v in m.store && r.Fits() && depth < MAX_NESTING_DEPTH - 1
    requires begins(m.(store := m.store[v := r.start]))
    requires Keeps(CountingLoop(subs, v, r, body, depth, fuel), begins)
    requires Visits(CountingLoop(subs, v, r, body, depth, fuel), begins, t)
    ensures begins(before) && v in before.store
    ensures AtTurn(CountingLoop(subs, v, r, body, depth, fuel), m.(store := m.store[v := r.start]), r.Count() - 1) == Some(before)
    ensures var o := Exec(subs, body, before, depth + 1, fuel);
      && Exec(subs, Counting(v, r, body), m, depth, fuel + r.Count() - 1) == o
      && o.Done? && o.memory.trace == m.trace + Times(t, r.Count())
  {
    hide Exec, Keeps, Visits, TurnCount, Times;
    var b := Counting(v, r, body);
    var h := Begin(v, b.start, b.stop, b.step, m);
    assert h == Ready(m.(store := m.store[v := r.start]), r.stop, r.step);
    before := LoopEnds(subs, b, m, depth, fuel, begins, t);
  }

  /** A statement that needs two variables to be declared and changes neither. */
  ghost predicate LeavesAlone(effect: Effect, v: Name, w: Name) {
    forall s: Store :: v in s && w in s ==> LeavesAloneIn(effect, v, w, s)
  }

  ghost predicate LeavesAloneIn(effect: Effect, v: Name, w: Name, s: Store)
    requires v in s && w in s
  {
    match effect(s)
    case None => false
    case Some(s1) => v in s1 && w in s1 && s1[v] == s[v] && s1[w] == s[w]
  }

  lemma SingleLeavesAlone(subs: seq<Block>, v: Name, w: Name, id: nat, effect: Effect, m: Memory, depth: nat, fuel: nat)
    requires v in m.store && w in m.store && LeavesAlone(effect, v, w)
    ensures var o := Exec(subs, Single(id, effect), m, depth, fuel);
      && o.Done? && o.memory.trace == m.trace + [id]
      && v in o.memory.store && w in o.memory.store
      && o.memory.store[v] == m.store[v] && o.memory.store[w] == m.store[w]
  {
    assert LeavesAloneIn(effect, v, w, m.store);
  }

  predicate Holds(m: Memory, v: Name, value: long) {
    v in m.store && m.store[v] == value
  }

  lemma InnerLoop(subs: seq<Block>, v: Name, w: Name, r: Range, id: nat, effect: Effect, m: Memory, depth: nat)
    requires v != w && v in m.store && w in m.store && depth < MAX_NESTING_DEPTH - 1
    requires r.Fits() && LeavesAlone(effect, v, w)
    ensures var o := Exec(subs, Counting(w, r, Single(id, effect)), m, depth, r.Count() - 1);
      && o.Done? && Holds(o.memory, v, m.store[v]) && w in o.memory.store
      && o.memory.trace == m.trace + Times([id], r.Count())
  {
    hide Exec, LeavesAlone, Range.Fits, Range.Count, Times, Counting, AtTurn;
    var body := Single(id, effect);
    var l := CountingLoop(subs, w, r, body, depth, 0);
    var begins := (m': Memory) => Holds(m', v, m.store[v]);
    forall m': Memory | begins(m') && w in m'.store
      ensures KeepsOn(l, begins, m') && l.Body(m').memory.trace == m'.trace + [id]
    {
      SingleLeavesAlone(subs, v, w, id, effect, m', depth + 1, 0);
    }
    var before := CountingEnds(subs, w, r, body, m, depth, 0, begins, [id]);
    SingleLeavesAlone(subs, v, w, id, effect, before, depth + 1, 0);
  }

  predicate CompletesWith(o: Outcome, trace: seq<nat>) {
    match o
    case Done(m) => m.trace == trace
    case _ => false
  }

  lemma InnerKeeps(subs: seq<Block>, v: Name, w: Name, inner: Range, id: nat, effect: Effect, l: Loop,
      begins: Memory -> bool)
    requires v != w && inner.Fits() && LeavesAlone(effect, v, w)
    requires l.subs == subs && l.v == v && l.body == Counting(w, inner, Single(id, effect))
    requires l.depth < MAX_NESTING_DEPTH - 1 && l.fuel == inner.Count() - 1
    requires forall m: Memory :: begins(m) == (w in m.store)
    ensures Keeps(l, begins) && Visits(l, begins, Times([id], inner.Count()))
  {
    hide Exec, LeavesAlone, Range.Fits, Range.Count, Times, Counting, AtTurn;
    forall m: Memory | begins(m) && v in m.store
      ensures KeepsOn(l, begins, m) && l.Body(m).memory.trace == m.trace + Times([id], inner.Count())
    {
      InnerLoop(subs, v, w, inner, id, effect, m, l.depth);
    }
  }

  /** The inner loop of two runs through all its turns in each turn of the outer one. */
  lemma NestedLoops(subs: seq<Block>, v: Name, w: Name, outer: Range, inner: Range, id: nat, effect: Effect, m: Memory,
      depth: nat)
    returns (fuel: nat, visits: nat)
    requires v != w && v in m.store && w in m.store && depth < MAX_NESTING_DEPTH - 2
    requires outer.Fits() && inner.Fits() && LeavesAlone(effect, v, w)
    ensures var b := Counting(v, outer, Counting(w, inner, Single(id, effect)));
      CompletesWith(Exec(subs, b, m, depth, fuel), m.trace + Times([id], visits))
    ensures visits == outer.Count() * inner.Count()
  {
    hide Exec, LeavesAlone, Range.Fits, Range.Count, Times, Counting, AtTurn;
    var body := Counting(w, inner, Single(id, effect));
    var l := CountingLoop(subs, v, outer, body, depth, inner.Count() - 1);
    var begins := (m': Memory) => w in m'.store;
    var t := Times([id], inner.Count());
    InnerKeeps(subs, v, w, inner, id, effect, l, begins);
    MulPositive(outer.Count(), inner.Count());
    var before := CountingEnds(subs, v, outer, body, m, depth, inner.Count() - 1, begins, t);
    TimesTimes([id], inner.Count(), outer.Count());
    fuel, visits := inner.Count() - 1 + outer.Count() - 1, outer.Count() * inner.Count();
  }

  // ---------------------------------------------------------------------------
  // What the variables hold afterwards
  // ---------------------------------------------------------------------------

  /** A statement leaves the variables as its effect says, or reports an error. */
  lemma StatementTakesEffect(subs: seq<Block>, id: nat, effect: Effect, m: Memory, depth: nat, fuel: nat)
    ensures Exec(subs, Single(id, effect), m, depth, fuel) ==
      match effect(m.store)
      case Some(store) => Done(Memory(store, m.trace + [id]))
      case None => Failed(Refused, m)
  {
  }

  /** Between PUSH and POP a variable may be used for anything: it has its value again, and the
      other variables are as the statements in between left them. */
  lemma SavedValueReturns(subs: seq<Block>, e: Expr, v: Name, body: Block, m: Memory, depth: nat, fuel: nat)
    requires Exec(subs, Saving(e, v, body), m, depth, fuel).Done?
    ensures var after := Exec(subs, Saving(e, v, body), m, depth, fuel).memory.store;
      var inside := Exec(subs, body, m, depth + 1, fuel);
      && inside.Done? && e(m.store).Some? && v in after && after[v] == e(m.store).value
      && after.Keys == inside.memory.store.Keys
      && forall w :: w in after && w != v ==> after[w] == inside.memory.store[w]
  {
    hide Turns;
  }

  /** The variables after k turns: the effect applied to start, start + step, and so on. */
  function Folded(effect: Effect, v: Name, start: int, step: int, k: nat, store: Store): Option<Store>
    decreases k
  {
    if k == 0 then Some(store)
    else
      var value := start + (k - 1) * step;
      match Folded(effect, v, start, step, k - 1, store)
      case None => None
      case Some(before) => if IsLong(value) then effect(before[v := value]) else None
  }

  /** From variables that `ok` admits, the effect completes, leaves v alone and ends with such
      variables again, whatever v is. */
  ghost predicate WorksOn(effect: Effect, v: Name, ok: Store -> bool) {
    forall s: Store :: ok(s) && v in s ==> WorksIn(effect, v, ok, s)
  }

  ghost predicate InAnyTurn(ok: Store -> bool, s: Store, v: Name) {
    forall x: long :: InTurnOf(ok, s, v, x)
  }

  predicate InTurnOf(ok: Store -> bool, s: Store, v: Name, x: long) {
    ok(s[v := x])
  }

  lemma AnyTurn(ok: Store -> bool, s: Store, v: Name, x: long)
    requires InAnyTurn(ok, s, v)
    ensures ok(s[v := x])
  {
    assert InTurnOf(ok, s, v, x);
  }

  ghost predicate WorksIn(effect: Effect, v: Name, ok: Store -> bool, s: Store)
    requires v in s
  {
    match effect(s)
    case None => false
    case Some(after) => v in after && after[v] == s[v] && ok(after) && InAnyTurn(ok, after, v)
  }

  lemma SingleWorks(subs: seq<Block>, v: Name, id: nat, effect: Effect, ok: Store -> bool, m: Memory, depth: nat, fuel: nat)
    requires WorksOn(effect, v, ok) && ok(m.store) && v in m.store
    ensures var o := Exec(subs, Single(id, effect), m, depth, fuel);
      && o.Done? && o.memory.trace == m.trace + [id]
      && effect(m.store) == Some(o.memory.store)
      && v in o.memory.store && o.memory.store[v] == m.store[v]
      && ok(o.memory.store) && InAnyTurn(ok, o.memory.store, v)
  {
    assert WorksIn(effect, v, ok, m.store);
  }

  /** Before each turn the variables are the fold up to it, and v the value of the turn. */
  lemma {:induction false} TurnFolds(l: Loop, id: nat, effect: Effect, ok: Store -> bool, m: Memory, start: long, k: nat)
    requires l.body == Single(id, effect) && WorksOn(effect, l.v, ok)
    requires l.v in m.store && ok(m.store[l.v := start])
    requires l.step != 0 && k < TurnCount(start, l.stop, l.step) && IsLong(start + k * l.step)
    ensures var folded := Folded(effect, l.v, start, l.step, k, m.store);
      && folded.Some? && l.v in folded.value
      && var turn := AtTurn(l, m.(store := m.store[l.v := start]), k);
         && turn.Some? && turn.value.store == folded.value[l.v := start + k * l.step]
         && ok(turn.value.store)
    decreases k
  {
    hide TurnCount, Exec, WorksOn;
    if k != 0 {
      var m0 := m.(store := m.store[l.v := start]);
      var value := start + (k - 1) * l.step;
      Between(l.step, k - 1, k);
      MulDistributes(l.step, k - 1, 1);
      assert value + l.step == start + k * l.step;
      assert IsLong(value);
      TurnFolds(l, id, effect, ok, m, start, k - 1);
      var before := AtTurn(l, m0, k - 1).value;
      SingleWorks(l.subs, l.v, id, effect, ok, before, l.depth, l.fuel);
      AnyTurn(ok, l.Body(before).memory.store, l.v, start + k * l.step);
      BeforeTheEnd(start, l.stop, l.step, k - 1);
    }
  }

  lemma FoldedNext(effect: Effect, v: Name, start: int, step: int, k: nat, store: Store)
    requires Folded(effect, v, start, step, k, store).Some? && IsLong(start + k * step)
    ensures Folded(effect, v, start, step, k + 1, store)
      == effect(Folded(effect, v, start, step, k, store).value[v := start + k * step])
  {
  }

  /** A counting loop around one statement leaves the variables as the effect folded over the
      values of the count. */
  lemma CountingFolds(subs: seq<Block>, v: Name, r: Range, id: nat, effect: Effect, ok: Store -> bool, m: Memory, depth: nat)
    returns (after: Store)
    requires v in m.store && r.Fits() && depth < MAX_NESTING_DEPTH - 1
    requires WorksOn(effect, v, ok) && ok(m.store[v := r.start])
    ensures var o := Exec(subs, Counting(v, r, Single(id, effect)), m, depth, r.Count() - 1);
      && o.Done? && o.memory.store == after && o.memory.trace == m.trace + Times([id], r.Count())
    ensures Folded(effect, v, r.start, r.step, r.Count(), m.store) == Some(after)
  {
    hide Exec, WorksOn, TurnCount, Times, Counting, AtTurn, Folded;
    var body := Single(id, effect);
    var l := CountingLoop(subs, v, r, body, depth, 0);
    var m0 := m.(store := m.store[v := r.start]);
    var begins := (m': Memory) => ok(m'.store);
    forall m': Memory | begins(m') && v in m'.store
      ensures KeepsOn(l, begins, m') && l.Body(m').memory.trace == m'.trace + [id]
    {
      SingleWorks(subs, v, id, effect, ok, m', depth + 1, 0);
      var after := l.Body(m').memory.store;
      AnyTurn(ok, after, v, ToLong(after[v] + r.step));
    }
    var before := CountingEnds(subs, v, r, body, m, depth, 0, begins, [id]);
    SingleWorks(subs, v, id, effect, ok, before, depth + 1, 0);
    TurnFolds(l, id, effect, ok, m, r.start, r.Count() - 1);
    FoldedNext(effect, v, r.start, r.step, r.Count() - 1, m.store);
    after := l.Body(before).memory.store;
  }

  function Sum(a: int, b: int): long {
    ToLong(a + b)
  }

  /** LET total = total + v */
  function AddTo(total: Name, v: Name): Effect {
    (s: Store) => if total in s && v in s then Some(s[total := Sum(s[total], s[v])]) else None
  }

  /** n (n + 1) / 2 */
  function Triangle(n: nat): nat {
    if n == 0 then 0 else Triangle(n - 1) + n
  }

  lemma {:induction false} TriangleIs(n: nat)
    ensures 2 * Triangle(n) == n * (n + 1)
  {
    if n != 0 {
      TriangleIs(n - 1);
      MulDistributes(n, n - 1, 2);
    }
  }

  lemma {:induction false} FoldedSum(total: Name, v: Name, k: nat, store: Store, bound: nat)
    requires total != v && total in store && k <= bound < 0x8000_0000 && IsLong(store[total] + Triangle(bound))
    ensures var folded := Folded(AddTo(total, v), v, 1, 1, k, store);
      folded.Some? && total in folded.value && folded.value[total] == store[total] + Triangle(k)
    decreases k
  {
    if k != 0 {
      FoldedSum(total, v, k - 1, store, bound);
      TriangleGrows(k, bound);
    }
  }

  lemma {:induction false} TriangleGrows(a: nat, b: nat)
    requires a <= b
    ensures Triangle(a) <= Triangle(b)
    decreases b
  {
    if a < b {
      TriangleGrows(a, b - 1);
    }
  }

  /** As a program: FOR v = 1 TO n, LET total = total + v, NEXT v. The machine halts, and the
      total has grown by n (n + 1) / 2. */
  lemma SumProgramHalts(total: Name, v: Name, n: long, id: nat, store: Store) returns (k: nat, after: Store)
    requires total != v && total in store && v in store && n > 0 && IsLong(store[total] + n * (n + 1) / 2)
    ensures var main := Repeat(v, _ => Some(1), _ => Some(n), _ => Some(1), Single(id, AddTo(total, v)));
      var p := Run(Link(main, []), AtStart(store), k);
      p.Halted? && p.memory.store == after
    ensures total in after && after[total] == store[total] + n * (n + 1) / 2
  {
    hide Run, Link, Exec, Folded, Triangle, WorksOn, Times;
    var r, effect := Range(1, n, 1), AddTo(total, v);
    var main := Counting(v, r, Single(id, effect));
    TriangleIs(n);
    var ok := (s: Store) => total in s;
    AddWorks(total, v, ok);
    OneToN(n);
    after := CountingFolds([], v, r, id, effect, ok, Memory(store, []), 0);
    FoldedSum(total, v, n, store, n);
    k := RunsAsRead(main, [], store, r.Count() - 1);
  }

  lemma AddWorks(total: Name, v: Name, ok: Store -> bool)
    requires total != v && forall s: Store :: ok(s) == (total in s)
    ensures WorksOn(AddTo(total, v), v, ok)
  {
    forall s: Store | ok(s) && v in s ensures WorksIn(AddTo(total, v), v, ok, s) {
    }
  }

  lemma OneToN(n: long)
    requires n > 0
    ensures Range(1, n, 1).Count() == n && Range(1, n, 1).Fits()
  {
    if n > 1 {
      DivUnique(n - 2, 1, n - 2, 0);
    }
  }

  function Endless(v: Name): Block {
    Repeat(v, _ => Some(0), _ => Some(0x7FFF_FFFF), _ => Some(2), Empty)
  }

  lemma EvenStaysEven(x: long)
    requires x % 2 == 0
    ensures ToLong(x + 2) % 2 == 0
  {
    if x + 2 >= 0x8000_0000 {
      assert x == 0x7FFF_FFFE;
      assert ToLong(0x8000_0000) == -0x8000_0000;
    }
  }

  lemma {:induction false} EndlessTurns(v: Name, m: Memory, depth: nat, fuel: nat)
    requires v in m.store && m.store[v] % 2 == 0 && depth < MAX_NESTING_DEPTH
    ensures Turns([], v, 0x7FFF_FFFF, 2, Empty, m, depth, fuel) == OutOfFuel
    decreases fuel, depth
  {
    EvenStaysEven(m.store[v]);
    if fuel > 0 {
      EndlessTurns(v, NextTurn(v, 2, m), depth, fuel - 1);
    }
  }

  /** The loop above, as a program: the machine is still running after any number of
      statements, although 2^30 + 1 turns are documented. */
  lemma EndlessRunsForever(v: Name, store: Store, n: nat)
    requires v in store
    ensures Run(Link(Endless(v), []), AtStart(store), n).Running?
    ensures TurnCount(0, 0x7FFF_FFFF, 2) == 0x4000_0000 + 1
  {
    var m := Memory(store, []);
    EndlessTurns(v, m.(store := store[v := 0]), 1, n + 1);
    assert Reading(Endless(v), [], store, n + 1) == OutOfFuel;
    hide Link, Run, Exec;
    if !Run(Link(Endless(v), []), AtStart(store), n).Running? {
      ReadAsRun(Endless(v), [], store, n);
    }
  }
}
