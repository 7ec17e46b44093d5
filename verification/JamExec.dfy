/** The interpreter's own variables: the position in the program, the symbol values and the
    stack, updated in place by one handler per statement. Each handler is proved to be the
    machine's step. */
module JamExec {
  import opened Bits
  import opened Options
  import opened JamStack
  import opened JamControl

  class Interpreter {
    const program: Program
    const stack: Stack
    var position: nat
    var memory: Memory
    var exited: bool

    ghost predicate Valid()
      reads this, stack, stack.slots
    {
      stack.Valid()
    }

    ghost function Now(): State
      reads this, stack, stack.slots
      requires Valid()
    {
      State(position, memory, stack.contents)
    }

    /** What the variables show after a handler has returned its status. */
    ghost predicate Shows(status: Option<Status>, p: Progress)
      reads this, stack, stack.slots
      requires Valid()
    {
      match p
      case Running(s) => status == None && !exited && Now() == s
      case Halted(m) => status == None && exited && memory == m
      case Stopped(reason, m) => status == Some(reason) && memory == m
    }

    constructor (program: Program, store: Store)
      ensures Valid() && this.program == program && Now() == AtStart(store) && !exited
      ensures fresh(stack) && fresh(stack.slots)
    {
      this.program := program;
      stack := new Stack();
      position, memory, exited := 0, Memory(store, []), false;
    }

    method PushAndGo(r: Record, to: nat) returns (status: Option<Status>)
      requires Valid() && r != Unused && !exited
      modifies this, stack, stack.slots
      ensures Valid() && Shows(status, JamControl.PushAndGo(old(Now()), old(memory), r, to))
    {
      var ok := stack.Push(r);
      if ok {
        position := to;
        status := None;
      } else {
        status := Some(OutOfMemory);
      }
    }

    /** jam_process_for */
    method ProcessFor(v: Name, start: Expr, stop: Expr, step: Expr) returns (status: Option<Status>)
      requires Valid() && !exited
      requires position < |program| && program[position] == For(v, start, stop, step)
      modifies this, stack, stack.slots
      ensures Valid() && Shows(status, Step(program, old(Now())))
    {
      match (start(memory.store), stop(memory.store), step(memory.store))
      case (Some(first), Some(last), Some(stride)) =>
        if stride == 0 {
          return Some(SyntaxError);
        }
        if v !in memory.store {
          return Some(UndefinedSymbol);
        }
        memory := memory.(store := memory.store[v := first]);
        status := PushAndGo(ForNext(v, position + 1, last, stride), position + 1);
      case _ =>
        status := Some(Refused);
    }

    /** jam_process_next */
    method ProcessNext(v: Name) returns (status: Option<Status>)
      requires Valid() && !exited
      requires position < |program| && program[position] == Next(v)
      modifies this, stack, stack.slots
      ensures Valid() && Shows(status, Step(program, old(Now())))
    {
      if v !in memory.store {
        return Some(UndefinedSymbol);
      }
      var top := stack.Peek();
      match top
      case Some(ForNext(loopVar, forPosition, stop, step)) =>
        if loopVar != v {
          return Some(NextUnexpected);
        }
        var value := memory.store[v];
        if (step > 0 && value >= stop) || (step < 0 && value <= stop) {
          var _ := stack.Pop();
          position := position + 1;
        } else {
          memory := memory.(store := memory.store[v := ToLong(value + step)]);
          position := forPosition;
        }
        status := None;
      case _ =>
        status := Some(NextUnexpected);
    }

    /** jam_process_push */
    method ProcessPush(e: Expr) returns (status: Option<Status>)
      requires Valid() && !exited
      requires position < |program| && program[position] == Push(e)
      modifies this, stack, stack.slots
      ensures Valid() && Shows(status, Step(program, old(Now())))
    {
      match e(memory.store)
      case Some(value) => status := PushAndGo(PushPop(value), position + 1);
      case None => status := Some(Refused);
    }

    /** jam_process_pop: the record is gone even when the variable turns out to be missing. */
    method ProcessPop(v: Name) returns (status: Option<Status>)
      requires Valid() && !exited
      requires position < |program| && program[position] == Pop(v)
      modifies this, stack, stack.slots
      ensures Valid() && Shows(status, Step(program, old(Now())))
    {
      var top := stack.Peek();
      match top
      case Some(PushPop(value)) =>
        var _ := stack.Pop();
        if v !in memory.store {
          return Some(TypeMismatch);
        }
        memory := memory.(store := memory.store[v := value]);
        position := position + 1;
        status := None;
      case _ =>
        status := Some(PopUnexpected);
    }

    /** jam_process_call_or_goto, for CALL */
    method ProcessCall(entry: Option<nat>) returns (status: Option<Status>)
      requires Valid() && !exited
      requires position < |program| && program[position] == Call(entry)
      modifies this, stack, stack.slots
      ensures Valid() && Shows(status, Step(program, old(Now())))
    {
      match entry
      case Some(target) => status := PushAndGo(CallReturn(position + 1), target);
      case None => status := Some(UndefinedSymbol);
    }

    /** jam_process_return */
    method ProcessReturn() returns (status: Option<Status>)
      requires Valid() && !exited
      requires position < |program| && program[position] == Return
      modifies this, stack, stack.slots
      ensures Valid() && Shows(status, Step(program, old(Now())))
    {
      var top := stack.Peek();
      match top
      case Some(CallReturn(back)) =>
        var _ := stack.Pop();
        position := back;
        status := None;
      case _ =>
        status := Some(ReturnUnexpected);
    }

    method ProcessOther(id: nat, effect: Effect) returns (status: Option<Status>)
      requires Valid() && !exited
      requires position < |program| && program[position] == Other(id, effect)
      modifies this
      ensures Valid() && Shows(status, Step(program, old(Now())))
    {
      match effect(memory.store)
      case Some(store) =>
        memory := Memory(store, memory.trace + [id]);
        position := position + 1;
        status := None;
      case None =>
        status := Some(Refused);
    }

    /** jam_execute_statement */
    method ExecuteStatement() returns (status: Option<Status>)
      requires Valid() && !exited
      modifies this, stack, stack.slots
      ensures Valid() && Shows(status, Step(program, old(Now())))
    {
      if position >= |program| {
        return Some(UnexpectedEnd);
      }
      match program[position]
      case Other(id, effect) => status := ProcessOther(id, effect);
      case For(v, start, stop, step) => status := ProcessFor(v, start, stop, step);
      case Next(v) => status := ProcessNext(v);
      case Push(e) => status := ProcessPush(e);
      case Pop(v) => status := ProcessPop(v);
      case Call(entry) => status := ProcessCall(entry);
      case Return => status := ProcessReturn();
      case Exit =>
        exited := true;
        status := None;
    }

    /** The loop of jam_execute, cut off after `limit` statements. */
    method Execute(limit: nat) returns (status: Option<Status>)
      requires Valid() && !exited
      modifies this, stack, stack.slots
      ensures Valid() && Shows(status, Run(program, old(Now()), limit))
    {
      status := None;
      ghost var s := Now();
      for done := 0 to limit
        invariant Valid() && !exited && status == None
        invariant Run(program, old(Now()), done) == Running(Now())
      {
        RunOn(program, s, done, 1);
        OneStep(program, Now());
        status := ExecuteStatement();
        if status.Some? || exited {
          RunEnded(program, s, done + 1, limit);
          return;
        }
      }
    }
  }
}
