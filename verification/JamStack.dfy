/** The one stack behind FOR/NEXT, PUSH/POP and CALL/RETURN: a fixed array of records,
    searched from the bottom for its top on every call. */
module JamStack {
  import opened Bits
  import opened Options

  const MAX_NESTING_DEPTH: nat := 128

  type Name = string

  datatype Record =
    | Unused
    | ForNext(loopVar: Name, forPosition: nat, stopValue: long, stepValue: long)
    | PushPop(value: long)
    | CallReturn(returnPosition: nat)

  // ---------------------------------------------------------------------------
  // The stack as a value
  // ---------------------------------------------------------------------------

  /** None stands for JAMC_OUT_OF_MEMORY. */
  function Pushed(s: seq<Record>, r: Record): Option<seq<Record>> {
    if |s| < MAX_NESTING_DEPTH then Some(s + [r]) else None
  }

  /** A full stack hides its top: the search runs off the end of the array. */
  function Top(s: seq<Record>): Option<Record> {
    if 0 < |s| < MAX_NESTING_DEPTH then Some(s[|s| - 1]) else None
  }

  function Popped(s: seq<Record>): Option<seq<Record>> {
    if 0 < |s| < MAX_NESTING_DEPTH then Some(s[..|s| - 1]) else None
  }

  /** Push, peek and pop undo each other on every stack but one: the record that fills
      the last slot can never be seen or removed again. */
  lemma PushPopIff(s: seq<Record>, r: Record)
    requires |s| <= 128
    ensures Pushed(s, r).Some? && Top(Pushed(s, r).value) == Some(r) && Popped(Pushed(s, r).value) == Some(s)
      <==> |s| < 127
    ensures |s| == 127 ==>
      Pushed(s, r).Some? && Top(Pushed(s, r).value) == None && Popped(Pushed(s, r).value) == None
  {
    if |s| < MAX_NESTING_DEPTH {
      assert (s + [r])[..|s|] == s;
    }
  }

  // ---------------------------------------------------------------------------
  // The stack in place
  // ---------------------------------------------------------------------------

  class Stack {
    const slots: array<Record>
    ghost var contents: seq<Record>

    ghost predicate Valid()
      reads this, slots
    {
      && slots.Length == MAX_NESTING_DEPTH
      && |contents| <= MAX_NESTING_DEPTH
      && slots[..|contents|] == contents
      && (forall i :: 0 <= i < |contents| ==> contents[i] != Unused)
      && forall i :: |contents| <= i < MAX_NESTING_DEPTH ==> slots[i] == Unused
    }

    constructor ()
      ensures Valid() && contents == [] && fresh(slots)
    {
      slots := new Record[MAX_NESTING_DEPTH](_ => Unused);
      contents := [];
    }

    /** The search every operation starts with. */
    method FindTop() returns (index: nat)
      requires Valid()
      ensures index == |contents|
    {
      index := 0;
      while index < MAX_NESTING_DEPTH && slots[index] != Unused
        invariant index <= |contents|
        invariant index < |contents| ==> slots[index] == contents[index]
      {
        index := index + 1;
      }
    }

    method Push(r: Record) returns (ok: bool)
      requires Valid() && r != Unused
      modifies this, slots
      ensures Valid()
      ensures ok == Pushed(old(contents), r).Some?
      ensures contents == if ok then Pushed(old(contents), r).value else old(contents)
    {
      var index := FindTop();
      ok := index < MAX_NESTING_DEPTH;
      if ok {
        slots[index] := r;
        contents := contents + [r];
      }
    }

    method Peek() returns (top: Option<Record>)
      requires Valid()
      ensures top == Top(contents)
    {
      var index := FindTop();
      if 0 < index < MAX_NESTING_DEPTH {
        assert slots[index - 1] == contents[index - 1];
        top := Some(slots[index - 1]);
      } else {
        top := None;
      }
    }

    method Pop() returns (ok: bool)
      requires Valid()
      modifies this, slots
      ensures Valid()
      ensures ok == Popped(old(contents)).Some?
      ensures contents == if ok then Popped(old(contents)).value else old(contents)
    {
      var index := FindTop();
      ok := 0 < index < MAX_NESTING_DEPTH;
      if ok {
        index := index - 1;
        slots[index] := Unused;
        contents := contents[..index];
      }
    }
  }
}
