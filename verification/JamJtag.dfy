/** The JTAG driver of the Jam player over its real state: padding words, one scan buffer
    per register that serves as TDI and TDO at once, and a chain it can only clock. */
module JamJtag {
  import opened Bits
  import opened BitArrays
  import opened JtagTap
  import opened JtagCalls

  datatype Status = Success | OutOfMemory | InternalError

  /** The hardware: every clock is recorded, and the level read back on TDO may depend on
      everything clocked so far. */
  class Chain {
    const device: seq<Pulse> -> bool
    var sent: seq<Pulse>

    constructor (device: seq<Pulse> -> bool)
      ensures this.device == device && sent == []
    {
      this.device := device;
      sent := [];
    }

    method Io(tms: bool, tdi: bool, readTdo: bool) returns (tdo: bool)
      modifies this
      ensures sent == old(sent) + [Pulse(tms, tdi)]
      ensures tdo == (readTdo && device(sent))
    {
      sent := sent + [Pulse(tms, tdi)];
      tdo := readTdo && device(sent);
    }
  }

  lemma {:induction false} RepeatSnoc(p: Pulse, n: nat)
    ensures Repeat(p, n + 1) == Repeat(p, n) + [p]
  {
    if n != 0 {
      RepeatSnoc(p, n - 1);
    }
  }

  lemma {:induction false} RepeatIs(p: Pulse, n: nat)
    ensures |Repeat(p, n)| == n && forall i :: 0 <= i < n ==> Repeat(p, n)[i] == p
  {
    if n != 0 {
      RepeatIs(p, n - 1);
    }
  }

  /** The padding, stop state and scan buffer of one register. */
  class ScanPath {
    const register: Register
    const maxPreamble: nat
    const maxPostamble: nat
    const maxLength: nat
    var stop: Code
    var preamble: nat
    var postamble: nat
    var length: nat
    var preambleData: array<word>
    var postambleData: array<word>
    var buffer: array<byte>

    /** With a workspace the buffers are carved out at full size; without one they grow. */
    ghost predicate Valid(workspace: bool)
      reads this
    {
      && preamble <= 32 * preambleData.Length
      && postamble <= 32 * postambleData.Length
      && preambleData != postambleData
      && length <= 8 * buffer.Length
      && (workspace ==>
           && maxPreamble <= 32 * preambleData.Length
           && maxPostamble <= 32 * postambleData.Length
           && maxLength <= 8 * buffer.Length)
    }

    constructor (register: Register, workspace: bool)
      ensures Valid(workspace) && this.register == register
      ensures stop == IDLE && preamble == postamble == length == 0
      ensures fresh(preambleData) && fresh(postambleData) && fresh(buffer)
      ensures register.DR? ==> maxPreamble == maxPostamble == 1024 && maxLength == 2048
      ensures register.IR? ==> maxPreamble == maxPostamble == 256 && maxLength == 512
    {
      this.register := register;
      var pad: nat := if register.DR? then 1024 else 256;
      maxPreamble, maxPostamble, maxLength := pad, pad, 2 * pad;
      stop, preamble, postamble, length := IDLE, 0, 0, 0;
      preambleData := new word[if workspace then pad / 32 else 0](_ => 0);
      postambleData := new word[if workspace then pad / 32 else 0](_ => 0);
      buffer := new byte[if workspace then pad / 4 else 0](_ => 0);
    }

    /** The bits one scan shifts: preamble, target, postamble. */
    ghost function Padded(data: array<word>, start: nat, count: nat): (bits: seq<bool>)
      requires preamble <= 32 * preambleData.Length && postamble <= 32 * postambleData.Length
      requires start + count <= 32 * data.Length
      reads this, preambleData, postambleData, data
      ensures |bits| == preamble + count + postamble
    {
      WordBits(preambleData, 0, preamble) + WordBits(data, start, count) + WordBits(postambleData, 0, postamble)
    }
  }

  /** Copies n bits of `data` into the buffer at bit `at`. */
  method CopyIn(buffer: array<byte>, at: nat, data: array<word>, start: nat, n: nat)
    requires at + n <= 8 * buffer.Length && start + n <= 32 * data.Length
    modifies buffer
    ensures forall q: nat :: q < 8 * buffer.Length ==>
      BufferBit(buffer, q) == if at <= q < at + n then WordBit(data, start + q - at) else old(BufferBit(buffer, q))
  {
    for i := 0 to n
      invariant forall q: nat :: q < 8 * buffer.Length ==>
        BufferBit(buffer, q) == if at <= q < at + i then WordBit(data, start + q - at) else old(BufferBit(buffer, q))
    {
      PutBufferBit(buffer, at + i, WordBit(data, start + i));
    }
  }

  /** jam_jtag_concatenate_data */
  method ConcatenateData(path: ScanPath, data: array<word>, start: nat, count: nat)
    requires path.preamble <= 32 * path.preambleData.Length
    requires path.postamble <= 32 * path.postambleData.Length
    requires start + count <= 32 * data.Length
    requires path.preamble + count + path.postamble <= 8 * path.buffer.Length
    modifies path.buffer
    ensures forall i: nat :: i < path.preamble + count + path.postamble ==>
      BufferBit(path.buffer, i) == old(path.Padded(data, start, count))[i]
  {
    CopyIn(path.buffer, 0, path.preambleData, 0, path.preamble);
    CopyIn(path.buffer, path.preamble, data, start, count);
    CopyIn(path.buffer, path.preamble + count, path.postambleData, 0, path.postamble);
  }

  /** jam_jtag_extract_target_data */
  method ExtractTargetData(buffer: array<byte>, data: array<word>, start: nat, preamble: nat, count: nat)
    requires start + count <= 32 * data.Length && preamble + count <= 8 * buffer.Length
    modifies data
    ensures forall q: nat :: q < 32 * data.Length ==>
      WordBit(data, q) == if start <= q < start + count then BufferBit(buffer, preamble + q - start) else old(WordBit(data, q))
  {
    for i := 0 to count
      invariant forall q: nat :: q < 32 * data.Length ==>
        WordBit(data, q) == if start <= q < start + i then BufferBit(buffer, preamble + q - start) else old(WordBit(data, q))
    {
      PutWordBit(data, start + i, BufferBit(buffer, preamble + i));
    }
  }

  // ---------------------------------------------------------------------------
  // Padding
  // ---------------------------------------------------------------------------

  /** The setters index the words of their copy by `i` but its bits by `i + start`, so
      bit q of the copy comes from this position of the requested range. */
  function PadSource(q: nat, start: nat): nat {
    32 * (q / 32) + (q % 32 - start) % 32
  }

  lemma PadSourceInverse(q: nat, start: nat, i: nat)
    ensures PadSource(q, start) == i <==> q == 32 * (i / 32) + (i + start) % 32
  {
    var r := (q % 32 - start) % 32;
    assert PadSource(q, start) / 32 == q / 32 && PadSource(q, start) % 32 == r;
    assert (r + start) % 32 == q % 32;
    if q == 32 * (i / 32) + (i + start) % 32 {
      assert q / 32 == i / 32 && q % 32 == (i + start) % 32;
      assert (q % 32 - start) % 32 == i % 32;
    }
  }

  lemma AlignedSource(start: nat)
    ensures start % 32 == 0 ==> forall q: nat :: PadSource(q, start) == q
  {
    forall q: nat { PadSourceInverse(q, start, q); }
  }

  /** The copying loop shared by the four padding setters; no data means all ones. */
  method CopyPadding(dest: array<word>, count: nat, start: nat, data: array?<word>)
    requires count <= 32 * dest.Length && data != dest
    requires data != null ==> start + count <= 32 * data.Length
    modifies dest
    ensures forall q: nat :: q < 32 * dest.Length ==>
      WordBit(dest, q) ==
        if PadSource(q, start) < count then data == null || WordBit(data, start + PadSource(q, start))
        else old(WordBit(dest, q))
    ensures start % 32 == 0 ==> forall q: nat :: q < count ==>
      WordBit(dest, q) == (data == null || WordBit(data, start + q))
  {
    hide PadSource, WordBit;
    for i := 0 to count
      invariant forall q: nat :: q < 32 * dest.Length ==>
        WordBit(dest, q) ==
          if PadSource(q, start) < i then data == null || WordBit(data, start + PadSource(q, start))
          else old(WordBit(dest, q))
    {
      forall q: nat { PadSourceInverse(q, start, i); }
      var bit := i + start;
      PutWordBit(dest, 32 * (i / 32) + bit % 32, data == null || WordBit(data, bit));
    }
    AlignedSource(start);
  }

  /** The padding a setter leaves behind, bit by bit. */
  ghost function PaddedBit(was: nat -> bool, data: nat -> bool, start: nat, count: nat, q: nat): bool {
    if PadSource(q, start) < count then data(start + PadSource(q, start)) else was(q)
  }

  ghost predicate Faithful(was: nat -> bool, data: nat -> bool, start: nat, count: nat) {
    forall q: nat :: q < count ==> PaddedBit(was, data, start, count, q) == data(start + q)
  }

  lemma PaddingFaithful(start: nat, count: nat, was: nat -> bool, data: nat -> bool)
    requires count == 0 || start % 32 == 0
    ensures Faithful(was, data, start, count)
  {
    hide PadSource;
    AlignedSource(start);
  }

  lemma PaddingUnfaithful(start: nat, count: nat) returns (was: nat -> bool, data: nat -> bool)
    requires count > 0 && start % 32 != 0
    ensures !Faithful(was, data, start, count)
  {
    was, data := (q: nat) => false, (q: nat) => q == start;
    assert PaddedBit(was, data, start, count, 0) != data(start + 0);
  }

  /** The setters copy the requested range for every array if and only if it starts on a
      word boundary or is empty. */
  lemma PaddingFaithfulIff(start: nat, count: nat)
    ensures (forall was: nat -> bool, data: nat -> bool :: Faithful(was, data, start, count))
      <==> count == 0 || start % 32 == 0
  {
    hide Faithful;
    if count == 0 || start % 32 == 0 {
      forall was: nat -> bool, data: nat -> bool { PaddingFaithful(start, count, was, data); }
    } else {
      var was, data := PaddingUnfaithful(start, count);
    }
  }

  // ---------------------------------------------------------------------------
  // The driver
  // ---------------------------------------------------------------------------

  /** The level read on TDO while data bit k of a scan is clocked. */
  ghost function Response(device: seq<Pulse> -> bool, before: seq<Pulse>, bits: seq<bool>, k: nat): bool
    requires k < |bits|
  {
    device(before + ShiftPulses(bits)[..k + 1])
  }

  /** From pulse `at` on, TDI presents the bits, one clock each, with TMS high on the last. */
  ghost predicate Presents(sent: seq<Pulse>, at: nat, bits: seq<bool>) {
    && at + |bits| <= |sent|
    && forall k :: 0 <= k < |bits| ==> sent[at + k] == Pulse(k == |bits| - 1, bits[k])
  }

  class Player {
    const chain: Chain
    const dr: ScanPath
    const ir: ScanPath
    const workspace: bool
    var state: State

    constructor (chain: Chain, workspace: bool)
      ensures Valid() && this.chain == chain && this.workspace == workspace
      ensures state == Unknown && dr.stop == IDLE && ir.stop == IDLE
      ensures fresh(dr) && fresh(ir)
    {
      this.chain := chain;
      this.workspace := workspace;
      dr := new ScanPath(DR, workspace);
      ir := new ScanPath(IR, workspace);
      state := Unknown;
    }

    ghost predicate Valid()
      reads dr, ir
    {
      && dr != ir
      && dr.register == DR && ir.register == IR
      && dr.Valid(workspace) && ir.Valid(workspace)
    }

    /** What the run so far looks like from outside. */
    ghost function Seen(): Driver
      reads this, dr, ir, chain
    {
      Driver(state, dr.stop, ir.stop, chain.sent)
    }

    /** jam_jtag_reset_idle */
    method ResetToIdle()
      modifies this`state, chain
      ensures state == At(IDLE) && chain.sent == old(chain.sent) + RESET_IDLE
    {
      ghost var before := chain.sent;
      for i := 0 to 5
        invariant chain.sent == before + Repeat(HIGH, i)
      {
        RepeatSnoc(HIGH, i);
        var _ := chain.Io(true, false, false);
      }
      var _ := chain.Io(false, false, false);
      assert RESET_IDLE == Repeat(HIGH, 5) + [LOW];
      state := At(IDLE);
    }

    /** jam_set_drstop_state and jam_set_irstop_state */
    method SetStop(path: ScanPath, stop: Code)
      requires Valid() && (path == dr || path == ir)
      modifies path`stop
      ensures Valid() && Seen() == Perform(old(Seen()), Call.SetStop(path.register, stop))
    {
      path.stop := stop;
    }

    /** jam_goto_jtag_state; the count of nine is never reached. */
    method Goto(target: Code) returns (status: Status)
      modifies this`state, chain
      ensures status == Success
      ensures state == At(target)
      ensures chain.sent == old(chain.sent) + GotoPulses(old(state), target)
    {
      hide Levels, TmsToward, TableNext, Distance, Path;
      if state == Unknown {
        ResetToIdle();
      }
      ghost var before := chain.sent;
      ghost var from := state.code;
      var c := state.code;
      if c == target {
        if c == IDLE || c == DRSHIFT || c == DRPAUSE || c == IRSHIFT || c == IRPAUSE {
          var _ := chain.Io(false, false, false);
        } else if c == RESET {
          var _ := chain.Io(true, false, false);
        }
      } else {
        var count: nat := 0;
        while c != target && count < 9
          invariant state == At(c)
          invariant count + |Path(c, target)| <= 8
          invariant chain.sent + Path(c, target) == before + Path(from, target)
          decreases 9 - count
        {
          PathStep(c, target);
          var tms := TmsToward(c, target);
          var _ := chain.Io(tms, false, false);
          c := TableNext(c, tms);
          state := At(c);
          count := count + 1;
        }
      }
      assert chain.sent == before + GotoFrom(from, target);
      assert old(state) == Unknown ==>
        old(chain.sent) + (RESET_IDLE + GotoFrom(from, target)) == before + GotoFrom(from, target) by {
        hide GotoFrom, RESET_IDLE;
      }
      status := if state != At(target) then InternalError else Success;
    }

    /** jam_do_wait_cycles */
    method WaitForCycles(cycles: int, at: Code) returns (status: Status)
      modifies this`state, chain
      ensures status == Success && state == At(at)
      ensures chain.sent == old(chain.sent) + WaitPulses(old(state), cycles, at)
      ensures cycles >= 0 ==> |chain.sent| >= |old(chain.sent)| + cycles
      ensures forall k :: |chain.sent| - cycles <= k < |chain.sent| ==> chain.sent[k] == Pulse(at == RESET, false)
      ensures cycles >= 0 && old(state) == At(at) ==> |chain.sent| == |old(chain.sent)| + cycles
    {
      hide GotoPulses;
      status := Success;
      if state != At(at) {
        status := Goto(at);
      }
      ghost var before := chain.sent;
      var tms := at == RESET;
      var count: nat := 0;
      while count < cycles
        invariant count <= if cycles < 0 then 0 else cycles
        invariant state == At(at)
        invariant chain.sent == before + Repeat(Pulse(tms, false), count)
      {
        RepeatSnoc(Pulse(tms, false), count);
        var _ := chain.Io(tms, false, false);
        count := count + 1;
      }
      RepeatIs(Pulse(tms, false), count);
    }

    /** jam_do_wait_microseconds; the delay itself is not modelled. */
    method WaitForMicroseconds(at: Code) returns (status: Status)
      modifies this`state, chain
      ensures status == Success
      ensures Seen() == Perform(old(Seen()), WaitMicroseconds(at))
    {
      status := Success;
      if state != Unknown && state != At(at) {
        status := Goto(at);
      }
    }

    /** jam_free_jtag_padding_buffers, as far as the chain is concerned. */
    method FinishJtag()
      modifies this`state, chain
      ensures Seen() == Perform(old(Seen()), Finish)
    {
      if state != Unknown {
        ResetToIdle();
      }
    }

    /** jam_jtag_drscan and jam_jtag_irscan on the buffer of `path`; with `capture` the
        same buffer also receives what comes back. */
    method ClockThrough(path: ScanPath, start: Code, count: nat, capture: bool)
      requires start == IDLE || start == DRPAUSE || start == IRPAUSE
      requires count <= 8 * path.buffer.Length
      modifies chain, path.buffer
      ensures var bits := old(BufferBits(path.buffer, count));
        var ready := old(chain.sent) + EnterShift(path.register, start);
        && chain.sent == ready + ShiftPulses(bits) + [LOW]
        && (capture ==> forall i: nat :: i < count ==>
              BufferBit(path.buffer, i) == Response(chain.device, ready, bits, i))
    {
      Enter(path.register, start);
      ghost var before := chain.sent;
      ghost var bits := BufferBits(path.buffer, count);
      for i := 0 to count
        invariant chain.sent == before + ShiftPulses(bits)[..i]
        invariant forall q: nat :: i <= q < count ==> BufferBit(path.buffer, q) == bits[q]
        invariant capture ==> forall q: nat :: q < i ==>
          BufferBit(path.buffer, q) == Response(chain.device, before, bits, q)
      {
        assert ShiftPulses(bits)[..i + 1] == ShiftPulses(bits)[..i] + [Pulse(i == count - 1, bits[i])];
        var tdo := chain.Io(i == count - 1, BufferBit(path.buffer, i), capture);
        if capture {
          PutBufferBit(path.buffer, i, tdo);
        }
      }
      assert ShiftPulses(bits)[..count] == ShiftPulses(bits);
      var _ := chain.Io(false, false, false);
    }

    /** The clocks that lead into Shift, written out as in the source. */
    method Enter(register: Register, start: Code)
      requires start == IDLE || start == DRPAUSE || start == IRPAUSE
      modifies chain
      ensures chain.sent == old(chain.sent) + EnterShift(register, start)
    {
      if register == DR {
        if start == IDLE {
          var _ := chain.Io(true, false, false);
        } else {
          var _ := chain.Io(true, false, false);
          var _ := chain.Io(true, false, false);
          var _ := chain.Io(true, false, false);
        }
        var _ := chain.Io(false, false, false);
        var _ := chain.Io(false, false, false);
      } else {
        if start == IDLE {
          var _ := chain.Io(true, false, false);
          var _ := chain.Io(true, false, false);
          var _ := chain.Io(false, false, false);
        } else if start == DRPAUSE {
          var _ := chain.Io(true, false, false);
          var _ := chain.Io(true, false, false);
          var _ := chain.Io(true, false, false);
          var _ := chain.Io(true, false, false);
          var _ := chain.Io(false, false, false);
        } else {
          var _ := chain.Io(true, false, false);
        }
        var _ := chain.Io(false, false, false);
      }
    }

    /** jam_set_dr_preamble and jam_set_ir_preamble */
    method SetPreamble(path: ScanPath, count: int, start: nat, data: array?<word>) returns (status: Status)
      requires Valid() && path in {dr, ir}
      requires data != path.preambleData && data != path.postambleData
      requires data != null && count >= 0 ==> start + count <= 32 * data.Length
      modifies path, path.preambleData
      ensures Valid()
      ensures status == if workspace && count > path.maxPreamble then OutOfMemory else Success
      ensures path.preamble == if count < 0 || status == OutOfMemory then old(path.preamble) else count
      ensures status == Success && count >= 0 && start % 32 == 0 ==>
        forall q: nat :: q < count ==>
          WordBit(path.preambleData, q) == (data == null || old(WordBit(data, start + q)))
      ensures path.postamble == old(path.postamble) && path.postambleData == old(path.postambleData)
      ensures path.stop == old(path.stop) && path.buffer == old(path.buffer) && path.length == old(path.length)
    {
      hide PadSource, WordBit;
      status := Success;
      if count >= 0 {
        if workspace {
          if count > path.maxPreamble {
            status := OutOfMemory;
          } else {
            path.preamble := count;
          }
        } else {
          if count > path.preamble {
            path.preambleData := new word[(count + 31) / 32];
          }
          path.preamble := count;
        }
        if status == Success {
          CopyPadding(path.preambleData, count, start, data);
        }
      }
    }

    /** jam_set_dr_postamble and jam_set_ir_postamble */
    method SetPostamble(path: ScanPath, count: int, start: nat, data: array?<word>) returns (status: Status)
      requires Valid() && path in {dr, ir}
      requires data != path.preambleData && data != path.postambleData
      requires data != null && count >= 0 ==> start + count <= 32 * data.Length
      modifies path, path.postambleData
      ensures Valid()
      ensures status == if workspace && count > path.maxPostamble then OutOfMemory else Success
      ensures path.postamble == if count < 0 || status == OutOfMemory then old(path.postamble) else count
      ensures status == Success && count >= 0 && start % 32 == 0 ==>
        forall q: nat :: q < count ==>
          WordBit(path.postambleData, q) == (data == null || old(WordBit(data, start + q)))
      ensures path.preamble == old(path.preamble) && path.preambleData == old(path.preambleData)
      ensures path.stop == old(path.stop) && path.buffer == old(path.buffer) && path.length == old(path.length)
    {
      hide PadSource, WordBit;
      status := Success;
      if count >= 0 {
        if workspace {
          if count > path.maxPostamble {
            status := OutOfMemory;
          } else {
            path.postamble := count;
          }
        } else {
          if count > path.postamble {
            path.postambleData := new word[(count + 31) / 32];
          }
          path.postamble := count;
        }
        if status == Success {
          CopyPadding(path.postambleData, count, start, data);
        }
      }
    }

    /** The scan buffer is large enough for n bits, or there is no room. */
    method Reserve(path: ScanPath, n: nat) returns (status: Status)
      requires path.Valid(workspace)
      modifies path
      ensures path.Valid(workspace)
      ensures status == if workspace && n > path.maxLength then OutOfMemory else Success
      ensures status == Success ==> n <= 8 * path.buffer.Length
      ensures path.buffer == old(path.buffer) || fresh(path.buffer)
      ensures path.preamble == old(path.preamble) && path.preambleData == old(path.preambleData)
      ensures path.postamble == old(path.postamble) && path.postambleData == old(path.postambleData)
      ensures path.stop == old(path.stop)
    {
      status := Success;
      if workspace {
        if n > path.maxLength {
          status := OutOfMemory;
        }
      } else if n > path.length {
        var chars := (n + 7) / 8;
        path.buffer := new byte[chars];
        path.length := chars * 8;
      }
    }

    /** Fills the scan buffer, clocks it through the chain and moves on to the stop state. */
    method ShiftAndStop(path: ScanPath, start: Code, count: nat, input: array<word>, inIndex: nat, capture: bool)
      returns (status: Status)
      requires path.preamble <= 32 * path.preambleData.Length
      requires path.postamble <= 32 * path.postambleData.Length
      requires inIndex + count <= 32 * input.Length
      requires path.preamble + count + path.postamble <= 8 * path.buffer.Length
      requires start == IDLE || start == DRPAUSE || start == IRPAUSE
      modifies this`state, chain, path.buffer
      ensures status == Success && state == At(path.stop)
      ensures var bits := old(path.Padded(input, inIndex, count));
        var ready := old(chain.sent) + EnterShift(path.register, start);
        && chain.sent == ready + ShiftPulses(bits) + Leave(path.register, path.stop)
        && (capture ==> forall i: nat :: i < |bits| ==>
              BufferBit(path.buffer, i) == Response(chain.device, ready, bits, i))
    {
      hide EnterShift, ShiftPulses, Response, BufferBit, WordBit, PauseCode, GotoFrom;
      ghost var bits := path.Padded(input, inIndex, count);
      ConcatenateData(path, input, inIndex, count);
      assert BufferBits(path.buffer, |bits|) == bits;
      ClockThrough(path, start, path.preamble + count + path.postamble, capture);
      state := At(PauseCode(path.register));
      status := Success;
      if path.stop != PauseCode(path.register) {
        status := Goto(path.stop);
      }
    }

    /** Goes to the state a scan starts from and makes room for n bits. */
    method Prepare(path: ScanPath, n: nat) returns (start: Code, status: Status)
      requires path.Valid(workspace)
      modifies this`state, chain, path
      ensures path.Valid(workspace)
      ensures start == StartCode(old(state))
      ensures status == if workspace && n > path.maxLength then OutOfMemory else Success
      ensures status == Success ==> n <= 8 * path.buffer.Length
      ensures state == At(start)
      ensures chain.sent ==
        old(chain.sent) + if old(state) == At(start) then [] else GotoPulses(old(state), start)
      ensures path.buffer == old(path.buffer) || fresh(path.buffer)
      ensures path.preamble == old(path.preamble) && path.preambleData == old(path.preambleData)
      ensures path.postamble == old(path.postamble) && path.postambleData == old(path.postambleData)
      ensures path.stop == old(path.stop)
    {
      hide GotoPulses, StartCode;
      start := StartCode(state);
      status := Success;
      if state != At(start) {
        status := Goto(start);
      }
      status := Reserve(path, n);
    }

    /** jam_do_drscan and jam_do_irscan; with `capture`, the part of jam_swap_dr and
        jam_swap_ir up to the point where the answer lies in the scan buffer. */
    method DoScan(path: ScanPath, count: nat, input: array<word>, inIndex: nat, capture: bool) returns (status: Status)
      requires Valid() && path in {dr, ir}
      requires inIndex + count <= 32 * input.Length
      modifies this`state, chain, path, path.buffer
      ensures Valid()
      ensures path.preamble == old(path.preamble) && path.postamble == old(path.postamble)
      ensures path.preambleData == old(path.preambleData) && path.postambleData == old(path.postambleData)
      ensures path.buffer == old(path.buffer) || fresh(path.buffer)
      ensures status == if workspace && path.preamble + count + path.postamble > path.maxLength then OutOfMemory
                        else Success
      ensures status == Success ==> path.preamble + count + path.postamble <= 8 * path.buffer.Length
      ensures status == Success ==>
        Seen() == Perform(old(Seen()), Scan(path.register, old(path.Padded(input, inIndex, count))))
      ensures status != Success ==> Seen() == Perform(old(Seen()), RefusedScan)
      ensures status == Success ==>
        Presents(chain.sent, |old(chain.sent)| + |old(Approach(path.register, state))|, old(path.Padded(input, inIndex, count)))
      ensures status == Success && capture ==>
        forall q: nat :: q < path.preamble + count + path.postamble ==>
          BufferBit(path.buffer, q) == Response(chain.device, old(chain.sent + Approach(path.register, state)),
                                                old(path.Padded(input, inIndex, count)), q)
    {
      hide Approach, Leave, GotoPulses, GotoFrom, EnterShift, ShiftPulses, Response, StartCode, PauseCode;
      hide BufferBit, WordBit;
      ghost var bits := path.Padded(input, inIndex, count);
      ghost var before, state0 := chain.sent, state;
      var start;
      start, status := Prepare(path, path.preamble + count + path.postamble);
      if status == Success {
        StartIsStable(state0);
        ScanJoins(path.register, state0, bits, path.stop, before);
        assert path.Padded(input, inIndex, count) == bits;
        status := ShiftAndStop(path, start, count, input, inIndex, capture);
        ScanPresents(path.register, state0, bits, path.stop, before);
      }
    }

    /** jam_swap_dr and jam_swap_ir */
    method SwapScan(path: ScanPath, count: nat, input: array<word>, inIndex: nat, output: array<word>, outIndex: nat)
      returns (status: Status)
      requires Valid() && path in {dr, ir}
      requires inIndex + count <= 32 * input.Length
      requires outIndex + count <= 32 * output.Length
      requires output != path.preambleData && output != path.postambleData
      modifies this`state, chain, path, path.buffer, output
      ensures Valid()
      ensures status == if workspace && path.preamble + count + path.postamble > path.maxLength then OutOfMemory
                        else Success
      ensures status == Success ==>
        Seen() == Perform(old(Seen()), Scan(path.register, old(path.Padded(input, inIndex, count))))
      ensures status == Success ==>
        Presents(chain.sent, |old(chain.sent)| + |old(Approach(path.register, state))|, old(path.Padded(input, inIndex, count)))
      ensures status == Success ==>
        var at := |old(chain.sent)| + |old(Approach(path.register, state))| + old(path.preamble);
        && at + count <= |chain.sent|
        && forall q: nat :: q < 32 * output.Length ==>
          WordBit(output, q) ==
            if outIndex <= q < outIndex + count then chain.device(chain.sent[..at + q - outIndex + 1])
            else old(WordBit(output, q))
      ensures status != Success ==> output[..] == old(output[..]) && Seen() == Perform(old(Seen()), RefusedScan)
    {
      hide Approach, Perform, Response, BufferBit, WordBit, Presents, ScanPulses;
      ghost var before, state0, bits := chain.sent, state, path.Padded(input, inIndex, count);
      status := DoScan(path, count, input, inIndex, true);
      if status == Success {
        ScanSends(old(Seen()), path.register, bits);
        ScanAnswers(chain.device, path.register, state0, bits, old(Seen()).Stop(path.register), before);
        ExtractTargetData(path.buffer, output, outIndex, path.preamble, count);
      }
    }
  }

  lemma ScanSends(d: Driver, r: Register, bits: seq<bool>)
    ensures Perform(d, Scan(r, bits)).sent == d.sent + ScanPulses(r, d.state, bits, d.Stop(r))
  {
  }

  lemma ScanPresents(r: Register, s: State, bits: seq<bool>, stop: Code, before: seq<Pulse>)
    ensures Presents(before + ScanPulses(r, s, bits, stop), |before| + |Approach(r, s)|, bits)
  {
    hide Approach, Leave;
    var sent, at := before + ScanPulses(r, s, bits, stop), |before| + |Approach(r, s)|;
    assert sent == before + Approach(r, s) + ShiftPulses(bits) + Leave(r, stop);
    assert sent[at..at + |bits|] == ShiftPulses(bits);
  }

  /** The answer to each bit is the level on TDO while that bit is clocked. */
  lemma ScanAnswers(device: seq<Pulse> -> bool, r: Register, s: State, bits: seq<bool>, stop: Code, before: seq<Pulse>)
    ensures var sent, at := before + ScanPulses(r, s, bits, stop), |before| + |Approach(r, s)|;
      && at + |bits| <= |sent|
      && forall k: nat :: k < |bits| ==> Response(device, before + Approach(r, s), bits, k) == device(sent[..at + k + 1])
  {
    hide Approach, Leave;
    var sent, at := before + ScanPulses(r, s, bits, stop), |before| + |Approach(r, s)|;
    assert sent == (before + Approach(r, s)) + (ShiftPulses(bits) + Leave(r, stop));
    forall k: nat | k < |bits|
      ensures Response(device, before + Approach(r, s), bits, k) == device(sent[..at + k + 1])
    {
      assert sent[..at + k + 1] == before + Approach(r, s) + ShiftPulses(bits)[..k + 1];
    }
  }

  lemma StartIsStable(s: State)
    ensures StartCode(s) == IDLE || StartCode(s) == DRPAUSE || StartCode(s) == IRPAUSE
  {
  }

  /** The pieces a scan clocks out, joined up. */
  lemma ScanJoins(r: Register, s: State, bits: seq<bool>, stop: Code, before: seq<Pulse>)
    ensures var start := StartCode(s);
      var ready := before + (if s == At(start) then [] else GotoPulses(s, start)) + EnterShift(r, start);
      && ready == before + Approach(r, s)
      && ready + ShiftPulses(bits) + Leave(r, stop) == before + ScanPulses(r, s, bits, stop)
  {
    hide StartCode, EnterShift, ShiftPulses, GotoPulses, Leave;
  }
}
