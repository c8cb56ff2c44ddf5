/** The configuration interpreter: a byte program of block writes and special instructions. */
module DmpConfig {
  import opened Bytes
  import opened DmpMemory
  import opened DmpBlocks

  const INT_ENABLE_VALUE := 0x32
  const ENABLE_INTERRUPTS: bv8 := 0x01

  /** The memory of the device and its interrupt register. */
  datatype State = State(mem: seq<bv8>, intEnable: nat) {
    predicate Valid() { |mem| == CELLS }
  }

  /** The interpreter never reads past the end of these bytes. */
  predicate Readable(data: seq<bv8>) {
    data == [] ||
    (|data| >= 3 &&
     var n := Val(data[2]);
     if n > 0 then |data| >= 3 + n && Readable(data[3 + n..])
     else |data| >= 4 && (data[3] == ENABLE_INTERRUPTS ==> Readable(data[4..])))
  }

  /** What a configuration does: the new state, and whether it was understood to its end. */
  function Interpret(s: State, data: seq<bv8>): (o: (State, bool))
    requires s.Valid() && Readable(data)
    ensures o.0.Valid()
    decreases |data|
  {
    if data == [] then (s, true)
    else
      var n := Val(data[2]);
      if n > 0 then
        var s' := s.(mem := FlatWrite(s.mem, Base(Val(data[0]), Val(data[1])), data[3..3 + n]));
        Interpret(s', data[3 + n..])
      else if data[3] == ENABLE_INTERRUPTS then
        Interpret(s.(intEnable := INT_ENABLE_VALUE), data[4..])
      else (s, false)
  }

  /** The first instruction in plain terms. A block goes to 256 * bank + offset; behind a length of 0
      stands a special instruction, of which only 0x01 is known: it sets the interrupt register to 0x32. */
  lemma InterpretFirst(s: State, data: seq<bv8>)
    requires s.Valid() && Readable(data) && data != []
    ensures |data| >= 3 && Val(data[2]) > 0 ==>
      var n := Val(data[2]);
      && 3 + n <= |data| && Readable(data[3 + n..])
      && Interpret(s, data)
         == Interpret(s.(mem := FlatWrite(s.mem, 256 * Val(data[0]) + Val(data[1]), data[3..3 + n])), data[3 + n..])
    ensures |data| >= 3 && Val(data[2]) == 0 ==>
      && |data| >= 4
      && (data[3] == 0x01 ==> Readable(data[4..]) && Interpret(s, data) == Interpret(s.(intEnable := 0x32), data[4..]))
      && (data[3] != 0x01 ==> Interpret(s, data) == (s, false))
  {
    hide Val, FlatWrite;
    BaseIs(Val(data[0]), Val(data[1]));
  }

  // ---- Configurations as lists of instructions ----

  datatype Instruction =
    | Block(bank: bv8, offset: bv8, bytes: seq<bv8>)
    | EnableInterrupts(bank: bv8, offset: bv8)
  {
    predicate Valid() { Block? ==> 0 < |bytes| <= 0xff }
  }

  /** The end of a configuration: nothing more, or an instruction that is not known, and anything after it. */
  datatype End = Complete | Unknown(bank: bv8, offset: bv8, special: bv8, rest: seq<bv8>) {
    predicate Valid() { Unknown? ==> special != ENABLE_INTERRUPTS }
  }

  function Encode(i: Instruction): seq<bv8>
    requires i.Valid()
  {
    match i
    case Block(bank, offset, bytes) => [bank, offset, ByteOf(|bytes|)] + bytes
    case EnableInterrupts(bank, offset) => [bank, offset, 0, ENABLE_INTERRUPTS]
  }

  function EncodeEnd(e: End): seq<bv8> {
    match e
    case Complete => []
    case Unknown(bank, offset, special, rest) => [bank, offset, 0, special] + rest
  }

  ghost predicate AllValid(code: seq<Instruction>) { forall k :: 0 <= k < |code| ==> code[k].Valid() }

  function EncodeAll(code: seq<Instruction>, e: End): seq<bv8>
    requires forall k :: 0 <= k < |code| ==> code[k].Valid()
  {
    if code == [] then EncodeEnd(e) else Encode(code[0]) + EncodeAll(code[1..], e)
  }

  /** What one instruction means. */
  function Apply(s: State, i: Instruction): (s': State)
    requires s.Valid()
    ensures s'.Valid()
  {
    match i
    case Block(bank, offset, bytes) => s.(mem := FlatWrite(s.mem, Base(Val(bank), Val(offset)), bytes))
    case EnableInterrupts(_, _) => s.(intEnable := INT_ENABLE_VALUE)
  }

  /** Instructions in plain terms: their bytes, and what they do. */
  lemma InstructionIs(s: State, i: Instruction)
    requires s.Valid() && i.Valid()
    ensures i.Block? ==>
      && |Encode(i)| == 3 + |i.bytes| && Encode(i)[0] == i.bank && Encode(i)[1] == i.offset
      && Val(Encode(i)[2]) == |i.bytes| && Encode(i)[3..] == i.bytes
      && Apply(s, i) == s.(mem := FlatWrite(s.mem, 256 * Val(i.bank) + Val(i.offset), i.bytes))
    ensures i.EnableInterrupts? ==> Encode(i) == [i.bank, i.offset, 0, 1] && Apply(s, i) == s.(intEnable := 0x32)
  {
    hide Val, ByteOf, FlatWrite;
    BaseIs(Val(i.bank), Val(i.offset));
  }

  /** The instructions applied one after the other. */
  function ApplyAll(s: State, code: seq<Instruction>): (s': State)
    requires s.Valid()
    ensures s'.Valid()
    decreases |code|
  {
    if code == [] then s else ApplyAll(Apply(s, code[0]), code[1..])
  }

  /** A configuration does what its instructions say, in order, up to its end; it is refused exactly
      if it ends in an instruction that is not known, and then everything before has been done. */
  lemma {:induction false} InterpretsInstructions(s: State, code: seq<Instruction>, e: End)
    requires s.Valid() && AllValid(code) && e.Valid()
    ensures Readable(EncodeAll(code, e))
    ensures Interpret(s, EncodeAll(code, e)) == (ApplyAll(s, code), e.Complete?)
    decreases |code|
  {
    hide Val, ByteOf, FlatWrite;
    ValZero(0);
    var data := EncodeAll(code, e);
    if code != [] {
      var rest := EncodeAll(code[1..], e);
      InterpretsInstructions(Apply(s, code[0]), code[1..], e);
      match code[0]
      case Block(bank, offset, bytes) =>
        var n := |bytes|;
        assert data[3..3 + n] == bytes && data[3 + n..] == rest;
      case EnableInterrupts(_, _) =>
        assert data[4..] == rest;
    }
  }

  /** Every configuration the interpreter can read is of that form. */
  lemma {:induction false} ReadableIsInstructions(data: seq<bv8>) returns (code: seq<Instruction>, e: End)
    requires Readable(data)
    ensures AllValid(code) && e.Valid() && data == EncodeAll(code, e)
    decreases |data|
  {
    hide Val, ByteOf, EncodeAll;
    NoInstructions(Complete);
    if data == [] {
      return [], Complete;
    }
    var n := Val(data[2]);
    ValZero(data[2]);
    if n > 0 {
      code, e := ReadableIsInstructions(data[3 + n..]);
      var i := Block(data[0], data[1], data[3..3 + n]);
      ByteOfVal(data[2]);
      assert data == Encode(i) + data[3 + n..];
      Prepend(i, code, e);
      code := [i] + code;
    } else if data[3] == ENABLE_INTERRUPTS {
      code, e := ReadableIsInstructions(data[4..]);
      var i := EnableInterrupts(data[0], data[1]);
      assert data == Encode(i) + data[4..];
      Prepend(i, code, e);
      code := [i] + code;
    } else {
      code, e := [], Unknown(data[0], data[1], data[3], data[4..]);
      NoInstructions(e);
      assert data == [data[0], data[1], 0, data[3]] + data[4..];
    }
  }

  lemma NoInstructions(e: End)
    ensures EncodeAll([], e) == EncodeEnd(e)
  {}

  lemma Prepend(i: Instruction, code: seq<Instruction>, e: End)
    requires i.Valid() && AllValid(code)
    ensures AllValid([i] + code) && EncodeAll([i] + code, e) == Encode(i) + EncodeAll(code, e)
  {
    assert ([i] + code)[1..] == code;
  }

  /** The interrupt register: set if and only if some instruction sets it. */
  lemma {:induction false} InterruptsEnabled(s: State, code: seq<Instruction>)
    requires s.Valid()
    ensures ApplyAll(s, code).intEnable
      == if exists k :: 0 <= k < |code| && code[k].EnableInterrupts? then 0x32 else s.intEnable
    decreases |code|
  {
    hide FlatWrite;
    if code != [] {
      InterruptsEnabled(Apply(s, code[0]), code[1..]);
      assert forall k :: 0 < k < |code| ==> code[k] == code[1..][k - 1];
    }
  }

  class Configurator {
    const mpu: Mpu

    constructor (m: Mpu)
      ensures mpu == m
    {
      mpu := m;
    }

    function View(): State
      reads mpu.device, mpu.device.mem
    {
      State(mpu.device.mem[..], mpu.device.intEnable)
    }

    /** Runs a configuration. Every block is verified, so success means that all of it is in place,
        whatever the device does; on a faithful device the outcome is exactly the meaning of the
        configuration. On failure, `code` are the instructions that stand before the failing one, which
        begins at `at`: all of them are in place, and the failing one is either not known, and has done
        nothing, or a block of which a faulty device has stored something else. */
    method WriteDmpConfigurationSet(data: seq<bv8>)
      returns (ok: bool, ghost code: seq<Instruction>, ghost at: nat, ghost stored: seq<bv8>)
      requires mpu.device.Valid() && Readable(data) && |data| < 0x1_0000
      modifies mpu.device`bankSel, mpu.device`address, mpu.device`bursts, mpu.device`intEnable, mpu.device.mem
      ensures mpu.device.Valid()
      ensures ok ==> Interpret(old(View()), data) == (View(), true)
      ensures mpu.device.Ideal() ==> Interpret(old(View()), data) == (View(), ok)
      ensures AllValid(code) && at <= |data| && data == EncodeAll(code, Complete) + data[at..]
      ensures ok ==> at == |data| && View() == ApplyAll(old(View()), code)
      ensures !ok ==> at + 3 <= |data| && Readable(data[at..]) && Failed(data[at..], stored)
      ensures !ok ==> View() == WithBlock(ApplyAll(old(View()), code), data[at..], stored)
      ensures !ok && stored != [] ==> !mpu.device.Ideal()
    {
      hide Val, FlatWrite, Base, Apply, Encode, EncodeAll, ApplyAll, Interpret, Readable, Failed, WithBlock;
      ghost var start := View();
      var progBuffer := new bv8[256];
      code, at, stored := [], 0, [];
      NoInstructions(Complete);
      NothingApplied(start);
      assert data[0..] == data;
      var i := 0;
      while i < |data|
        invariant i <= |data| && mpu.device.Valid() && Readable(data[i..])
        invariant Interpret(start, data) == Interpret(View(), data[i..])
        invariant at == i && stored == [] && AllValid(code) && data == EncodeAll(code, Complete) + data[i..]
        invariant View() == ApplyAll(start, code)
        decreases |data| - i
      {
        var success;
        ghost var instruction;
        success, i, instruction, stored := RunInstruction(data, i, progBuffer);
        if !success {
          return false, code, at, stored;
        }
        EncodeSnoc(code, instruction);
        ApplySnoc(start, code, instruction);
        MovedOn(data, EncodeAll(code, Complete), Encode(instruction), at, i);
        code, at, stored := code + [instruction], i, [];
      }
      assert data[i..] == [];
      NothingLeft(View());
      ok := true;
    }

    /** A special instruction: 0x01 sets the interrupt register to 0x32, no other is known. */
    method RunSpecial(special: bv8) returns (success: bool)
      requires mpu.device.Valid()
      modifies mpu.device`intEnable
      ensures mpu.device.Valid()
      ensures success <==> special == 0x01
      ensures mpu.device.intEnable == if success then 0x32 else old(mpu.device.intEnable)
    {
      if special == ENABLE_INTERRUPTS {
        mpu.device.intEnable := INT_ENABLE_VALUE;
        success := true;
      } else {
        success := false;
      }
    }

    /** One instruction: a block is written and verified, or a special instruction is carried out. */
    method RunInstruction(data: seq<bv8>, at: nat, progBuffer: array<bv8>)
      returns (success: bool, i: nat, ghost instruction: Instruction, ghost stored: seq<bv8>)
      requires mpu.device.Valid() && at < |data| < 0x1_0000 && Readable(data[at..])
      requires progBuffer.Length == 256 && progBuffer != mpu.device.mem
      modifies mpu.device`bankSel, mpu.device`address, mpu.device`bursts, mpu.device`intEnable, mpu.device.mem
      modifies progBuffer
      ensures mpu.device.Valid() && at + 3 <= |data|
      ensures Val(data[at + 2]) == 0 ==>
        && at + 4 <= |data| && (success <==> data[at + 3] == 0x01)
        && mpu.device.mem[..] == old(mpu.device.mem[..])
        && mpu.device.intEnable == (if success then 0x32 else old(mpu.device.intEnable))
      ensures success ==>
        && at < i <= |data| && Readable(data[i..])
        && instruction.Valid() && data[at..] == Encode(instruction) + data[i..]
        && View() == Apply(old(View()), instruction)
        && Interpret(old(View()), data[at..]) == Interpret(View(), data[i..])
      ensures !success ==>
        && Failed(data[at..], stored)
        && View() == WithBlock(old(View()), data[at..], stored)
        && (stored != [] ==> !mpu.device.Ideal())
        && (stored == [] ==> Interpret(old(View()), data[at..]) == (View(), false))
    {
      hide Val, FlatWrite, Base, Encode;
      ghost var rest, before := data[at..], View();
      WriteNone(before.mem, Base(Val(data[at]), Val(data[at + 1])));
      stored := [];
      var bank, offset, length := Val(data[at]), Val(data[at + 1]), Val(data[at + 2]);
      i := at + 3;
      if length > 0 {
        instruction := Block(data[at], data[at + 1], rest[3..3 + length]);
        assert data[i..i + length] == rest[3..3 + length];
        mpu.CopyChunk(data, i, length, progBuffer);
        ghost var done;
        success, stored, done := mpu.WriteMemoryBlock(progBuffer[..length], bank, offset, true);
        i := i + length;
        assert data[i..] == rest[3 + length..];
      } else {
        instruction := EnableInterrupts(data[at], data[at + 1]);
        var special := data[i];
        i := i + 1;
        assert data[i..] == rest[4..];
        success := RunSpecial(special);
      }
      if success {
        Decoded(rest, instruction);
      }
    }
  }

  /** Why the instruction at the front of `rest` has failed, when `stored` is what the device has
      stored of it: it is not known, or the device has not stored the bytes of its block. */
  predicate Failed(rest: seq<bv8>, stored: seq<bv8>)
    requires |rest| >= 3 && Readable(rest)
  {
    var n := Val(rest[2]);
    if n == 0 then rest[3] != 0x01 && stored == []
    else |stored| <= n && stored != [] && !(stored <= rest[3..3 + n])
  }

  /** The state with `stored` at the place of the block at the front of `rest`. */
  function WithBlock(s: State, rest: seq<bv8>, stored: seq<bv8>): State
    requires s.Valid() && |rest| >= 3
  {
    s.(mem := FlatWrite(s.mem, Base(Val(rest[0]), Val(rest[1])), stored))
  }

  lemma MovedOn(data: seq<bv8>, done: seq<bv8>, next: seq<bv8>, from: nat, to: nat)
    requires from <= to <= |data| && data == done + data[from..] && data[from..] == next + data[to..]
    ensures data == (done + next) + data[to..]
  {}

  lemma NothingApplied(s: State)
    requires s.Valid()
    ensures ApplyAll(s, []) == s
  {}

  /** The instruction read off the front of the bytes is encoded there. */
  lemma Decoded(rest: seq<bv8>, i: Instruction)
    requires |rest| >= 3 && Readable(rest)
    requires var n := Val(rest[2]);
      i == if n > 0 then Block(rest[0], rest[1], rest[3..3 + n]) else EnableInterrupts(rest[0], rest[1])
    requires Val(rest[2]) == 0 ==> rest[3] == ENABLE_INTERRUPTS
    ensures i.Valid() && rest == Encode(i) + rest[if Val(rest[2]) > 0 then 3 + Val(rest[2]) else 4..]
  {
    hide Val, ByteOf;
    ByteOfVal(rest[2]);
    ValZero(rest[2]);
  }

  lemma {:induction false} EncodeSnoc(code: seq<Instruction>, i: Instruction)
    requires AllValid(code) && i.Valid()
    ensures AllValid(code + [i]) && EncodeAll(code + [i], Complete) == EncodeAll(code, Complete) + Encode(i)
    decreases |code|
  {
    hide Encode;
    if code != [] {
      EncodeSnoc(code[1..], i);
      assert (code + [i])[1..] == code[1..] + [i];
    }
  }

  lemma {:induction false} ApplySnoc(s: State, code: seq<Instruction>, i: Instruction)
    requires s.Valid()
    ensures ApplyAll(s, code + [i]) == Apply(ApplyAll(s, code), i)
    decreases |code|
  {
    hide Apply;
    if code != [] {
      ApplySnoc(Apply(s, code[0]), code[1..], i);
      assert (code + [i])[1..] == code[1..] + [i];
    }
  }

  lemma NothingLeft(s: State)
    requires s.Valid()
    ensures Interpret(s, []) == (s, true)
  {}
}
