/** The banked memory of the motion processor and the block access on top of it.

    The device is assumed to behave as follows. The low five bits of the bank register and the
    address register select a cell; a burst of n bytes on the data register touches n consecutive
    cells of the selected bank, and moves the address register on by n. */
module DmpMemory {
  const BANK_SIZE := 256
  const CHUNK_SIZE := 16
  const BANKS := 32
  const CELLS := BANKS * BANK_SIZE

  /** Flat memory: cell `k` for every integer position, round and round. */
  function Cell(k: nat): (c: nat)
    ensures c < CELLS
  {
    k % CELLS
  }

  /** Writing bytes one after the other from position `base` on. */
  function FlatWrite(mem: seq<bv8>, base: nat, data: seq<bv8>): (mem': seq<bv8>)
    requires |mem| == CELLS
    ensures |mem'| == CELLS
  {
    if data == [] then mem
    else
      var n := |data| - 1;
      FlatWrite(mem, base, data[..n])[Cell(base + n) := data[n]]
  }

  function FlatRead(mem: seq<bv8>, base: nat, n: nat): (data: seq<bv8>)
    requires |mem| == CELLS
    ensures |data| == n
  {
    seq(n, k requires 0 <= k < n => mem[Cell(base + k)])
  }

  /** The memory is a ring of 8192 cells, read cell by cell. */
  lemma FlatReadCells(mem: seq<bv8>, base: nat, n: nat, k: nat)
    requires |mem| == 8192 && k < n
    ensures FlatRead(mem, base, n)[k] == mem[(base + k) % 8192]
    ensures Cell(base + k) == (base + k) % 8192
  {
    assert Cell(base + k) == (base + k) % 8192;
  }

  lemma CellInside(base: nat, k: nat)
    requires base + k < CELLS
    ensures Cell(base + k) == base + k
  {}

  lemma CellShift(x: nat, y: nat, k: nat)
    requires Cell(x) == Cell(y)
    ensures Cell(x + k) == Cell(y + k)
  {}

  lemma {:induction false} FlatWriteConcat(mem: seq<bv8>, base: nat, a: seq<bv8>, b: seq<bv8>)
    requires |mem| == CELLS
    ensures FlatWrite(mem, base, a + b) == FlatWrite(FlatWrite(mem, base, a), base + |a|, b)
    decreases |b|
  {
    hide Cell;
    if b == [] {
      assert a + b == a;
    } else {
      assert (a + b)[..|a + b| - 1] == a + b[..|b| - 1];
      FlatWriteConcat(mem, base, a, b[..|b| - 1]);
    }
  }

  lemma {:induction false} FlatWriteCongruent(mem: seq<bv8>, base: nat, base': nat, data: seq<bv8>)
    requires |mem| == CELLS && Cell(base) == Cell(base')
    ensures FlatWrite(mem, base, data) == FlatWrite(mem, base', data)
  {
    hide Cell;
    if data != [] {
      FlatWriteCongruent(mem, base, base', data[..|data| - 1]);
      CellShift(base, base', |data| - 1);
    }
  }

  /** Where the bytes fit below the end of memory, the write is one contiguous update. */
  lemma {:induction false} FlatWriteContiguous(mem: seq<bv8>, base: nat, data: seq<bv8>)
    requires |mem| == CELLS && base + |data| <= 8192
    ensures FlatWrite(mem, base, data) == mem[..base] + data + mem[base + |data|..]
  {
    hide Cell;
    if data != [] {
      var n := |data| - 1;
      FlatWriteContiguous(mem, base, data[..n]);
      CellInside(base, n);
    } else {
      assert mem == mem[..base] + mem[base..];
    }
  }

  /** The cells of up to one memory's worth of consecutive positions are different. */
  lemma CellsDiffer(base: nat, j: nat, k: nat)
    requires j < k < j + CELLS
    ensures Cell(base + j) != Cell(base + k)
  {}

  lemma {:induction false} WrittenStays(mem: seq<bv8>, base: nat, data: seq<bv8>, k: nat)
    requires |mem| == CELLS && k < |data| <= k + CELLS
    ensures FlatWrite(mem, base, data)[Cell(base + k)] == data[k]
    decreases |data|
  {
    hide Cell;
    var n := |data| - 1;
    if k < n {
      WrittenStays(mem, base, data[..n], k);
      CellsDiffer(base, k, n);
    }
  }

  /** Reading back what was written gives the data, as long as it does not go round the whole
      memory and overwrite its own beginning. */
  lemma ReadBack(mem: seq<bv8>, base: nat, data: seq<bv8>)
    requires |mem| == CELLS && |data| <= 8192
    ensures FlatRead(FlatWrite(mem, base, data), base, |data|) == data
  {
    hide Cell;
    forall k | 0 <= k < |data| ensures FlatRead(FlatWrite(mem, base, data), base, |data|)[k] == data[k] {
      WrittenStays(mem, base, data, k);
    }
  }

  /** Cell by cell: a cell holds what it held, or the last of the bytes that go to it. */
  lemma {:induction false} FlatWriteCells(mem: seq<bv8>, base: nat, data: seq<bv8>, c: nat)
    requires |mem| == CELLS && c < CELLS
    ensures (forall x :: base <= x < base + |data| ==> Cell(x) != c) ==> FlatWrite(mem, base, data)[c] == mem[c]
    ensures forall k :: 0 <= k < |data| <= k + CELLS && Cell(base + k) == c ==> FlatWrite(mem, base, data)[c] == data[k]
  {
    hide Cell;
    if data != [] {
      FlatWriteCells(mem, base, data[..|data| - 1], c);
    }
    forall k | 0 <= k < |data| <= k + CELLS && Cell(base + k) == c ensures FlatWrite(mem, base, data)[c] == data[k] {
      WrittenStays(mem, base, data, k);
    }
  }

  lemma WrapAround(base: nat)
    ensures Cell(base + CELLS) == Cell(base)
  {}

  /** Where bytes one memory apart agree, every cell ends with the byte first written to it. */
  lemma {:induction false} LastWriteWins(mem: seq<bv8>, base: nat, data: seq<bv8>, k: nat)
    requires |mem| == CELLS && k < |data|
    requires forall j :: 0 <= j && j + CELLS < |data| ==> data[j] == data[j + CELLS]
    ensures FlatWrite(mem, base, data)[Cell(base + k)] == data[k]
    decreases |data| - k
  {
    hide Cell;
    if k + CELLS < |data| {
      LastWriteWins(mem, base, data, k + CELLS);
      WrapAround(base + k);
    } else {
      WrittenStays(mem, base, data, k);
    }
  }

  /** For every length: the data read back if and only if bytes that go to the same cell, one memory
      apart, agree. Up to a whole memory of data there are none. */
  lemma ReadBackIff(mem: seq<bv8>, base: nat, data: seq<bv8>)
    requires |mem| == CELLS
    ensures FlatRead(FlatWrite(mem, base, data), base, |data|) == data
      <==> forall j :: 0 <= j && j + 8192 < |data| ==> data[j] == data[j + 8192]
  {
    hide Cell;
    var r := FlatRead(FlatWrite(mem, base, data), base, |data|);
    if r == data {
      forall j | 0 <= j && j + CELLS < |data| ensures data[j] == data[j + CELLS] {
        WrapAround(base + j);
        assert r[j] == r[j + CELLS];
      }
    }
    if forall j :: 0 <= j && j + CELLS < |data| ==> data[j] == data[j + CELLS] {
      forall k | 0 <= k < |data| ensures r[k] == data[k] {
        LastWriteWins(mem, base, data, k);
      }
    }
  }

  /** What the device stores for the n-th burst of these bytes: faithful devices store the bytes. */
  type Store = (nat, seq<bv8>) -> seq<bv8>

  class Device {
    const mem: array<bv8>
    const store: Store
    var bankSel: nat
    var address: nat
    var intEnable: nat
    var bursts: nat

    ghost predicate Valid()
      reads this
    {
      && mem.Length == CELLS && bankSel < 0x100 && address < 0x100
      && forall n, data :: |store(n, data)| == |data|
    }

    /** Every write burst stores the bytes sent. */
    ghost predicate Ideal() {
      forall n, data :: store(n, data) == data
    }

    function Position(): nat
      reads this
    {
      BANK_SIZE * (bankSel % BANKS) + address
    }

    constructor (behaviour: Store)
      requires forall n, data :: |behaviour(n, data)| == |data|
      ensures Valid() && store == behaviour && fresh(mem)
    {
      mem := new bv8[CELLS];
      store := behaviour;
      bankSel, address, intEnable, bursts := 0, 0, 0, 0;
    }

    method WriteBurst(data: seq<bv8>)
      requires Valid() && address + |data| <= BANK_SIZE
      modifies mem, this`address, this`bursts
      ensures Valid()
      ensures mem[..] == FlatWrite(old(mem[..]), old(Position()), store(old(bursts), data))
      ensures address == (old(address) + |data|) % 0x100 && bursts == old(bursts) + 1
    {
      hide Cell;
      var at, bytes := Position(), store(bursts, data);
      PositionBound();
      forall k | 0 <= k < |bytes| {
        mem[at + k] := bytes[k];
      }
      ghost var m := old(mem[..]);
      assert mem[..] == m[..at] + bytes + m[at + |bytes|..];
      FlatWriteContiguous(m, at, bytes);
      address := (address + |data|) % 0x100;
      bursts := bursts + 1;
    }

    method ReadBurst(n: nat, buffer: array<bv8>, at: nat)
      requires Valid() && address + n <= BANK_SIZE && at + n <= buffer.Length && buffer != mem
      modifies buffer, this`address
      ensures Valid()
      ensures buffer[..] == old(buffer[..at]) + FlatRead(mem[..], old(Position()), n) + old(buffer[at + n..])
      ensures address == (old(address) + n) % 0x100
    {
      hide Cell;
      var from := Position();
      var bytes := FlatRead(mem[..], from, n);
      ghost var before := buffer[..];
      forall k | 0 <= k < n {
        buffer[at + k] := bytes[k];
      }
      assert buffer[..] == before[..at] + bytes + before[at + n..];
      assert before[..at] == old(buffer[..at]) && before[at + n..] == old(buffer[at + n..]);
      assert mem[..] == old(mem[..]);
      address := (address + n) % 0x100;
    }

    lemma PositionBound()
      requires bankSel < 0x100 && address < 0x100
      ensures Position() + BANK_SIZE - address <= CELLS
    {}
  }
}
