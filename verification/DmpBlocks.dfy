/** Blocks of device memory, read and written in chunks of at most sixteen bytes that never cross
    the end of a bank. */
module DmpBlocks {
  import opened DmpMemory

  /** The position in flat memory that a bank and an address name. */
  function Base(bank: nat, address: nat): nat { BANK_SIZE * bank + address }

  /** Banks are 256 cells each. */
  lemma BaseIs(bank: nat, address: nat)
    ensures Base(bank, address) == 256 * bank + address
  {}

  /** A chunk of `n` bytes has been handled; the address wraps to 0 at the end of a bank. */
  function NextAddress(address: nat, n: nat): (a: nat)
    ensures a < 0x100
  {
    (address + n) % 0x100
  }

  lemma ChunkMoves(base0: nat, i: nat, bank: nat, address: nat, n: nat)
    requires address < 0x100 && 0 < n <= BANK_SIZE - address
    requires Cell(Base(bank, address)) == Cell(base0 + i)
    ensures var address' := NextAddress(address, n);
      var bank' := if address' == 0 then (bank + 1) % 0x100 else bank;
      Cell(Base(bank', address')) == Cell(base0 + (i + n))
  {
    hide Cell;
    CellShift(Base(bank, address), base0 + i, n);
    if address + n == BANK_SIZE {
      BankWraps(bank + 1);
      assert Base(bank, address) + n == Base(bank + 1, 0);
    } else {
      assert Base(bank, address) + n == Base(bank, address + n);
    }
  }

  lemma BankWraps(bank: nat)
    ensures Cell(Base(bank % 0x100, 0)) == Cell(Base(bank, 0))
  {
    assert Base(bank, 0) == Base(bank % 0x100, 0) + 8 * CELLS * (bank / 0x100);
    Rounds(Base(bank % 0x100, 0), 8 * (bank / 0x100));
  }

  lemma {:induction false} Rounds(x: nat, k: nat)
    ensures Cell(x + CELLS * k) == Cell(x)
  {
    if k > 0 {
      Rounds(x, k - 1);
      WrapAround(x + CELLS * (k - 1));
    }
  }

  lemma BankCell(bank: nat, address: nat)
    requires address < 0x100
    ensures Cell(Base(bank % BANKS, address)) == Cell(Base(bank, address))
  {
    assert Base(bank, address) == Base(bank % BANKS, address) + CELLS * (bank / BANKS);
    Rounds(Base(bank % BANKS, address), bank / BANKS);
  }

  class Mpu {
    const device: Device

    constructor (d: Device)
      ensures device == d
    {
      device := d;
    }

    method SetMemoryBank(bank: nat, prefetchEnabled: bool := false, userBank: bool := false)
      requires device.Valid()
      modifies device`bankSel
      ensures device.Valid()
      ensures device.bankSel == bank % 32 + (if userBank then 0x20 else 0) + (if prefetchEnabled then 0x40 else 0)
    {
      var value := bank % 0x20;
      if userBank { value := value + 0x20; }
      if prefetchEnabled { value := value + 0x40; }
      device.bankSel := value;
    }

    method SetMemoryStartAddress(address: nat)
      requires device.Valid() && address < 0x100
      modifies device`address
      ensures device.Valid() && device.address == address
    {
      device.address := address;
    }

    /** Points the device at a position. */
    method Seek(bank: nat, address: nat)
      requires device.Valid() && address < 0x100
      modifies device`bankSel, device`address
      ensures device.Valid() && device.bankSel == bank % 32 && device.address == address
      ensures Cell(device.Position()) == Cell(Base(bank, address))
    {
      SetMemoryBank(bank);
      SetMemoryStartAddress(address);
      BankCell(device.bankSel, address);
      BankCell(bank, address);
    }

    /** How much of a block to handle at once. */
    method ChunkAt(i: nat, dataSize: nat, address: nat) returns (chunkSize: nat)
      requires i < dataSize && address < BANK_SIZE
      ensures 0 < chunkSize <= 16 && i + chunkSize <= dataSize && address + chunkSize <= 256
      ensures chunkSize == 16 || i + chunkSize == dataSize || address + chunkSize == 256
    {
      chunkSize := CHUNK_SIZE;
      if i + chunkSize > dataSize { chunkSize := dataSize - i; }
      if chunkSize > 256 - address { chunkSize := 256 - address; }
    }

    method ReadMemoryBlock(data: array<bv8>, dataSize: nat, bank0: nat, address0: nat)
      requires device.Valid() && data != device.mem
      requires dataSize <= data.Length && dataSize < 0x1_0000 && bank0 < 0x100 && address0 < 0x100
      modifies data, device`bankSel, device`address
      ensures device.Valid()
      ensures data[..dataSize] == FlatRead(device.mem[..], Base(bank0, address0), dataSize)
      ensures data[dataSize..] == old(data[dataSize..])
    {
      hide Cell, Base, NextAddress;
      var bank, address := bank0, address0;
      Seek(bank, address);
      var i := 0;
      while i < dataSize
        invariant i <= dataSize && address < 0x100 && device.Valid()
        invariant i < dataSize ==> device.address == address
        invariant i < dataSize ==>
          Cell(device.Position()) == Cell(Base(bank, address)) == Cell(Base(bank0, address0) + i)
        invariant data[..i] == FlatRead(device.mem[..], Base(bank0, address0), i)
        invariant data[dataSize..] == old(data[dataSize..])
        decreases dataSize - i
      {
        var chunkSize := ChunkAt(i, dataSize, address);
        ReadOn(device.mem[..], Base(bank0, address0), i, device.Position(), chunkSize);
        ghost var before := data[..];
        device.ReadBurst(chunkSize, data, i);
        ChunkMoves(Base(bank0, address0), i, bank, address, chunkSize);
        i := i + chunkSize;
        address := NextAddress(address, chunkSize);
        assert data[dataSize..] == before[dataSize..];
        if i < dataSize {
          if address == 0 { bank := (bank + 1) % 0x100; }
          Seek(bank, address);
        }
      }
    }

    /** Fills the chunk buffer. */
    method CopyChunk(data: seq<bv8>, i: nat, chunkSize: nat, progBuffer: array<bv8>)
      requires i + chunkSize <= |data| && chunkSize <= progBuffer.Length
      modifies progBuffer
      ensures progBuffer[..chunkSize] == data[i..i + chunkSize]
    {
      for j := 0 to chunkSize
        invariant progBuffer[..j] == data[i..i + j]
      {
        progBuffer[j] := data[i + j];
      }
    }

    /** Reads a chunk back and compares. */
    method VerifyChunk(bank: nat, address: nat, chunk: seq<bv8>) returns (same: bool)
      requires device.Valid() && address + |chunk| <= BANK_SIZE && address < 0x100
      modifies device`bankSel, device`address
      ensures device.Valid()
      ensures same <==> FlatRead(device.mem[..], Base(bank, address), |chunk|) == chunk
    {
      hide Cell, Base;
      var verifyBuffer := new bv8[256];
      Seek(bank, address);
      FlatReadCongruent(device.mem[..], device.Position(), Base(bank, address), |chunk|);
      device.ReadBurst(|chunk|, verifyBuffer, 0);
      same := verifyBuffer[..|chunk|] == chunk;
    }

    /** Writes one chunk where the device points, and reads it back if asked to. */
    method WriteChunk(bank: nat, address: nat, chunk: seq<bv8>, verify: bool) returns (ok: bool, ghost s: seq<bv8>)
      requires device.Valid() && device.address == address && address + |chunk| <= BANK_SIZE && |chunk| <= CHUNK_SIZE
      requires Cell(device.Position()) == Cell(Base(bank, address))
      modifies device`bankSel, device`address, device`bursts, device.mem
      ensures device.Valid()
      ensures |s| == |chunk| && (device.Ideal() ==> s == chunk)
      ensures device.mem[..] == FlatWrite(old(device.mem[..]), Base(bank, address), s)
      ensures ok <==> !verify || s == chunk
    {
      hide Cell, Base;
      s := device.store(device.bursts, chunk);
      FlatWriteCongruent(device.mem[..], device.Position(), Base(bank, address), s);
      StoredReads(device.mem[..], Base(bank, address), s);
      device.WriteBurst(chunk);
      ok := true;
      if verify {
        ok := VerifyChunk(bank, address, chunk);
      }
    }

    /** Writes a block. `stored` is what the device has stored of it, `done` how much of that had been
        handled before the chunk at which a verified write gave up. */
    method WriteMemoryBlock(data: seq<bv8>, bank0: nat, address0: nat, verify: bool)
      returns (ok: bool, ghost stored: seq<bv8>, ghost done: nat)
      requires device.Valid() && |data| < 0x1_0000 && bank0 < 0x100 && address0 < 0x100
      modifies device`bankSel, device`address, device`bursts, device.mem
      ensures device.Valid()
      ensures device.mem[..] == FlatWrite(old(device.mem[..]), Base(bank0, address0), stored)
      ensures ok ==> |stored| == |data| && (verify || device.Ideal() ==> stored == data)
      ensures !ok ==>
        && verify && !device.Ideal()
        && done < |stored| <= |data| && |stored| <= done + 16
        && stored[..done] == data[..done] && stored[done..] != data[done..|stored|]
    {
      hide Cell, Base, NextAddress, FlatWrite;
      ghost var base, before := Base(bank0, address0), device.mem[..];
      var bank, address := bank0, address0;
      var progBuffer := new bv8[256];
      stored, done := [], 0;
      WriteNone(before, base);
      Seek(bank, address);
      var i := 0;
      while i < |data|
        invariant i <= |data| && address < 0x100 && device.Valid()
        invariant i < |data| ==> device.address == address
        invariant i < |data| ==> Cell(device.Position()) == Cell(Base(bank, address)) == Cell(base + i)
        invariant |stored| == i && device.mem[..] == FlatWrite(before, base, stored)
        invariant verify || device.Ideal() ==> stored == data[..i]
        decreases |data| - i
      {
        var chunkSize := ChunkAt(i, |data|, address);
        CopyChunk(data, i, chunkSize, progBuffer);
        var chunk := progBuffer[..chunkSize];
        var written, s := WriteChunk(bank, address, chunk, verify);
        WriteOn(before, base, stored, Base(bank, address), s);
        done, stored := i, stored + s;
        assert stored[done..] == s && data[done..|stored|] == chunk;
        if !written {
          assert stored[..done] == data[..done];
          return false, stored, done;
        }
        assert data[..i + chunkSize] == data[..i] + chunk;
        ChunkMoves(base, i, bank, address, chunkSize);
        i := i + chunkSize;
        address := NextAddress(address, chunkSize);
        if i < |data| {
          if address == 0 { bank := (bank + 1) % 0x100; }
          Seek(bank, address);
        }
      }
      ok := true;
    }
  }

  lemma WriteNone(mem: seq<bv8>, base: nat)
    requires |mem| == CELLS
    ensures FlatWrite(mem, base, []) == mem
  {}

  lemma WriteOn(mem: seq<bv8>, base: nat, stored: seq<bv8>, position: nat, s: seq<bv8>)
    requires |mem| == CELLS && Cell(position) == Cell(base + |stored|)
    ensures FlatWrite(FlatWrite(mem, base, stored), position, s) == FlatWrite(mem, base, stored + s)
  {
    hide Cell;
    FlatWriteCongruent(FlatWrite(mem, base, stored), position, base + |stored|, s);
    FlatWriteConcat(mem, base, stored, s);
  }

  lemma ReadOn(mem: seq<bv8>, base: nat, i: nat, position: nat, n: nat)
    requires |mem| == CELLS && Cell(position) == Cell(base + i)
    ensures FlatRead(mem, base, i + n) == FlatRead(mem, base, i) + FlatRead(mem, position, n)
  {
    hide Cell;
    var all, first, rest := FlatRead(mem, base, i + n), FlatRead(mem, base, i), FlatRead(mem, position, n);
    forall j | i <= j < i + n ensures all[j] == rest[j - i] {
      CellShift(position, base + i, j - i);
    }
    assert all == first + rest;
  }

  lemma FlatReadCongruent(mem: seq<bv8>, base: nat, base': nat, n: nat)
    requires |mem| == CELLS && Cell(base) == Cell(base')
    ensures FlatRead(mem, base, n) == FlatRead(mem, base', n)
  {
    hide Cell;
    forall k | 0 <= k < n ensures FlatRead(mem, base, n)[k] == FlatRead(mem, base', n)[k] {
      CellShift(base, base', k);
    }
  }

  /** A burst reads back as what was stored. */
  lemma StoredReads(mem: seq<bv8>, base: nat, s: seq<bv8>)
    requires |mem| == CELLS && |s| <= CHUNK_SIZE
    ensures FlatRead(FlatWrite(mem, base, s), base, |s|) == s
  {
    ReadBack(mem, base, s);
  }
}
