/** The memory access routines of the emulator, updating memory and reservations in place. */
module SyncMemoryProgram {
  import opened SyncMemory

  class MemoryCore {
    const memory: array<Byte>
    const lastSyncLoad: array<nat>

    constructor (memorySize: nat, threads: nat)
      ensures fresh(memory) && fresh(lastSyncLoad)
      ensures memory.Length == memorySize && lastSyncLoad.Length == threads
      ensures forall t :: 0 <= t < threads ==> lastSyncLoad[t] == INVALID_ADDR
    {
      memory := new Byte[memorySize](_ => 0);
      lastSyncLoad := new nat[threads](_ => INVALID_ADDR);
    }

    method InvalidateSyncAddress(address: nat)
      modifies lastSyncLoad
      ensures lastSyncLoad[..] == Invalidate(old(lastSyncLoad[..]), address)
    {
      ghost var was := lastSyncLoad[..];
      var t := 0;
      while t < lastSyncLoad.Length
        invariant t <= lastSyncLoad.Length
        invariant forall u :: 0 <= u < lastSyncLoad.Length ==>
                    lastSyncLoad[u] == if u < t && was[u] == Line(address) then INVALID_ADDR else was[u]
      {
        if lastSyncLoad[t] == address / CACHE_LINE_LENGTH {
          lastSyncLoad[t] := INVALID_ADDR;
        }
        t := t + 1;
      }
    }

    method WriteBytes(address: nat, data: seq<Byte>)
      requires address + |data| <= memory.Length
      modifies memory
      ensures memory[..] == Overwrite(old(memory[..]), address, data)
    {
      var k := 0;
      while k < |data|
        invariant k <= |data|
        invariant forall i :: 0 <= i < memory.Length ==>
                    memory[i] == if address <= i < address + k then data[i - address] else old(memory[i])
      {
        memory[address + k] := data[k];
        k := k + 1;
      }
    }

    method ScalarStore(address: nat, data: seq<Byte>)
      requires address + |data| <= memory.Length
      modifies memory, lastSyncLoad
      ensures memory[..] == Overwrite(old(memory[..]), address, data)
      ensures lastSyncLoad[..] == Invalidate(old(lastSyncLoad[..]), address)
    {
      WriteBytes(address, data);
      InvalidateSyncAddress(address);
    }

    method SyncLoad(t: Tid, address: nat) returns (value: Word)
      requires address + 4 <= memory.Length && t < lastSyncLoad.Length
      modifies lastSyncLoad
      ensures value == WordAt(memory[..], address)
      ensures lastSyncLoad[..] == old(lastSyncLoad[..])[t := Line(address)]
    {
      value := memory[address..address + 4];
      lastSyncLoad[t] := address / CACHE_LINE_LENGTH;
    }

    /** The result register is 1 when the store happened and 0 when it did not. */
    method SyncStore(t: Tid, address: nat, value: Word) returns (result: nat)
      requires address + 4 <= memory.Length && t < lastSyncLoad.Length
      modifies memory, lastSyncLoad
      ensures result == if old(lastSyncLoad[t]) == Line(address) then 1 else 0
      ensures memory[..] == if result == 1 then Overwrite(old(memory[..]), address, value) else old(memory[..])
      ensures lastSyncLoad[..] == if result == 1 then Invalidate(old(lastSyncLoad[..]), address) else old(lastSyncLoad[..])
    {
      if address / CACHE_LINE_LENGTH == lastSyncLoad[t] {
        result := 1;
        WriteBytes(address, value);
        InvalidateSyncAddress(address);
      } else {
        result := 0;
      }
    }

    method BlockStore(address: nat, mask: seq<bool>, words: seq<Word>)
      requires address % CACHE_LINE_LENGTH == 0 && address + CACHE_LINE_LENGTH <= memory.Length
      requires |mask| == |words| == NUM_LANES
      modifies memory, lastSyncLoad
      ensures memory[..] == OverwriteLanes(old(memory[..]), address, mask, words, NUM_LANES)
      ensures lastSyncLoad[..] == if forall k :: 0 <= k < NUM_LANES ==> !mask[k] then old(lastSyncLoad[..])
                                  else Invalidate(old(lastSyncLoad[..]), address)
    {
      var any, lane := false, 0;
      while lane < NUM_LANES
        invariant 0 <= lane <= NUM_LANES && any == exists k :: 0 <= k < lane && mask[k]
        invariant lastSyncLoad[..] == old(lastSyncLoad[..])
        invariant memory[..] == OverwriteLanes(old(memory[..]), address, mask, words, lane)
      {
        if mask[lane] {
          any := true;
          WriteBytes(address + 4 * lane, words[lane]);
        }
        lane := lane + 1;
      }
      if any {
        InvalidateSyncAddress(address);
      }
    }
  }
}
