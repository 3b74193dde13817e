/** The boot ROM's command loop and the loader on the host, joined by a line that may damage
    payload bytes. */
module SerialProgram {
  import opened Serial
  import opened Words

  /** Writes `value & 0xff` over a stretch of memory, words first if it starts at a word. */
  method Memset(memory: array<Byte>, dest: nat, value: Word, length: nat)
    requires dest + length <= memory.Length
    modifies memory
    ensures forall i :: 0 <= i < memory.Length ==>
              memory[i] == if dest <= i < dest + length then value % 256 else old(memory[i])
  {
    var at, left, byte := dest, length, value % 256;
    if dest % 4 == 0 {
      while left > 4
        invariant at + left == dest + length && dest <= at
        invariant forall i :: 0 <= i < memory.Length ==> memory[i] == if dest <= i < at then byte else old(memory[i])
      {
        memory[at], memory[at + 1], memory[at + 2], memory[at + 3] := byte, byte, byte, byte;
        at := at + 4;
        left := left - 4;
      }
    }
    while left > 0
      invariant at + left == dest + length && dest <= at
      invariant forall i :: 0 <= i < memory.Length ==> memory[i] == if dest <= i < at then byte else old(memory[i])
    {
      memory[at] := byte;
      at := at + 1;
      left := left - 1;
    }
  }

  class Target {
    const memory: array<Byte>
    var rx: seq<Byte>
    var tx: seq<Byte>

    constructor (size: nat)
      ensures fresh(memory) && memory.Length == size && rx == [] && tx == []
    {
      memory := new Byte[size](_ => 0);
      rx, tx := [], [];
    }

    method ReadSerialByte() returns (ch: Byte)
      requires rx != []
      modifies this`rx
      ensures ch == old(rx)[0] && rx == old(rx)[1..]
    {
      ch := rx[0];
      rx := rx[1..];
    }

    method ReadSerialLong() returns (result: Word)
      requires |rx| >= 4
      modifies this`rx
      ensures result == FromLong(old(rx)[..4]) && rx == old(rx)[4..]
    {
      var a := ReadSerialByte();
      result := ShiftIn(0, a);
      var b := ReadSerialByte();
      result := ShiftIn(result, b);
      var c := ReadSerialByte();
      result := ShiftIn(result, c);
      var d := ReadSerialByte();
      result := ShiftIn(result, d);
    }

    method WriteSerialByte(ch: Byte)
      modifies this`tx
      ensures tx == old(tx) + [ch]
    {
      tx := tx + [ch];
    }

    method WriteSerialLong(value: Word)
      modifies this`tx
      ensures tx == old(tx) + Long(value)
    {
      WriteSerialByte(value % 256);
      WriteSerialByte(value / 0x100 % 256);
      WriteSerialByte(value / 0x1_0000 % 256);
      WriteSerialByte(value / 0x100_0000 % 256);
    }

    /** Stores the bytes as they come in and folds them into the checksum. */
    method Receive(address: nat, length: nat) returns (checksum: Word)
      requires address + length <= memory.Length && |rx| >= length
      modifies this`rx, memory
      ensures memory[..] == Patched(old(memory[..]), address, old(rx)[..length]) && rx == old(rx)[length..]
      ensures checksum == Checksum(old(rx)[..length])
    {
      checksum := FNV_START;
      for i := 0 to length
        invariant rx == old(rx)[i..] && checksum == Checksum(old(rx)[..i])
        invariant forall j :: 0 <= j < memory.Length ==>
                    memory[j] == if address <= j < address + i then old(rx)[j - address] else old(memory[j])
      {
        var ch := ReadSerialByte();
        assert old(rx)[..i + 1][..i] == old(rx)[..i];
        checksum := Mix(checksum, ch);
        memory[address + i] := ch;
      }
    }

    /** Reads one command and carries it out. */
    method Command()
      requires Complete(rx, memory.Length)
      modifies this`rx, this`tx, memory
      ensures var s := Serve(old(memory[..]), old(rx));
              memory[..] == s.mem && rx == s.rest && tx == old(tx) + s.reply
    {
      ghost var start := rx;
      var request := ReadSerialByte();
      if request == LOAD_MEMORY_REQ {
        assert rx[..4] == start[1..5] && rx[4..][..4] == start[5..9];
        var address := ReadSerialLong();
        var length := ReadSerialLong();
        assert rx == start[9..];
        assert rx[..length] == start[9..9 + length];
        var checksum := Receive(address, length);
        WriteSerialByte(LOAD_MEMORY_ACK);
        WriteSerialLong(checksum);
      } else if request == CLEAR_MEMORY_REQ {
        assert rx[..4] == start[1..5] && rx[4..][..4] == start[5..9];
        var base := ReadSerialLong();
        var length := ReadSerialLong();
        Memset(memory, base, 0, length);
        assert memory[..] == Patched(old(memory[..]), base, Filled(length));
        WriteSerialByte(CLEAR_MEMORY_ACK);
      } else if request == EXECUTE_REQ {
        WriteSerialByte(EXECUTE_ACK);
      } else if request == PING_REQ {
        WriteSerialByte(PING_ACK);
      } else {
        WriteSerialByte(BAD_COMMAND);
      }
    }
  }

  method ComputeChecksum(buffer: seq<Byte>) returns (checksum: Word)
    ensures checksum == Checksum(buffer)
  {
    checksum := FNV_START;
    for i := 0 to |buffer|
      invariant checksum == Checksum(buffer[..i])
    {
      assert buffer[..i + 1][..i] == buffer[..i];
      checksum := Mix(checksum, buffer[i]);
    }
    assert buffer[..|buffer|] == buffer;
  }

  method IsEmpty(data: seq<Byte>) returns (empty: bool)
    ensures empty == IsZero(data)
  {
    empty := true;
    for i := 0 to |data|
      invariant forall j :: 0 <= j < i ==> data[j] == 0
    {
      if data[i] != 0 {
        return false;
      }
    }
  }

  class Loader {
    const target: Target
    var line: seq<Outcome>

    constructor (t: Target, outcomes: seq<Outcome>)
      ensures target == t && line == outcomes
    {
      target, line := t, outcomes;
    }

    /** Sends a whole command to the target and takes its reply off the line. */
    method Exchange(message: seq<Byte>) returns (reply: seq<Byte>)
      requires Complete(message, target.memory.Length) && Serve(target.memory[..], message).rest == []
      requires target.rx == [] && target.tx == []
      modifies target, target.memory
      ensures target.rx == [] && target.tx == []
      ensures target.memory[..] == Serve(old(target.memory[..]), message).mem
      ensures reply == Serve(old(target.memory[..]), message).reply
    {
      target.rx := message;
      target.Command();
      reply := target.tx;
      target.tx := [];
    }

    method LoadMemory(address: Word, buffer: seq<Byte>, o: Outcome) returns (ok: bool)
      requires PlaceOf(o, address) + |buffer| <= target.memory.Length && |buffer| < WORDS && target.rx == [] && target.tx == []
      modifies target, target.memory
      ensures target.rx == [] && target.tx == []
      ensures ok == (o.heard && Arrives(o, buffer) == buffer)
      ensures target.memory[..] == Patched(old(target.memory[..]), PlaceOf(o, address), Arrives(o, buffer))
    {
      var arriving, place := Arrives(o, buffer), PlaceOf(o, address);
      LoadServed(target.memory[..], place, arriving, []);
      assert LoadMessage(place, arriving) + [] == LoadMessage(place, arriving);
      var reply := Exchange(LoadMessage(place, arriving));
      if !o.heard || reply[0] != LOAD_MEMORY_ACK {
        return false;
      }
      var localChecksum := ComputeChecksum(buffer);
      var targetChecksum := FromLong(reply[1..5]);
      assert reply[1..5] == Long(Checksum(arriving));
      LongRoundTrip(Checksum(arriving));
      ChecksumTells(o, buffer);
      ok := targetChecksum == localChecksum;
    }

    method ClearMemory(address: Word, length: Word, o: Outcome) returns (ok: bool)
      requires PlaceOf(o, address) + length <= target.memory.Length && target.rx == [] && target.tx == []
      modifies target, target.memory
      ensures target.rx == [] && target.tx == []
      ensures ok == o.heard
      ensures target.memory[..] == Patched(old(target.memory[..]), PlaceOf(o, address), Filled(length))
    {
      var place := PlaceOf(o, address);
      ClearServed(target.memory[..], place, length, []);
      assert ClearMessage(place, length) + [] == ClearMessage(place, length);
      var reply := Exchange(ClearMessage(place, length));
      ok := o.heard && reply[0] == CLEAR_MEMORY_ACK;
    }

    /** Answers to pings tell whether the target is there again; memory stays as it is. */
    method FixConnection(o: Outcome) returns (ok: bool)
      requires target.rx == [] && target.tx == []
      modifies target, target.memory
      ensures target.rx == [] && target.tx == [] && target.memory[..] == old(target.memory[..])
      ensures ok == o.fixed
    {
      var reply := Exchange([PING_REQ]);
      ok := o.fixed && reply[0] == PING_ACK;
    }

    /** Sends one block. If it did not arrive, `alive` says whether to try again. */
    method SendBlock(address: Word, slice: seq<Byte>, o: Outcome) returns (copied: bool, alive: bool)
      requires PlaceOf(o, address) + |slice| <= target.memory.Length && |slice| < WORDS && target.rx == [] && target.tx == []
      modifies target, target.memory
      ensures target.rx == [] && target.tx == []
      ensures copied == Copies(o, slice) && alive == GoesOn(o, slice)
      ensures target.memory[..] == Patched(old(target.memory[..]), PlaceOf(o, address), Sent(o, slice))
    {
      alive := true;
      var empty := IsEmpty(slice);
      if empty {
        assert slice == Filled(|slice|);
        copied := ClearMemory(address, |slice|, o);
        alive := copied;
      } else {
        copied := LoadMemory(address, slice, o);
        if !copied {
          alive := FixConnection(o);
        }
      }
    }

    /** Sends the block at `offset`; `next` is how far the segment has come then. */
    method SendNext(address: Word, data: seq<Byte>, offset: nat) returns (next: nat, alive: bool)
      requires offset < |data| && address + |data| <= target.memory.Length <= WORDS && target.rx == [] && target.tx == []
      requires line != [] && forall i :: 0 <= i < |line| ==> InMemory(line[i], target.memory.Length)
      modifies this`line, target, target.memory
      ensures target.rx == [] && target.tx == [] && line == old(line)[1..] && next <= |data|
      ensures forall i :: 0 <= i < |line| ==> InMemory(line[i], target.memory.Length)
      ensures Succeeds(data, offset, old(line)) == (alive && Succeeds(data, next, line))
      ensures Landed(old(target.memory[..]), address, data, offset, old(line)) ==
              if alive then Landed(target.memory[..], address, data, next, line) else target.memory[..]
    {
      ghost var was := target.memory[..];
      var slice, copied := Slice(data, offset), false;
      assert InMemory(line[0], target.memory.Length);
      copied, alive := SendBlock(address + offset, slice, line[0]);
      LandedStep(was, address, data, offset, line, target.memory[..]);
      line := line[1..];
      next := if copied then offset + |slice| else offset;
    }

    /** Sends the data block by block, and each block until it is right. When this reports success
        and no block was moved, memory holds the data; and then nothing outside the segment
        changes in any case. */
    method SendSegment(address: Word, data: seq<Byte>) returns (ok: bool)
      requires address + |data| <= target.memory.Length <= WORDS && target.rx == [] && target.tx == []
      requires forall i :: 0 <= i < |line| ==> InMemory(line[i], target.memory.Length)
      modifies this`line, target, target.memory
      ensures target.rx == [] && target.tx == []
      ensures ok == Succeeds(data, 0, old(line))
      ensures target.memory[..] == Landed(old(target.memory[..]), address, data, 0, old(line))
      ensures (forall i :: 0 <= i < |old(line)| ==> !old(line)[i].moves) ==>
                Progress(old(target.memory[..]), target.memory[..], address, data, if ok then |data| else 0)
    {
      ghost var start, outcomes := target.memory[..], line;
      if forall i :: 0 <= i < |line| ==> !line[i].moves {
        SegmentArrives(start, start, address, data, 0, line);
      }
      var offset: nat := 0;
      while offset < |data| && line != []
        invariant offset <= |data| && target.rx == [] && target.tx == []
        invariant forall i :: 0 <= i < |line| ==> InMemory(line[i], target.memory.Length)
        invariant Succeeds(data, 0, outcomes) == Succeeds(data, offset, line)
        invariant Landed(start, address, data, 0, outcomes) == Landed(target.memory[..], address, data, offset, line)
        decreases |line|
      {
        var alive;
        offset, alive := SendNext(address, data, offset);
        if !alive {
          return false;
        }
      }
      ok := offset == |data|;
    }
  }
}
