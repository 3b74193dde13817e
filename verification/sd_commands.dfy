/** What else the card does on the bus: the other commands, its answers byte by byte, and how long
    it lets the host wait. */
module SdCommands {
  import opened Words
  import opened SdCard

  /** The older way to wake the card up. */
  lemma SendOpCond(c: Card, idle: bool)
    requires Waiting(c, idle)
    ensures var (d, r) := Command(c, 1, 0); Waiting(d, false) && r == 0 && SameCard(c, d)
  {
    CommandByte(1, 0);
  }

  /** A card that is awake takes any length of block, and then has that much room. */
  lemma SetBlockLength(c: Card, length: Word)
    requires Waiting(c, false)
    ensures var (d, r) := Command(c, 16, length);
            Waiting(d, false) && r == 0 && d.blockLength == length && |d.buffer| == length && d.disk == c.disk
  {
    CommandByte(16, length);
    ArgumentSent(16, length);
  }

  /** A card that is asleep makes the emulator give up over anything to do with blocks. */
  lemma AsleepGivesUp(c: Card, code: nat, parameter: Word)
    requires Waiting(c, true) && (code == 16 || code == 17 || code == 24)
    ensures Command(c, code, parameter).0.state == Exited && Command(c, code, parameter).1 == 0xff
  {
    CommandByte(code, parameter);
    PollExited(Process(Heard(c, []), CommandBytes(code, parameter)), 0);
  }

  /** Without a card there is no answer to the reset. */
  lemma NoCard(c: Card)
    requires Ready(c) && !c.present && !c.isAppCmd
    ensures Command(c, 0, 0).1 == 0xff
  {
    CommandByte(0, 0);
    PollSilent(Process(Heard(c, []), CommandBytes(0, 0)), 0);
  }

  /** Nobody is there, or the emulator has given up. */
  predicate Silent(c: Card) {
    c.state == Exited
    || (c.state == ReceiveCommand && c.selected && !c.isAppCmd && |c.command| < 6 && (c.command != [] ==> c.command[0] == 0xff))
  }

  lemma StaysSilent(c: Card)
    requires Silent(c)
    ensures Silent(Transfer(c, 0xff).0) && Transfer(c, 0xff).1 == 0xff
  {
    if c.state == ReceiveCommand {
      assert (c.command + [0xff])[0] == 0xff;
    }
  }

  lemma {:induction false} PollSilent(c: Card, tries: nat)
    requires Silent(c)
    ensures Poll(c, tries).1 == 0xff
    decreases MAX_RETRIES - tries
  {
    StaysSilent(c);
    if tries < MAX_RETRIES {
      PollSilent(Transfer(c, 0xff).0, tries + 1);
    }
  }

  /** What comes out of the card after `n` more bytes that say nothing. */
  function Answers(c: Card, n: nat): seq<Byte>
    decreases n
  {
    if n == 0 then [] else [Transfer(c, 0xff).1] + Answers(Transfer(c, 0xff).0, n - 1)
  }

  lemma ConditionTaken(c: Card, parameter: Word)
    requires Waiting(c, true)
    ensures var (d, r) := Command(c, 8, parameter);
            && r == 1 && d.state == SendR7 && d.transferCount == 1
            && d.voltage == parameter / 0x100 % 256 % 16 && d.checkPattern == parameter % 256
  {
    CommandByte(8, parameter);
  }

  lemma LowNibble(v: nat)
    ensures v % 256 % 16 == v % 16
  {
  }

  /** The four bytes behind the first answer to an interface condition: the voltage is its low
      four bits, and the check pattern comes back as it was. */
  lemma ConditionEchoed(c: Card, parameter: Word)
    requires Waiting(c, true)
    ensures var (d, r) := Command(c, 8, parameter);
            r == 1 && Answers(d, 4) == [0, 0, parameter / 0x100 % 16, parameter % 0x100]
  {
    ConditionTaken(c, parameter);
    LowNibble(parameter / 0x100);
    EchoBytes(Command(c, 8, parameter).0);
  }

  lemma EchoBytes(d: Card)
    requires d.state == SendR7 && d.transferCount == 1
    ensures Answers(d, 4) == [0, 0, d.voltage, d.checkPattern]
  {
    var d2, d3, d4 := Transfer(d, 0xff).0, d.(transferCount := 3), d.(transferCount := 4);
    assert Answers(d4, 1) == [d.checkPattern];
    assert Answers(d3, 2) == [d.voltage] + Answers(d4, 1);
    assert Answers(d2, 3) == [0] + Answers(d3, 2);
  }

  lemma PollDraws(p: Card, c: Card)
    requires p.state == ReadCmdResponse && p.delay < 16 && p.drawn == c.drawn + 1 && p.random == c.random
    ensures Poll(p, 0).0.delay == c.random(c.drawn + 1) % 16
  {
    PollDelay(p, 0);
  }

  lemma ReadDraws(c: Card, block: Word)
    requires c.blockLength == BLOCK_SIZE && From(block) + BLOCK_SIZE <= |c.disk|
    ensures var p := StartRead(c, block);
            && p.state == ReadCmdResponse && p.delay == c.random(c.drawn) % 16
            && p.drawn == c.drawn + 1 && p.random == c.random
  {
  }

  /** The card keeps the host waiting twice: before it answers, and before the data, for as many
      bytes as the low four bits of what it drew say. */
  lemma ReadWaits(c: Card, block: Word)
    requires Waiting(c, false) && c.blockLength == BLOCK_SIZE && From(block) + BLOCK_SIZE <= |c.disk|
    ensures Process(Heard(c, []), CommandBytes(17, block)).delay == c.random(c.drawn) % 16
    ensures Command(c, 17, block).0.delay == c.random(c.drawn + 1) % 16
  {
    CommandByte(17, block);
    ArgumentSent(17, block);
    var h := Heard(c, []);
    assert Process(h, CommandBytes(17, block)) == StartRead(h, block);
    ReadDraws(h, block);
    PollDraws(StartRead(h, block), h);
  }

  lemma Responds(w: Card)
    requires w.state == WriteDataResponse
    ensures Transfer(w, 0xff).1 == 5
  {
  }

  lemma BlockTaken(c: Card, block: Word, data: seq<Byte>)
    requires Writes(c, block) && |c.buffer| == BLOCK_SIZE == |data|
    ensures After(c, [DATA_TOKEN] + data) == c.(state := WriteTransfer, transferCount := BLOCK_SIZE, buffer := data)
  {
    var d := c.(state := WriteTransfer);
    assert [DATA_TOKEN][..0] == [];
    assert After(c, [DATA_TOKEN]) == d;
    AfterAll(c, [DATA_TOKEN], data);
    DataTaken(d, data);
    assert data + c.buffer[BLOCK_SIZE..] == data;
  }

  /** After a block and its checksum the card says that it has accepted the data. */
  lemma WriteAccepted(c: Card, block: Word, data: seq<Byte>, x: Byte, y: Byte)
    requires Writes(c, block) && |c.buffer| == BLOCK_SIZE == |data|
    ensures Transfer(After(c, [DATA_TOKEN] + data + [x, y]), 0xff).1 == 5
  {
    BlockTaken(c, block, data);
    AfterAll(c, [DATA_TOKEN] + data, [x, y]);
    ChecksumPassed(After(c, [DATA_TOKEN] + data), x, y);
    Responds(After(c, [DATA_TOKEN] + data + [x, y]));
  }

  /** Where a disk grows for a block behind its end, the bytes between read as zero and the old
      ones as before. */
  lemma GapReadsZero(c: Card, block: Word, data: seq<Byte>, x: Byte, y: Byte, other: Word, i: nat)
    requires Waiting(c, false) && c.blockLength == BLOCK_SIZE == |c.buffer| && |data| == BLOCK_SIZE && i < BLOCK_SIZE
    requires From(other) + BLOCK_SIZE <= From(block)
    ensures var d := After(Command(c, 24, block).0, [DATA_TOKEN] + data + [x, y, 0xff]);
            var read := Command(d, 17, other).0.buffer;
            |read| == BLOCK_SIZE && read[i] == if From(other) + i < |c.disk| then c.disk[From(other) + i] else 0
  {
    WrittenBlockReadBack(c, block, data, x, y, other);
  }
}
