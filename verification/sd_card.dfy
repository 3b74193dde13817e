/** An SD card on a serial bus, byte by byte, as the emulator plays it (SPI mode; sections 7.3.2.4
    and 7.3.2.6 of the SD Physical Layer Simplified Specification Version 6.00). */
module SdCard {
  import opened Words

  const INIT_CLOCKS := 80
  const SD_COMMAND_LENGTH := 6
  const DATA_TOKEN: Byte := 0xfe
  const BLOCK_SIZE := 512

  const CMD_GO_IDLE_STATE := 0
  const CMD_SEND_OP_COND := 1
  const CMD_SEND_IF_COND := 8
  const CMD_SET_BLOCKLEN := 16
  const CMD_READ_SINGLE_BLOCK := 17
  const CMD_WRITE_SINGLE_BLOCK := 24
  const CMD_APP_OP_COND := 41
  const CMD_APP_CMD := 55

  datatype State =
    | InitWait | Idle | ReceiveCommand | ReadCmdResponse | ReadDataToken | SendR1 | SendR3 | SendR7 | ReadTransfer
    | WriteCmdResponse | WriteDataToken | WriteTransfer | WriteDataResponse
    | Exited

  /** `selected` is a chip select held low. `random` gives the waits, and `drawn` says how many
      have been used. In state `Exited` the emulator has given up. */
  datatype Card = Card(state: State, selected: bool, delay: nat, transferAddress: Word, transferCount: nat, blockLength: nat,
                       clocks: nat, command: seq<Byte>, buffer: seq<Byte>, inIdle: bool, checkPattern: Byte, voltage: Byte,
                       isAppCmd: bool, present: bool, disk: seq<Byte>, random: nat -> nat, drawn: nat)

  function Fresh(disk: seq<Byte>, random: nat -> nat): Card {
    Card(InitWait, true, 0, 0, 0, BLOCK_SIZE, 0, [], seq(BLOCK_SIZE, _ => 0), false, 0, 0, false, true, disk, random, 0)
  }

  function Flag(b: bool): Byte {
    if b then 1 else 0
  }

  /** Four bytes as a word, highest byte first. */
  function Argument(command: seq<Byte>): Word
    requires |command| == SD_COMMAND_LENGTH
  {
    var a: int, b: int, d: int := command[1], command[2], command[3];
    a * 0x100_0000 + b * 0x1_0000 + d * 0x100 + command[4]
  }

  function Exit(c: Card): Card {
    c.(state := Exited)
  }

  function Wait(c: Card): Card {
    c.(delay := c.random(c.drawn) % 16, drawn := c.drawn + 1)
  }

  /** Seeks to the block and reads it; the address wraps at 32 bits, and a short read is fatal. */
  function StartRead(c: Card, block: Word): Card {
    var from := block * c.blockLength % WORDS;
    if from + c.blockLength > |c.disk| then Exit(c)
    else Wait(c.(transferAddress := from, buffer := c.disk[from..from + c.blockLength], transferCount := 0, state := ReadCmdResponse))
  }

  function Process(c: Card, command: seq<Byte>): Card
    requires |command| == SD_COMMAND_LENGTH
  {
    var code := command[0] % 64;
    if c.isAppCmd then
      var d := c.(isAppCmd := false);
      if code == CMD_APP_OP_COND then d.(state := SendR3, transferCount := 0, inIdle := false) else Exit(d)
    else if code == CMD_GO_IDLE_STATE then
      if c.present then c.(inIdle := true, state := SendR1) else c
    else if code == CMD_SEND_OP_COND then c.(state := SendR1, inIdle := false)
    else if code == CMD_SEND_IF_COND then
      c.(state := SendR7, transferCount := 0, voltage := command[3] % 16, checkPattern := command[4])
    else if code == CMD_SET_BLOCKLEN then
      if c.inIdle then Exit(c)
      else c.(blockLength := Argument(command), buffer := seq(Argument(command), _ => 0), state := SendR1)
    else if code == CMD_READ_SINGLE_BLOCK then
      if c.inIdle then Exit(c) else StartRead(c, Argument(command))
    else if code == CMD_WRITE_SINGLE_BLOCK then
      if c.inIdle then Exit(c)
      else Wait(c.(transferAddress := Argument(command) * c.blockLength % WORDS, transferCount := 0, state := WriteCmdResponse))
    else if code == CMD_APP_CMD then c.(isAppCmd := true, state := SendR1)
    else Exit(c)
  }

  function Listen(c: Card, value: Byte): Card {
    if c.selected && value / 64 == 1 then c.(state := ReceiveCommand, command := [value]) else c
  }

  function Collect(c: Card, value: Byte): Card {
    if !c.selected then c
    else
      var command := c.command + [value];
      if |command| == SD_COMMAND_LENGTH then Process(c.(command := []), command) else c.(command := command)
  }

  function SendSeven(c: Card): (Card, Byte) {
    var d := c.(transferCount := c.transferCount + 1);
    if c.transferCount == 0 then (d, 1)
    else if c.transferCount == 1 || c.transferCount == 2 then (d, 0)
    else if c.transferCount == 3 then (d, c.voltage)
    else if c.transferCount == 4 then (d.(state := Idle), c.checkPattern)
    else (d, 0xff)
  }

  function SendThree(c: Card): (Card, Byte) {
    var d := c.(transferCount := c.transferCount + 1);
    if c.transferCount == 0 then (d, Flag(c.inIdle))
    else if c.transferCount == 4 then (d.(state := Idle), 0)
    else (d, 0)
  }

  function SendData(c: Card): (Card, Byte) {
    var d := c.(transferCount := c.transferCount + 1);
    if c.transferCount < c.blockLength then (d, if c.transferCount < |c.buffer| then c.buffer[c.transferCount] else 0xff)
    else if c.transferCount == c.blockLength + 1 then (d.(state := Idle), 0xff)
    else (d, 0xff)
  }

  function TakeData(c: Card, value: Byte): Card {
    var d := c.(transferCount := c.transferCount + 1);
    if c.transferCount < c.blockLength then
      (if c.transferCount < |c.buffer| then d.(buffer := c.buffer[c.transferCount := value]) else d)
    else if c.transferCount == c.blockLength + 1 then d.(state := WriteDataResponse)
    else d
  }

  /** A file that is written behind its end grows, with zeroes in between. */
  function Grown(disk: seq<Byte>, size: nat): (d: seq<Byte>)
    ensures |d| >= size
  {
    if size <= |disk| then disk else disk + seq(size - |disk|, _ => 0)
  }

  function Replaced(disk: seq<Byte>, at: nat, data: seq<Byte>): (d: seq<Byte>)
    ensures |d| == |Grown(disk, at + |data|)|
  {
    var grown := Grown(disk, at + |data|);
    grown[..at] + data + grown[at + |data|..]
  }

  function Store(c: Card): Card {
    c.(state := Idle, disk := Replaced(c.disk, c.transferAddress, c.buffer))
  }

  /** One byte out and one byte in. */
  function Transfer(c: Card, value: Byte): (Card, Byte) {
    match c.state
    case InitWait =>
      var d := c.(clocks := c.clocks + 8);
      if c.selected && d.clocks < INIT_CLOCKS then (Exit(d), 0xff) else (Listen(d, value), 0xff)
    case Idle => (Listen(c, value), 0xff)
    case ReceiveCommand => (Collect(c, value), 0xff)
    case SendR1 => (c.(state := Idle), Flag(c.inIdle))
    case SendR3 => SendThree(c)
    case SendR7 => SendSeven(c)
    case ReadCmdResponse =>
      if c.delay == 0 then (Wait(c.(state := ReadDataToken)), 0) else (c.(delay := c.delay - 1), 0xff)
    case ReadDataToken =>
      if c.delay == 0 then (c.(state := ReadTransfer), DATA_TOKEN) else (c.(delay := c.delay - 1), 0xff)
    case ReadTransfer => SendData(c)
    case WriteCmdResponse =>
      if c.delay == 0 then (Wait(c.(state := WriteDataToken)), 0) else (c.(delay := c.delay - 1), 0xff)
    case WriteDataToken => (if value == DATA_TOKEN then c.(state := WriteTransfer) else c, 0xff)
    case WriteTransfer => (TakeData(c, value), 0xff)
    case WriteDataResponse => (Store(c), 5)
    case Exited => (c, 0xff)
  }

  // ---------------------------------------------------------------- sequences

  /** What the card has become after the bytes. */
  function After(c: Card, bytes: seq<Byte>): Card
    decreases |bytes|
  {
    if bytes == [] then c else Transfer(After(c, bytes[..|bytes| - 1]), bytes[|bytes| - 1]).0
  }

  /** The six bytes of a command. */
  function CommandBytes(code: nat, parameter: Word): seq<Byte>
    requires code < 64
  {
    [0x40 + code, parameter / 0x100_0000 % 256, parameter / 0x1_0000 % 256, parameter / 0x100 % 256, parameter % 256, 0x95]
  }

  /** The card is ready to hear a command. */
  predicate Ready(c: Card) {
    c.selected && (c.state == Idle || (c.state == InitWait && c.clocks + 8 >= INIT_CLOCKS))
  }

  /** The card as it was when a command was begun. */
  function Heard(c: Card, part: seq<Byte>): Card {
    (if c.state == InitWait then c.(clocks := c.clocks + 8) else c).(state := ReceiveCommand, command := part)
  }

  lemma FirstByte(c: Card, v: Byte)
    requires Ready(c) && v / 64 == 1
    ensures Transfer(c, v).0 == Heard(c, [v])
  {
  }

  lemma NextByte(c: Card, v: Byte)
    requires c.state == ReceiveCommand && c.selected && |c.command| < 5
    ensures Transfer(c, v).0 == c.(command := c.command + [v])
  {
  }

  lemma LastByte(c: Card, v: Byte)
    requires c.state == ReceiveCommand && c.selected && |c.command| == 5
    ensures Transfer(c, v).0 == Process(c.(command := []), c.command + [v])
  {
  }

  lemma {:induction false} CommandBegun(c: Card, b: seq<Byte>, n: nat)
    requires Ready(c) && |b| == SD_COMMAND_LENGTH && b[0] / 64 == 1 && 1 <= n < 6
    ensures After(c, b[..n]) == Heard(c, b[..n])
  {
    assert b[..n][..n - 1] == b[..n - 1] && b[..n - 1] + [b[n - 1]] == b[..n];
    if n == 1 {
      FirstByte(c, b[0]);
    } else {
      CommandBegun(c, b, n - 1);
      NextByte(Heard(c, b[..n - 1]), b[n - 1]);
    }
  }

  /** Six bytes make the card carry out the command. */
  lemma CommandHeard(c: Card, code: nat, parameter: Word)
    requires Ready(c) && code < 64
    ensures After(c, CommandBytes(code, parameter)) == Process(Heard(c, []), CommandBytes(code, parameter))
  {
    var b := CommandBytes(code, parameter);
    CommandBegun(c, b, 5);
    assert b[..5] + [b[5]] == b;
    LastByte(Heard(c, b[..5]), b[5]);
  }

  /** The argument of a command is the parameter that was sent. */
  lemma ArgumentSent(code: nat, parameter: Word)
    requires code < 64
    ensures Argument(CommandBytes(code, parameter)) == parameter
  {
    var v1 := parameter / 0x100;
    var v2 := v1 / 0x100;
    Halves(parameter);
    assert parameter == v1 * 0x100 + parameter % 0x100 && v1 == v2 * 0x100 + v1 % 0x100;
    assert v2 == v2 / 0x100 * 0x100 + v2 % 0x100;
  }

  // ------------------------------------------------------------------ answers

  const MAX_RETRIES := 100

  /** Asks for bytes until one is not 0xff. */
  function Poll(c: Card, tries: nat): (Card, Byte)
    decreases MAX_RETRIES - tries
  {
    var (d, r) := Transfer(c, 0xff);
    if r == 0xff && tries < MAX_RETRIES then Poll(d, tries + 1) else (d, r)
  }

  /** A command and the first byte of the answer. */
  function Command(c: Card, code: nat, parameter: Word): (Card, Byte)
    requires code < 64
  {
    Poll(Process(Heard(c, []), CommandBytes(code, parameter)), 0)
  }

  /** What no command of the driver changes. */
  predicate SameCard(c: Card, d: Card) {
    d.selected == c.selected && d.blockLength == c.blockLength && d.present == c.present && d.disk == c.disk
  }

  predicate Waiting(c: Card, idle: bool) {
    c.state == Idle && c.selected && c.inIdle == idle && !c.isAppCmd
  }

  lemma CommandByte(code: nat, parameter: Word)
    requires code < 64
    ensures CommandBytes(code, parameter)[0] % 64 == code
  {
  }

  lemma GoIdle(c: Card)
    requires Ready(c) && c.present && !c.isAppCmd
    ensures var (d, r) := Command(c, CMD_GO_IDLE_STATE, 0); Waiting(d, true) && r == 1 && SameCard(c, d)
  {
    CommandByte(CMD_GO_IDLE_STATE, 0);
  }

  /** The card echoes the voltage and the check pattern. */
  lemma SendIfCond(c: Card)
    requires Waiting(c, true)
    ensures var (d, r) := Command(c, CMD_SEND_IF_COND, 0x15a);
            && r == 1 && SameCard(c, d) && d.state == SendR7 && d.transferCount == 1 && d.voltage == 1 && d.checkPattern == 0x5a
            && d.inIdle && !d.isAppCmd
  {
    CommandByte(CMD_SEND_IF_COND, 0x15a);
  }

  lemma AppCommand(c: Card)
    requires Waiting(c, true)
    ensures var (d, r) := Command(c, CMD_APP_CMD, 0);
            r == 1 && SameCard(c, d) && d.state == Idle && d.inIdle && d.isAppCmd
  {
    CommandByte(CMD_APP_CMD, 0);
  }

  /** The card wakes up at once. */
  lemma AppOpCond(c: Card)
    requires c.state == Idle && c.selected && c.isAppCmd
    ensures var (d, r) := Command(c, CMD_APP_OP_COND, 0);
            && r == 0 && SameCard(c, d) && d.state == SendR3 && d.transferCount == 1 && !d.inIdle && !d.isAppCmd
  {
    CommandByte(CMD_APP_OP_COND, 0);
  }

  lemma {:induction false} PollDelay(c: Card, tries: nat)
    requires c.state == ReadCmdResponse && tries + c.delay <= MAX_RETRIES
    ensures Poll(c, tries) == (Wait(c.(state := ReadDataToken, delay := 0)), 0)
    decreases c.delay
  {
    if c.delay > 0 {
      PollDelay(c.(delay := c.delay - 1), tries + 1);
    }
  }

  /** Where on the disk the card reads a block: the byte address wraps at 32 bits. */
  function From(block: Word): nat {
    block * BLOCK_SIZE % WORDS
  }

  /** The card starts to read, however long it waits. */
  lemma ReadStarts(c: Card, block: Word)
    requires Waiting(c, false) && c.blockLength == BLOCK_SIZE && From(block) + BLOCK_SIZE <= |c.disk|
    ensures var (d, r) := Command(c, CMD_READ_SINGLE_BLOCK, block);
            && r == 0 && SameCard(c, d) && d.state == ReadDataToken && d.delay < 16 && d.transferCount == 0
            && d.buffer == c.disk[From(block)..From(block) + BLOCK_SIZE] && !d.inIdle && !d.isAppCmd
  {
    CommandByte(CMD_READ_SINGLE_BLOCK, block);
    ArgumentSent(CMD_READ_SINGLE_BLOCK, block);
    PollDelay(Process(Heard(c, []), CommandBytes(CMD_READ_SINGLE_BLOCK, block)), 0);
  }

  /** A block that is not on the disk makes the emulator give up. */
  lemma ReadBeyond(c: Card, block: Word)
    requires Waiting(c, false) && c.blockLength == BLOCK_SIZE && From(block) + BLOCK_SIZE > |c.disk|
    ensures Command(c, CMD_READ_SINGLE_BLOCK, block).0.state == Exited && Command(c, CMD_READ_SINGLE_BLOCK, block).1 == 0xff
  {
    CommandByte(CMD_READ_SINGLE_BLOCK, block);
    ArgumentSent(CMD_READ_SINGLE_BLOCK, block);
    PollExited(Process(Heard(c, []), CommandBytes(CMD_READ_SINGLE_BLOCK, block)), 0);
  }

  lemma {:induction false} PollExited(c: Card, tries: nat)
    requires c.state == Exited
    ensures Poll(c, tries) == (c, 0xff)
    decreases MAX_RETRIES - tries
  {
    if tries < MAX_RETRIES {
      PollExited(c, tries + 1);
    }
  }

  /** The wrapped address is that of the block that was asked for exactly when the block lies in
      the first four gigabytes. */
  lemma RequestedBlock(block: Word)
    ensures From(block) == block * BLOCK_SIZE <==> block < 0x80_0000
  {
  }

  // ------------------------------------------------------------------ writing

  lemma {:induction false} PollWriteDelay(c: Card, tries: nat)
    requires c.state == WriteCmdResponse && tries + c.delay <= MAX_RETRIES
    ensures Poll(c, tries) == (Wait(c.(state := WriteDataToken, delay := 0)), 0)
    decreases c.delay
  {
    if c.delay > 0 {
      PollWriteDelay(c.(delay := c.delay - 1), tries + 1);
    }
  }

  /** The card is ready to take a block for the disk. */
  predicate Writes(c: Card, block: Word) {
    && c.state == WriteDataToken && c.transferAddress == From(block) && c.transferCount == 0 && c.blockLength == BLOCK_SIZE
    && !c.inIdle && !c.isAppCmd
  }

  lemma WriteStarts(c: Card, block: Word)
    requires Waiting(c, false) && c.blockLength == BLOCK_SIZE
    ensures var (d, r) := Command(c, CMD_WRITE_SINGLE_BLOCK, block);
            r == 0 && SameCard(c, d) && Writes(d, block) && d.buffer == c.buffer
  {
    CommandByte(CMD_WRITE_SINGLE_BLOCK, block);
    ArgumentSent(CMD_WRITE_SINGLE_BLOCK, block);
    PollWriteDelay(Process(Heard(c, []), CommandBytes(CMD_WRITE_SINGLE_BLOCK, block)), 0);
  }

  lemma {:induction false} DataTaken(c: Card, data: seq<Byte>)
    requires c.state == WriteTransfer && c.transferCount == 0 && |data| <= c.blockLength == |c.buffer|
    ensures After(c, data) == c.(transferCount := |data|, buffer := data + c.buffer[|data|..])
    decreases |data|
  {
    if data == [] {
      assert [] + c.buffer[0..] == c.buffer;
    } else {
      var n := |data| - 1;
      DataTaken(c, data[..n]);
      var partly := data[..n] + c.buffer[n..];
      assert partly[n := data[n]] == data + c.buffer[n + 1..];
    }
  }

  lemma AfterOne(c: Card, bytes: seq<Byte>, v: Byte)
    ensures After(c, bytes + [v]) == Transfer(After(c, bytes), v).0
  {
    assert (bytes + [v])[..|bytes|] == bytes;
  }

  lemma {:induction false} AfterAll(c: Card, first: seq<Byte>, rest: seq<Byte>)
    ensures After(c, first + rest) == After(After(c, first), rest)
    decreases |rest|
  {
    if rest == [] {
      assert first + rest == first;
    } else {
      var n := |rest| - 1;
      assert first + rest == first + rest[..n] + [rest[n]] && rest == rest[..n] + [rest[n]];
      AfterAll(c, first, rest[..n]);
      AfterOne(c, first + rest[..n], rest[n]);
      AfterOne(After(c, first), rest[..n], rest[n]);
    }
  }

  function Checked(c: Card, data: seq<Byte>): Card {
    c.(state := Idle, transferCount := BLOCK_SIZE + 2, buffer := data, disk := Replaced(c.disk, c.transferAddress, data))
  }

  /** A data token, a block, its checksum and one more byte put the block on the disk. */
  lemma BlockWritten(c: Card, block: Word, data: seq<Byte>, x: Byte, y: Byte)
    requires Writes(c, block) && |c.buffer| == BLOCK_SIZE == |data|
    ensures After(c, [DATA_TOKEN] + data + [x, y, 0xff]) == Checked(c, data)
  {
    var d := c.(state := WriteTransfer);
    assert [DATA_TOKEN][..0] == [];
    assert After(c, [DATA_TOKEN]) == d;
    AfterAll(c, [DATA_TOKEN], data);
    DataTaken(d, data);
    assert data + c.buffer[BLOCK_SIZE..] == data;
    AfterAll(c, [DATA_TOKEN] + data, [x, y, 0xff]);
    ChecksumTaken(d.(transferCount := BLOCK_SIZE, buffer := data), x, y);
  }

  lemma ChecksumTaken(d: Card, x: Byte, y: Byte)
    requires d.state == WriteTransfer && d.transferCount == BLOCK_SIZE == d.blockLength
    ensures After(d, [x, y, 0xff]) == Store(d.(transferCount := BLOCK_SIZE + 2))
  {
    ChecksumPassed(d, x, y);
    var w := d.(state := WriteDataResponse, transferCount := BLOCK_SIZE + 2);
    ResponseStores(w);
    assert [x, y] + [0xff] == [x, y, 0xff];
    AfterOne(d, [x, y], 0xff);
    assert Transfer(w, 0xff).0 == Store(w);
  }

  lemma ResponseStores(w: Card)
    requires w.state == WriteDataResponse
    ensures Transfer(w, 0xff).0 == Store(w)
  {
  }

  lemma ChecksumPassed(d: Card, x: Byte, y: Byte)
    requires d.state == WriteTransfer && d.transferCount == BLOCK_SIZE == d.blockLength
    ensures After(d, [x, y]) == d.(state := WriteDataResponse, transferCount := BLOCK_SIZE + 2)
  {
    assert [] + [x] == [x] && [x] + [y] == [x, y];
    AfterOne(d, [], x);
    AfterOne(d, [x], y);
  }

  lemma DiskWritten(c: Card, block: Word, data: seq<Byte>, x: Byte, y: Byte)
    requires Waiting(c, false) && c.blockLength == BLOCK_SIZE == |c.buffer| && |data| == BLOCK_SIZE
    ensures var d := After(Command(c, CMD_WRITE_SINGLE_BLOCK, block).0, [DATA_TOKEN] + data + [x, y, 0xff]);
            Waiting(d, false) && d.blockLength == BLOCK_SIZE && d.disk == Replaced(c.disk, From(block), data)
  {
    WriteStarts(c, block);
    BlockWritten(Command(c, CMD_WRITE_SINGLE_BLOCK, block).0, block, data, x, y);
  }

  lemma BlockReplaced(disk: seq<Byte>, at: nat, data: seq<Byte>, from: nat)
    requires |data| == BLOCK_SIZE && from + BLOCK_SIZE <= |Grown(disk, at + BLOCK_SIZE)|
    requires at == from || at + BLOCK_SIZE <= from || from + BLOCK_SIZE <= at
    ensures Replaced(disk, at, data)[from..from + BLOCK_SIZE] ==
            if from == at then data else Grown(disk, at + BLOCK_SIZE)[from..from + BLOCK_SIZE]
  {
  }

  lemma BlockRead(disk: seq<Byte>, d: Card, block: Word, data: seq<Byte>, other: Word)
    requires Waiting(d, false) && d.blockLength == BLOCK_SIZE && |data| == BLOCK_SIZE
    requires d.disk == Replaced(disk, From(block), data) && From(other) + BLOCK_SIZE <= |d.disk|
    ensures Command(d, CMD_READ_SINGLE_BLOCK, other).0.buffer ==
            if From(other) == From(block) then data
            else Grown(disk, From(block) + BLOCK_SIZE)[From(other)..From(other) + BLOCK_SIZE]
  {
    ReadStarts(d, other);
    BlocksApart(block, other);
    BlockReplaced(disk, From(block), data, From(other));
  }

  /** A block that was written is the one that is read, and the other blocks stay, but that the
      disk grows for a block behind its end. */
  lemma WrittenBlockReadBack(c: Card, block: Word, data: seq<Byte>, x: Byte, y: Byte, other: Word)
    requires Waiting(c, false) && c.blockLength == BLOCK_SIZE == |c.buffer| && |data| == BLOCK_SIZE
    requires From(other) + BLOCK_SIZE <= |Grown(c.disk, From(block) + BLOCK_SIZE)|
    ensures var d := After(Command(c, CMD_WRITE_SINGLE_BLOCK, block).0, [DATA_TOKEN] + data + [x, y, 0xff]);
            && Waiting(d, false) && d.blockLength == BLOCK_SIZE && |d.disk| == |Grown(c.disk, From(block) + BLOCK_SIZE)|
            && Command(d, CMD_READ_SINGLE_BLOCK, other).0.buffer ==
               if From(other) == From(block) then data
               else Grown(c.disk, From(block) + BLOCK_SIZE)[From(other)..From(other) + BLOCK_SIZE]
  {
    DiskWritten(c, block, data, x, y);
    var d := After(Command(c, CMD_WRITE_SINGLE_BLOCK, block).0, [DATA_TOKEN] + data + [x, y, 0xff]);
    BlockRead(c.disk, d, block, data, other);
  }

  lemma BlocksApart(block: Word, other: Word)
    ensures From(block) == From(other) || From(block) + BLOCK_SIZE <= From(other) || From(other) + BLOCK_SIZE <= From(block)
  {
    assert From(block) % BLOCK_SIZE == 0 && From(other) % BLOCK_SIZE == 0;
  }
}
