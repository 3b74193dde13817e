/** The emulated card as it changes its state byte by byte, and the kernel's driver for it. */
module SdProgram {
  import opened Words
  import opened SdCard

  class SdMmc {
    var currentState: State
    var selected: bool
    var stateDelay: nat
    var transferAddress: Word
    var transferCount: nat
    var blockLength: nat
    var initClockCount: nat
    var command: seq<Byte>
    var blockBuffer: seq<Byte>
    var inIdleState: bool
    var checkPattern: Byte
    var voltage: Byte
    var isAppCmd: bool
    var present: bool
    var disk: seq<Byte>
    const random: nat -> nat
    var drawn: nat

    ghost function View(): Card
      reads this
    {
      Card(currentState, selected, stateDelay, transferAddress, transferCount, blockLength, initClockCount, command, blockBuffer,
           inIdleState, checkPattern, voltage, isAppCmd, present, disk, random, drawn)
    }

    constructor (image: seq<Byte>, numbers: nat -> nat)
      ensures View() == Fresh(image, numbers)
    {
      random := numbers;
      currentState, selected, stateDelay, transferAddress, transferCount := InitWait, true, 0, 0, 0;
      blockLength, initClockCount, command, blockBuffer := BLOCK_SIZE, 0, [], seq(BLOCK_SIZE, _ => 0);
      inIdleState, checkPattern, voltage, isAppCmd, present, disk, drawn := false, 0, 0, false, true, image, 0;
    }

    method SetCs(level: bool)
      modifies this`selected
      ensures View() == old(View()).(selected := !level)
    {
      selected := !level;
    }

    method NextDelay()
      modifies this`stateDelay, this`drawn
      ensures View() == Wait(old(View()))
    {
      stateDelay := random(drawn) % 16;
      drawn := drawn + 1;
    }

    method ReadBlock(block: Word)
      modifies this
      ensures View() == StartRead(old(View()), block)
    {
      var from := block * blockLength % WORDS;
      if from + blockLength > |disk| {
        currentState := Exited;
        return;
      }
      transferAddress := from;
      blockBuffer := disk[from..from + blockLength];
      transferCount := 0;
      currentState := ReadCmdResponse;
      NextDelay();
    }

    method ProcessCommand(bytes: seq<Byte>)
      requires |bytes| == SD_COMMAND_LENGTH
      modifies this
      ensures View() == Process(old(View()), bytes)
    {
      var code := bytes[0] % 64;
      if isAppCmd {
        isAppCmd := false;
        if code == CMD_APP_OP_COND {
          currentState, transferCount, inIdleState := SendR3, 0, false;
        } else {
          currentState := Exited;
        }
      } else if code == CMD_GO_IDLE_STATE {
        if present {
          inIdleState, currentState := true, SendR1;
        }
      } else if code == CMD_SEND_OP_COND {
        currentState, inIdleState := SendR1, false;
      } else if code == CMD_SEND_IF_COND {
        currentState, transferCount, voltage, checkPattern := SendR7, 0, bytes[3] % 16, bytes[4];
      } else if code == CMD_SET_BLOCKLEN {
        if inIdleState {
          currentState := Exited;
        } else {
          blockLength := Argument(bytes);
          blockBuffer := seq(Argument(bytes), _ => 0);
          currentState := SendR1;
        }
      } else if code == CMD_READ_SINGLE_BLOCK {
        if inIdleState {
          currentState := Exited;
        } else {
          ReadBlock(Argument(bytes));
        }
      } else if code == CMD_WRITE_SINGLE_BLOCK {
        if inIdleState {
          currentState := Exited;
        } else {
          transferAddress := Argument(bytes) * blockLength % WORDS;
          transferCount, currentState := 0, WriteCmdResponse;
          NextDelay();
        }
      } else if code == CMD_APP_CMD {
        isAppCmd, currentState := true, SendR1;
      } else {
        currentState := Exited;
      }
    }

    method ListenTo(value: Byte)
      modifies this
      ensures View() == Listen(old(View()), value)
    {
      if selected && value / 64 == 1 {
        currentState, command := ReceiveCommand, [value];
      }
    }

    method CollectByte(value: Byte)
      modifies this
      ensures View() == Collect(old(View()), value)
    {
      if selected {
        command := command + [value];
        if |command| == SD_COMMAND_LENGTH {
          var whole := command;
          command := [];
          ProcessCommand(whole);
        }
      }
    }

    method AnswerThree() returns (result: Byte)
      modifies this
      ensures (View(), result) == SendThree(old(View()))
    {
      result := 0;
      if transferCount == 0 {
        result := Flag(inIdleState);
      } else if transferCount == 4 {
        currentState := Idle;
      }
      transferCount := transferCount + 1;
    }

    method AnswerSeven() returns (result: Byte)
      modifies this
      ensures (View(), result) == SendSeven(old(View()))
    {
      result := 0xff;
      if transferCount == 0 {
        result := 1;
      } else if transferCount == 1 || transferCount == 2 {
        result := 0;
      } else if transferCount == 3 {
        result := voltage;
      } else if transferCount == 4 {
        result := checkPattern;
        currentState := Idle;
      }
      transferCount := transferCount + 1;
    }

    method GiveData() returns (result: Byte)
      modifies this
      ensures (View(), result) == SendData(old(View()))
    {
      result := 0xff;
      if transferCount < blockLength {
        if transferCount < |blockBuffer| {
          result := blockBuffer[transferCount];
        }
      } else if transferCount == blockLength + 1 {
        currentState := Idle;
      }
      transferCount := transferCount + 1;
    }

    method AcceptData(value: Byte)
      modifies this
      ensures View() == TakeData(old(View()), value)
    {
      if transferCount < blockLength {
        if transferCount < |blockBuffer| {
          blockBuffer := blockBuffer[transferCount := value];
        }
      } else if transferCount == blockLength + 1 {
        currentState := WriteDataResponse;
      }
      transferCount := transferCount + 1;
    }

    method StoreBlock()
      modifies this
      ensures View() == Store(old(View()))
    {
      currentState := Idle;
      var end := transferAddress + |blockBuffer|;
      if end > |disk| {
        disk := disk + seq(end - |disk|, _ => 0);
      }
      disk := disk[..transferAddress] + blockBuffer + disk[end..];
    }

    /** Counts a wait down; at its end the card moves on and answers. */
    method Delayed(next: State, answer: Byte, again: bool) returns (result: Byte)
      modifies this
      ensures old(stateDelay) > 0 ==> result == 0xff && View() == old(View()).(delay := old(stateDelay) - 1)
      ensures old(stateDelay) == 0 ==>
                result == answer && View() == if again then Wait(old(View()).(state := next)) else old(View()).(state := next)
    {
      if stateDelay == 0 {
        currentState := next;
        result := answer;
        if again {
          NextDelay();
        }
      } else {
        stateDelay := stateDelay - 1;
        result := 0xff;
      }
    }

    /** The states in which a block is read. */
    method ReadByte() returns (result: Byte)
      requires currentState in {ReadCmdResponse, ReadDataToken, ReadTransfer}
      modifies this
      ensures (View(), result) == Transfer(old(View()), 0xff)
    {
      if currentState == ReadCmdResponse {
        result := Delayed(ReadDataToken, 0, true);
      } else if currentState == ReadDataToken {
        result := Delayed(ReadTransfer, DATA_TOKEN, false);
      } else {
        result := GiveData();
      }
    }

    /** The states in which a block is written. */
    method WriteByte(value: Byte) returns (result: Byte)
      requires currentState in {WriteCmdResponse, WriteDataToken, WriteTransfer, WriteDataResponse}
      modifies this
      ensures (View(), result) == Transfer(old(View()), value)
    {
      result := 0xff;
      if currentState == WriteCmdResponse {
        result := Delayed(WriteDataToken, 0, true);
      } else if currentState == WriteDataToken {
        if value == DATA_TOKEN {
          currentState := WriteTransfer;
        }
      } else if currentState == WriteTransfer {
        AcceptData(value);
      } else {
        result := 5;
        StoreBlock();
      }
    }

    method TransferByte(value: Byte) returns (result: Byte)
      modifies this
      ensures (View(), result) == Transfer(old(View()), value)
    {
      result := 0xff;
      match currentState {
        case InitWait =>
          initClockCount := initClockCount + 8;
          if selected && initClockCount < INIT_CLOCKS {
            currentState := Exited;
          } else {
            ListenTo(value);
          }
        case Idle =>
          ListenTo(value);
        case ReceiveCommand =>
          CollectByte(value);
        case SendR1 =>
          currentState := Idle;
          result := Flag(inIdleState);
        case SendR3 =>
          result := AnswerThree();
        case SendR7 =>
          result := AnswerSeven();
        case ReadCmdResponse | ReadDataToken | ReadTransfer =>
          result := ReadByte();
        case WriteCmdResponse | WriteDataToken | WriteTransfer | WriteDataResponse =>
          result := WriteByte(value);
        case Exited =>
      }
    }
  }

  /** The card answers commands, and reading is allowed. */
  predicate Usable(c: Card, disk: seq<Byte>) {
    Waiting(c, false) && c.blockLength == BLOCK_SIZE && c.disk == disk
  }

  class SdDriver {
    const card: SdMmc

    constructor (c: SdMmc)
      ensures card == c
    {
      card := c;
    }

    method SpiTransfer(value: Byte) returns (result: Byte)
      modifies card
      ensures (card.View(), result) == Transfer(old(card.View()), value)
    {
      result := card.TransferByte(value);
    }

    method SendBytes(code: nat, parameter: Word)
      requires Ready(card.View()) && code < 64
      modifies card
      ensures card.View() == Process(Heard(old(card.View()), []), CommandBytes(code, parameter))
    {
      var bytes := CommandBytes(code, parameter);
      CommandHeard(card.View(), code, parameter);
      for i := 0 to 6
        invariant card.View() == After(old(card.View()), bytes[..i])
      {
        assert bytes[..i + 1][..i] == bytes[..i];
        var ignored := SpiTransfer(bytes[i]);
      }
      assert bytes[..6] == bytes;
    }

    method SendSdCommand(code: nat, parameter: Word) returns (result: Byte)
      requires Ready(card.View()) && code < 64
      modifies card
      ensures (card.View(), result) == Command(old(card.View()), code, parameter)
    {
      SendBytes(code, parameter);
      result := AwaitAnswer();
    }

    /** Reads bytes until one is not 0xff, a bounded number of times. */
    method AwaitAnswer() returns (result: Byte)
      modifies card
      ensures (card.View(), result) == Poll(old(card.View()), 0)
    {
      var retryCount := 0;
      result := SpiTransfer(0xff);
      while result == 0xff && retryCount < MAX_RETRIES
        invariant 0 <= retryCount <= MAX_RETRIES
        invariant Poll(old(card.View()), 0) ==
                  if result == 0xff && retryCount < MAX_RETRIES then Poll(card.View(), retryCount + 1) else (card.View(), result)
        decreases MAX_RETRIES - retryCount
      {
        retryCount := retryCount + 1;
        result := SpiTransfer(0xff);
      }
    }

    /** Ten bytes of clocks with the card not selected, and then a reset. */
    method PowerUp() returns (r: Byte)
      requires card.View() == Fresh(card.disk, card.random)
      modifies card
      ensures r == 1 && Waiting(card.View(), true) && card.blockLength == BLOCK_SIZE && card.disk == old(card.disk)
    {
      card.SetCs(true);
      for i := 0 to 10
        invariant card.View() == Fresh(old(card.disk), card.random).(selected := false, clocks := 8 * i)
      {
        var ignored := SpiTransfer(0xff);
      }
      card.SetCs(false);
      GoIdle(card.View());
      r := SendSdCommand(CMD_GO_IDLE_STATE, 0);
    }

    /** Asks whether the card bears the voltage; it has to echo it and the check pattern. */
    method CheckVoltage() returns (ok: bool)
      requires Waiting(card.View(), true)
      modifies card
      ensures ok && Waiting(card.View(), true) && SameCard(old(card.View()), card.View())
    {
      SendIfCond(card.View());
      var r := SendSdCommand(CMD_SEND_IF_COND, 0x15a);
      if r != 1 {
        return false;
      }
      var volts, pattern := FinishSeven();
      ok := volts % 16 == 1 && pattern == 0x5a;
    }

    /** Reads the rest of the answer to the interface condition command. */
    method FinishSeven() returns (volts: Byte, pattern: Byte)
      requires card.currentState == SendR7 && card.transferCount == 1
      modifies card
      ensures volts == old(card.voltage) && pattern == old(card.checkPattern)
      ensures card.View() == old(card.View()).(state := Idle, transferCount := 5)
    {
      var ignored := SpiTransfer(0xff);
      ignored := SpiTransfer(0xff);
      volts := SpiTransfer(0xff);
      pattern := SpiTransfer(0xff);
    }

    /** Wakes the card up after power on. */
    method InitSdDevice() returns (result: int)
      requires card.View() == Fresh(card.disk, card.random)
      modifies card
      ensures result == 0 && Usable(card.View(), old(card.disk))
    {
      var r := PowerUp();
      if r != 1 {
        return -1;
      }
      var ok := CheckVoltage();
      if !ok {
        return -1;
      }
      result := PollUntilReady();
    }

    /** Reads the rest of the answer to the operating condition command. */
    method FinishThree()
      requires card.currentState == SendR3 && card.transferCount == 1
      modifies card
      ensures card.currentState == Idle && SameCard(old(card.View()), card.View())
      ensures card.inIdleState == old(card.inIdleState) && card.isAppCmd == old(card.isAppCmd)
    {
      for i := 0 to 5
        invariant SameCard(old(card.View()), card.View())
        invariant card.inIdleState == old(card.inIdleState) && card.isAppCmd == old(card.isAppCmd)
        invariant if i < 4 then card.currentState == SendR3 && card.transferCount == 1 + i else card.currentState == Idle
      {
        var ignored := SpiTransfer(0xff);
      }
    }

    /** Asks again and again until the card says that it is ready. */
    method PollUntilReady() returns (result: int)
      requires Waiting(card.View(), true) && card.blockLength == BLOCK_SIZE
      modifies card
      ensures result == 0 && Usable(card.View(), old(card.disk))
    {
      for retry := 0 to MAX_RETRIES + 1
        invariant retry == 0 && Waiting(card.View(), true) && card.blockLength == BLOCK_SIZE && card.disk == old(card.disk)
      {
        AppCommand(card.View());
        var r := SendSdCommand(CMD_APP_CMD, 0);
        if r != 1 {
          return -1;
        }
        AppOpCond(card.View());
        r := SendSdCommand(CMD_APP_OP_COND, 0);
        FinishThree();
        if r == 0 {
          return 0;
        }
        if r != 1 {
          return -1;
        }
      }
      return -1;
    }

    /** Reads one block into memory. A block that is not on the disk makes the emulator give up. */
    method ReadSdDevice(block: Word, ptr: array<Byte>, at: nat) returns (result: int)
      requires Usable(card.View(), card.disk) && at + BLOCK_SIZE <= ptr.Length
      modifies card, ptr
      ensures From(block) + BLOCK_SIZE > |old(card.disk)| ==> result == -1 && card.currentState == Exited && ptr[..] == old(ptr[..])
      ensures From(block) + BLOCK_SIZE <= |old(card.disk)| ==>
                && result == BLOCK_SIZE && Usable(card.View(), old(card.disk))
                && ptr[at..at + BLOCK_SIZE] == old(card.disk)[From(block)..From(block) + BLOCK_SIZE]
                && ptr[..at] == old(ptr[..at]) && ptr[at + BLOCK_SIZE..] == old(ptr[at + BLOCK_SIZE..])
    {
      if From(block) + BLOCK_SIZE <= |card.disk| {
        ReadStarts(card.View(), block);
      } else {
        ReadBeyond(card.View(), block);
      }
      var r := SendSdCommand(CMD_READ_SINGLE_BLOCK, block);
      if r != 0 {
        return -1;
      }
      var found := AwaitToken();
      if !found {
        return -1;
      }
      ReadData(ptr, at);
      r := SpiTransfer(0xff);
      r := SpiTransfer(0xff);
      result := BLOCK_SIZE;
    }

    /** Waits for the start of the data, though not forever. */
    method AwaitToken() returns (found: bool)
      requires card.currentState == ReadDataToken && card.stateDelay < 16
      modifies card
      ensures found && card.View() == old(card.View()).(state := ReadTransfer, delay := 0)
    {
      var dataTimeout := 10000;
      var r := SpiTransfer(0xff);
      while r != DATA_TOKEN
        invariant if r == DATA_TOKEN then card.View() == old(card.View()).(state := ReadTransfer, delay := 0)
                  else card.View() == old(card.View()).(delay := card.stateDelay) && dataTimeout > card.stateDelay + 1
        decreases dataTimeout, if r == DATA_TOKEN then 0 else 1
      {
        dataTimeout := dataTimeout - 1;
        if dataTimeout == 0 {
          return false;
        }
        r := SpiTransfer(0xff);
      }
      found := true;
    }

    method ReadData(ptr: array<Byte>, at: nat)
      requires card.currentState == ReadTransfer && card.transferCount == 0 && card.blockLength == BLOCK_SIZE
      requires |card.blockBuffer| == BLOCK_SIZE && at + BLOCK_SIZE <= ptr.Length
      modifies card, ptr
      ensures card.View() == old(card.View()).(transferCount := BLOCK_SIZE)
      ensures forall i :: 0 <= i < ptr.Length ==>
                ptr[i] == if at <= i < at + BLOCK_SIZE then old(card.blockBuffer)[i - at] else old(ptr[i])
    {
      for i := 0 to BLOCK_SIZE
        invariant card.View() == old(card.View()).(transferCount := i)
        invariant forall j :: 0 <= j < ptr.Length ==>
                    ptr[j] == if at <= j < at + i then old(card.blockBuffer)[j - at] else old(ptr[j])
      {
        ptr[at + i] := SpiTransfer(0xff);
      }
    }
  }
}
