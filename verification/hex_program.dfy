/** The scanner loop, the emulator's and the loader's use of it, and the growing buffers of the
    loader's segments. */
module HexProgram {
  import opened Words
  import opened Wrappers
  import opened HexFormat
  import opened Serial
  import Printer = HexPrinter

  // ------------------------------------------------------------------ scanner

  class HexScanner {
    const text: string
    var position: nat
    var pushBack: Option<char>
    var state: State
    var number: Word
    var done: bool

    constructor (t: string)
      ensures text == t && Valid() && Meaning() == Parse(t)
    {
      text := t;
      position, pushBack, state, number, done := 0, None, Space, 0, false;
      new;
      assert Rest() == text;
    }

    ghost predicate Valid()
      reads this
    {
      position <= |text|
    }

    /** What is still to be scanned. */
    ghost function Rest(): string
      requires Valid()
      reads this
    {
      (if pushBack.Some? then [pushBack.value] else []) + text[position..]
    }

    /** The events that are still to come. */
    ghost function Meaning(): Option<seq<Event>>
      requires Valid()
      reads this
    {
      if done then Some([]) else Scan(Rest(), state, number)
    }

    ghost function Left(): nat
      requires Valid()
      reads this
    {
      if done then 0 else 2 * |Rest()| + (if Reading(state) then 2 else 1)
    }

    /** The next character; `None` at the end of the file, any number of times. */
    method NextChar() returns (ch: Option<char>)
      requires Valid()
      modifies this`pushBack, this`position
      ensures Valid() && pushBack == None
      ensures ch == if old(Rest()) == [] then None else Some(old(Rest())[0])
      ensures Rest() == if old(Rest()) == [] then [] else old(Rest())[1..]
    {
      if pushBack.Some? {
        ch := pushBack;
        pushBack := None;
      } else if position < |text| {
        ch := Some(text[position]);
        position := position + 1;
      } else {
        ch := None;
      }
    }

    /** One turn of the loop. */
    method Turn() returns (failed: bool, event: Option<Event>)
      requires Valid() && !done
      modifies this
      ensures Valid() && (!failed ==> Left() < old(Left()))
      ensures failed ==> old(Meaning()) == None
      ensures !failed ==> old(Meaning()) == Then(if event.Some? then [event.value] else [], Meaning())
    {
      ghost var before := Rest();
      var ch := NextChar();
      failed, event := false, None;
      match state {
        case Space =>
          failed := ScanSpace(ch);
        case Slash =>
          if ch == Some('*') {
            state := MultiLine;
          } else if ch == Some('/') {
            state := SingleLine;
          } else {
            failed := true;
          }
        case SingleLine =>
          if ch == Some('\n') {
            state := Space;
          } else if ch == None {
            done := true;
          }
        case MultiLine =>
          if ch == Some('*') {
            state := Asterisk;
          } else if ch == None {
            failed := true;
          }
        case Asterisk =>
          if ch == Some('/') {
            state := Space;
          } else if ch == None {
            failed := true;
          }
        case Number =>
          if ch.Some? && IsHexDigit(ch.value) {
            if number >= 0x1000_0000 {
              failed := true;
            } else {
              number := number * 16 + HexDigitVal(ch.value);
            }
          } else {
            event := Some(Store(number));
            pushBack := ch;
            state := Space;
            assert Rest() == before;
          }
        case Address =>
          if ch.Some? && IsHexDigit(ch.value) {
            number := (number * 16 + HexDigitVal(ch.value)) % WORDS;
          } else {
            event := Some(At(number));
            pushBack := ch;
            state := Space;
            assert Rest() == before;
          }
      }
      NoneThen(if event.Some? then [event.value] else [], Meaning());
    }

    method ScanSpace(ch: Option<char>) returns (failed: bool)
      requires Valid() && !done && state == Space
      modifies this`state, this`number, this`done
      ensures done == (ch == None)
      ensures failed == (ch.Some? && ch.value != '/' && ch.value != '@' && !IsHexDigit(ch.value) && !IsSpace(ch.value))
      ensures ch.Some? && !failed ==>
                (state, number) == if ch.value == '/' then (Slash, old(number)) else if ch.value == '@' then (Address, 0)
                                   else if IsHexDigit(ch.value) then (Number, HexDigitVal(ch.value)) else (Space, old(number))
    {
      failed := false;
      if ch == None {
        done := true;
      } else if ch.value == '/' {
        state := Slash;
      } else if ch.value == '@' {
        state := Address;
        number := 0;
      } else if IsHexDigit(ch.value) {
        number := HexDigitVal(ch.value);
        state := Number;
      } else if !IsSpace(ch.value) {
        failed := true;
      }
    }
  }

  lemma NoneThen(first: seq<Event>, rest: Option<seq<Event>>)
    ensures first == [] ==> Then(first, rest) == rest
  {
    if rest.Some? {
      assert [] + rest.value == rest.value;
    }
  }

  lemma ThenThen(a: seq<Event>, b: seq<Event>, rest: Option<seq<Event>>)
    ensures Then(a, Then(b, rest)) == Then(a + b, rest)
  {
    if rest.Some? {
      assert a + (b + rest.value) == a + b + rest.value;
    }
  }

  // ----------------------------------------------------------------- emulator

  lemma StoreNext(l: Loaded, events: seq<Event>, e: Event)
    ensures StoreAll(l, events + [e]) ==
            match StoreAll(l, events) case None => None case Some(m) => StoreOne(m, e)
  {
    assert (events + [e])[..|events|] == events;
  }

  lemma {:induction false} StoreStuck(l: Loaded, events: seq<Event>, more: seq<Event>)
    requires StoreAll(l, events) == None
    ensures StoreAll(l, events + more) == None
    decreases |more|
  {
    if more == [] {
      assert events + more == events;
    } else {
      var n := |more| - 1;
      StoreStuck(l, events, more[..n]);
      assert events + more == events + more[..n] + [more[n]];
      StoreNext(l, events + more[..n], more[n]);
    }
  }

  /** What loading a text into memory comes to; `None` is an error. */
  function Outcome(mem: seq<Byte>, parsed: Option<seq<Event>>): Option<Loaded> {
    if parsed.None? then None else StoreAll(Loaded(mem, 0), parsed.value)
  }

  method StoreWord(memory: array<Byte>, address: nat, value: Word)
    requires 4 * address + 4 <= memory.Length
    modifies memory
    ensures memory[..] == Patched(old(memory[..]), 4 * address, BigEndian(value))
  {
    var bytes := BigEndian(value);
    var at := 4 * address;
    memory[at], memory[at + 1], memory[at + 2], memory[at + 3] := bytes[0], bytes[1], bytes[2], bytes[3];
  }

  /** Reads a text into the emulator's memory. */
  method ReadIntoMemory(text: string, memory: array<Byte>) returns (ok: bool)
    modifies memory
    ensures ok == Outcome(old(memory[..]), Parse(text)).Some?
    ensures ok ==> memory[..] == Outcome(old(memory[..]), Parse(text)).value.mem
  {
    var scanner := new HexScanner(text);
    var address: nat := 0;
    ghost var events: seq<Event>, was := [], memory[..];
    NoneThen([], Parse(text));
    while !scanner.done
      invariant scanner.Valid() && Parse(text) == Then(events, scanner.Meaning())
      invariant StoreAll(Loaded(was, 0), events) == Some(Loaded(memory[..], address))
      decreases scanner.Left()
    {
      var failed, event := scanner.Turn();
      if failed {
        return false;
      }
      if event.Some? {
        ThenThen(events, [event.value], scanner.Meaning());
        StoreNext(Loaded(was, 0), events, event.value);
        ghost var now := Loaded(memory[..], address);
        events := events + [event.value];
        var stored;
        stored, address := Take(memory, address, event.value);
        if !stored {
          if Parse(text).Some? {
            StoreStuck(Loaded(was, 0), events, scanner.Meaning().value);
          }
          return false;
        }
      } else {
        NoneThen([], scanner.Meaning());
      }
    }
    assert events + [] == events;
    ok := true;
  }

  /** Acts on one event if it stays in memory. */
  method Take(memory: array<Byte>, address: nat, event: Event) returns (ok: bool, next: nat)
    modifies memory
    ensures StoreOne(Loaded(old(memory[..]), address), event) == if ok then Some(Loaded(memory[..], next)) else None
  {
    next := address;
    match event {
      case At(a) =>
        ok := 4 * a < memory.Length;
        if ok {
          next := a;
        }
      case Store(v) =>
        ok := 4 * address + 4 <= memory.Length;
        if ok {
          StoreWord(memory, address, v);
          next := address + 1;
        }
    }
  }

  // ------------------------------------------------------------------- loader

  const MIN_SEGMENT_ALLOC := 1024

  /** Bitwise and. */
  function And(a: nat, b: nat): nat {
    if a == 0 || b == 0 then 0 else 2 * And(a / 2, b / 2) + (if a % 2 == 1 && b % 2 == 1 then 1 else 0)
  }

  ghost predicate IsPow2(n: nat) {
    exists k: nat :: n == Pow2(k)
  }

  lemma {:induction false} AndSelf(n: nat)
    ensures And(n, n) == n
  {
    if n > 0 {
      AndSelf(n / 2);
      assert n % 2 == 0 || n % 2 == 1;
      assert n == 2 * (n / 2) + n % 2;
    }
  }

  lemma {:induction false} PowerEven(k: nat)
    ensures Pow2(k) == 1 || Pow2(k) % 2 == 0
  {
  }

  lemma HalfPower(n: nat)
    requires n > 0 && n % 2 == 0
    ensures IsPow2(n / 2) <==> IsPow2(n)
  {
    if k: nat :| n / 2 == Pow2(k) {
      assert n == Pow2(k + 1);
    }
    if k: nat :| n == Pow2(k) {
      assert n / 2 == Pow2(k - 1);
    }
  }

  /** The bit trick tells the powers of two. */
  lemma {:induction false} PowerTest(n: nat)
    requires n > 0
    ensures And(n, n - 1) == 0 <==> IsPow2(n)
  {
    if n == 1 {
      assert 1 == Pow2(0);
    } else if n % 2 == 0 {
      PowerTest(n / 2);
      HalfPower(n);
      assert (n - 1) / 2 == n / 2 - 1;
    } else {
      AndSelf(n / 2);
      assert (n - 1) / 2 == n / 2;
      forall k: nat ensures n != Pow2(k) {
        PowerEven(k);
      }
    }
  }

  lemma {:induction false} PowersApart(j: nat, k: nat)
    requires j < k
    ensures 2 * Pow2(j) <= Pow2(k)
    decreases k
  {
    if j + 1 < k {
      PowersApart(j, k - 1);
    }
  }

  /** How much room a segment of a length has got. */
  ghost predicate RoomFor(length: nat, room: nat) {
    && length % 4 == 0
    && if length == 0 then room == 0
       else IsPow2(room) && MIN_SEGMENT_ALLOC <= room && length <= room && (room == MIN_SEGMENT_ALLOC || length > room / 2)
  }

  predicate Reallocates(length: nat) {
    length == 0 || length == MIN_SEGMENT_ALLOC || And(length, length - 1) == 0
  }

  function NewSize(length: nat): nat {
    if length < MIN_SEGMENT_ALLOC then MIN_SEGMENT_ALLOC else length * 2
  }

  lemma Pow1024()
    ensures Pow2(10) == MIN_SEGMENT_ALLOC
  {
    assert Pow2(5) == 32;
  }

  lemma {:induction false} PowerOfFour(k: nat)
    ensures Pow2(k) >= 4 ==> Pow2(k) % 4 == 0
  {
    if k >= 2 {
      assert Pow2(k) == 2 * (2 * Pow2(k - 2));
    }
  }

  /** There is always room for one more word, as the room is grown in time and never made smaller. */
  lemma RoomGrows(length: nat, room: nat)
    requires RoomFor(length, room)
    ensures var grown := if Reallocates(length) then NewSize(length) else room;
            RoomFor(length + 4, grown) && length + 4 <= grown && room <= grown
  {
    Pow1024();
    if length > 0 {
      var k: nat :| room == Pow2(k);
      PowerOfFour(k);
      PowerTest(length);
      if length == room {
        assert NewSize(length) == Pow2(k + 1);
      } else if length < MIN_SEGMENT_ALLOC {
        if k > 10 {
          PowersApart(10, k);
        }
      } else {
        NoPowerBetween(length, k);
      }
    }
  }

  lemma NoPowerBetween(n: nat, k: nat)
    requires Pow2(k) / 2 < n < Pow2(k)
    ensures !IsPow2(n)
  {
    forall j: nat ensures n != Pow2(j) {
      if j < k {
        PowersApart(j, k);
      } else if k < j {
        PowersApart(k, j);
      }
    }
  }

  class SegmentBuffer {
    var address: Word
    var data: array<Byte>
    var length: nat

    ghost predicate Valid()
      reads this
    {
      RoomFor(length, data.Length)
    }

    ghost function Contents(): seq<Byte>
      requires Valid()
      reads this, data
    {
      if length == 0 then [] else data[..length]
    }

    constructor (a: Word)
      ensures Valid() && Contents() == [] && address == a && length == 0 && fresh(data)
    {
      address, length := a, 0;
      data := new Byte[0];
    }

    /** A larger array with the old contents. */
    method Reallocate(newSize: nat)
      requires Valid() && data.Length <= newSize
      modifies this`data
      ensures fresh(data) && data.Length == newSize && length <= newSize && data[..length] == old(Contents())
    {
      var before := data;
      data := new Byte[newSize](i reads before => if 0 <= i < before.Length then before[i] else 0);
    }

    /** Adds a word, highest byte first. */
    method AppendToSegment(value: Word)
      requires Valid()
      modifies this`data, this`length, data
      ensures Valid() && Contents() == old(Contents()) + BigEndian(value) && length == old(length) + 4
      ensures data == old(data) || fresh(data)
    {
      RoomGrows(length, data.Length);
      ghost var was := Contents();
      if Reallocates(length) {
        Reallocate(NewSize(length));
      }
      assert data[..length] == was;
      PutBytes(BigEndian(value));
    }

    method PutBytes(bytes: seq<Byte>)
      requires |bytes| == 4 && length + 4 <= data.Length
      modifies data, this`length
      ensures length == old(length) + 4 && data[..length] == old(data[..length]) + bytes
    {
      data[length] := bytes[0];
      data[length + 1] := bytes[1];
      data[length + 2] := bytes[2];
      data[length + 3] := bytes[3];
      length := length + 4;
    }
  }

  lemma SegmentsNext(events: seq<Event>, e: Event)
    ensures SegmentsOf(events + [e]) == Extend(SegmentsOf(events), e)
  {
    assert (events + [e])[..|events|] == events;
  }

  /** Acts on one event: a word goes to the current segment, and an address begins a new one unless
      the current one is still empty. */
  method TakeEvent(finished: seq<Segment>, current: SegmentBuffer, event: Event)
      returns (segments: seq<Segment>, next: SegmentBuffer)
    requires current.Valid()
    modifies current, current.data
    ensures next.Valid() && (next == current || fresh(next)) && (next.data == old(current.data) || fresh(next.data))
    ensures segments + [Segment(next.address, next.Contents())] ==
            Extend(finished + [Segment(old(current.address), old(current.Contents()))], event)
  {
    segments, next := finished, current;
    match event {
      case Store(v) =>
        current.AppendToSegment(v);
      case At(a) =>
        if current.length > 0 {
          segments := finished + [Segment(current.address, current.data[..current.length])];
          next := new SegmentBuffer(a * 4 % WORDS);
        } else {
          current.address := a * 4 % WORDS;
        }
    }
  }

  /** Reads a text into segments. */
  method ReadSegments(text: string) returns (ok: bool, segments: seq<Segment>)
    ensures ok == Parse(text).Some?
    ensures ok ==> segments == SegmentsOf(Parse(text).value)
  {
    var scanner := new HexScanner(text);
    var current := new SegmentBuffer(0);
    var finished: seq<Segment> := [];
    ghost var events: seq<Event> := [];
    NoneThen([], Parse(text));
    while !scanner.done
      invariant scanner.Valid() && Parse(text) == Then(events, scanner.Meaning())
      invariant current.Valid() && fresh(current) && fresh(current.data) && fresh(scanner)
      invariant SegmentsOf(events) == finished + [Segment(current.address, current.Contents())]
      decreases scanner.Left()
    {
      var failed, event := scanner.Turn();
      if failed {
        return false, [];
      }
      if event.Some? {
        ThenThen(events, [event.value], scanner.Meaning());
        SegmentsNext(events, event.value);
        events := events + [event.value];
        finished, current := TakeEvent(finished, current, event.value);
      } else {
        NoneThen([], scanner.Meaning());
      }
    }
    assert events + [] == events;
    ok := true;
    segments := finished + [Segment(current.address, if current.length == 0 then [] else current.data[..current.length])];
  }

  // ------------------------------------------------------------------ printer

  lemma LineAdded(out: string, line: string, rest: string)
    ensures out + (line + "\n" + rest) == out + line + "\n" + rest
  {
  }

  /** Prints a line for every four bytes that can be read. */
  method PrintImage(bytes: seq<Byte>) returns (out: string)
    ensures out == Printer.Print(bytes)
  {
    out := "";
    var position := 0;
    while position < |bytes|
      invariant position <= |bytes| && Printer.Print(bytes) == out + Printer.Print(bytes[position..])
    {
      var word := if |bytes| - position < 4 then bytes[position..] else bytes[position..position + 4];
      var rest := bytes[position..];
      assert word == Printer.FirstWord(rest);
      assert rest[|word|..] == bytes[position + |word|..];
      LineAdded(out, Printer.Hexlify(word), Printer.Print(bytes[position + |word|..]));
      out := out + Printer.Hexlify(word) + "\n";
      position := position + |word|;
    }
  }
}
