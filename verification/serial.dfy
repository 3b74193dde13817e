/** The protocol between the serial loader and the boot ROM: its checksum, its numbers, and what a
    command does to the target's memory. */
module Serial {
  import opened Arithmetic
  import opened Words

  const LOAD_MEMORY_REQ: Byte := 0xc0
  const LOAD_MEMORY_ACK: Byte := 0xc1
  const EXECUTE_REQ: Byte := 0xc2
  const EXECUTE_ACK: Byte := 0xc3
  const PING_REQ: Byte := 0xc4
  const PING_ACK: Byte := 0xc5
  const CLEAR_MEMORY_REQ: Byte := 0xc6
  const CLEAR_MEMORY_ACK: Byte := 0xc7
  const BAD_COMMAND: Byte := 0xc8

  const FNV_START := 2166136261
  const FNV_PRIME := 16777619
  /** `FNV_PRIME * FNV_INVERSE` is one more than `FNV_CARRY` times `WORDS`. */
  const FNV_INVERSE := 899433627
  const FNV_CARRY := 3513497

  // ---------------------------------------------------------------- checksum

  /** Exclusive or, bit by bit. */
  function Xor(a: nat, b: nat): nat
    decreases a + b
  {
    if a == 0 && b == 0 then 0 else 2 * Xor(a / 2, b / 2) + (a + b) % 2
  }

  function Pow2(n: nat): nat {
    if n == 0 then 1 else 2 * Pow2(n - 1)
  }

  lemma {:induction false} XorBound(a: nat, b: nat, n: nat)
    requires a < Pow2(n) && b < Pow2(n)
    ensures Xor(a, b) < Pow2(n)
    decreases n
  {
    if n > 0 && (a > 0 || b > 0) {
      XorBound(a / 2, b / 2, n - 1);
    }
  }

  lemma {:induction false} XorCommutes(a: nat, b: nat)
    ensures Xor(a, b) == Xor(b, a)
    decreases a + b
  {
    if a > 0 || b > 0 {
      XorCommutes(a / 2, b / 2);
    }
  }

  lemma {:induction false} XorInjective(a: nat, b: nat, c: nat)
    requires Xor(a, b) == Xor(a, c)
    ensures b == c
    decreases a + b + c
  {
    if a > 0 || b > 0 || c > 0 {
      XorZero(a, b);
      XorZero(a, c);
      TwiceAndBit(Xor(a / 2, b / 2), (a + b) % 2, Xor(a / 2, c / 2), (a + c) % 2);
      XorInjective(a / 2, b / 2, c / 2);
      SameParity(a, b, c);
    }
  }

  lemma TwiceAndBit(x: nat, p: nat, y: nat, q: nat)
    requires 2 * x + p == 2 * y + q && p < 2 && q < 2
    ensures x == y && p == q
  {
  }

  lemma SameParity(a: nat, b: nat, c: nat)
    requires (a + b) % 2 == (a + c) % 2 && b / 2 == c / 2
    ensures b == c
  {
    assert a + b == a + c + (b % 2 - c % 2);
  }

  lemma {:induction false} XorZero(a: nat, b: nat)
    ensures Xor(a, b) == 2 * Xor(a / 2, b / 2) + (a + b) % 2
  {
  }

  lemma XorHalves(x: nat, p: nat, b: nat)
    requires p < 2
    ensures Xor(2 * x + p, b) == 2 * Xor(x, b / 2) + (p + b) % 2
  {
    XorZero(2 * x + p, b);
  }

  lemma ParityUndone(a: nat, b: nat)
    ensures ((a + b) % 2 + b) % 2 == a % 2
  {
  }

  /** Exclusive or undoes itself. */
  lemma {:induction false} XorUndone(a: nat, b: nat)
    ensures Xor(Xor(a, b), b) == a
    decreases a + b
  {
    if a > 0 || b > 0 {
      XorUndone(a / 2, b / 2);
      XorHalves(Xor(a / 2, b / 2), (a + b) % 2, b);
      ParityUndone(a, b);
    }
  }

  lemma Pow32()
    ensures Pow2(32) == WORDS
  {
    assert Pow2(8) == 256;
    assert Pow2(16) == 65536 by {
      assert Pow2(12) == 4096;
    }
    assert Pow2(24) == 0x100_0000 by {
      assert Pow2(20) == 0x10_0000;
    }
    assert Pow2(28) == 0x1000_0000;
  }

  lemma XorWord(h: Word, b: Byte)
    ensures Xor(h, b) < WORDS
  {
    Pow32();
    XorBound(h, b, 32);
  }

  function Mix(h: Word, b: Byte): Word {
    Xor(h, b) * FNV_PRIME % WORDS
  }

  function Hash(h: Word, data: seq<Byte>): Word
    decreases |data|
  {
    if data == [] then h else Mix(Hash(h, data[..|data| - 1]), data[|data| - 1])
  }

  function Checksum(data: seq<Byte>): Word {
    Hash(FNV_START, data)
  }

  lemma {:induction false} XorNothing(a: nat)
    ensures Xor(a, 0) == a
    decreases a
  {
    if a > 0 {
      XorNothing(a / 2);
    }
  }

  lemma XorTwo(q: nat, start: nat)
    requires start == 4 * q + 1
    ensures Xor(start, 2) == start + 2 && Xor(start, 0) == start
  {
    XorNothing(q);
    XorNothing(start);
    assert Xor(2 * q, 1) == 2 * Xor(q, 0) + 1;
  }

  /** The checksum is the 32 bit FNV-1a hash: its value of no byte, of a zero, and of a two, which
      tells it from the variant that multiplies first. */
  lemma KnownChecksums(start: Word)
    requires start == 0x811c9dc5
    ensures Hash(start, []) == Checksum([]) == start
    ensures Checksum([0]) == start * 0x0100_0193 % WORDS && Checksum([2]) == (start + 2) * 0x0100_0193 % WORDS
  {
    XorTwo(0x20472771, start);
    assert [0][..0] == [] && [2][..0] == [];
    assert Hash(start, [0]) == Mix(start, 0) && Hash(start, [2]) == Mix(start, 2);
  }

  /** Multiplying by an odd number loses nothing modulo a power of two. */
  lemma TimesPrimeInjective(x: Word, y: Word)
    requires x * FNV_PRIME % WORDS == y * FNV_PRIME % WORDS
    ensures x == y
  {
    PrimeUndone(x);
    PrimeUndone(y);
  }

  lemma PrimeUndone(x: Word)
    ensures x * FNV_PRIME % WORDS * FNV_INVERSE % WORDS == x
  {
    var q, r := x * FNV_PRIME / WORDS, x * FNV_PRIME % WORDS;
    assert x * FNV_PRIME == WORDS * q + r;
    assert FNV_PRIME * FNV_INVERSE == WORDS * FNV_CARRY + 1;
    var k := x * FNV_CARRY - q * FNV_INVERSE;
    assert r * FNV_INVERSE == WORDS * k + x;
    DivMod(k, WORDS, x);
  }

  lemma MixInjective(h: Word, g: Word, b: Byte, c: Byte)
    requires Mix(h, b) == Mix(g, c)
    ensures h == g <==> b == c
  {
    XorWord(h, b);
    XorWord(g, c);
    TimesPrimeInjective(Xor(h, b), Xor(g, c));
    if h == g {
      XorInjective(h, b, c);
    }
    if b == c {
      XorCommutes(h, b);
      XorCommutes(g, c);
      XorInjective(b, h, g);
    }
  }

  /** Blocks of the same length that differ in exactly one byte have different checksums. */
  lemma {:induction false} OneByteSeparates(h: Word, data: seq<Byte>, i: nat, b: Byte)
    requires i < |data| && b != data[i]
    ensures Hash(h, data[i := b]) != Hash(h, data)
    decreases |data|
  {
    var n := |data| - 1;
    var changed := data[i := b];
    if i == n {
      assert changed[..n] == data[..n];
      if Hash(h, changed) == Hash(h, data) {
        MixInjective(Hash(h, data[..n]), Hash(h, data[..n]), b, data[n]);
      }
    } else {
      assert changed[..n] == data[..n][i := b];
      OneByteSeparates(h, data[..n], i, b);
      if Hash(h, changed) == Hash(h, data) {
        MixInjective(Hash(h, changed[..n]), Hash(h, data[..n]), data[n], data[n]);
      }
    }
  }

  // ---------------------------------------------------------------- commands

  function Patched(mem: seq<Byte>, a: nat, data: seq<Byte>): seq<Byte>
    requires a + |data| <= |mem|
  {
    mem[..a] + data + mem[a + |data|..]
  }

  function Filled(length: nat): seq<Byte> {
    seq(length, _ => 0)
  }

  function LoadMessage(a: Word, data: seq<Byte>): seq<Byte>
    requires |data| < WORDS
  {
    [LOAD_MEMORY_REQ] + Long(a) + Long(|data|) + data
  }

  function ClearMessage(a: Word, length: Word): seq<Byte> {
    [CLEAR_MEMORY_REQ] + Long(a) + Long(length)
  }

  /** The bytes so far make up a whole command, and one that stays in memory. */
  predicate Complete(rx: seq<Byte>, size: nat) {
    && rx != []
    && (rx[0] == LOAD_MEMORY_REQ || rx[0] == CLEAR_MEMORY_REQ ==>
          |rx| >= 9 && FromLong(rx[1..5]) + FromLong(rx[5..9]) <= size)
    && (rx[0] == LOAD_MEMORY_REQ ==> |rx| - 9 >= FromLong(rx[5..9]))
  }

  /** What is left in memory, what is left to read, and what is sent back. */
  datatype Served = Served(mem: seq<Byte>, rest: seq<Byte>, reply: seq<Byte>)

  function Serve(mem: seq<Byte>, rx: seq<Byte>): Served
    requires Complete(rx, |mem|)
  {
    if rx[0] == LOAD_MEMORY_REQ then
      var a, n := FromLong(rx[1..5]), FromLong(rx[5..9]);
      Served(Patched(mem, a, rx[9..9 + n]), rx[9 + n..], [LOAD_MEMORY_ACK] + Long(Checksum(rx[9..9 + n])))
    else if rx[0] == CLEAR_MEMORY_REQ then
      Served(Patched(mem, FromLong(rx[1..5]), Filled(FromLong(rx[5..9]))), rx[9..], [CLEAR_MEMORY_ACK])
    else if rx[0] == EXECUTE_REQ then Served(mem, rx[1..], [EXECUTE_ACK])
    else if rx[0] == PING_REQ then Served(mem, rx[1..], [PING_ACK])
    else Served(mem, rx[1..], [BAD_COMMAND])
  }

  /** The target takes a load message for what the host meant by it, whatever follows. */
  lemma LoadServed(mem: seq<Byte>, a: Word, data: seq<Byte>, rest: seq<Byte>)
    requires a + |data| <= |mem| && |data| < WORDS
    ensures Complete(LoadMessage(a, data) + rest, |mem|)
    ensures Serve(mem, LoadMessage(a, data) + rest) ==
            Served(Patched(mem, a, data), rest, [LOAD_MEMORY_ACK] + Long(Checksum(data)))
  {
    var rx := LoadMessage(a, data) + rest;
    assert rx[1..5] == Long(a) && rx[5..9] == Long(|data|);
    LongRoundTrip(a);
    LongRoundTrip(|data|);
    assert rx[9..9 + |data|] == data && rx[9 + |data|..] == rest;
  }

  lemma ClearServed(mem: seq<Byte>, a: Word, length: Word, rest: seq<Byte>)
    requires a + length <= |mem|
    ensures Complete(ClearMessage(a, length) + rest, |mem|)
    ensures Serve(mem, ClearMessage(a, length) + rest) == Served(Patched(mem, a, Filled(length)), rest, [CLEAR_MEMORY_ACK])
  {
    var rx := ClearMessage(a, length) + rest;
    assert rx[1..5] == Long(a) && rx[5..9] == Long(length);
    LongRoundTrip(a);
    LongRoundTrip(length);
    assert rx[9..] == rest;
  }

  /** Any other byte is a command by itself: it is answered in one byte, leaves memory alone, and
      takes nothing of what follows. */
  lemma OtherServed(mem: seq<Byte>, request: Byte, rest: seq<Byte>)
    requires request != 0xc0 && request != 0xc6
    ensures Complete([request] + rest, |mem|)
    ensures var s := Serve(mem, [request] + rest);
            && s.mem == mem && s.rest == rest && |s.reply| == 1
            && (request == 0xc2 <==> s.reply == [0xc3]) && (request == 0xc4 <==> s.reply == [0xc5])
            && (request != 0xc2 && request != 0xc4 ==> s.reply == [0xc8])
  {
    assert ([request] + rest)[1..] == rest;
  }

  /** What a write at `b` leaves at `a` is the data: where the two stretches overlap the data
      repeats itself, and elsewhere it was in memory already. */
  predicate LandsRight(mem: seq<Byte>, a: nat, b: nat, data: seq<Byte>)
    requires a + |data| <= |mem|
  {
    forall i :: 0 <= i < |data| ==> data[i] == if b <= a + i < b + |data| then data[a + i - b] else mem[a + i]
  }

  lemma PatchedAt(mem: seq<Byte>, a: nat, data: seq<Byte>)
    requires a + |data| <= |mem|
    ensures |Patched(mem, a, data)| == |mem|
    ensures forall i :: 0 <= i < |mem| ==> Patched(mem, a, data)[i] == if a <= i < a + |data| then data[i - a] else mem[i]
  {
  }

  /** Byte by byte, a load changes what it names to the data and a clear to zero; nothing else. */
  lemma ServedBytes(mem: seq<Byte>, a: Word, data: seq<Byte>, rest: seq<Byte>, i: nat)
    requires a + |data| <= |mem| && |data| < WORDS && i < |mem|
    ensures Complete(LoadMessage(a, data) + rest, |mem|) && Complete(ClearMessage(a, |data|) + rest, |mem|)
    ensures var loaded, cleared := Serve(mem, LoadMessage(a, data) + rest).mem, Serve(mem, ClearMessage(a, |data|) + rest).mem;
            && |loaded| == |cleared| == |mem|
            && (a <= i < a + |data| ==> loaded[i] == data[i - a] && cleared[i] == 0)
            && (i < a || i >= a + |data| ==> loaded[i] == mem[i] && cleared[i] == mem[i])
  {
    LoadServed(mem, a, data, rest);
    ClearServed(mem, a, |data|, rest);
    PatchedAt(mem, a, data);
    PatchedAt(mem, a, Filled(|data|));
  }

  lemma LandedAt(mem: seq<Byte>, a: nat, b: nat, data: seq<Byte>, i: nat)
    requires a + |data| <= |mem| && b + |data| <= |mem| && i < |data|
    ensures |Patched(mem, b, data)| == |mem|
    ensures Patched(mem, b, data)[a..a + |data|][i] == if b <= a + i < b + |data| then data[a + i - b] else mem[a + i]
  {
  }

  lemma SameBytes(mem: seq<Byte>, a: nat, b: nat, data: seq<Byte>, got: seq<Byte>)
    requires a + |data| <= |mem| && |got| == |data|
    requires forall i :: 0 <= i < |data| ==> got[i] == if b <= a + i < b + |data| then data[a + i - b] else mem[a + i]
    ensures got == data <==> LandsRight(mem, a, b, data)
  {
  }

  lemma LandsRightExactly(mem: seq<Byte>, a: nat, b: nat, data: seq<Byte>)
    requires a + |data| <= |mem| && b + |data| <= |mem|
    ensures |Patched(mem, b, data)| == |mem|
    ensures Patched(mem, b, data)[a..a + |data|] == data <==> LandsRight(mem, a, b, data)
  {
    var got := Patched(mem, b, data)[a..a + |data|];
    forall i | 0 <= i < |data| ensures got[i] == if b <= a + i < b + |data| then data[a + i - b] else mem[a + i] {
      LandedAt(mem, a, b, data, i);
    }
    SameBytes(mem, a, b, data, got);
  }

  /** Writing at `b` is writing at `a` exactly if either place then holds the data. */
  lemma SameWriteExactly(mem: seq<Byte>, a: nat, b: nat, data: seq<Byte>)
    requires a + |data| <= |mem| && b + |data| <= |mem|
    ensures Patched(mem, b, data) == Patched(mem, a, data) <==> LandsRight(mem, a, b, data) && LandsRight(mem, b, a, data)
  {
    var m, want := Patched(mem, b, data), Patched(mem, a, data);
    PatchedAt(mem, a, data);
    PatchedAt(mem, b, data);
    LandsRightExactly(mem, a, b, data);
    LandsRightExactly(mem, b, a, data);
    if LandsRight(mem, a, b, data) && LandsRight(mem, b, a, data) {
      forall i | 0 <= i < |mem| ensures m[i] == want[i] {
        if a <= i < a + |data| {
          assert m[a..a + |data|][i - a] == m[i];
        } else if b <= i < b + |data| {
          assert want[b..b + |data|][i - b] == want[i];
        }
      }
    }
  }

  /** The checksum does not cover the address. A load whose address arrives as `b` is answered as
      if nothing had happened. The block is then in its place exactly if the write at `b` leaves
      the data there, and memory is as it was meant to be exactly if both places hold the data. */
  lemma AddressUnchecked(mem: seq<Byte>, a: Word, b: Word, data: seq<Byte>)
    requires a + |data| <= |mem| && b + |data| <= |mem| && |data| < WORDS
    ensures Complete(LoadMessage(a, data) + [], |mem|) && Complete(LoadMessage(b, data) + [], |mem|)
    ensures var meant, done := Serve(mem, LoadMessage(a, data) + []), Serve(mem, LoadMessage(b, data) + []);
            && done.reply == meant.reply && |done.mem| == |mem|
            && (done.mem[a..a + |data|] == data <==> LandsRight(mem, a, b, data))
            && (done.mem == meant.mem <==> LandsRight(mem, a, b, data) && LandsRight(mem, b, a, data))
  {
    LoadServed(mem, a, data, []);
    LoadServed(mem, b, data, []);
    LandsRightExactly(mem, a, b, data);
    SameWriteExactly(mem, a, b, data);
  }

  // -------------------------------------------------------------------- link

  /** What the line does to one command: a payload byte may arrive changed, the block may be moved
      to another address, the reply may come too late to be heard, and after a failure the
      connection may or may not be fixed. */
  datatype Outcome =
    Outcome(damages: bool, place: nat, byte: Byte, moves: bool, address: Word, heard: bool, fixed: bool)

  /** Where a block is written. */
  function PlaceOf(o: Outcome, address: Word): Word {
    if o.moves then o.address else address
  }

  function Arrives(o: Outcome, data: seq<Byte>): seq<Byte> {
    if o.damages && o.place < |data| then data[o.place := o.byte] else data
  }

  predicate IsZero(data: seq<Byte>) {
    forall i :: 0 <= i < |data| ==> data[i] == 0
  }

  const BLOCK_SIZE := 1024

  function Slice(data: seq<Byte>, offset: nat): (slice: seq<Byte>)
    requires offset <= |data|
    ensures |slice| <= BLOCK_SIZE && offset + |slice| <= |data|
  {
    if |data| - offset > BLOCK_SIZE then data[offset..offset + BLOCK_SIZE] else data[offset..]
  }

  /** A block whose checksum comes back right has arrived right. */
  lemma ChecksumTells(o: Outcome, data: seq<Byte>)
    ensures Checksum(Arrives(o, data)) == Checksum(data) <==> Arrives(o, data) == data
  {
    if o.damages && o.place < |data| && o.byte != data[o.place] {
      OneByteSeparates(FNV_START, data, o.place, o.byte);
    }
  }

  /** What of a block is written. A block of zeroes is not sent but cleared. */
  function Sent(o: Outcome, slice: seq<Byte>): (sent: seq<Byte>)
    ensures |sent| == |slice|
  {
    if IsZero(slice) then slice else Arrives(o, slice)
  }

  /** A block of zeroes has no bytes to damage, and only the answer can get lost. */
  predicate Copies(o: Outcome, slice: seq<Byte>) {
    o.heard && (IsZero(slice) || Arrives(o, slice) == slice)
  }

  /** The loader goes on: the block was copied, or loading it failed and can be tried again. */
  predicate GoesOn(o: Outcome, slice: seq<Byte>) {
    Copies(o, slice) || (!IsZero(slice) && o.fixed)
  }

  /** Whether the loader gets through with what the line does. */
  function Succeeds(data: seq<Byte>, offset: nat, line: seq<Outcome>): bool
    requires offset <= |data|
    decreases |line|
  {
    if offset == |data| then true
    else if line == [] then false
    else
      var slice := Slice(data, offset);
      && GoesOn(line[0], slice)
      && Succeeds(data, if Copies(line[0], slice) then offset + |slice| else offset, line[1..])
  }

  /** Blocks that are moved stay in memory. */
  predicate InMemory(o: Outcome, size: nat) {
    o.moves ==> o.address + BLOCK_SIZE <= size
  }

  /** Memory when the loader is through or gives up. */
  function Landed(mem: seq<Byte>, address: Word, data: seq<Byte>, offset: nat, line: seq<Outcome>): (m: seq<Byte>)
    requires offset <= |data| && address + |data| <= |mem| <= WORDS
    requires forall i :: 0 <= i < |line| ==> InMemory(line[i], |mem|)
    ensures |m| == |mem|
    decreases |line|
  {
    if offset == |data| || line == [] then mem
    else
      var slice := Slice(data, offset);
      assert InMemory(line[0], |mem|);
      var m := Patched(mem, PlaceOf(line[0], address + offset), Sent(line[0], slice));
      if GoesOn(line[0], slice) then Landed(m, address, data, if Copies(line[0], slice) then offset + |slice| else offset, line[1..])
      else m
  }

  lemma LandedStep(mem: seq<Byte>, address: Word, data: seq<Byte>, offset: nat, line: seq<Outcome>, next: seq<Byte>)
    requires offset < |data| && line != [] && address + |data| <= |mem| <= WORDS
    requires forall i :: 0 <= i < |line| ==> InMemory(line[i], |mem|)
    requires InMemory(line[0], |mem|)
    requires next == Patched(mem, PlaceOf(line[0], address + offset), Sent(line[0], Slice(data, offset)))
    ensures var slice := Slice(data, offset);
            var after := if Copies(line[0], slice) then offset + |slice| else offset;
            && |next| == |mem| && (forall i :: 0 <= i < |line[1..]| ==> InMemory(line[1..][i], |mem|))
            && Succeeds(data, offset, line) == (GoesOn(line[0], slice) && Succeeds(data, after, line[1..]))
            && Landed(mem, address, data, offset, line) ==
               if GoesOn(line[0], slice) then Landed(next, address, data, after, line[1..]) else next
  {
    assert forall i :: 0 <= i < |line[1..]| ==> line[1..][i] == line[i + 1];
  }

  /** The first `offset` bytes of the data are in memory, and nothing outside the segment has
      changed. */
  ghost predicate Progress(was: seq<Byte>, now: seq<Byte>, a: nat, data: seq<Byte>, offset: nat)
    requires offset <= |data|
  {
    && |now| == |was|
    && (forall i :: 0 <= i < |was| && a <= i < a + offset ==> now[i] == data[i - a])
    && (forall i :: 0 <= i < |was| && !(a <= i < a + |data|) ==> now[i] == was[i])
  }

  lemma NextProgress(start: seq<Byte>, was: seq<Byte>, a: Word, data: seq<Byte>, offset: nat, o: Outcome)
    requires offset < |data| && a + |data| <= |start| <= WORDS && Progress(start, was, a, data, offset) && !o.moves
    ensures var slice := Slice(data, offset);
            var now := Patched(was, a + offset, Sent(o, slice));
            && Progress(start, now, a, data, if Copies(o, slice) then offset + |slice| else offset)
            && Progress(start, now, a, data, 0)
  {
    PatchedAt(was, a + offset, Sent(o, Slice(data, offset)));
  }

  /** If no block is moved, success means that memory holds the data; and nothing outside the
      segment changes in any case. */
  lemma {:induction false} SegmentArrives(start: seq<Byte>, mem: seq<Byte>, a: Word, data: seq<Byte>, offset: nat, line: seq<Outcome>)
    requires offset <= |data| && a + |data| <= |start| <= WORDS && Progress(start, mem, a, data, offset)
    requires forall i :: 0 <= i < |line| ==> !line[i].moves
    ensures Progress(start, Landed(mem, a, data, offset, line), a, data, if Succeeds(data, offset, line) then |data| else 0)
    decreases |line|
  {
    if offset < |data| && line != [] {
      var slice := Slice(data, offset);
      NextProgress(start, mem, a, data, offset, line[0]);
      if GoesOn(line[0], slice) {
        SegmentArrives(start, Patched(mem, a + offset, Sent(line[0], slice)), a, data,
                       if Copies(line[0], slice) then offset + |slice| else offset, line[1..]);
      }
    }
  }

  /** A segment of one block that is moved: the loader succeeds as if it had not been, and the
      data is in place exactly if the write elsewhere leaves it there. */
  lemma MovedUnnoticed(mem: seq<Byte>, a: Word, data: seq<Byte>, o: Outcome)
    requires 0 < |data| <= BLOCK_SIZE && a + |data| <= |mem| <= WORDS && InMemory(o, |mem|)
    ensures Succeeds(data, 0, [o]) <==> Copies(o, data)
    ensures Copies(o, data) ==>
              (Landed(mem, a, data, 0, [o])[a..a + |data|] == data <==> LandsRight(mem, a, PlaceOf(o, a), data))
  {
    assert data[0..] == data && [o][1..] == [];
    LandsRightExactly(mem, a, PlaceOf(o, a), data);
  }

  function Blocks(length: nat): nat {
    (length + BLOCK_SIZE - 1) / BLOCK_SIZE
  }

  function Undamaged(line: seq<Outcome>): nat {
    if line == [] then 0 else (if line[0].damages then 0 else 1) + Undamaged(line[1..])
  }

  /** However many blocks arrive damaged, a line that is heard and can be fixed gets the segment
      through once it lets enough blocks pass. */
  lemma {:induction false} RetriesGetThrough(data: seq<Byte>, offset: nat, line: seq<Outcome>)
    requires offset <= |data| && Undamaged(line) >= Blocks(|data| - offset)
    requires forall i :: 0 <= i < |line| ==> line[i].heard && line[i].fixed
    ensures Succeeds(data, offset, line)
    decreases |line|
  {
    if offset < |data| {
      assert Blocks(|data| - offset) > 0;
      var slice := Slice(data, offset);
      assert Blocks(|data| - offset) <= Blocks(|data| - (offset + |slice|)) + 1;
      assert Blocks(|data| - (offset + |slice|)) <= Blocks(|data| - offset) - 1;
      assert offset + |slice| <= |data|;
      RestGetsThrough(data, offset, line);
    }
  }

  lemma RestGetsThrough(data: seq<Byte>, offset: nat, line: seq<Outcome>)
    requires offset < |data| && Undamaged(line) >= Blocks(|data| - offset) > Blocks(|data| - (offset + |Slice(data, offset)|))
    requires forall i :: 0 <= i < |line| ==> line[i].heard && line[i].fixed
    ensures Succeeds(data, offset, line)
    decreases |line|, 0
  {
    var slice, o := Slice(data, offset), line[0];
    if IsZero(slice) || Arrives(o, slice) == slice {
      RetriesGetThrough(data, offset + |slice|, line[1..]);
    } else {
      RetriesGetThrough(data, offset, line[1..]);
    }
  }
}
