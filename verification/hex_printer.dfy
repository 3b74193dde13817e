/** The printer of memory images, and that both readers undo it. */
module HexPrinter {
  import opened Words
  import opened Wrappers
  import opened HexFormat

  function HexChar(d: nat): (c: char)
    requires d < 16
    ensures IsHexDigit(c) && HexDigitVal(c) == d
  {
    "0123456789abcdef"[d]
  }

  function Hexlify(bytes: seq<Byte>): string {
    if bytes == [] then "" else [HexChar(bytes[0] / 16), HexChar(bytes[0] % 16)] + Hexlify(bytes[1..])
  }

  function FirstWord(bytes: seq<Byte>): seq<Byte> {
    if |bytes| < 4 then bytes else bytes[..4]
  }

  /** A line for every four bytes; the last may be short. */
  function Print(bytes: seq<Byte>): string {
    if bytes == [] then "" else Hexlify(FirstWord(bytes)) + "\n" + Print(bytes[|FirstWord(bytes)|..])
  }

  // -------------------------------------------------------------- the layout

  lemma {:induction false} DigitsOfByte(bytes: seq<Byte>, j: nat)
    requires j < |bytes|
    ensures |Hexlify(bytes)| == 2 * |bytes|
    ensures Hexlify(bytes)[2 * j] == "0123456789abcdef"[bytes[j] / 16]
    ensures Hexlify(bytes)[2 * j + 1] == "0123456789abcdef"[bytes[j] % 16]
  {
    if |bytes| > 1 {
      DigitsOfByte(bytes[1..], if j == 0 then 0 else j - 1);
    }
  }

  lemma FirstLine(bytes: seq<Byte>, j: nat)
    requires j < 4 && j < |bytes|
    ensures var p := Print(bytes);
            && 2 * j + 2 < |p| && p[2 * j] == "0123456789abcdef"[bytes[j] / 16] && p[2 * j + 1] == "0123456789abcdef"[bytes[j] % 16]
            && (j == 3 || j + 1 == |bytes| ==> p[2 * j + 2] == '\n')
  {
    DigitsOfByte(FirstWord(bytes), j);
  }

  lemma LaterLines(bytes: seq<Byte>, k: nat)
    requires |bytes| > 4 && k < |Print(bytes[4..])|
    ensures 9 + k < |Print(bytes)| && Print(bytes)[9 + k] == Print(bytes[4..])[k]
  {
    DigitsOfByte(FirstWord(bytes), 0);
    assert Print(bytes) == Hexlify(bytes[..4]) + "\n" + Print(bytes[4..]);
  }

  /** Byte `j` of line `q` stands in two digits, the higher one first, eight digits and the end of
      the line after those of the line before; a line ends behind its last byte. */
  lemma {:induction false} PrintLayout(bytes: seq<Byte>, q: nat, j: nat)
    requires j < 4 && 4 * q + j < |bytes|
    ensures var p, b := Print(bytes), bytes[4 * q + j];
            && 9 * q + 2 * j + 2 < |p|
            && p[9 * q + 2 * j] == "0123456789abcdef"[b / 16] && p[9 * q + 2 * j + 1] == "0123456789abcdef"[b % 16]
            && (j == 3 || 4 * q + j + 1 == |bytes| ==> p[9 * q + 2 * j + 2] == '\n')
    decreases q
  {
    if q == 0 {
      FirstLine(bytes, j);
    } else {
      PrintLayout(bytes[4..], q - 1, j);
      LaterLines(bytes, 9 * (q - 1) + 2 * j);
      LaterLines(bytes, 9 * (q - 1) + 2 * j + 1);
      LaterLines(bytes, 9 * (q - 1) + 2 * j + 2);
    }
  }

  // -------------------------------------------------------- a line is scanned

  /** The number that digits make after what has been read already. */
  function Value(v: nat, bytes: seq<Byte>): (n: nat)
    ensures n >= v
    decreases |bytes|
  {
    if bytes == [] then v else Value(v * 256 + bytes[0], bytes[1..])
  }

  function Power(n: nat): nat {
    if n == 0 then 1 else 256 * Power(n - 1)
  }

  lemma {:induction false} ValueBound(v: nat, bytes: seq<Byte>, n: nat)
    requires |bytes| <= n && v < Power(n - |bytes|)
    ensures Value(v, bytes) < Power(n)
    decreases |bytes|
  {
    if bytes != [] {
      assert Power(n - |bytes| + 1) == 256 * Power(n - |bytes|);
      ValueBound(v * 256 + bytes[0], bytes[1..], n);
    }
  }

  lemma PowerFour()
    ensures Power(4) == WORDS && Power(3) == 0x100_0000
  {
    assert Power(2) == 0x1_0000;
  }

  predicate StartsOther(tail: string) {
    tail != [] && !IsHexDigit(tail[0])
  }

  lemma WordValue(bytes: seq<Byte>)
    requires |bytes| <= 4
    ensures Value(0, bytes) < WORDS
  {
    PowerFour();
    PowerPositive(4 - |bytes|);
    ValueBound(0, bytes, 4);
  }

  lemma PowerPositive(n: nat)
    ensures Power(n) > 0
  {
  }

  lemma ScanDigit(c: char, text: string, v: Word)
    requires IsHexDigit(c) && v < 0x1000_0000
    ensures Scan([c] + text, Number, v) == Scan(text, Number, v * 16 + HexDigitVal(c))
  {
    assert ([c] + text)[1..] == text;
  }

  lemma ScanByte(x: Byte, text: string, v: nat)
    requires v * 256 + x < WORDS
    ensures Scan([HexChar(x / 16)] + ([HexChar(x % 16)] + text), Number, v) == Scan(text, Number, v * 256 + x)
  {
    ScanDigit(HexChar(x / 16), [HexChar(x % 16)] + text, v);
    ScanDigit(HexChar(x % 16), text, v * 16 + x / 16);
  }

  lemma HexlifyFirst(bytes: seq<Byte>, tail: string)
    requires bytes != []
    ensures Hexlify(bytes) + tail == [HexChar(bytes[0] / 16)] + ([HexChar(bytes[0] % 16)] + (Hexlify(bytes[1..]) + tail))
  {
  }

  /** Digits of whole bytes are read into a number as long as it fits. */
  lemma {:induction false} ScanBytes(bytes: seq<Byte>, tail: string, v: nat)
    requires Value(v, bytes) < WORDS && StartsOther(tail)
    ensures Scan(Hexlify(bytes) + tail, Number, v) == Then([Store(Value(v, bytes))], Scan(tail, Space, Value(v, bytes)))
    decreases |bytes|
  {
    if bytes == [] {
      assert Hexlify(bytes) + tail == tail;
    } else {
      HexlifyFirst(bytes, tail);
      ScanByte(bytes[0], Hexlify(bytes[1..]) + tail, v);
      ScanBytes(bytes[1..], tail, v * 256 + bytes[0]);
    }
  }

  lemma ScanStart(c: char, text: string)
    requires IsHexDigit(c)
    ensures Scan([c] + text, Space, 0) == Scan(text, Number, HexDigitVal(c))
  {
    assert ([c] + text)[0] == c && ([c] + text)[1..] == text;
  }

  lemma ScanFirst(x: Byte, text: string)
    ensures Scan([HexChar(x / 16)] + ([HexChar(x % 16)] + text), Space, 0) == Scan(text, Number, x)
  {
    var c := HexChar(x / 16);
    var after := [HexChar(x % 16)] + text;
    ScanStart(c, after);
    ScanDigit(HexChar(x % 16), text, x / 16);
  }

  /** A whole line from outside a number. */
  lemma ScanLine(bytes: seq<Byte>, tail: string)
    requires 0 < |bytes| && Value(0, bytes) < WORDS && StartsOther(tail)
    ensures Scan(Hexlify(bytes) + tail, Space, 0) == Then([Store(Value(0, bytes))], Scan(tail, Space, Value(0, bytes)))
  {
    HexlifyFirst(bytes, tail);
    ScanFirst(bytes[0], Hexlify(bytes[1..]) + tail);
    ScanBytes(bytes[1..], tail, bytes[0]);
  }

  /** Outside a number, the number does not matter. */
  lemma {:induction false} NumberForgotten(text: string, s: State, v: Word, w: Word)
    requires !Reading(s)
    ensures Scan(text, s, v) == Scan(text, s, w)
    decreases |text|
  {
    if text != [] {
      var next := text[1..];
      NumberForgotten(next, Space, v, w);
      NumberForgotten(next, Slash, v, w);
      NumberForgotten(next, SingleLine, v, w);
      NumberForgotten(next, MultiLine, v, w);
      NumberForgotten(next, Asterisk, v, w);
    }
  }

  // ------------------------------------------------------------- the round trip

  function WordEvents(bytes: seq<Byte>): seq<Event> {
    if bytes == [] then []
    else
      WordValue(FirstWord(bytes));
      [Store(Value(0, FirstWord(bytes)))] + WordEvents(bytes[|FirstWord(bytes)|..])
  }

  lemma {:induction false} PrintParses(bytes: seq<Byte>)
    ensures Parse(Print(bytes)) == Some(WordEvents(bytes))
    decreases |bytes|
  {
    if bytes != [] {
      var w := FirstWord(bytes);
      var rest := bytes[|w|..];
      var tail := "\n" + Print(rest);
      assert Print(bytes) == Hexlify(w) + tail;
      WordValue(w);
      ScanLine(w, tail);
      assert tail[1..] == Print(rest);
      NumberForgotten(Print(rest), Space, Value(0, w), 0);
      PrintParses(rest);
    }
  }

  /** The bytes of the words stored in a row. */
  function DataOf(events: seq<Event>): seq<Byte> {
    if events == [] then [] else (if events[0].Store? then BigEndian(events[0].value) else []) + DataOf(events[1..])
  }

  predicate OnlyStores(events: seq<Event>) {
    forall i :: 0 <= i < |events| ==> events[i].Store?
  }

  lemma {:induction false} DataAppended(events: seq<Event>, v: Word)
    ensures DataOf(events + [Store(v)]) == DataOf(events) + BigEndian(v)
    decreases |events|
  {
    if events == [] {
      assert [Store(v)][1..] == [];
    } else {
      var all := events + [Store(v)];
      assert all[0] == events[0] && all[1..] == events[1..] + [Store(v)];
      DataAppended(events[1..], v);
    }
  }

  /** Words in a row make up one segment, and a block at the start of memory. */
  lemma {:induction false} StoresInARow(mem: seq<Byte>, events: seq<Event>)
    requires OnlyStores(events) && 4 * |events| <= |mem|
    ensures |DataOf(events)| == 4 * |events| && SegmentsOf(events) == [Segment(0, DataOf(events))]
    ensures StoreAll(Loaded(mem, 0), events) == Some(Loaded(Serial.Patched(mem, 0, DataOf(events)), |events|))
    decreases |events|
  {
    if events == [] {
      PatchedEmpty(mem, 0);
    } else {
      var n := |events| - 1;
      assert events[..n] + [events[n]] == events;
      StoresInARow(mem, events[..n]);
      DataAppended(events[..n], events[n].value);
      PatchedTwice(mem, 0, DataOf(events[..n]), BigEndian(events[n].value));
    }
  }

  lemma WordRestored(w: seq<Byte>)
    requires |w| == 4
    ensures Value(0, w) < WORDS && BigEndian(Value(0, w)) == w
  {
    WordValue(w);
    assert w == [w[0], w[1], w[2], w[3]];
    ValueOfFour(w[0], w[1], w[2], w[3]);
    FourBytes(w[0], w[1], w[2], w[3]);
  }

  lemma ValueStep(v: nat, x: Byte, rest: seq<Byte>)
    ensures Value(v, [x] + rest) == Value(v * 256 + x, rest)
  {
    assert ([x] + rest)[1..] == rest;
  }

  lemma ValueOfFour(a: Byte, b: Byte, c: Byte, d: Byte)
    ensures var u: int, v: int, w: int := a, b, c;
            Value(0, [a, b, c, d]) == ((u * 256 + v) * 256 + w) * 256 + d
  {
    var u: int, v: int, w: int := a, b, c;
    ValueStep(0, a, [b, c, d]);
    ValueStep(u, b, [c, d]);
    ValueStep(u * 256 + v, c, [d]);
    ValueStep((u * 256 + v) * 256 + w, d, []);
    assert [a] + [b, c, d] == [a, b, c, d] && [b] + [c, d] == [b, c, d] && [c] + [d] == [c, d] && [d] + [] == [d];
  }

  lemma FourBytes(a: Byte, b: Byte, c: Byte, d: Byte)
    ensures var u: int, v: int, w: int := a, b, c;
            var x := ((u * 256 + v) * 256 + w) * 256 + d;
            x < WORDS && BigEndian(x) == [a, b, c, d]
  {
    var u: int, v: int, w: int := a, b, c;
    var x1 := u * 256 + v;
    var x2 := x1 * 256 + w;
    var x := x2 * 256 + d;
    Halves(x);
    assert x / 0x100 == x2 && x2 / 0x100 == x1 && x1 / 0x100 == u;
  }

  function Zeros(n: nat): seq<Byte> {
    seq(n, _ => 0)
  }

  /** A short word is read as if it began with zeros. */
  function Padded(bytes: seq<Byte>): seq<Byte> {
    var whole := |bytes| / 4 * 4;
    if whole == |bytes| then bytes else bytes[..whole] + Zeros(4 - |bytes| % 4) + bytes[whole..]
  }

  lemma {:induction false} LeadingZeros(n: nat, bytes: seq<Byte>)
    ensures Value(0, Zeros(n) + bytes) == Value(0, bytes)
    decreases n
  {
    if n == 0 {
      assert Zeros(0) + bytes == bytes;
    } else {
      assert Zeros(n) + bytes == [0] + (Zeros(n - 1) + bytes);
      ValueStep(0, 0, Zeros(n - 1) + bytes);
      LeadingZeros(n - 1, bytes);
    }
  }

  lemma PaddedFirst(bytes: seq<Byte>)
    requires |bytes| >= 4
    ensures Padded(bytes) == bytes[..4] + Padded(bytes[4..])
  {
    var rest := bytes[4..];
    var whole := |bytes| / 4 * 4;
    assert |rest| / 4 * 4 == whole - 4 && |rest| % 4 == |bytes| % 4;
    assert bytes == bytes[..4] + rest;
    assert bytes[..whole] == bytes[..4] + rest[..whole - 4];
    assert bytes[whole..] == rest[whole - 4..];
  }

  lemma {:induction false} WordsRestored(bytes: seq<Byte>)
    ensures OnlyStores(WordEvents(bytes)) && |WordEvents(bytes)| == (|bytes| + 3) / 4
    ensures DataOf(WordEvents(bytes)) == Padded(bytes)
    decreases |bytes|
  {
    if bytes != [] {
      var w := FirstWord(bytes);
      var rest := bytes[|w|..];
      WordValue(w);
      assert WordEvents(bytes)[1..] == WordEvents(rest);
      WordsRestored(rest);
      LeadingZeros(4 - |w|, w);
      WordRestored(Zeros(4 - |w|) + w);
      if |w| == 4 {
        assert Zeros(0) + w == w;
        PaddedFirst(bytes);
      } else {
        assert bytes[..0] + Zeros(4 - |w|) + bytes[0..] == Zeros(4 - |w|) + w + [];
      }
    }
  }

  lemma WholeWords(n: nat)
    ensures 4 * ((n + 3) / 4) == n / 4 * 4 + (if n % 4 == 0 then 0 else 4)
    ensures n / 4 * 4 + n % 4 == n
  {
  }

  /** The bytes of the trailing short word, if there is one, are zeros. */
  predicate ZeroTail(bytes: seq<Byte>) {
    forall i :: |bytes| / 4 * 4 <= i < |bytes| ==> bytes[i] == 0
  }

  lemma PaddedAt(bytes: seq<Byte>, i: nat)
    ensures |Padded(bytes)| == 4 * ((|bytes| + 3) / 4) >= |bytes|
    ensures i < |Padded(bytes)| ==>
              Padded(bytes)[i] == if i < |bytes| / 4 * 4 then bytes[i]
                                  else if i < |Padded(bytes)| - |bytes| % 4 then 0
                                  else bytes[i - (|Padded(bytes)| - |bytes|)]
  {
    WholeWords(|bytes|);
  }

  lemma PaddedTail(bytes: seq<Byte>, i: nat)
    requires Padded(bytes)[..|bytes|] == bytes && |bytes| / 4 * 4 <= i < |bytes|
    ensures bytes[i] == 0
    decreases i
  {
    PaddedAt(bytes, i);
    WholeWords(|bytes|);
    assert Padded(bytes)[..|bytes|][i] == Padded(bytes)[i];
    if i >= |Padded(bytes)| - |bytes| % 4 {
      PaddedTail(bytes, i - (|Padded(bytes)| - |bytes|));
    }
  }

  lemma ZeroTailPadded(bytes: seq<Byte>)
    requires ZeroTail(bytes)
    ensures |Padded(bytes)| >= |bytes| && Padded(bytes) == bytes + Zeros(|Padded(bytes)| - |bytes|)
  {
    PaddedAt(bytes, 0);
    forall i | 0 <= i < |Padded(bytes)| ensures Padded(bytes)[i] == (bytes + Zeros(|Padded(bytes)| - |bytes|))[i] {
      PaddedAt(bytes, i);
      WholeWords(|bytes|);
    }
  }

  /** The bytes come first exactly if a trailing short word is all zeros. */
  lemma PaddedPrefix(bytes: seq<Byte>)
    ensures |Padded(bytes)| == 4 * ((|bytes| + 3) / 4) >= |bytes|
    ensures Padded(bytes)[..|bytes|] == bytes <==> ZeroTail(bytes)
  {
    PaddedAt(bytes, 0);
    if ZeroTail(bytes) {
      ZeroTailPadded(bytes);
    }
    if Padded(bytes)[..|bytes|] == bytes {
      forall i | |bytes| / 4 * 4 <= i < |bytes| ensures bytes[i] == 0 {
        PaddedTail(bytes, i);
      }
    }
  }

  lemma PatchedAt(mem: seq<Byte>, data: seq<Byte>, i: nat)
    requires |data| <= |mem| && i < |mem|
    ensures Serial.Patched(mem, 0, data)[i] == if i < |data| then data[i] else mem[i]
  {
  }

  lemma ZerosStayExactly(mem: seq<Byte>, bytes: seq<Byte>, n: nat)
    requires |bytes| + n <= |mem|
    ensures Serial.Patched(mem, 0, bytes + Zeros(n)) == Serial.Patched(mem, 0, bytes) <==>
            forall i :: |bytes| <= i < |bytes| + n ==> mem[i] == 0
  {
    var m, want := Serial.Patched(mem, 0, bytes + Zeros(n)), Serial.Patched(mem, 0, bytes);
    forall i: nat | i < |mem|
      ensures m[i] == if |bytes| <= i < |bytes| + n then 0 else want[i]
      ensures i >= |bytes| ==> want[i] == mem[i]
    {
      PatchedAt(mem, bytes + Zeros(n), i);
      PatchedAt(mem, bytes, i);
    }
  }

  predicate ZeroFill(mem: seq<Byte>, from: nat, to: nat)
    requires to <= |mem|
  {
    forall i :: from <= i < to ==> mem[i] == 0
  }

  /** Memory after the words are stored begins with the bytes exactly if a trailing short word
      is all zeros. The rest of memory stays exactly if that word's other bytes were zeros too. */
  lemma MemoryRestoredExactly(mem: seq<Byte>, bytes: seq<Byte>)
    requires 4 * ((|bytes| + 3) / 4) <= |mem|
    ensures |Padded(bytes)| == 4 * ((|bytes| + 3) / 4) >= |bytes|
    ensures Serial.Patched(mem, 0, Padded(bytes))[..|bytes|] == bytes <==> ZeroTail(bytes)
    ensures Serial.Patched(mem, 0, Padded(bytes)) == Serial.Patched(mem, 0, bytes) <==>
            ZeroTail(bytes) && ZeroFill(mem, |bytes|, 4 * ((|bytes| + 3) / 4))
  {
    PaddedPrefix(bytes);
    var p := Padded(bytes);
    assert Serial.Patched(mem, 0, p)[..|bytes|] == p[..|bytes|];
    assert Serial.Patched(mem, 0, bytes)[..|bytes|] == bytes;
    if ZeroTail(bytes) {
      ZeroTailPadded(bytes);
      ZerosStayExactly(mem, bytes, |p| - |bytes|);
    }
  }

  /** The loader's one segment is the printed bytes exactly when there are whole words of them.
      The emulator's memory, which is also what sending that segment leaves, has the bytes back
      exactly when a trailing short word is all zeros, and is otherwise unchanged exactly when
      the bytes that fill up that word were zeros before. */
  lemma PrintedImageRestored(mem: seq<Byte>, bytes: seq<Byte>)
    requires 4 * ((|bytes| + 3) / 4) <= |mem|
    ensures Parse(Print(bytes)).Some?
    ensures SegmentsOf(Parse(Print(bytes)).value) == [Segment(0, bytes)] <==> |bytes| % 4 == 0
    ensures var loaded := StoreAll(Loaded(mem, 0), Parse(Print(bytes)).value);
            && loaded.Some? && loaded.value.address == (|bytes| + 3) / 4 && |loaded.value.mem| == |mem|
            && (loaded.value.mem[..|bytes|] == bytes <==> ZeroTail(bytes))
            && (loaded.value.mem == Serial.Patched(mem, 0, bytes) <==>
                  ZeroTail(bytes) && ZeroFill(mem, |bytes|, 4 * ((|bytes| + 3) / 4)))
            && (|mem| <= WORDS ==> WriteOut(mem, SegmentsOf(Parse(Print(bytes)).value)) == Some(loaded.value.mem))
  {
    PrintParses(bytes);
    WordsRestored(bytes);
    PaddedPrefix(bytes);
    WholeWords(|bytes|);
    var events := WordEvents(bytes);
    StoresInARow(mem, events);
    MemoryRestoredExactly(mem, bytes);
    if |mem| <= WORDS {
      ParsersAgree(mem, Print(bytes));
    }
    if |bytes| % 4 != 0 {
      assert [Segment(0, Padded(bytes))][0] != [Segment(0, bytes)][0];
    }
  }
}
