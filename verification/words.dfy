/** Bytes, words of 32 bits, and how a word is laid out as four bytes. */
module Words {
  type Byte = x: int | 0 <= x < 256

  const WORDS := 0x1_0000_0000

  type Word = x: int | 0 <= x < 0x1_0000_0000

  /** A word as four bytes, lowest byte first. */
  function Long(value: Word): seq<Byte> {
    [value % 256, value / 0x100 % 256, value / 0x1_0000 % 256, value / 0x100_0000 % 256]
  }

  /** One step of reading a word: what was there moves down, and the byte comes in at the top. */
  function ShiftIn(result: Word, ch: Byte): Word {
    result / 256 + ch * 0x100_0000
  }

  function FromLong(bytes: seq<Byte>): Word
    requires |bytes| == 4
  {
    ShiftIn(ShiftIn(ShiftIn(ShiftIn(0, bytes[0]), bytes[1]), bytes[2]), bytes[3])
  }

  lemma LongRoundTrip(value: Word)
    ensures FromLong(Long(value)) == value
  {
    var v1 := value / 0x100;
    var v2 := v1 / 0x100;
    var v3 := v2 / 0x100;
    Halves(value);
    FromBytes(value % 256, v1 % 256, v2 % 256, v3 % 256);
  }

  lemma Halves(value: Word)
    ensures value / 0x1_0000 == value / 0x100 / 0x100 && value / 0x100_0000 == value / 0x100 / 0x100 / 0x100
  {
  }

  lemma FromBytes(a: Byte, b: Byte, c: Byte, d: Byte)
    ensures FromLong([a, b, c, d]) == a + 0x100 * b + 0x1_0000 * c + 0x100_0000 * d
  {
    var w1 := ShiftIn(0, a);
    var w2 := ShiftIn(w1, b);
    var w3 := ShiftIn(w2, c);
    assert w1 == a * 0x100_0000;
    assert w2 == a * 0x1_0000 + b * 0x100_0000;
    assert w3 == a * 0x100 + b * 0x1_0000 + c * 0x100_0000;
    assert w3 / 256 == a + b * 0x100 + c * 0x1_0000;
  }
}
