/** The text format of memory images (section 17.2.8 of IEEE 1364-2001) as the emulator and the
    serial loader read it. */
module HexFormat {
  import opened Words
  import opened Wrappers
  import Serial

  datatype State = Space | Slash | Address | Number | MultiLine | Asterisk | SingleLine

  /** What the text says: go on at a word address, or store a word. */
  datatype Event = At(address: Word) | Store(value: Word)

  predicate IsSpace(c: char) {
    c == ' ' || 9 <= c as int <= 13
  }

  predicate IsHexDigit(c: char) {
    '0' <= c <= '9' || 'a' <= c <= 'f' || 'A' <= c <= 'F'
  }

  function HexDigitVal(c: char): (d: nat)
    requires IsHexDigit(c)
    ensures d < 16
  {
    if '0' <= c <= '9' then c as int - '0' as int
    else if 'a' <= c <= 'f' then c as int - 'a' as int + 10
    else c as int - 'A' as int + 10
  }

  // ---------------------------------------------------------------- scanning

  function Then(first: seq<Event>, rest: Option<seq<Event>>): Option<seq<Event>> {
    if rest.None? then None else Some(first + rest.value)
  }

  predicate Reading(s: State) {
    s == Address || s == Number
  }

  /** The events of the text from a state of the scanner on; `None` for a text in error. A star in
      a comment ends it at the next slash, however far away that is. */
  function Scan(text: string, state: State, number: Word): Option<seq<Event>>
    decreases |text|, if Reading(state) then 1 else 0
  {
    match state
    case Space =>
      if text == [] then Some([])
      else if text[0] == '/' then Scan(text[1..], Slash, number)
      else if text[0] == '@' then Scan(text[1..], Address, 0)
      else if IsHexDigit(text[0]) then Scan(text[1..], Number, HexDigitVal(text[0]))
      else if IsSpace(text[0]) then Scan(text[1..], Space, number)
      else None
    case Slash =>
      if text == [] then None
      else if text[0] == '*' then Scan(text[1..], MultiLine, number)
      else if text[0] == '/' then Scan(text[1..], SingleLine, number)
      else None
    case SingleLine =>
      if text == [] then Some([])
      else Scan(text[1..], if text[0] == '\n' then Space else SingleLine, number)
    case MultiLine =>
      if text == [] then None
      else Scan(text[1..], if text[0] == '*' then Asterisk else MultiLine, number)
    case Asterisk =>
      if text == [] then None
      else Scan(text[1..], if text[0] == '/' then Space else Asterisk, number)
    case Number =>
      if text != [] && IsHexDigit(text[0]) then
        if number >= 0x1000_0000 then None else Scan(text[1..], Number, number * 16 + HexDigitVal(text[0]))
      else Then([Store(number)], Scan(text, Space, number))
    case Address =>
      if text != [] && IsHexDigit(text[0]) then Scan(text[1..], Address, (number * 16 + HexDigitVal(text[0])) % WORDS)
      else Then([At(number)], Scan(text, Space, number))
  }

  function Parse(text: string): Option<seq<Event>> {
    Scan(text, Space, 0)
  }

  // ------------------------------------------------------------- the two sinks

  /** A word as four bytes, highest first. */
  function BigEndian(value: Word): seq<Byte> {
    [value / 0x100_0000 % 256, value / 0x1_0000 % 256, value / 0x100 % 256, value % 256]
  }

  datatype Loaded = Loaded(mem: seq<Byte>, address: nat)

  /** The emulator: a memory of words and a running address. */
  function StoreOne(l: Loaded, e: Event): Option<Loaded> {
    match e
    case At(a) => if 4 * a < |l.mem| then Some(l.(address := a)) else None
    case Store(v) =>
      if 4 * l.address + 4 <= |l.mem| then Some(Loaded(Serial.Patched(l.mem, 4 * l.address, BigEndian(v)), l.address + 1)) else None
  }

  function StoreAll(l: Loaded, events: seq<Event>): Option<Loaded>
    decreases |events|
  {
    if events == [] then Some(l)
    else
      match StoreAll(l, events[..|events| - 1])
      case None => None
      case Some(m) => StoreOne(m, events[|events| - 1])
  }

  datatype Segment = Segment(address: Word, data: seq<Byte>)

  /** The loader: a segment for every stretch of words. One that is still empty is used again. */
  function Extend(segments: seq<Segment>, e: Event): seq<Segment>
    requires segments != []
  {
    var last := |segments| - 1;
    match e
    case At(a) =>
      if segments[last].data == [] then segments[last := segments[last].(address := a * 4 % WORDS)]
      else segments + [Segment(a * 4 % WORDS, [])]
    case Store(v) => segments[last := segments[last].(data := segments[last].data + BigEndian(v))]
  }

  function SegmentsOf(events: seq<Event>): (segments: seq<Segment>)
    ensures segments != []
    decreases |events|
  {
    if events == [] then [Segment(0, [])] else Extend(SegmentsOf(events[..|events| - 1]), events[|events| - 1])
  }

  /** Sending the segments in order; `None` if one does not fit into memory. */
  function WriteOut(mem: seq<Byte>, segments: seq<Segment>): Option<seq<Byte>>
    decreases |segments|
  {
    if segments == [] then Some(mem)
    else
      var s := segments[|segments| - 1];
      match WriteOut(mem, segments[..|segments| - 1])
      case None => None
      case Some(m) => if s.address + |s.data| <= |m| then Some(Serial.Patched(m, s.address, s.data)) else None
  }

  // ------------------------------------------------------------ the agreement

  lemma PatchedEmpty(mem: seq<Byte>, a: nat)
    requires a <= |mem|
    ensures Serial.Patched(mem, a, []) == mem
  {
  }

  lemma PatchedTwice(mem: seq<Byte>, a: nat, s: seq<Byte>, t: seq<Byte>)
    requires a + |s| + |t| <= |mem|
    ensures Serial.Patched(Serial.Patched(mem, a, s), a + |s|, t) == Serial.Patched(mem, a, s + t)
  {
  }

  /** What the segments so far have to do with memory and the running address. */
  ghost predicate Matches(mem: seq<Byte>, segments: seq<Segment>, l: Loaded) {
    && segments != [] && |l.mem| == |mem| && WriteOut(mem, segments) == Some(l.mem)
    && segments[|segments| - 1].address + |segments[|segments| - 1].data| == 4 * l.address <= |mem|
  }

  lemma LastWritten(mem: seq<Byte>, segments: seq<Segment>)
    requires segments != []
    ensures var n := |segments| - 1;
            WriteOut(mem, segments) ==
            match WriteOut(mem, segments[..n])
            case None => None
            case Some(m) =>
              if segments[n].address + |segments[n].data| <= |m| then Some(Serial.Patched(m, segments[n].address, segments[n].data)) else None
  {
  }

  lemma StoreMatches(mem: seq<Byte>, segments: seq<Segment>, l: Loaded, v: Word)
    requires Matches(mem, segments, l) && StoreOne(l, Store(v)).Some?
    ensures Matches(mem, Extend(segments, Store(v)), StoreOne(l, Store(v)).value)
  {
    var n := |segments| - 1;
    var s, after := segments[n], Extend(segments, Store(v));
    assert after[..n] == segments[..n] && |after| == n + 1;
    LastWritten(mem, segments);
    LastWritten(mem, after);
    PatchedTwice(WriteOut(mem, segments[..n]).value, s.address, s.data, BigEndian(v));
  }

  lemma AtMatches(mem: seq<Byte>, segments: seq<Segment>, l: Loaded, a: Word)
    requires Matches(mem, segments, l) && |mem| <= WORDS && StoreOne(l, At(a)).Some?
    ensures Matches(mem, Extend(segments, At(a)), StoreOne(l, At(a)).value)
  {
    var n := |segments| - 1;
    var after := Extend(segments, At(a));
    LastWritten(mem, segments);
    LastWritten(mem, after);
    if segments[n].data == [] {
      assert after[..n] == segments[..n];
      PatchedEmpty(WriteOut(mem, segments[..n]).value, segments[n].address);
      PatchedEmpty(WriteOut(mem, segments[..n]).value, after[n].address);
    } else {
      assert after[..n + 1] == segments;
      PatchedEmpty(l.mem, after[n + 1].address);
    }
  }

  lemma {:induction false} EventsMatch(mem: seq<Byte>, events: seq<Event>)
    requires |mem| <= WORDS && StoreAll(Loaded(mem, 0), events).Some?
    ensures Matches(mem, SegmentsOf(events), StoreAll(Loaded(mem, 0), events).value)
    decreases |events|
  {
    if events == [] {
      LastWritten(mem, [Segment(0, [])]);
      PatchedEmpty(mem, 0);
    } else {
      var n := |events| - 1;
      EventsMatch(mem, events[..n]);
      var l := StoreAll(Loaded(mem, 0), events[..n]).value;
      match events[n] {
        case At(a) => AtMatches(mem, SegmentsOf(events[..n]), l, a);
        case Store(v) => StoreMatches(mem, SegmentsOf(events[..n]), l, v);
      }
    }
  }

  /** A text that the emulator loads leaves the same memory as the loader's segments, sent in
      order. */
  lemma ParsersAgree(mem: seq<Byte>, text: string)
    requires |mem| <= WORDS && Parse(text).Some? && StoreAll(Loaded(mem, 0), Parse(text).value).Some?
    ensures WriteOut(mem, SegmentsOf(Parse(text).value)) == Some(StoreAll(Loaded(mem, 0), Parse(text).value).value.mem)
  {
    EventsMatch(mem, Parse(text).value);
  }
}
