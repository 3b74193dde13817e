/** The grammar of memory images (section 17.2.8 of IEEE 1364-2001), as a list of tokens, and that
    the scanner accepts exactly its texts. */
module HexGrammar {
  import opened Words
  import opened Wrappers
  import opened HexFormat

  ghost predicate IsDigit(c: char, d: nat) {
    d < 16 && (c == "0123456789abcdef"[d] || c == "0123456789ABCDEF"[d])
  }

  /** Digits that are read after the number `start` make it `v`. */
  ghost predicate ReadsOn(start: nat, digits: string, v: nat)
    decreases |digits|
  {
    if digits == [] then v == start
    else exists d: nat :: IsDigit(digits[0], d) && ReadsOn(16 * start + d, digits[1..], v)
  }

  /** A word to store, an address to go on at, white space, and comments to the end of the line or
      between slashes with stars. A star in a comment ends it at the next slash. */
  datatype Token =
    | Number(digits: string, value: nat)
    | Place(digits: string, value: nat)
    | Blank(c: char)
    | LineComment(body: string, closed: bool)
    | BlockComment(body: string, more: string)

  function TextOf(t: Token): string {
    match t
    case Number(digits, _) => digits
    case Place(digits, _) => ['@'] + digits
    case Blank(c) => [c]
    case LineComment(body, closed) => ['/', '/'] + body + if closed then ['\n'] else []
    case BlockComment(body, more) => ['/', '*'] + (body + (['*'] + (more + ['/'])))
  }

  function Text(tokens: seq<Token>): string {
    if tokens == [] then [] else TextOf(tokens[0]) + Text(tokens[1..])
  }

  ghost predicate NoDigitNext(rest: string) {
    rest != [] ==> forall d: nat :: !IsDigit(rest[0], d)
  }

  /** The token may stand before the text. Words have 32 bits; addresses may have more digits. */
  ghost predicate TokenOk(t: Token, rest: string) {
    match t
    case Number(digits, v) => digits != [] && ReadsOn(0, digits, v) && v < 0x1_0000_0000 && NoDigitNext(rest)
    case Place(digits, v) => ReadsOn(0, digits, v) && NoDigitNext(rest)
    case Blank(c) => c in [' ', '\t', '\n', '\r'] || c as int == 11 || c as int == 12
    case LineComment(body, closed) => '\n' !in body && (closed || rest == [])
    case BlockComment(body, more) => '*' !in body && '/' !in more
  }

  ghost predicate TokensOk(tokens: seq<Token>) {
    tokens == [] || (TokenOk(tokens[0], Text(tokens[1..])) && TokensOk(tokens[1..]))
  }

  /** What a token says, if anything; the address of a place has 32 bits. */
  function EventOf(t: Token): seq<Event> {
    match t
    case Number(_, v) => [Store(v % 0x1_0000_0000)]
    case Place(_, v) => [At(v % 0x1_0000_0000)]
    case _ => []
  }

  function EventsOf(tokens: seq<Token>): seq<Event> {
    if tokens == [] then [] else EventOf(tokens[0]) + EventsOf(tokens[1..])
  }

  // ------------------------------------------------------------------ scanning

  lemma DigitMeans(c: char)
    ensures IsHexDigit(c) ==> IsDigit(c, HexDigitVal(c))
    ensures forall d: nat :: IsDigit(c, d) ==> IsHexDigit(c) && d == HexDigitVal(c)
  {
  }

  lemma NotDigit(rest: string)
    ensures NoDigitNext(rest) <==> rest == [] || !IsHexDigit(rest[0])
  {
    if rest != [] {
      DigitMeans(rest[0]);
    }
  }

  lemma {:induction false} ReadsUp(start: nat, digits: string, v: nat)
    requires ReadsOn(start, digits, v)
    ensures v >= start && (digits != [] ==> v >= 16 * start)
    decreases |digits|
  {
    if digits != [] {
      var d: nat :| IsDigit(digits[0], d) && ReadsOn(16 * start + d, digits[1..], v);
      ReadsUp(16 * start + d, digits[1..], v);
    }
  }

  lemma {:induction false} NumberScanned(number: Word, digits: string, rest: string, v: nat)
    requires ReadsOn(number, digits, v) && NoDigitNext(rest)
    ensures Scan(digits + rest, State.Number, number) ==
            if v < WORDS then Then([Store(v)], Scan(rest, Space, v)) else None
    decreases |digits|
  {
    NotDigit(rest);
    if digits == [] {
      assert digits + rest == rest;
    } else {
      var d: nat :| IsDigit(digits[0], d) && ReadsOn(16 * number + d, digits[1..], v);
      DigitMeans(digits[0]);
      assert (digits + rest)[1..] == digits[1..] + rest;
      ReadsUp(16 * number + d, digits[1..], v);
      if number < 0x1000_0000 {
        NumberScanned(16 * number + d, digits[1..], rest, v);
      }
    }
  }

  lemma WrapDigit(start: nat, d: nat)
    ensures (start % WORDS * 16 + d) % WORDS == (16 * start + d) % WORDS
  {
    var q := start / WORDS;
    assert 16 * start + d == (start % WORDS * 16 + d) + WORDS * (16 * q);
  }

  lemma {:induction false} PlaceScanned(start: nat, digits: string, rest: string, v: nat)
    requires ReadsOn(start, digits, v) && NoDigitNext(rest)
    ensures Scan(digits + rest, Address, start % WORDS) == Then([At(v % WORDS)], Scan(rest, Space, v % WORDS))
    decreases |digits|
  {
    NotDigit(rest);
    if digits == [] {
      assert digits + rest == rest;
    } else {
      var d: nat :| IsDigit(digits[0], d) && ReadsOn(16 * start + d, digits[1..], v);
      DigitMeans(digits[0]);
      assert (digits + rest)[1..] == digits[1..] + rest;
      WrapDigit(start, d);
      PlaceScanned(16 * start + d, digits[1..], rest, v);
    }
  }

  lemma {:induction false} LineScanned(body: string, closed: bool, rest: string, number: Word)
    requires '\n' !in body && (closed || rest == [])
    ensures Scan(body + ((if closed then ['\n'] else []) + rest), SingleLine, number) ==
            if closed then Scan(rest, Space, number) else Some([])
    decreases |body|
  {
    var tail := (if closed then ['\n'] else []) + rest;
    if body == [] {
      assert body + tail == tail;
      assert closed ==> tail[1..] == rest;
    } else {
      assert (body + tail)[1..] == body[1..] + tail;
      LineScanned(body[1..], closed, rest, number);
    }
  }

  lemma {:induction false} StarScanned(more: string, rest: string, number: Word)
    requires '/' !in more
    ensures Scan(more + (['/'] + rest), Asterisk, number) == Scan(rest, Space, number)
    ensures Scan(more, Asterisk, number) == None
    decreases |more|
  {
    var tail := ['/'] + rest;
    if more == [] {
      assert more + tail == tail && tail[1..] == rest;
    } else {
      assert (more + tail)[1..] == more[1..] + tail;
      StarScanned(more[1..], rest, number);
    }
  }

  lemma {:induction false} BodyScanned(body: string, rest: string, number: Word)
    requires '*' !in body
    ensures Scan(body + (['*'] + rest), MultiLine, number) == Scan(rest, Asterisk, number)
    ensures Scan(body, MultiLine, number) == None
    decreases |body|
  {
    var tail := ['*'] + rest;
    if body == [] {
      assert body + tail == tail && tail[1..] == rest;
    } else {
      assert (body + tail)[1..] == body[1..] + tail;
      BodyScanned(body[1..], rest, number);
    }
  }

  lemma BlockScanned(body: string, more: string, rest: string, number: Word)
    requires '*' !in body && '/' !in more
    ensures Scan(TextOf(BlockComment(body, more)) + rest, Space, number) == Scan(rest, Space, number)
  {
    var text := TextOf(BlockComment(body, more)) + rest;
    assert text[1..][1..] == body + (['*'] + (more + (['/'] + rest)));
    BodyScanned(body, more + (['/'] + rest), number);
    StarScanned(more, rest, number);
  }

  lemma CommentScanned(body: string, closed: bool, rest: string, number: Word)
    requires '\n' !in body && (closed || rest == [])
    ensures Scan(TextOf(LineComment(body, closed)) + rest, Space, number) ==
            if closed then Scan(rest, Space, number) else Some([])
  {
    var text := TextOf(LineComment(body, closed)) + rest;
    assert text[1..][1..] == body + ((if closed then ['\n'] else []) + rest);
    LineScanned(body, closed, rest, number);
  }

  lemma WordScanned(digits: string, v: nat, rest: string, number: Word)
    requires digits != [] && ReadsOn(0, digits, v) && NoDigitNext(rest)
    ensures Scan(digits + rest, Space, number) == if v < WORDS then Then([Store(v)], Scan(rest, Space, v)) else None
  {
    var d: nat :| IsDigit(digits[0], d) && ReadsOn(16 * 0 + d, digits[1..], v);
    DigitMeans(digits[0]);
    assert (digits + rest)[1..] == digits[1..] + rest;
    NumberScanned(d, digits[1..], rest, v);
  }

  /** The text is read as the events, whatever number was read before it. */
  ghost predicate ReadAs(rest: string, events: seq<Event>) {
    forall number: Word :: Scan(rest, Space, number) == Some(events)
  }

  lemma TokenScanned(t: Token, rest: string, events: seq<Event>, number: Word)
    requires TokenOk(t, rest) && ReadAs(rest, events)
    ensures Scan(TextOf(t) + rest, Space, number) == Some(EventOf(t) + events)
  {
    match t {
      case Number(digits, v) => WordScanned(digits, v, rest, number);
      case Place(digits, v) =>
        assert (['@'] + digits + rest)[1..] == digits + rest;
        PlaceScanned(0, digits, rest, v);
      case Blank(c) =>
        assert ([c] + rest)[1..] == rest && [] + events == events;
        assert Scan(rest, Space, number) == Some(events);
      case LineComment(body, closed) =>
        CommentScanned(body, closed, rest, number);
        assert Scan(rest, Space, number) == Some(events);
      case BlockComment(body, more) => BlockScanned(body, more, rest, number);
    }
  }

  /** The scanner reads a text of the grammar as what its tokens say. */
  lemma {:induction false} TokensScanned(tokens: seq<Token>)
    requires TokensOk(tokens)
    ensures ReadAs(Text(tokens), EventsOf(tokens))
    decreases |tokens|
  {
    if tokens != [] {
      TokensScanned(tokens[1..]);
      forall number: Word ensures Scan(Text(tokens), Space, number) == Some(EventsOf(tokens)) {
        TokenScanned(tokens[0], Text(tokens[1..]), EventsOf(tokens[1..]), number);
      }
    }
  }

  // ---------------------------------------------------------------- tokenizing

  lemma ReadMore(c: char, start: nat, digits: string, v: nat)
    requires IsHexDigit(c) && ReadsOn(16 * start + HexDigitVal(c), digits, v)
    ensures ReadsOn(start, [c] + digits, v)
  {
    DigitMeans(c);
    var d := HexDigitVal(c);
    assert ([c] + digits)[0] == c && ([c] + digits)[1..] == digits;
    assert IsDigit(c, d) && ReadsOn(16 * start + d, digits, v);
  }

  /** The digits at the front of a text, and what they make of a number. */
  lemma {:induction false} DigitsAt(text: string, start: nat) returns (k: nat, v: nat)
    ensures k <= |text| && ReadsOn(start, text[..k], v) && NoDigitNext(text[k..])
    ensures text != [] && IsHexDigit(text[0]) ==> k > 0
    decreases |text|
  {
    NotDigit(text);
    if text == [] || !IsHexDigit(text[0]) {
      assert text[0..] == text;
      return 0, start;
    }
    k, v := DigitsAt(text[1..], 16 * start + HexDigitVal(text[0]));
    ReadMore(text[0], start, text[1..][..k], v);
    assert text[..k + 1] == [text[0]] + text[1..][..k] && text[k + 1..] == text[1..][k..];
    k := k + 1;
  }

  lemma {:induction false} FirstAt(text: string, c: char) returns (k: nat)
    ensures k <= |text| && c !in text[..k] && (k < |text| ==> text[k] == c)
    decreases |text|
  {
    if text == [] || text[0] == c {
      return 0;
    }
    k := FirstAt(text[1..], c);
    assert text[..k + 1] == [text[0]] + text[1..][..k];
    k := k + 1;
  }

  /** The first token of an accepted text. */
  lemma FirstToken(text: string, number: Word) returns (t: Token, rest: string, next: Word)
    requires text != [] && Scan(text, Space, number).Some?
    ensures TokenOk(t, rest) && text == TextOf(t) + rest && |rest| < |text| && Scan(rest, Space, next).Some?
  {
    next := number;
    if text[0] == '/' {
      t, rest := FirstComment(text, number);
    } else if text[0] == '@' {
      var k, v := DigitsAt(text[1..], 0);
      t, rest := Place(text[1..][..k], v), text[1..][k..];
      assert text[1..] == t.digits + rest;
      PlaceScanned(0, t.digits, rest, v);
      next := v % WORDS;
    } else if IsHexDigit(text[0]) {
      var k, v := DigitsAt(text, 0);
      t, rest := Token.Number(text[..k], v), text[k..];
      assert text == t.digits + rest;
      WordScanned(t.digits, v, rest, number);
      next := v;
    } else {
      t, rest := Blank(text[0]), text[1..];
    }
  }

  lemma FirstComment(text: string, number: Word) returns (t: Token, rest: string)
    requires text != [] && text[0] == '/' && Scan(text, Space, number).Some?
    ensures TokenOk(t, rest) && text == TextOf(t) + rest && |rest| < |text| && Scan(rest, Space, number).Some?
  {
    assert text[1..][1..] == text[2..];
    if text[1] == '/' {
      assert text == ['/', '/'] + text[2..];
      t, rest := FirstLine(text, number);
    } else {
      assert text == ['/', '*'] + text[2..];
      t, rest := FirstBlock(text[2..], number);
      assert text == TextOf(t) + rest;
      BlockScanned(t.body, t.more, rest, number);
    }
  }

  lemma FirstLine(text: string, number: Word) returns (t: Token, rest: string)
    requires |text| >= 2 && text == ['/', '/'] + text[2..] && Scan(text, Space, number).Some?
    ensures TokenOk(t, rest) && text == TextOf(t) + rest && |rest| < |text| && Scan(rest, Space, number).Some?
  {
    var body := text[2..];
    var k := FirstAt(body, '\n');
    var closed := k < |body|;
    t, rest := LineComment(body[..k], closed), if closed then body[k + 1..] else [];
    assert text == TextOf(t) + rest;
    CommentScanned(body[..k], closed, rest, number);
  }

  /** A comment whose text is scanned to its end has a star and then a slash. */
  lemma FirstBlock(text: string, number: Word) returns (t: Token, rest: string)
    requires Scan(text, MultiLine, number).Some?
    ensures t.BlockComment? && TokenOk(t, rest) && text == t.body + (['*'] + (t.more + (['/'] + rest)))
  {
    var k := FirstAt(text, '*');
    if k == |text| {
      assert text[..k] == text;
      BodyScanned(text, [], number);
      assert false;
    }
    var inner := text[k + 1..];
    assert text == text[..k] + (['*'] + inner);
    BodyScanned(text[..k], inner, number);
    var j := FirstAt(inner, '/');
    if j == |inner| {
      assert inner[..j] == inner;
      StarScanned(inner, [], number);
      assert false;
    }
    t, rest := BlockComment(text[..k], inner[..j]), inner[j + 1..];
    assert inner == inner[..j] + (['/'] + rest);
  }

  lemma {:induction false} Tokenize(text: string, number: Word) returns (tokens: seq<Token>)
    requires Scan(text, Space, number).Some?
    ensures TokensOk(tokens) && Text(tokens) == text
    decreases |text|
  {
    if text == [] {
      return [];
    }
    var t, rest, next := FirstToken(text, number);
    var later := Tokenize(rest, next);
    tokens := [t] + later;
    assert tokens[1..] == later;
  }

  /** The tokens are a reading of the text. */
  ghost predicate Spells(tokens: seq<Token>, text: string) {
    TokensOk(tokens) && Text(tokens) == text
  }

  /** A text is accepted exactly if it is a text of the grammar, and then it says what its tokens
      say, however it is divided into them. */
  lemma GrammarExact(text: string)
    ensures Parse(text).Some? <==> exists tokens :: Spells(tokens, text)
    ensures forall tokens :: Spells(tokens, text) ==> Parse(text) == Some(EventsOf(tokens))
  {
    forall tokens | Spells(tokens, text) ensures Parse(text) == Some(EventsOf(tokens)) {
      TokensScanned(tokens);
      assert Scan(text, Space, 0) == Some(EventsOf(tokens));
    }
    if Parse(text).Some? {
      var tokens := Tokenize(text, 0);
      assert Spells(tokens, text);
    }
  }
}
