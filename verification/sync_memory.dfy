/** Synchronized loads and stores of the threads of one emulated core. */
module SyncMemory {
  import opened Wrappers
  import Words

  const CACHE_LINE_LENGTH := 64
  const INVALID_ADDR := 0xffffffff
  const DEVICE_BASE := 0xffff0000
  const NUM_LANES := 16

  type Byte = Words.Byte
  type Word = s: seq<Byte> | |s| == 4 witness [0, 0, 0, 0]
  type Tid = nat

  /** `from` and `loaded` are the address and value of each thread's latest synchronized load. */
  datatype Core = Core(memory: seq<Byte>, last: seq<nat>, from: seq<Option<nat>>, loaded: seq<Word>, log: seq<Event>)

  datatype Event = SyncLoaded(t: Tid, line: nat) | Wrote(t: Tid, line: nat)

  function Line(address: nat): nat {
    address / CACHE_LINE_LENGTH
  }

  function WordAt(memory: seq<Byte>, address: nat): Word
    requires address + 4 <= |memory|
  {
    memory[address..address + 4]
  }

  /** Bytes written over memory from an address on. */
  function Overwrite(memory: seq<Byte>, address: nat, data: seq<Byte>): seq<Byte>
    requires address + |data| <= |memory|
  {
    memory[..address] + data + memory[address + |data|..]
  }

  /** The words of the masked lanes written over a cache line. */
  function OverwriteLanes(memory: seq<Byte>, address: nat, mask: seq<bool>, words: seq<Word>, k: nat): (m: seq<Byte>)
    requires |mask| == |words| == NUM_LANES && k <= NUM_LANES && address + CACHE_LINE_LENGTH <= |memory|
    ensures |m| == |memory|
    decreases k
  {
    if k == 0 then memory
    else
      var m := OverwriteLanes(memory, address, mask, words, k - 1);
      if mask[k - 1] then Overwrite(m, address + 4 * (k - 1), words[k - 1]) else m
  }

  function Invalidate(last: seq<nat>, address: nat): seq<nat> {
    seq(|last|, t requires 0 <= t < |last| => if last[t] == Line(address) then INVALID_ADDR else last[t])
  }

  // ------------------------------------------------------------------ steps

  /** `update` is what a thread computes between the load and the store of a retry loop. */
  datatype Step =
    | SyncLoad(t: Tid, address: nat)
    | SyncStore(t: Tid, address: nat, update: Word -> Word)
    | Store(t: Tid, address: nat, data: seq<Byte>)
    | BlockStore(t: Tid, address: nat, mask: seq<bool>, words: seq<Word>)

  ghost predicate Wellformed(c: Core) {
    |c.memory| <= DEVICE_BASE && |c.last| == |c.from| == |c.loaded|
  }

  /** Accesses are aligned and in memory. A synchronized store needs no load before it. A
      scatter store is a `Store` of four bytes for each of its lanes. */
  ghost predicate Enabled(c: Core, s: Step) {
    && Wellformed(c) && s.t < |c.last|
    && match s
       case SyncLoad(t, a) => a % 4 == 0 && a + 4 <= |c.memory|
       case SyncStore(t, a, f) => a % 4 == 0 && a + 4 <= |c.memory|
       case Store(t, a, data) => (|data| == 1 || |data| == 2 || |data| == 4) && a % |data| == 0 && a + |data| <= |c.memory|
       case BlockStore(t, a, mask, words) =>
         a % CACHE_LINE_LENGTH == 0 && a + CACHE_LINE_LENGTH <= |c.memory| && |mask| == |words| == NUM_LANES
  }

  predicate Succeeds(c: Core, t: Tid, address: nat)
    requires t < |c.last|
  {
    Line(address) == c.last[t]
  }

  ghost function Apply(c: Core, s: Step): Core
    requires Enabled(c, s)
  {
    match s
    case SyncLoad(t, a) =>
      c.(last := c.last[t := Line(a)], from := c.from[t := Some(a)], loaded := c.loaded[t := WordAt(c.memory, a)],
         log := c.log + [SyncLoaded(t, Line(a))])
    case SyncStore(t, a, f) =>
      if Succeeds(c, t, a) then
        c.(memory := Overwrite(c.memory, a, f(c.loaded[t])), last := Invalidate(c.last, a), log := c.log + [Wrote(t, Line(a))])
      else c
    case Store(t, a, data) =>
      c.(memory := Overwrite(c.memory, a, data), last := Invalidate(c.last, a), log := c.log + [Wrote(t, Line(a))])
    case BlockStore(t, a, mask, words) =>
      if forall k :: 0 <= k < NUM_LANES ==> !mask[k] then c
      else c.(memory := OverwriteLanes(c.memory, a, mask, words, NUM_LANES), last := Invalidate(c.last, a),
              log := c.log + [Wrote(t, Line(a))])
  }

  // ------------------------------------------------------------ reservations

  /** The thread's latest synchronized load was of the line, and nobody has written the line since. */
  ghost predicate Reserved(log: seq<Event>, t: Tid, line: nat) {
    log != [] &&
    match log[|log| - 1]
    case SyncLoaded(u, l) => if u == t then l == line else Reserved(log[..|log| - 1], t, line)
    case Wrote(u, l) => l != line && Reserved(log[..|log| - 1], t, line)
  }

  ghost predicate Inv(c: Core) {
    && Wellformed(c)
    && (forall t, line :: 0 <= t < |c.last| && 0 <= line < INVALID_ADDR ==>
          (c.last[t] == line <==> Reserved(c.log, t, line)))
    && (forall t :: 0 <= t < |c.last| && c.from[t].Some? ==>
          && c.from[t].value + 4 <= |c.memory| && c.from[t].value % 4 == 0
          && (c.last[t] == Line(c.from[t].value) ==> c.loaded[t] == WordAt(c.memory, c.from[t].value)))
  }

  lemma ReservedStep(log: seq<Event>, e: Event, t: Tid, line: nat)
    ensures Reserved(log + [e], t, line) <==>
            match e
            case SyncLoaded(u, l) => if u == t then l == line else Reserved(log, t, line)
            case Wrote(u, l) => l != line && Reserved(log, t, line)
  {
    assert (log + [e])[..|log|] == log;
  }

  /** A write inside one line leaves the words of the other lines as they were. */
  lemma OtherWordsKept(memory: seq<Byte>, address: nat, data: seq<Byte>, other: nat)
    requires address + |data| <= |memory| && other + 4 <= |memory|
    requires other + 4 <= address || address + |data| <= other
    ensures WordAt(Overwrite(memory, address, data), other) == WordAt(memory, other)
  {
  }

  lemma WordWritten(memory: seq<Byte>, address: nat, word: Word)
    requires address + 4 <= |memory|
    ensures WordAt(Overwrite(memory, address, word), address) == word
  {
  }

  lemma LinesApart(address: nat, size: nat, other: nat)
    requires size == 1 || size == 2 || size == 4
    requires address % size == 0 && other % 4 == 0 && Line(address) != Line(other)
    ensures other + 4 <= address || address + size <= other
  {
  }

  lemma {:induction false} OtherLinesKept(memory: seq<Byte>, address: nat, mask: seq<bool>, words: seq<Word>, k: nat, other: nat)
    requires |mask| == |words| == NUM_LANES && k <= NUM_LANES && address + CACHE_LINE_LENGTH <= |memory|
    requires address % CACHE_LINE_LENGTH == 0 && other % 4 == 0 && other + 4 <= |memory| && Line(other) != Line(address)
    ensures WordAt(OverwriteLanes(memory, address, mask, words, k), other) == WordAt(memory, other)
  {
    if k > 0 {
      OtherLinesKept(memory, address, mask, words, k - 1, other);
      if mask[k - 1] {
        var m := OverwriteLanes(memory, address, mask, words, k - 1);
        LinesApart(address + 4 * (k - 1), 4, other);
        OtherWordsKept(m, address + 4 * (k - 1), words[k - 1], other);
      }
    }
  }

  /** After a write to its line every other reservation still stands, and its word with it. */
  lemma WriteKeepsInv(c: Core, c': Core, t: Tid, address: nat)
    requires Inv(c) && t < |c.last| && |c'.memory| == |c.memory|
    requires address < |c.memory|
    requires c' == c.(memory := c'.memory, last := Invalidate(c.last, address), log := c.log + [Wrote(t, Line(address))])
    requires forall other :: 0 <= other <= |c.memory| - 4 && other % 4 == 0 && Line(other) != Line(address) ==>
               WordAt(c'.memory, other) == WordAt(c.memory, other)
    ensures Inv(c')
  {
    forall u, line | 0 <= u < |c.last| && 0 <= line < INVALID_ADDR
      ensures c'.last[u] == line <==> Reserved(c'.log, u, line)
    {
      ReservedStep(c.log, Wrote(t, Line(address)), u, line);
    }
  }

  lemma StepKeepsInv(c: Core, s: Step)
    requires Inv(c) && Enabled(c, s)
    ensures Inv(Apply(c, s))
  {
    var c' := Apply(c, s);
    match s
    case SyncLoad(t, a) =>
      forall u, line | 0 <= u < |c.last| && 0 <= line < INVALID_ADDR
        ensures c'.last[u] == line <==> Reserved(c'.log, u, line)
      {
        ReservedStep(c.log, SyncLoaded(t, Line(a)), u, line);
      }
    case SyncStore(t, a, f) =>
      if Succeeds(c, t, a) {
        forall other | 0 <= other <= |c.memory| - 4 && other % 4 == 0 && Line(other) != Line(a)
          ensures WordAt(c'.memory, other) == WordAt(c.memory, other)
        {
          LinesApart(a, 4, other);
          OtherWordsKept(c.memory, a, f(c.loaded[t]), other);
        }
        WriteKeepsInv(c, c', t, a);
      }
    case Store(t, a, data) =>
      forall other | 0 <= other <= |c.memory| - 4 && other % 4 == 0 && Line(other) != Line(a)
        ensures WordAt(c'.memory, other) == WordAt(c.memory, other)
      {
        LinesApart(a, |data|, other);
        OtherWordsKept(c.memory, a, data, other);
      }
      WriteKeepsInv(c, c', t, a);
    case BlockStore(t, a, mask, words) =>
      if exists k :: 0 <= k < NUM_LANES && mask[k] {
        forall other | 0 <= other <= |c.memory| - 4 && other % 4 == 0 && Line(other) != Line(a)
          ensures WordAt(c'.memory, other) == WordAt(c.memory, other)
        {
          OtherLinesKept(c.memory, a, mask, words, NUM_LANES, other);
        }
        WriteKeepsInv(c, c', t, a);
      }
  }

  // ------------------------------------------------------------------- runs

  ghost predicate Possible(c: Core, steps: seq<Step>)
    decreases |steps|
  {
    steps == [] || (Enabled(c, steps[0]) && Possible(Apply(c, steps[0]), steps[1..]))
  }

  ghost function After(c: Core, steps: seq<Step>): Core
    requires Possible(c, steps)
    decreases |steps|
  {
    if steps == [] then c else After(Apply(c, steps[0]), steps[1..])
  }

  /** A core on which no thread has made a synchronized load yet. */
  ghost predicate Initial(c: Core) {
    && Wellformed(c) && c.log == []
    && forall t :: 0 <= t < |c.last| ==> c.last[t] == INVALID_ADDR && c.from[t] == None
  }

  lemma {:induction false} RunKeepsInv(c: Core, steps: seq<Step>)
    requires Inv(c) && Possible(c, steps)
    ensures Inv(After(c, steps))
    decreases |steps|
  {
    if steps != [] {
      StepKeepsInv(c, steps[0]);
      RunKeepsInv(Apply(c, steps[0]), steps[1..]);
    }
  }

  /** A synchronized store succeeds exactly when its line was not written since the thread's
      latest synchronized load, which was of that line; otherwise it changes nothing. If that
      load was of the stored word, the word in memory is replaced by the update of that very
      word. */
  lemma SyncStoreIsAtomic(c: Core, steps: seq<Step>, t: Tid, a: nat, f: Word -> Word)
    requires Initial(c) && Possible(c, steps)
    requires Enabled(After(c, steps), SyncStore(t, a, f))
    ensures var d := After(c, steps);
            && (Succeeds(d, t, a) <==> Reserved(d.log, t, Line(a)))
            && var e := Apply(d, SyncStore(t, a, f));
               if Succeeds(d, t, a) then
                 && e.memory == Overwrite(d.memory, a, f(d.loaded[t]))
                 && (d.from[t] == Some(a) ==> e.memory == Overwrite(d.memory, a, f(WordAt(d.memory, a))))
               else e == d
  {
    RunKeepsInv(c, steps);
  }

  ghost predicate Reachable(d: Core) {
    exists c, steps :: Initial(c) && Possible(c, steps) && d == After(c, steps)
  }

  /** Every successful store to `a` by a thread whose latest synchronized load was of `b`
      updates the word that is in memory. */
  ghost predicate UpdatesInPlace(t: Tid, a: nat, b: nat) {
    forall d, f :: Reachable(d) && Enabled(d, SyncStore(t, a, f)) && d.from[t] == Some(b) && Succeeds(d, t, a) ==>
      Apply(d, SyncStore(t, a, f)).memory == Overwrite(d.memory, a, f(WordAt(d.memory, a)))
  }

  /** The reservation is of a line, the promise of a word: a retry loop may be relied on
      exactly when it stores where it loaded, or so far away that it never succeeds. */
  lemma AtomicWhereLoaded(t: Tid, a: nat, b: nat)
    requires a % 4 == b % 4 == 0 && a + 4 <= DEVICE_BASE && b + 4 <= DEVICE_BASE
    ensures UpdatesInPlace(t, a, b) <==> a == b || Line(a) != Line(b)
  {
    if a == b || Line(a) != Line(b) {
      forall d, f | Reachable(d) && Enabled(d, SyncStore(t, a, f)) && d.from[t] == Some(b) && Succeeds(d, t, a)
        ensures Apply(d, SyncStore(t, a, f)).memory == Overwrite(d.memory, a, f(WordAt(d.memory, a)))
      {
        var c, steps :| Initial(c) && Possible(c, steps) && d == After(c, steps);
        RunLastIsFrom(c, steps, t);
        SyncStoreIsAtomic(c, steps, t, a, f);
      }
    } else {
      var d := StoreElsewhere(t, a, b);
      var f := (w: Word) => w;
      assert Reachable(d) && Enabled(d, SyncStore(t, a, f)) && d.from[t] == Some(b) && Succeeds(d, t, a);
      assert Overwrite(d.memory, a, f(d.loaded[t]))[a] != Overwrite(d.memory, a, f(WordAt(d.memory, a)))[a];
    }
  }

  /** A reservation is of the line last loaded from. */
  ghost predicate LastIsFrom(c: Core, t: Tid)
    requires t < |c.last| && |c.from| == |c.last|
  {
    c.last[t] == INVALID_ADDR || (c.from[t].Some? && c.last[t] == Line(c.from[t].value))
  }

  lemma {:induction false} RunLastIsFrom(c: Core, steps: seq<Step>, t: Tid)
    requires Wellformed(c) && Possible(c, steps) && (t < |c.last| ==> LastIsFrom(c, t))
    ensures var d := After(c, steps); |d.last| == |d.from| == |c.last| && (t < |d.last| ==> LastIsFrom(d, t))
    decreases |steps|
  {
    if steps != [] {
      assert Wellformed(Apply(c, steps[0]));
      RunLastIsFrom(Apply(c, steps[0]), steps[1..], t);
    }
  }

  /** A core on which the thread may store to `a` after loading a different word at `b`. */
  lemma StoreElsewhere(t: Tid, a: nat, b: nat) returns (d: Core)
    requires a % 4 == b % 4 == 0 && a + 4 <= DEVICE_BASE && b + 4 <= DEVICE_BASE
    requires a != b && Line(a) == Line(b)
    ensures Reachable(d) && Wellformed(d) && t < |d.last| && a + 4 <= |d.memory|
    ensures d.from[t] == Some(b) && Succeeds(d, t, a)
    ensures d.loaded[t][0] == 1 && d.memory[a] == 0
  {
    var memory := seq(DEVICE_BASE, i => if i == b then 1 else 0);
    var c := Core(memory, seq(t + 1, _ => INVALID_ADDR), seq(t + 1, _ => None), seq(t + 1, _ => [0, 0, 0, 0]), []);
    assert Enabled(c, SyncLoad(t, b));
    d := Apply(c, SyncLoad(t, b));
    assert Possible(d, []) && After(d, []) == d;
    assert [SyncLoad(t, b)][1..] == [];
    assert Possible(c, [SyncLoad(t, b)]) && After(c, [SyncLoad(t, b)]) == d;
  }

  /** A thread that loads `a`, and then another word of its line before it stores to `a`,
      stores over whatever was written to `a` in between. */
  lemma LostUpdate(c: Core, t: Tid, u: Tid, a: nat, b: nat, data: Word, f: Word -> Word)
    requires Wellformed(c) && t < |c.last| && u < |c.last|
    requires a % 4 == b % 4 == 0 && a + 4 <= |c.memory| && b + 4 <= |c.memory| && Line(a) == Line(b)
    ensures var update := _ => f(WordAt(c.memory, a));
            var c1 := Apply(c, SyncLoad(t, a));
            Enabled(c1, Store(u, a, data)) &&
            var c2 := Apply(c1, Store(u, a, data));
            Enabled(c2, SyncLoad(t, b)) &&
            var c3 := Apply(c2, SyncLoad(t, b));
            Enabled(c3, SyncStore(t, a, update)) && Succeeds(c3, t, a) && WordAt(c3.memory, a) == data &&
            WordAt(Apply(c3, SyncStore(t, a, update)).memory, a) == f(WordAt(c.memory, a))
  {
    var m := Overwrite(c.memory, a, data);
    assert WordAt(m, a) == data;
    assert WordAt(Overwrite(m, a, f(WordAt(c.memory, a))), a) == f(WordAt(c.memory, a));
  }

  /** Bytes stored into a word from its byte `at` on. */
  function PatchWord(w: Word, at: nat, data: seq<Byte>): Word {
    if at + |data| <= 4 then Overwrite(w, at, data) else w
  }

  /** What a step does to the word at `a`: the update of a synchronized store that succeeds, the
      bytes of a store to all or part of it, the word of its lane in a block store, or nothing. */
  ghost function Effect(c: Core, s: Step, a: nat): seq<Word -> Word>
    requires Enabled(c, s)
  {
    match s
    case SyncLoad(_, _) => []
    case SyncStore(t, b, f) => if b == a && Succeeds(c, t, b) then [f] else []
    case Store(_, b, data) => if a <= b < a + 4 then [(w: Word) => PatchWord(w, b - a, data)] else []
    case BlockStore(_, b, mask, words) =>
      if b <= a < b + CACHE_LINE_LENGTH && mask[(a - b) / 4] then [(w: Word) => words[(a - b) / 4]] else []
  }

  /** The effects on the word at `a`, in the order of the steps. */
  ghost function Effects(c: Core, steps: seq<Step>, a: nat): seq<Word -> Word>
    requires Possible(c, steps)
    decreases |steps|
  {
    if steps == [] then [] else Effect(c, steps[0], a) + Effects(Apply(c, steps[0]), steps[1..], a)
  }

  function Fold(fs: seq<Word -> Word>, w: Word): Word
    decreases |fs|
  {
    if fs == [] then w else Fold(fs[1..], fs[0](w))
  }

  lemma FoldFirst(fs: seq<Word -> Word>, rest: seq<Word -> Word>, w: Word)
    requires |fs| <= 1
    ensures Fold(fs + rest, w) == Fold(rest, Fold(fs, w))
  {
    if fs == [] {
      assert fs + rest == rest;
    } else {
      assert (fs + rest)[1..] == rest && fs[1..] == [];
    }
  }

  /** Whoever stores to `a` made its latest synchronized load there. */
  ghost predicate StoresWhereLoaded(c: Core, steps: seq<Step>, a: nat)
    requires Possible(c, steps)
    decreases |steps|
  {
    steps == [] ||
    (&& (steps[0].SyncStore? && steps[0].address == a ==> c.from[steps[0].t] == Some(a))
     && StoresWhereLoaded(Apply(c, steps[0]), steps[1..], a))
  }

  /** Retry loops on a word that store where they loaded are atomic updates: whatever the
      interleaving, with plain and block stores to the word among the steps, it ends as if the
      successful updates and the other stores had run one after the other. */
  lemma {:induction false} RetryLoopsAreAtomic(c: Core, steps: seq<Step>, a: nat)
    requires Inv(c) && Possible(c, steps) && a % 4 == 0 && a + 4 <= |c.memory|
    requires StoresWhereLoaded(c, steps, a)
    ensures |After(c, steps).memory| == |c.memory|
    ensures WordAt(After(c, steps).memory, a) == Fold(Effects(c, steps, a), WordAt(c.memory, a))
    decreases |steps|
  {
    if steps != [] {
      var c1 := Apply(c, steps[0]);
      StepKeepsInv(c, steps[0]);
      StepOnWord(c, steps[0], a);
      FoldEffect(Effect(c, steps[0], a), WordAt(c.memory, a));
      RetryLoopsAreAtomic(c1, steps[1..], a);
      FoldFirst(Effect(c, steps[0], a), Effects(c1, steps[1..], a), WordAt(c.memory, a));
    }
  }

  /** The step does to the word what its effect says. */
  ghost predicate TakesEffect(c: Core, s: Step, a: nat)
    requires Enabled(c, s) && a + 4 <= |c.memory|
  {
    var e, m := Effect(c, s, a), Apply(c, s).memory;
    |m| == |c.memory| && |e| <= 1 && WordAt(m, a) == if e == [] then WordAt(c.memory, a) else e[0](WordAt(c.memory, a))
  }

  lemma StepOnWord(c: Core, s: Step, a: nat)
    requires Inv(c) && Enabled(c, s) && a % 4 == 0 && a + 4 <= |c.memory|
    requires s.SyncStore? && s.address == a ==> c.from[s.t] == Some(a)
    ensures TakesEffect(c, s, a)
  {
    match s
    case SyncLoad(_, _) =>
    case SyncStore(t, b, f) => SyncStoreStep(c, t, b, f, a);
    case Store(t, b, data) => StoreStep(c, t, b, data, a);
    case BlockStore(t, b, mask, words) => BlockStep(c, t, b, mask, words, a);
  }

  lemma SyncStoreStep(c: Core, t: Tid, b: nat, f: Word -> Word, a: nat)
    requires Inv(c) && Enabled(c, SyncStore(t, b, f)) && a % 4 == 0 && a + 4 <= |c.memory|
    requires b == a ==> c.from[t] == Some(a)
    ensures TakesEffect(c, SyncStore(t, b, f), a)
  {
    if Succeeds(c, t, b) {
      if b == a {
        WordWritten(c.memory, a, f(c.loaded[t]));
      } else {
        OtherWordsKept(c.memory, b, f(c.loaded[t]), a);
      }
    }
  }

  lemma StoreStep(c: Core, t: Tid, b: nat, data: seq<Byte>, a: nat)
    requires Enabled(c, Store(t, b, data)) && a % 4 == 0 && a + 4 <= |c.memory|
    ensures TakesEffect(c, Store(t, b, data), a)
  {
    StoreOnWord(c.memory, b, data, a);
  }

  lemma BlockStep(c: Core, t: Tid, b: nat, mask: seq<bool>, words: seq<Word>, a: nat)
    requires Enabled(c, BlockStore(t, b, mask, words)) && a % 4 == 0 && a + 4 <= |c.memory|
    ensures TakesEffect(c, BlockStore(t, b, mask, words), a)
  {
    BlockOnWord(c.memory, b, mask, words, a);
  }

  lemma FoldEffect(fs: seq<Word -> Word>, w: Word)
    requires |fs| <= 1
    ensures Fold(fs, w) == if fs == [] then w else fs[0](w)
  {
  }

  lemma StoreOnWord(memory: seq<Byte>, b: nat, data: seq<Byte>, a: nat)
    requires (|data| == 1 || |data| == 2 || |data| == 4) && b % |data| == 0 && b + |data| <= |memory|
    requires a % 4 == 0 && a + 4 <= |memory|
    ensures WordAt(Overwrite(memory, b, data), a) ==
            if a <= b < a + 4 then PatchWord(WordAt(memory, a), b - a, data) else WordAt(memory, a)
  {
    if a <= b < a + 4 {
      StaysInWord(a, b, |data|);
      var after := Overwrite(memory, b, data);
      forall k: nat | k < 4 ensures WordAt(after, a)[k] == PatchWord(WordAt(memory, a), b - a, data)[k] {
        assert WordAt(after, a)[k] == after[a + k];
      }
    } else {
      StaysOutside(a, b, |data|);
      OtherWordsKept(memory, b, data, a);
    }
  }

  lemma StaysInWord(a: nat, b: nat, size: nat)
    requires (size == 1 || size == 2 || size == 4) && b % size == 0 && a % 4 == 0 && a <= b < a + 4
    ensures b - a + size <= 4
  {
    if size == 2 {
      HalvesInWord(a, b);
    } else if size == 4 {
      WordInWord(a, b);
    }
  }

  lemma HalvesInWord(a: nat, b: nat)
    requires b % 2 == 0 && a % 4 == 0 && a <= b < a + 4
    ensures b <= a + 2
  {
  }

  lemma WordInWord(a: nat, b: nat)
    requires b % 4 == 0 && a % 4 == 0 && a <= b < a + 4
    ensures b == a
  {
  }

  lemma StaysOutside(a: nat, b: nat, size: nat)
    requires (size == 1 || size == 2 || size == 4) && b % size == 0 && a % 4 == 0 && !(a <= b < a + 4)
    ensures a + 4 <= b || b + size <= a
  {
  }

  lemma {:induction false} LaneWord(memory: seq<Byte>, b: nat, mask: seq<bool>, words: seq<Word>, k: nat, lane: nat)
    requires |mask| == |words| == NUM_LANES && k <= NUM_LANES && lane < NUM_LANES && b + CACHE_LINE_LENGTH <= |memory|
    ensures WordAt(OverwriteLanes(memory, b, mask, words, k), b + 4 * lane) ==
            if lane < k && mask[lane] then words[lane] else WordAt(memory, b + 4 * lane)
    decreases k
  {
    if k > 0 {
      LaneWord(memory, b, mask, words, k - 1, lane);
      if mask[k - 1] {
        var m := OverwriteLanes(memory, b, mask, words, k - 1);
        if lane == k - 1 {
          WordWritten(m, b + 4 * lane, words[lane]);
        } else {
          OtherWordsKept(m, b + 4 * (k - 1), words[k - 1], b + 4 * lane);
        }
      }
    }
  }

  lemma LaneOf(b: nat, a: nat)
    requires b % CACHE_LINE_LENGTH == 0 && a % 4 == 0
    ensures b <= a < b + CACHE_LINE_LENGTH ==> 0 <= (a - b) / 4 < NUM_LANES && a == b + 4 * ((a - b) / 4)
    ensures !(b <= a < b + CACHE_LINE_LENGTH) ==> Line(a) != Line(b)
  {
  }

  lemma BlockOnWord(memory: seq<Byte>, b: nat, mask: seq<bool>, words: seq<Word>, a: nat)
    requires |mask| == |words| == NUM_LANES && b % CACHE_LINE_LENGTH == 0 && b + CACHE_LINE_LENGTH <= |memory|
    requires a % 4 == 0 && a + 4 <= |memory|
    ensures WordAt(OverwriteLanes(memory, b, mask, words, NUM_LANES), a) ==
            if b <= a < b + CACHE_LINE_LENGTH && mask[(a - b) / 4] then words[(a - b) / 4] else WordAt(memory, a)
  {
    LaneOf(b, a);
    if b <= a < b + CACHE_LINE_LENGTH {
      LaneWord(memory, b, mask, words, NUM_LANES, (a - b) / 4);
    } else {
      OtherLinesKept(memory, b, mask, words, NUM_LANES, a);
    }
  }
}
