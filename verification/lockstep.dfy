/** One node of the tic-synchronous network game: the rings of commands, the tic
    counters, and what building, sending, receiving and playing do to them. */
module Lockstep {
  import opened Wrappers

  const BACKUPTICS := 12
  const RESENDCOUNT := 10
  const BT_SPECIAL := 128

  // ---------------------------------------------------------------- commands

  datatype Ticcmd = Ticcmd(forwardmove: int, sidemove: int, angleturn: int, consistancy: int,
                           chatchar: nat, buttons: nat)

  const NO_COMMAND := Ticcmd(0, 0, 0, 0, 0, 0)

  /** What is left of a command when it is played again for a duplicated tic. */
  function Duplicate(c: Ticcmd): Ticcmd {
    c.(chatchar := 0, buttons := if c.buttons / BT_SPECIAL % 2 == 1 then 0 else c.buttons)
  }

  /** The command a player gives in play `k` of a tic that is played several times. */
  function Replayed(c: Ticcmd, k: nat): Ticcmd {
    if k == 0 then c else Duplicate(c)
  }

  // ------------------------------------------------------------ tic numbers

  /** Recovers a whole tic number from the low byte that travels in a packet. */
  function ExpandTics(low: int, maketic: int): int {
    var delta := low - maketic % 256;
    if -64 <= delta <= 64 then maketic - maketic % 256 + low
    else if delta > 64 then maketic - maketic % 256 - 256 + low
    else maketic - maketic % 256 + 256 + low
  }

  /** Exactly which tic numbers survive the trip through one byte. */
  lemma ExpandTicsExact(t: int, maketic: int)
    ensures ExpandTics(t % 256, maketic) == t
       <==> || -64 <= t - maketic <= 64
            || (64 < t - maketic <= 191 && t % 256 < maketic % 256)
            || (-191 <= t - maketic < -64 && t % 256 > maketic % 256)
  {
    var q, r := t / 256, maketic / 256;
    assert t == 256 * q + t % 256 && maketic == 256 * r + maketic % 256;
  }

  // ------------------------------------------------------------------ rings

  type Ring = s: seq<Ticcmd> | |s| == BACKUPTICS witness seq(BACKUPTICS, _ => NO_COMMAND)

  /** The ring holds the commands `history[lo..hi]`, each at its tic modulo the ring size. */
  ghost predicate RingHolds(ring: Ring, history: seq<Ticcmd>, lo: int, hi: int) {
    && hi <= |history|
    && forall t :: 0 <= t && lo <= t < hi ==> ring[t % BACKUPTICS] == history[t]
  }

  function StoreRun(ring: Ring, tic: nat, cmds: seq<Ticcmd>): Ring
    decreases |cmds|
  {
    if cmds == [] then ring
    else StoreRun(ring[tic % BACKUPTICS := cmds[0]], tic + 1, cmds[1..])
  }

  /** Storing the next tic keeps every tic that is less than a ring away. */
  lemma RingPut(ring: Ring, history: seq<Ticcmd>, lo: int, hi: nat)
    requires hi < |history| && hi - lo < BACKUPTICS
    requires RingHolds(ring, history, lo, hi)
    ensures RingHolds(ring[hi % BACKUPTICS := history[hi]], history, lo, hi + 1)
  {
  }

  lemma {:induction false} StoreRunHolds(ring: Ring, history: seq<Ticcmd>, lo: int, hi: nat, cmds: seq<Ticcmd>)
    requires RingHolds(ring, history, lo, hi)
    requires hi + |cmds| <= |history| && cmds == history[hi..hi + |cmds|]
    requires hi + |cmds| - lo <= BACKUPTICS
    ensures RingHolds(StoreRun(ring, hi, cmds), history, lo, hi + |cmds|)
    decreases |cmds|
  {
    if cmds != [] {
      RingPut(ring, history, lo, hi);
      assert cmds[0] == history[hi];
      assert cmds[1..] == history[hi + 1..hi + 1 + |cmds[1..]|];
      StoreRunHolds(ring[hi % BACKUPTICS := cmds[0]], history, lo, hi + 1, cmds[1..]);
    }
  }

  // ------------------------------------------------------------------ nodes

  /** What all nodes agreed on at the start of the game. */
  datatype Config = Config(nodes: nat, ticdup: nat, extratics: nat) {
    ghost predicate Valid() {
      nodes > 0 && ticdup > 0 && extratics <= 1
    }
  }

  datatype Node = Node(
    me: nat, maketic: nat, gametic: nat, gametime: int,
    localcmds: Ring,
    netcmds: seq<Ring>, nettics: seq<nat>, ingame: seq<bool>,
    remoteresend: seq<bool>, resendto: seq<int>, resendcount: seq<int>,
    skiptics: nat, oldnettics: nat, frameon: nat, frameskip: seq<bool>)

  ghost predicate Shaped(n: Node, c: Config) {
    && c.Valid() && n.me < c.nodes
    && |n.netcmds| == |n.nettics| == |n.ingame| == c.nodes
    && |n.remoteresend| == |n.resendto| == |n.resendcount| == c.nodes
    && |n.frameskip| == 4
  }

  function InitNode(me: nat, c: Config): Node {
    var noRing: Ring := seq(BACKUPTICS, _ => NO_COMMAND);
    Node(me, 0, 0, 0, noRing, seq(c.nodes, _ => noRing), seq(c.nodes, _ => 0), seq(c.nodes, _ => true),
         seq(c.nodes, _ => false), seq(c.nodes, _ => 0), seq(c.nodes, _ => 0),
         0, 0, 0, seq(4, _ => false))
  }

  function Tic(n: Node, c: Config): nat
    requires c.Valid()
  {
    n.gametic / c.ticdup
  }

  /** The packet as it travels: tic numbers are cut to their low byte. */
  datatype Flag = Plain | Retransmit | Exit | Setup | Kill
  datatype Packet = Packet(flag: Flag, retransmitfrom: int, starttic: int, player: nat, cmds: seq<Ticcmd>)

  // ---------------------------------------------------------- building tics

  predicate CannotHoldMore(n: Node, c: Config)
    requires c.Valid()
  {
    n.maketic - Tic(n, c) >= BACKUPTICS / 2 - 1
  }

  /** One command is built for each element of `input`, until the node is too far ahead. */
  function Build(n: Node, c: Config, input: seq<Ticcmd>): Node
    requires c.Valid()
    decreases |input|
  {
    if input == [] || CannotHoldMore(n, c) then n
    else Build(n.(localcmds := n.localcmds[n.maketic % BACKUPTICS := input[0]], maketic := n.maketic + 1), c, input[1..])
  }

  /** How many tics are due after `elapsed` of them went by and some are to be skipped. */
  function DueTics(n: Node, elapsed: nat): (int, nat) {
    if n.skiptics <= elapsed then (elapsed - n.skiptics, 0) else (0, n.skiptics - elapsed)
  }

  // ---------------------------------------------------------------- sending

  function NumTics(n: Node, peer: nat): nat
    requires peer < |n.resendto|
  {
    (n.maketic - n.resendto[peer]) % 256
  }

  predicate SendFails(n: Node)
    requires |n.ingame| == |n.resendto|
  {
    exists p :: 0 <= p < |n.ingame| && n.ingame[p] && NumTics(n, p) > BACKUPTICS
  }

  function PacketFor(n: Node, peer: nat): Packet
    requires peer < |n.resendto| == |n.remoteresend| == |n.nettics|
  {
    var start := n.resendto[peer];
    var cmds := seq(NumTics(n, peer), j requires 0 <= j => n.localcmds[(start + j) % BACKUPTICS]);
    if n.remoteresend[peer] then Packet(Retransmit, n.nettics[peer] % 256, start % 256, n.me, cmds)
    else Packet(Plain, 0, start % 256, n.me, cmds)
  }

  function AfterSend(n: Node, c: Config): Node
    requires |n.ingame| == |n.resendto|
  {
    n.(resendto := seq(|n.resendto|, p requires 0 <= p < |n.resendto| =>
         if n.ingame[p] then n.maketic - c.extratics else n.resendto[p]))
  }

  // -------------------------------------------------------------- receiving

  /** Answers a request to send old tics again, unless one was answered recently. */
  function NoteResend(n: Node, src: nat, pkt: Packet): Node
    requires src < |n.resendto| == |n.resendcount|
  {
    if n.resendcount[src] <= 0 && pkt.flag == Retransmit then
      n.(resendto := n.resendto[src := ExpandTics(pkt.retransmitfrom, n.maketic)],
         resendcount := n.resendcount[src := RESENDCOUNT])
    else n.(resendcount := n.resendcount[src := n.resendcount[src] - 1])
  }

  /** Takes the new tics out of a run of commands that starts at tic `start`. */
  function TakeTics(n: Node, src: nat, start: int, cmds: seq<Ticcmd>): Node
    requires src < |n.nettics| == |n.remoteresend| == |n.netcmds|
  {
    var have := n.nettics[src];
    if start + |cmds| <= have then n
    else if start > have then n.(remoteresend := n.remoteresend[src := true])
    else
      n.(remoteresend := n.remoteresend[src := false],
         netcmds := n.netcmds[src := StoreRun(n.netcmds[src], have, cmds[have - start..])],
         nettics := n.nettics[src := start + |cmds|])
  }

  /** The effect of one packet; `None` means the game was killed. */
  function Receive(n: Node, src: nat, pkt: Packet): Option<Node>
    requires src < |n.nettics| == |n.remoteresend| == |n.netcmds| == |n.ingame|
    requires |n.resendto| == |n.resendcount| == |n.nettics|
  {
    match pkt.flag
    case Setup => Some(n)
    case Exit => Some(n.(ingame := n.ingame[src := false]))
    case Kill => None
    case _ => Some(TakeTics(NoteResend(n, src, pkt), src, ExpandTics(pkt.starttic, n.maketic), pkt.cmds))
  }

  // ---------------------------------------------------------------- playing

  /** Every player that is still in the game has sent the tic about to be played. */
  predicate CanPlay(n: Node, c: Config)
    requires c.Valid() && |n.ingame| == |n.nettics|
  {
    forall p :: 0 <= p < |n.ingame| && n.ingame[p] ==> Tic(n, c) < n.nettics[p]
  }

  type Row = seq<Option<Ticcmd>>

  /** What the game reads for each player at the current gametic. */
  function CurrentRow(n: Node, c: Config): Row
    requires c.Valid() && |n.ingame| == |n.netcmds|
  {
    seq(|n.netcmds|, p requires 0 <= p < |n.netcmds| =>
      if n.ingame[p] then Some(n.netcmds[p][Tic(n, c) % BACKUPTICS]) else None)
  }

  function DuplicateAt(ring: Ring, slot: nat): Ring
    requires slot < BACKUPTICS
  {
    ring[slot := Duplicate(ring[slot])]
  }

  function DuplicateSlot(n: Node, slot: nat): Node
    requires slot < BACKUPTICS
  {
    n.(netcmds := seq(|n.netcmds|, p requires 0 <= p < |n.netcmds| =>
         DuplicateAt(n.netcmds[p], slot)))
  }

  /** One pass through the inner loop: play the tic once more and prepare its next repetition. */
  function PlayOnce(n: Node, c: Config, i: nat): (r: (Node, Row))
    requires c.Valid() && |n.ingame| == |n.netcmds|
    ensures |r.0.ingame| == |r.0.netcmds| == |n.netcmds|
  {
    var played := n.(gametic := n.gametic + 1);
    (if i != c.ticdup - 1 then DuplicateSlot(played, Tic(played, c) % BACKUPTICS) else played,
     CurrentRow(n, c))
  }

  /** The passes `i..ticdup` of the inner loop. */
  function PlayFrom(n: Node, c: Config, i: nat): (Node, seq<Row>)
    requires c.Valid() && |n.ingame| == |n.netcmds|
    decreases c.ticdup - i
  {
    if i >= c.ticdup then (n, [])
    else
      var (n1, row) := PlayOnce(n, c, i);
      var (n2, rows) := PlayFrom(n1, c, i + 1);
      (n2, [row] + rows)
  }

  // --------------------------------------------------------------- adapting

  function FirstInGame(ingame: seq<bool>, i: nat): (r: nat)
    requires i <= |ingame|
    ensures i <= r <= |ingame|
    ensures forall j :: i <= j < r ==> !ingame[j]
    ensures r < |ingame| ==> ingame[r]
    decreases |ingame| - i
  {
    if i == |ingame| || ingame[i] then i else FirstInGame(ingame, i + 1)
  }

  /** A node that keeps running ahead of the first player gives up a tic. */
  function Adapt(n: Node, c: Config): Node
    requires Shaped(n, c) && n.ingame[n.me]
  {
    var key := FirstInGame(n.ingame, 0);
    var on := n.frameon + 1;
    if key == n.me then n.(frameon := on)
    else
      var ahead := n.oldnettics > n.nettics[key];
      var skips := n.frameskip[on % 4 := ahead];
      n.(frameon := on, frameskip := skips, oldnettics := n.nettics[n.me],
         gametime := if n.nettics[n.me] <= n.nettics[key] then n.gametime - 1 else n.gametime,
         skiptics := if skips[0] && skips[1] && skips[2] && skips[3] then 1 else n.skiptics)
  }

  // ------------------------------------------------- what the small steps mean

  /** A replay moves the player as the first play did; it says nothing, and it gives no special
      action (such as to pause) a second time, while any other buttons stay pressed. */
  lemma ReplayMeans(cmd: Ticcmd, k: nat)
    ensures var r := Replayed(cmd, k);
            && r.forwardmove == cmd.forwardmove && r.sidemove == cmd.sidemove && r.angleturn == cmd.angleturn
            && r.consistancy == cmd.consistancy
            && (k == 0 ==> r.chatchar == cmd.chatchar && r.buttons == cmd.buttons)
            && (k > 0 ==> r.chatchar == 0)
            && (k > 0 && cmd.buttons / 128 % 2 == 1 ==> r.buttons == 0)
            && (k > 0 && cmd.buttons / 128 % 2 == 0 ==> r.buttons == cmd.buttons)
            && Replayed(r, k) == r
  {
  }

  /** `key` is the first node that is still in the game. */
  ghost predicate IsKey(n: Node, key: nat) {
    key < |n.ingame| && n.ingame[key] && forall p :: 0 <= p < key ==> !n.ingame[p]
  }

  /** The first node in the game sets the pace: every other one loses a tic of its own time
      whenever it has not built more than that one, and notes whether it was ahead. */
  lemma AdaptMeans(n: Node, c: Config, key: nat)
    requires Shaped(n, c) && n.ingame[n.me] && IsKey(n, key)
    ensures var r := Adapt(n, c);
            && r.frameon == n.frameon + 1 && r.maketic == n.maketic && r.gametic == n.gametic && r.nettics == n.nettics
            && (key == n.me ==> r == n.(frameon := n.frameon + 1))
            && (key != n.me ==>
                  && (n.nettics[n.me] <= n.nettics[key] ==> r.gametime == n.gametime - 1)
                  && (n.nettics[n.me] > n.nettics[key] ==> r.gametime == n.gametime)
                  && (r.frameskip[r.frameon % 4] <==> n.oldnettics > n.nettics[key])
                  && (forall f :: 0 <= f < 4 && f != r.frameon % 4 ==> r.frameskip[f] == n.frameskip[f])
                  && r.oldnettics == n.nettics[n.me])
  {
    var first := FirstInGame(n.ingame, 0);
    assert first == key by {
      assert first <= key;
    }
  }

  /** The node was ahead of the first node in the game when it adapted its clock. */
  ghost predicate WasAhead(n: Node) {
    exists key: nat :: IsKey(n, key) && key < |n.nettics| && n.oldnettics > n.nettics[key]
  }

  /** Nothing else changes what a node notes of its clock from one call to the next. */
  ghost predicate SameNotes(n: Node, m: Node) {
    n.frameon == m.frameon && n.frameskip == m.frameskip
  }

  /** The clock of a node that is not the first is adapted at `n`. */
  ghost predicate Adapts(n: Node, c: Config) {
    Shaped(n, c) && n.ingame[n.me] && !IsKey(n, n.me)
  }

  lemma AheadNoted(n: Node, c: Config)
    requires Adapts(n, c)
    ensures Adapt(n, c).frameskip == n.frameskip[(n.frameon + 1) % 4 := WasAhead(n)] && Adapt(n, c).frameon == n.frameon + 1
    ensures n.skiptics == 0 ==>
              Adapt(n, c).skiptics == if Adapt(n, c).frameskip == [true, true, true, true] then 1 else 0
  {
    var key := FirstInGame(n.ingame, 0);
    assert key < |n.ingame| && IsKey(n, key);
    forall other: nat | IsKey(n, other) ensures other == key {
      assert other <= key && key <= other;
    }
    assert WasAhead(n) <==> n.oldnettics > n.nettics[key];
    var skips := Adapt(n, c).frameskip;
    assert skips == [skips[0], skips[1], skips[2], skips[3]];
  }

  /** Four marks in turn, from any place on, are all there is. */
  lemma FourMarks(skips: seq<bool>, i: nat, w: bool, x: bool, y: bool, z: bool)
    requires |skips| == 4
    ensures skips[i % 4 := w][(i + 1) % 4 := x][(i + 2) % 4 := y][(i + 3) % 4 := z] == [true, true, true, true]
       <==> w && x && y && z
  {
    var r := skips[i % 4 := w][(i + 1) % 4 := x][(i + 2) % 4 := y][(i + 3) % 4 := z];
    if i % 4 == 0 {
      assert r == [w, x, y, z];
    } else if i % 4 == 1 {
      assert r == [z, w, x, y];
    } else if i % 4 == 2 {
      assert r == [y, z, w, x];
    } else {
      assert r == [x, y, z, w];
    }
  }

  /** A tic is skipped exactly when the node was ahead in four calls in a row. */
  lemma FourAhead(a: Node, b: Node, d: Node, e: Node, c: Config)
    requires Adapts(a, c) && Adapts(b, c) && Adapts(d, c) && Adapts(e, c)
    requires SameNotes(Adapt(a, c), b) && SameNotes(Adapt(b, c), d) && SameNotes(Adapt(d, c), e) && e.skiptics == 0
    ensures Adapt(e, c).skiptics == 1 <==> WasAhead(a) && WasAhead(b) && WasAhead(d) && WasAhead(e)
  {
    AheadNoted(a, c);
    AheadNoted(b, c);
    AheadNoted(d, c);
    AheadNoted(e, c);
    var i, w, x, y, z := a.frameon + 1, WasAhead(a), WasAhead(b), WasAhead(d), WasAhead(e);
    assert d.frameskip == a.frameskip[i % 4 := w][(i + 1) % 4 := x];
    assert Adapt(e, c).frameskip == a.frameskip[i % 4 := w][(i + 1) % 4 := x][(i + 2) % 4 := y][(i + 3) % 4 := z];
    FourMarks(a.frameskip, i, w, x, y, z);
  }

  /** What notes of requests from `src` the packets leave. */
  function NoteAll(n: Node, src: nat, pkts: seq<Packet>): (r: Node)
    requires src < |n.resendto| == |n.resendcount|
    ensures |r.resendto| == |r.resendcount| == |n.resendto|
    decreases |pkts|
  {
    if pkts == [] then n else NoteAll(NoteResend(n, src, pkts[0]), src, pkts[1..])
  }

  /** While a node pauses, what it is asked to send again does not change. */
  lemma {:induction false} PauseLasts(n: Node, src: nat, pkts: seq<Packet>)
    requires src < |n.resendto| == |n.resendcount| && |pkts| <= n.resendcount[src]
    ensures NoteAll(n, src, pkts).resendto == n.resendto && NoteAll(n, src, pkts).maketic == n.maketic
    ensures NoteAll(n, src, pkts).resendcount[src] == n.resendcount[src] - |pkts|
    decreases |pkts|
  {
    if pkts != [] {
      PauseLasts(NoteResend(n, src, pkts[0]), src, pkts[1..]);
    }
  }

  /** A request that is answered makes the node deaf to requests in the next ten packets of its
      sender, whatever they are; the eleventh is answered again if it is one. */
  lemma RequestsPause(n: Node, src: nat, request: Packet, pkts: seq<Packet>, later: Packet)
    requires src < |n.resendto| == |n.resendcount| && n.resendcount[src] <= 0
    requires request.flag == Retransmit && later.flag == Retransmit && |pkts| <= 10
    ensures var asked, after := NoteResend(n, src, request), NoteAll(NoteResend(n, src, request), src, pkts);
            && asked.resendto[src] == ExpandTics(request.retransmitfrom, n.maketic) && after.resendto == asked.resendto
            && NoteResend(after, src, later).resendto[src] ==
               if |pkts| == 10 then ExpandTics(later.retransmitfrom, n.maketic) else asked.resendto[src]
  {
    PauseLasts(NoteResend(n, src, request), src, pkts);
  }
}
