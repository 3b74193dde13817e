/** The game can go on: whatever packets of tics have been lost, as long as requests were answered
    promptly, every node that has not left can come to play any number of tics more. */
module LockstepProgress {
  import opened Lockstep
  import opened LockstepGame
  import opened LockstepRuns
  import opened Wrappers

  // -------------------------------------------------------------------- paths

  /** Moves that nobody quits by lead from one state to the other. */
  ghost predicate CanGo(g: Game, h: Game) {
    exists games: seq<Game>, moves: seq<Move> :: Path(games, moves, g, h)
  }

  ghost predicate Path(games: seq<Game>, moves: seq<Move>, g: Game, h: Game) {
    && |games| == |moves| + 1 && games[0] == g && games[|moves|] == h
    && forall k :: 0 <= k < |moves| ==> GoesBy(games[k], moves[k], games[k + 1])
  }

  ghost predicate GoesBy(g: Game, m: Move, h: Game) {
    Shape(g) && Enabled(g, m) && !m.Quit? && h == Apply(g, m)
  }

  lemma Stay(g: Game)
    ensures CanGo(g, g)
  {
    assert Path([g], [], g, g);
  }

  lemma GoOn(g: Game, k: Game, m: Move)
    requires CanGo(g, k) && Shape(k) && Enabled(k, m) && !m.Quit?
    ensures CanGo(g, Apply(k, m))
  {
    var games, moves :| Path(games, moves, g, k);
    var games', moves' := games + [Apply(k, m)], moves + [m];
    forall j | 0 <= j < |moves'| ensures GoesBy(games'[j], moves'[j], games'[j + 1]) {
      if j < |moves| {
        assert GoesBy(games[j], moves[j], games[j + 1]);
      }
    }
    assert Path(games', moves', g, Apply(k, m));
  }

  // --------------------------------------------------- what can still go on

  /** Who has left has been heard of, and what a node may have to send next still fits a packet. */
  ghost predicate Live(g: Game) {
    && Inv(g)
    && (forall i :: 0 <= i < g.cfg.nodes && g.running[i] ==> SelfInv(g, i))
    && (forall i, p :: 0 <= i < g.cfg.nodes && 0 <= p < g.cfg.nodes && WaitsFor(g, i, p) ==> g.running[p] && Room(g, i, p))
  }

  /** Node `i` plays, and node `p` is in its game. */
  ghost predicate WaitsFor(g: Game, i: nat, p: nat)
    requires Shape(g)
  {
    i < g.cfg.nodes && p < g.cfg.nodes && g.running[i] && g.nodes[i].ingame[p]
  }

  /** A node never is ahead of itself. */
  ghost predicate SelfInv(g: Game, i: nat)
    requires Shape(g) && i < g.cfg.nodes
  {
    g.nodes[i].resendto[i] <= g.nodes[i].nettics[i]
  }

  ghost predicate Room(g: Game, i: nat, p: nat)
    requires Shape(g) && i < g.cfg.nodes && p < g.cfg.nodes
  {
    Tic(g.nodes[i], g.cfg) <= g.nodes[i].resendto[p] + 7
  }

  lemma Ingame(g: Game, i: nat, p: nat)
    requires Live(g) && WaitsFor(g, i, p)
    ensures var n := g.nodes[i];
            && WaitsFor(g, p, i) && Tic(n, g.cfg) <= n.nettics[p] <= g.nodes[p].maketic <= Tic(g.nodes[p], g.cfg) + 5
            && 0 <= n.resendto[p] <= n.maketic && n.maketic <= Tic(n, g.cfg) + 5 && Tic(n, g.cfg) <= n.maketic
            && Room(g, i, p)
  {
    assert WaitsFor(g, i, p);
    assert PeerInv(g, p, i);
    assert PeerInv(g, i, p) && PeerInv(g, i, i) && NodeInv(g, i) && NodeInv(g, p);
  }

  // ------------------------------------------------------------------ updates

  /** A packet that a node takes from itself. */
  ghost predicate IsOwn(pkt: Packet, start: nat, have: nat, maketic: nat) {
    && start <= have <= maketic <= start + BACKUPTICS && pkt.starttic == start % 256 && |pkt.cmds| == maketic - start
    && (pkt.flag == Plain || (pkt.flag == Retransmit && pkt.retransmitfrom == have % 256))
  }

  lemma OwnPacket(b: Node, c: Config, i: nat)
    requires Shaped(b, c) && i < c.nodes
    requires 0 <= b.resendto[i] <= b.nettics[i] <= b.maketic <= b.resendto[i] + BACKUPTICS
    ensures IsOwn(PacketFor(b, i), b.resendto[i], b.nettics[i], b.maketic)
  {
  }

  lemma OwnNoted(a: Node, c: Config, i: nat, pkt: Packet, start: nat, have: nat)
    requires Shaped(a, c) && i < c.nodes && IsOwn(pkt, start, have, a.maketic)
    ensures var r := NoteResend(a, i, pkt);
            && Shaped(r, c) && r == a.(resendto := r.resendto, resendcount := r.resendcount)
            && (r.resendto[i] == a.resendto[i] || r.resendto[i] == have)
            && (forall q :: 0 <= q < c.nodes && q != i ==>
                  r.resendto[q] == a.resendto[q] && r.resendcount[q] == a.resendcount[q])
  {
    ExpandTicsExact(have, a.maketic);
  }

  lemma OwnTaken(a: Node, c: Config, i: nat, start: nat, cmds: seq<Ticcmd>)
    requires Shaped(a, c) && i < c.nodes && start <= a.nettics[i] <= a.maketic == start + |cmds|
    ensures var r := TakeTics(a, i, start, cmds);
            && Shaped(r, c) && r == a.(remoteresend := r.remoteresend, netcmds := r.netcmds, nettics := r.nettics)
            && r.nettics[i] == a.maketic
            && (forall q :: 0 <= q < c.nodes && q != i ==>
                  r.nettics[q] == a.nettics[q] && r.remoteresend[q] == a.remoteresend[q])
  {
  }

  /** A node's own packet is never ahead of what the node has of itself. */
  lemma OwnPacketTaken(b: Node, c: Config, i: nat)
    requires Shaped(b, c) && b.me == i && b.ingame[i]
    requires 0 <= b.resendto[i] <= b.nettics[i] <= b.maketic <= b.resendto[i] + BACKUPTICS
    ensures var r := Receive(AfterSend(b, c), i, PacketFor(b, i));
            && r.Some? && Shaped(r.value, c) && r.value.nettics[i] == b.maketic
            && (r.value.resendto[i] == b.maketic - c.extratics || r.value.resendto[i] == b.nettics[i])
            && (forall q :: 0 <= q < c.nodes && q != i ==>
                  && r.value.nettics[q] == b.nettics[q] && r.value.remoteresend[q] == b.remoteresend[q]
                  && r.value.resendcount[q] == b.resendcount[q]
                  && r.value.resendto[q] == if b.ingame[q] then b.maketic - c.extratics else b.resendto[q])
            && r.value == b.(resendto := r.value.resendto, resendcount := r.value.resendcount,
                             remoteresend := r.value.remoteresend, netcmds := r.value.netcmds, nettics := r.value.nettics)
  {
    var a, pkt := AfterSend(b, c), PacketFor(b, i);
    OwnPacket(b, c, i);
    ExpandTicsExact(b.resendto[i], b.maketic);
    OwnNoted(a, c, i, pkt, b.resendto[i], b.nettics[i]);
    OwnTaken(NoteResend(a, i, pkt), c, i, b.resendto[i], pkt.cmds);
  }

  /** One tic is due at node `i`. */
  ghost function Tick(g: Game, i: nat): Move
    requires Shape(g) && i < g.cfg.nodes
  {
    Update(i, g.nodes[i].gametime + g.nodes[i].skiptics + 1, [NO_COMMAND])
  }

  ghost function TickBuilt(g: Game, i: nat): (b: Node)
    requires Shape(g) && i < g.cfg.nodes
    ensures Shaped(b, g.cfg)
  {
    var n := g.nodes[i];
    BuildKeeps(n.(gametime := n.gametime + n.skiptics + 1, skiptics := DueTics(n, n.skiptics + 1).1), g.cfg, [NO_COMMAND]);
    Built(n, g.cfg, n.gametime + n.skiptics + 1, [NO_COMMAND])
  }

  lemma TickEnabled(g: Game, i: nat)
    requires Shape(g) && i < g.cfg.nodes && g.running[i]
    ensures Enabled(g, Tick(g, i))
  {
    assert DueTics(g.nodes[i], g.nodes[i].skiptics + 1) == (1, 0);
  }

  /** A due tic is built if the node would otherwise have nothing to send of the tic it plays. */
  lemma TickBuilds(g: Game, i: nat)
    requires Live(g) && i < g.cfg.nodes && g.running[i]
    ensures var n, b := g.nodes[i], TickBuilt(g, i);
            && b == n.(gametime := b.gametime, skiptics := b.skiptics, localcmds := b.localcmds, maketic := b.maketic)
            && n.maketic <= b.maketic <= Tic(n, g.cfg) + 5 && Tic(n, g.cfg) < b.maketic
            && !SendFails(b) && forall q :: 0 <= q < g.cfg.nodes && b.ingame[q] ==> b.maketic <= b.resendto[q] + BACKUPTICS
  {
    TickEnabled(g, i);
    BuiltNode(g, i, g.nodes[i].gametime + g.nodes[i].skiptics + 1, [NO_COMMAND]);
    SendFailsExactly(g, i, g.nodes[i].gametime + g.nodes[i].skiptics + 1, [NO_COMMAND]);
    Ingame(g, i, i);
    var n := g.nodes[i];
    BuildKeeps(n.(gametime := n.gametime + n.skiptics + 1, skiptics := DueTics(n, n.skiptics + 1).1), g.cfg, [NO_COMMAND]);
    forall q | 0 <= q < g.cfg.nodes && n.ingame[q] ensures TickBuilt(g, i).maketic <= n.resendto[q] + BACKUPTICS {
      Ingame(g, i, q);
    }
  }

  /** What a tick of node `i` does. */
  ghost predicate Ticked(g: Game, h: Game, i: nat)
    requires Shape(g) && i < g.cfg.nodes
  {
    && Idle(g, h) && g.network <= h.network
    && (forall j :: 0 <= j < g.cfg.nodes && j != i ==> h.nodes[j] == g.nodes[j])
    && var n, n' := g.nodes[i], h.nodes[i];
       && n.maketic <= n'.maketic && Tic(n, g.cfg) < n'.maketic && n'.nettics[i] == n'.maketic
       && (forall q :: 0 <= q < g.cfg.nodes && n.ingame[q] ==> Tic(n, g.cfg) <= n'.resendto[q])
       && (forall q :: 0 <= q < g.cfg.nodes && q != i ==>
             n'.nettics[q] == n.nettics[q] && n'.remoteresend[q] == n.remoteresend[q] && n'.resendcount[q] == n.resendcount[q])
  }

  /** Nobody has played or left. */
  ghost predicate Idle(g: Game, h: Game) {
    && Shape(g) && Shape(h) && h.cfg == g.cfg && h.running == g.running
    && forall j :: 0 <= j < g.cfg.nodes ==> h.nodes[j].gametic == g.nodes[j].gametic && h.nodes[j].ingame == g.nodes[j].ingame
  }

  /** A packet that node `i` has sent to node `p` when it has built up to `maketic`. */
  ghost predicate IsSent(s: Sent, n: Node, i: nat, p: nat, maketic: nat)
    requires p < |n.resendto| == |n.nettics| == |n.remoteresend|
  {
    && s.src == i && s.dst == p && s.start == n.resendto[p] && s.resendfrom == n.nettics[p]
    && s.start + |s.pkt.cmds| == maketic && s.pkt.flag == if n.remoteresend[p] then Retransmit else Plain
  }

  lemma TickApplies(g: Game, i: nat)
    requires Live(g) && i < g.cfg.nodes && g.running[i]
    ensures Enabled(g, Tick(g, i))
    ensures var b, h := TickBuilt(g, i), Apply(g, Tick(g, i));
            var r := Receive(AfterSend(b, g.cfg), i, PacketFor(b, i));
            r.Some? && h.cfg == g.cfg && h.running == g.running && h.nodes == g.nodes[i := r.value]
            && h.network == g.network + DataPackets(b)
  {
    TickEnabled(g, i);
    TickBuilds(g, i);
    Ingame(g, i, i);
    OwnPacketTaken(TickBuilt(g, i), g.cfg, i);
  }

  lemma TickKeepsRoom(g: Game, h: Game, i: nat)
    requires Live(g) && i < g.cfg.nodes && Inv(h) && Ticked(g, h, i) && SelfInv(h, i)
    ensures Live(h)
  {
    forall j | 0 <= j < g.cfg.nodes && h.running[j] ensures SelfInv(h, j) {
      assert SelfInv(g, j);
    }
    forall j, p | 0 <= j < g.cfg.nodes && 0 <= p < g.cfg.nodes && WaitsFor(h, j, p) ensures h.running[p] && Room(h, j, p) {
      assert WaitsFor(g, j, p);
    }
  }

  lemma TickIsTicked(g: Game, h: Game, i: nat)
    requires Live(g) && i < g.cfg.nodes && g.running[i] && h == Apply(g, Tick(g, i)) && Shape(h)
    ensures Ticked(g, h, i) && SelfInv(h, i) && h.nodes[i].maketic == TickBuilt(g, i).maketic
  {
    var b := TickBuilt(g, i);
    TickApplies(g, i);
    TickBuilds(g, i);
    Ingame(g, i, i);
    assert SelfInv(g, i);
    OwnPacketTaken(b, g.cfg, i);
  }

  lemma TickIsSent(g: Game, i: nat, p: nat)
    requires Live(g) && WaitsFor(g, i, p) && p != i
    ensures var b := TickBuilt(g, i);
            var s := Sent(i, p, PacketFor(b, p), b.resendto[p], b.nettics[p]);
            s in DataPackets(b) && IsSent(s, g.nodes[i], i, p, b.maketic)
  {
    TickBuilds(g, i);
    Ingame(g, i, p);
    assert NumTics(TickBuilt(g, i), p) <= BACKUPTICS;
  }

  /** A tick of node `i`, and the packet that node `p` may get from it. */
  lemma Ticks(start: Game, g: Game, i: nat, p: nat) returns (h: Game, s: Sent)
    requires Live(g) && CanGo(start, g) && WaitsFor(g, i, p)
    ensures Live(h) && CanGo(start, h) && Ticked(g, h, i)
    ensures p != i ==> s in h.network && IsSent(s, g.nodes[i], i, p, h.nodes[i].maketic)
  {
    var b := TickBuilt(g, i);
    TickApplies(g, i);
    h := Apply(g, Tick(g, i));
    MoveKeepsInv(g, Tick(g, i));
    GoOn(start, g, Tick(g, i));
    TickIsTicked(g, h, i);
    TickKeepsRoom(g, h, i);
    s := Sent(i, p, PacketFor(b, p), b.resendto[p], b.nettics[p]);
    if p != i {
      TickIsSent(g, i, p);
    }
  }

  // --------------------------------------------------------------- deliveries

  /** What a packet of tics does to node `i`. */
  ghost predicate Took(n: Node, n': Node, c: Config, s: Sent)
    requires Shaped(n, c) && Shaped(n', c) && s.src < c.nodes
  {
    var p, have, end := s.src, n.nettics[s.src], s.start + |s.pkt.cmds|;
    && n'.gametic == n.gametic && n'.maketic == n.maketic && n'.ingame == n.ingame
    && n'.nettics[p] == (if end > have >= s.start then end else have)
    && n'.remoteresend[p] == (if end <= have then n.remoteresend[p] else s.start > have)
    && (if n.resendcount[p] <= 0 && s.pkt.flag == Retransmit then n'.resendto[p] == s.resendfrom
        else n'.resendto[p] == n.resendto[p] && n'.resendcount[p] == n.resendcount[p] - 1)
    && (forall q :: 0 <= q < c.nodes && q != p ==>
          && n'.nettics[q] == n.nettics[q] && n'.resendto[q] == n.resendto[q])
  }

  /** The packet is of tics, and neither it nor what it asks for is old. */
  ghost predicate Recent(g: Game, i: nat, s: Sent)
    requires Shape(g) && i < g.cfg.nodes
  {
    && s in g.network && s.dst == i && (s.pkt.flag == Plain || s.pkt.flag == Retransmit)
    && -STALE <= s.start - g.nodes[i].maketic <= STALE
    && (s.pkt.flag == Retransmit ==>
          && 0 <= s.resendfrom <= g.nodes[i].maketic <= s.resendfrom + STALE && Tic(g.nodes[i], g.cfg) <= s.resendfrom + 7)
  }

  lemma TakesPacket(g: Game, i: nat, s: Sent)
    requires Inv(g) && i < g.cfg.nodes && g.running[i] && Recent(g, i, s)
    ensures Enabled(g, Deliver(i, s)) && s.src < g.cfg.nodes && s.src != i
    ensures var h := Apply(g, Deliver(i, s));
            && |h.nodes| == g.cfg.nodes && Shaped(h.nodes[i], g.cfg) && Took(g.nodes[i], h.nodes[i], g.cfg, s)
            && h == g.(nodes := g.nodes[i := h.nodes[i]])
  {
    assert SentInv(g, s);
    ExpandTicsExact(s.start, g.nodes[i].maketic);
    if s.pkt.flag == Retransmit {
      ExpandTicsExact(s.resendfrom, g.nodes[i].maketic);
    }
  }

  lemma Arrives(start: Game, g: Game, i: nat, s: Sent) returns (h: Game)
    requires Live(g) && CanGo(start, g) && i < g.cfg.nodes && g.running[i] && Recent(g, i, s)
    ensures Live(h) && CanGo(start, h) && Idle(g, h) && h.network == g.network
    ensures s.src < g.cfg.nodes && s.src != i && Took(g.nodes[i], h.nodes[i], g.cfg, s)
    ensures forall j :: 0 <= j < g.cfg.nodes && j != i ==> h.nodes[j] == g.nodes[j]
  {
    TakesPacket(g, i, s);
    h := Apply(g, Deliver(i, s));
    MoveKeepsInv(g, Deliver(i, s));
    GoOn(start, g, Deliver(i, s));
    forall j | 0 <= j < g.cfg.nodes && h.running[j] ensures SelfInv(h, j) {
      assert SelfInv(g, j);
    }
    forall j, p | 0 <= j < g.cfg.nodes && 0 <= p < g.cfg.nodes && WaitsFor(h, j, p) ensures h.running[p] && Room(h, j, p) {
      assert WaitsFor(g, j, p);
    }
  }

  /** A request is delivered until the node follows it. */
  lemma {:induction false} Asks(start: Game, g: Game, p: nat, s: Sent, count: nat) returns (h: Game)
    requires Live(g) && CanGo(start, g) && p < g.cfg.nodes && g.running[p] && Recent(g, p, s) && s.pkt.flag == Retransmit
    requires s.src < g.cfg.nodes && g.nodes[p].resendcount[s.src] <= count
    ensures Live(h) && CanGo(start, h) && Idle(g, h) && h.network == g.network
    ensures h.nodes[p].resendto[s.src] == s.resendfrom && h.nodes[p].maketic == g.nodes[p].maketic
    ensures forall j :: 0 <= j < g.cfg.nodes && j != p ==> h.nodes[j] == g.nodes[j]
    decreases count
  {
    h := Arrives(start, g, p, s);
    if g.nodes[p].resendcount[s.src] > 0 {
      h := Asks(start, h, p, s, count - 1);
    }
  }

  // ----------------------------------------------------------------- fetching

  /** Node `i` is the slowest of those that play. */
  ghost predicate Slowest(g: Game, i: nat)
    requires Shape(g) && i < g.cfg.nodes
  {
    g.running[i] && forall q :: 0 <= q < g.cfg.nodes && g.running[q] ==> Tic(g.nodes[i], g.cfg) <= Tic(g.nodes[q], g.cfg)
  }

  /** Nobody has played, and node `i` knows at least as much as before. */
  ghost predicate Learned(g: Game, h: Game, i: nat)
    requires Shape(g) && i < g.cfg.nodes
  {
    Idle(g, h) && forall q :: 0 <= q < g.cfg.nodes ==> g.nodes[i].nettics[q] <= h.nodes[i].nettics[q]
  }

  /** Nodes are close enough to each other for whatever they send to be recent. */
  lemma Close(g: Game, i: nat, p: nat)
    requires Live(g) && WaitsFor(g, i, p) && Slowest(g, i)
    ensures var t, m, n := Tic(g.nodes[i], g.cfg), g.nodes[i], g.nodes[p];
            && t <= Tic(n, g.cfg) <= t + 5 && t <= m.maketic <= t + 5 && t <= n.maketic <= t + 10
            && t - 7 <= m.resendto[p] <= t + 5 && t - 7 <= n.resendto[i] <= t + 10
            && t <= n.nettics[i] <= m.maketic && t <= m.nettics[p] <= n.maketic
  {
    Ingame(g, i, p);
    Ingame(g, p, i);
    Ingame(g, i, i);
    Ingame(g, p, p);
  }

  /** The packet that node `p` sends at its next tick arrives at the slowest node. */
  lemma SendsTo(start: Game, g: Game, i: nat, p: nat) returns (h: Game)
    requires Live(g) && CanGo(start, g) && WaitsFor(g, i, p) && p != i && Slowest(g, i)
    requires g.nodes[i].nettics[p] == Tic(g.nodes[i], g.cfg)
    ensures Live(h) && CanGo(start, h) && Learned(g, h, i)
    ensures if g.nodes[p].resendto[i] <= Tic(g.nodes[i], g.cfg) then h.nodes[i].nettics[p] > Tic(g.nodes[i], g.cfg)
            else h.nodes[i].nettics[p] == g.nodes[i].nettics[p] && h.nodes[i].remoteresend[p]
  {
    var s;
    Ingame(g, i, p);
    h, s := Ticks(start, g, p, i);
    Close(g, i, p);
    Close(h, i, p);
    assert Recent(h, i, s);
    h := Arrives(start, h, i, s);
  }

  /** The slowest node, which wants tics again, gets node `p` to send from there. */
  lemma AsksFor(start: Game, g: Game, i: nat, p: nat) returns (h: Game)
    requires Live(g) && CanGo(start, g) && WaitsFor(g, i, p) && p != i && Slowest(g, i)
    requires g.nodes[i].nettics[p] == Tic(g.nodes[i], g.cfg) && g.nodes[i].remoteresend[p]
    ensures Live(h) && CanGo(start, h) && Learned(g, h, i)
    ensures h.nodes[i].nettics[p] == g.nodes[i].nettics[p] && h.nodes[p].resendto[i] == Tic(g.nodes[i], g.cfg)
  {
    var s;
    h, s := Ticks(start, g, i, p);
    Ingame(g, i, i);
    Close(g, i, p);
    Close(h, i, p);
    assert Recent(h, p, s);
    var count := h.nodes[p].resendcount[i];
    h := Asks(start, h, p, s, if count > 0 then count else 0);
  }

  /** The slowest node gets the tic it waits for from node `p`, by asking for it if it was lost. */
  lemma Fetches(start: Game, g: Game, i: nat, p: nat) returns (h: Game)
    requires Live(g) && CanGo(start, g) && WaitsFor(g, i, p) && Slowest(g, i)
    ensures Live(h) && CanGo(start, h) && Learned(g, h, i) && h.nodes[i].nettics[p] > Tic(g.nodes[i], g.cfg)
  {
    Ingame(g, i, p);
    if g.nodes[i].nettics[p] > Tic(g.nodes[i], g.cfg) {
      h := g;
    } else if p == i {
      var s;
      h, s := Ticks(start, g, i, i);
    } else {
      h := SendsTo(start, g, i, p);
      if g.nodes[p].resendto[i] > Tic(g.nodes[i], g.cfg) {
        h := AsksFor(start, h, i, p);
        h := SendsTo(start, h, i, p);
      }
    }
  }

  lemma {:induction false} FetchesAll(start: Game, g: Game, i: nat, k: nat) returns (h: Game)
    requires Live(g) && CanGo(start, g) && i < g.cfg.nodes && k <= g.cfg.nodes && Slowest(g, i)
    ensures Live(h) && CanGo(start, h) && Learned(g, h, i)
    ensures forall p :: 0 <= p < k && g.nodes[i].ingame[p] ==> h.nodes[i].nettics[p] > Tic(g.nodes[i], g.cfg)
    decreases k
  {
    if k == 0 {
      h := g;
    } else {
      h := FetchesAll(start, g, i, k - 1);
      if g.nodes[i].ingame[k - 1] {
        h := Fetches(start, h, i, k - 1);
      }
    }
  }

  // ------------------------------------------------------------------ playing

  /** Node `i` has played one tic more, and nobody else has. */
  ghost predicate PlayedOne(g: Game, h: Game, i: nat)
    requires Shape(g) && i < g.cfg.nodes
  {
    && Shape(h) && h.cfg == g.cfg && h.running == g.running
    && (forall j :: 0 <= j < g.cfg.nodes && j != i ==> h.nodes[j].gametic == g.nodes[j].gametic)
    && Tic(h.nodes[i], g.cfg) == Tic(g.nodes[i], g.cfg) + 1
  }

  lemma PlayGoes(start: Game, g: Game, i: nat) returns (h: Game)
    requires Live(g) && CanGo(start, g) && i < g.cfg.nodes && g.running[i] && CanPlay(g.nodes[i], g.cfg)
    requires forall q :: 0 <= q < g.cfg.nodes && g.nodes[i].ingame[q] ==> Tic(g.nodes[i], g.cfg) <= g.nodes[i].resendto[q]
    ensures Live(h) && CanGo(start, h) && PlayedOne(g, h, i)
  {
    h := Apply(g, Play(i));
    MoveKeepsInv(g, Play(i));
    GoOn(start, g, Play(i));
    PlayReplays(g, i);
    PlayFromRows(g, i, g.nodes[i], 0, Tic(g.nodes[i], g.cfg));
    NextTic(g.nodes[i].gametic, g.cfg.ticdup);
    forall j | 0 <= j < g.cfg.nodes && h.running[j] ensures SelfInv(h, j) {
      assert SelfInv(g, j);
    }
    forall j, p | 0 <= j < g.cfg.nodes && 0 <= p < g.cfg.nodes && WaitsFor(h, j, p) ensures h.running[p] && Room(h, j, p) {
      assert WaitsFor(g, j, p);
    }
  }

  /** The slowest node plays its next tic. */
  lemma SlowestPlays(start: Game, g: Game, i: nat) returns (h: Game)
    requires Live(g) && CanGo(start, g) && i < g.cfg.nodes && Slowest(g, i)
    ensures Live(h) && CanGo(start, h) && PlayedOne(g, h, i)
  {
    var s;
    h := FetchesAll(start, g, i, g.cfg.nodes);
    var k := h;
    h, s := Ticks(start, h, i, i);
    assert forall p :: 0 <= p < g.cfg.nodes && p != i ==> h.nodes[i].nettics[p] == k.nodes[i].nettics[p];
    assert CanPlay(h.nodes[i], h.cfg);
    h := PlayGoes(start, h, i);
  }

  ghost predicate AllAt(g: Game, k: nat, tic: nat)
    requires Shape(g) && k <= g.cfg.nodes
  {
    forall j :: 0 <= j < k && g.running[j] ==> tic <= Tic(g.nodes[j], g.cfg)
  }

  /** From all nodes at a tic to the first `k` of them at the next. */
  lemma {:induction false} OneByOne(start: Game, g: Game, k: nat, tic: nat) returns (h: Game)
    requires Live(g) && CanGo(start, g) && k <= g.cfg.nodes && AllAt(g, g.cfg.nodes, tic)
    ensures Live(h) && CanGo(start, h) && h.cfg == g.cfg && h.running == g.running
    ensures AllAt(h, g.cfg.nodes, tic) && AllAt(h, k, tic + 1)
    decreases k
  {
    if k == 0 {
      h := g;
    } else {
      h := OneByOne(start, g, k - 1, tic);
      if h.running[k - 1] && Tic(h.nodes[k - 1], h.cfg) == tic {
        var h0 := h;
        h := SlowestPlays(start, h0, k - 1);
        assert forall j :: 0 <= j < g.cfg.nodes && j != k - 1 ==> Tic(h.nodes[j], h.cfg) == Tic(h0.nodes[j], h.cfg);
      }
    }
  }

  lemma {:induction false} AllReach(start: Game, g: Game, tic: nat) returns (h: Game)
    requires Live(g) && CanGo(start, g)
    ensures Live(h) && CanGo(start, h) && h.cfg == g.cfg && h.running == g.running && AllAt(h, g.cfg.nodes, tic)
    decreases tic
  {
    if tic == 0 {
      h := g;
    } else {
      h := AllReach(start, g, tic - 1);
      h := OneByOne(start, h, g.cfg.nodes, tic - 1);
    }
  }

  // -------------------------------------------------------------- every game

  lemma UpdateKeepsSelf(g: Game, i: nat, now: int, input: seq<Ticcmd>)
    requires Inv(g) && Enabled(g, Update(i, now, input)) && SelfInv(g, i) && Shape(Apply(g, Update(i, now, input)))
    ensures SelfInv(Apply(g, Update(i, now, input)), i)
  {
    assert PeerInv(g, i, i);
    if now > g.nodes[i].gametime {
      BuiltNode(g, i, now, input);
      SendFailsExactly(g, i, now, input);
      var b := Built(g.nodes[i], g.cfg, now, input);
      if !SendFails(b) {
        OwnPacketTaken(b, g.cfg, i);
      }
    }
  }

  lemma DeliverKeepsSelf(n: Node, c: Config, src: nat, pkt: Packet, i: nat)
    requires Shaped(n, c) && src < c.nodes && i < c.nodes && src != i && n.resendto[i] <= n.nettics[i]
    ensures match Receive(n, src, pkt)
            case Some(r) => Shaped(r, c) && r.resendto[i] == n.resendto[i] && r.nettics[i] == n.nettics[i]
            case None => true
  {
  }

  lemma MoveKeepsSelf(g: Game, m: Move, i: nat)
    requires Inv(g) && Enabled(g, m) && i < g.cfg.nodes && SelfInv(g, i)
    ensures Inv(Apply(g, m)) && Apply(g, m).cfg == g.cfg && SelfInv(Apply(g, m), i)
  {
    MoveKeepsInv(g, m);
    if m.i == i {
      match m
      case Update(_, now, input) => UpdateKeepsSelf(g, i, now, input);
      case Deliver(_, s) =>
        assert SentInv(g, s);
        DeliverKeepsSelf(g.nodes[i], g.cfg, s.src, s.pkt, i);
      case Play(_) =>
        PlayReplays(g, i);
        PlayFromRows(g, i, g.nodes[i], 0, Tic(g.nodes[i], g.cfg));
      case AdaptClock(_) =>
      case Quit(_) =>
    }
  }

  lemma {:induction false} SelfAlways(c: Config, games: seq<Game>, moves: seq<Move>, i: nat)
    requires c.Valid() && Runs(c, games, moves) && i < c.nodes
    ensures var g := games[|moves|]; Inv(g) && g.cfg == c && SelfInv(g, i)
    decreases |moves|
  {
    if moves == [] {
      StartInv(c);
    } else {
      var last := |moves| - 1;
      SelfAlways(c, games[..last + 1], moves[..last], i);
      assert Leads(games[last], moves[last], games[last + 1]);
      MoveKeepsSelf(games[last], moves[last], i);
    }
  }

  lemma LosingKeepsInv(g: Game, kept: set<Sent>)
    requires Inv(g) && kept <= g.network
    ensures Inv(g.(network := kept))
  {
    var h := g.(network := kept);
    forall i | 0 <= i < g.cfg.nodes ensures NodeInv(h, i) && PlayedInv(h, i) {
      assert NodeInv(g, i) && PlayedInv(g, i);
      forall k | 0 <= k < |h.played[i]| ensures RowInv(h, k, h.played[i][k]) {
        assert RowInv(g, k, g.played[i][k]);
      }
    }
    forall i, p | 0 <= i < g.cfg.nodes && 0 <= p < g.cfg.nodes ensures PeerInv(h, i, p) {
      assert PeerInv(g, i, p);
    }
    forall s | s in kept ensures SentInv(h, s) {
      assert SentInv(g, s);
    }
  }

  // --------------------------------------------------------------- departures

  /** The packet that tells node `i` that node `p` has left. */
  function Farewell(p: nat, i: nat): Sent {
    Sent(p, i, Packet(Exit, 0, 0, p, []), 0, 0)
  }

  /** Who has not heard that a node has left was sent word of it. */
  ghost predicate WordSent(g: Game, i: nat, p: nat)
    requires Shape(g) && i < g.cfg.nodes && p < g.cfg.nodes
  {
    WaitsFor(g, i, p) && !g.running[p] ==> Farewell(p, i) in g.network
  }

  lemma LeaverSends(g: Game, n: Node, i: nat, p: nat)
    requires Inv(g) && WaitsFor(g, i, p) && i != p && g.running[p] && Shaped(n, g.cfg) && n.me == p && n.ingame == g.nodes[p].ingame
    ensures Farewell(p, i) in ExitPackets(n)
  {
    assert PeerInv(g, p, i);
  }

  lemma UpdateSendsWord(g: Game, j: nat, now: int, input: seq<Ticcmd>, i: nat, p: nat)
    requires Inv(g) && Enabled(g, Update(j, now, input)) && i < g.cfg.nodes && p < g.cfg.nodes && WordSent(g, i, p)
    requires Inv(Apply(g, Update(j, now, input)))
    ensures WordSent(Apply(g, Update(j, now, input)), i, p)
  {
    if now > g.nodes[j].gametime {
      BuiltNode(g, j, now, input);
      var b := Built(g.nodes[j], g.cfg, now, input);
      assert g.running[j];
      if SendFails(b) {
        if i != p && j == p && WaitsFor(g, i, p) {
          LeaverSends(g, b, i, p);
        }
      } else {
        UpdateKeepsGame(b, g.cfg, j);
      }
    }
  }

  lemma UpdateKeepsGame(b: Node, c: Config, j: nat)
    requires Shaped(b, c) && j < c.nodes
    ensures match Receive(AfterSend(b, c), j, PacketFor(b, j))
            case Some(r) => r.ingame == b.ingame
            case None => true
  {
  }

  lemma MoveSendsWord(g: Game, m: Move, i: nat, p: nat)
    requires Inv(g) && Enabled(g, m) && i < g.cfg.nodes && p < g.cfg.nodes && WordSent(g, i, p)
    ensures Inv(Apply(g, m)) && Apply(g, m).cfg == g.cfg && WordSent(Apply(g, m), i, p)
  {
    MoveKeepsInv(g, m);
    match m
    case Update(j, now, input) => UpdateSendsWord(g, j, now, input, i, p);
    case Deliver(j, s) => assert SentInv(g, s);
    case Play(j) =>
      PlayReplays(g, j);
      PlayFromRows(g, j, g.nodes[j], 0, Tic(g.nodes[j], g.cfg));
    case AdaptClock(j) =>
    case Quit(j) =>
      if i != p && j == p && WaitsFor(g, i, p) {
        LeaverSends(g, g.nodes[p], i, p);
      }
  }

  lemma {:induction false} WordAlwaysSent(c: Config, games: seq<Game>, moves: seq<Move>, i: nat, p: nat)
    requires c.Valid() && Runs(c, games, moves) && i < c.nodes && p < c.nodes
    ensures var g := games[|moves|]; Inv(g) && g.cfg == c && WordSent(g, i, p)
    decreases |moves|
  {
    if moves == [] {
      StartInv(c);
    } else {
      var last := |moves| - 1;
      WordAlwaysSent(c, games[..last + 1], moves[..last], i, p);
      assert Leads(games[last], moves[last], games[last + 1]);
      MoveSendsWord(games[last], moves[last], i, p);
    }
  }

  lemma {:induction false} ResendAlways(c: Config, games: seq<Game>, moves: seq<Move>)
    requires c.Valid() && RunsPromptly(c, games, moves)
    ensures var g := games[|moves|]; Inv(g) && g.cfg == c && ResendInv(g)
    decreases |moves|
  {
    if moves == [] {
      StartInv(c);
    } else {
      var last := |moves| - 1;
      ResendAlways(c, games[..last + 1], moves[..last]);
      assert Leads(games[last], moves[last], games[last + 1]) && DeliversPromptly(games[last], moves[last]);
      MoveKeepsInv(games[last], moves[last]);
      PromptKeepsResend(games[last], moves[last]);
    }
  }

  /** Everything but that departures may not have been heard of. */
  ghost predicate Waiting(g: Game) {
    && Inv(g)
    && (forall i :: 0 <= i < g.cfg.nodes && g.running[i] ==> SelfInv(g, i))
    && (forall i, p :: 0 <= i < g.cfg.nodes && 0 <= p < g.cfg.nodes ==>
          WordSent(g, i, p) && (WaitsFor(g, i, p) ==> Room(g, i, p)))
  }

  /** Nodes below `k` have heard of all departures, and node `k` of those below `q`. */
  ghost predicate Heard(g: Game, k: nat, q: nat)
    requires Shape(g)
  {
    forall i, p :: 0 <= i < g.cfg.nodes && 0 <= p < g.cfg.nodes && (i < k || (i == k && p < q)) && WaitsFor(g, i, p) ==> g.running[p]
  }

  /** Word of a departure arrives. */
  lemma Hears(start: Game, g: Game, i: nat, p: nat) returns (h: Game)
    requires Waiting(g) && CanGo(start, g) && i < g.cfg.nodes && p < g.cfg.nodes && Heard(g, i, p)
    ensures Waiting(h) && CanGo(start, h) && h.cfg == g.cfg && h.running == g.running && Heard(h, i, p + 1)
  {
    h := g;
    if WaitsFor(g, i, p) && !g.running[p] {
      assert WordSent(g, i, p);
      var m := Deliver(i, Farewell(p, i));
      assert Enabled(g, m);
      h := Apply(g, m);
      MoveKeepsInv(g, m);
      GoOn(start, g, m);
      HeardKeeps(g, h, i, p);
    }
  }

  lemma HeardKeeps(g: Game, h: Game, i: nat, p: nat)
    requires Waiting(g) && Inv(h) && i < g.cfg.nodes && p < g.cfg.nodes && Heard(g, i, p) && g.running[i]
    requires h == g.(nodes := g.nodes[i := g.nodes[i].(ingame := g.nodes[i].ingame[p := false])])
    ensures Waiting(h) && Heard(h, i, p + 1)
  {
    forall j | 0 <= j < g.cfg.nodes && h.running[j] ensures SelfInv(h, j) {
      assert SelfInv(g, j);
    }
    forall j, q | 0 <= j < g.cfg.nodes && 0 <= q < g.cfg.nodes ensures WordSent(h, j, q) && (WaitsFor(h, j, q) ==> Room(h, j, q)) {
      assert WordSent(g, j, q);
    }
    forall j, q | 0 <= j < g.cfg.nodes && 0 <= q < g.cfg.nodes && (j < i || (j == i && q < p + 1)) && WaitsFor(h, j, q)
      ensures h.running[q]
    {
      assert WaitsFor(g, j, q);
    }
  }

  lemma {:induction false} HearsAll(start: Game, g: Game, k: nat, q: nat) returns (h: Game)
    requires Waiting(g) && CanGo(start, g) && k <= g.cfg.nodes && q <= g.cfg.nodes && (q > 0 ==> k < g.cfg.nodes)
    ensures Waiting(h) && CanGo(start, h) && h.cfg == g.cfg && h.running == g.running && Heard(h, k, q)
    decreases k, q
  {
    if q > 0 {
      h := HearsAll(start, g, k, q - 1);
      h := Hears(start, h, k, q - 1);
    } else if k > 0 {
      h := HearsAll(start, g, k - 1, g.cfg.nodes);
    } else {
      h := g;
    }
  }

  lemma PromptIsWaiting(c: Config, games: seq<Game>, moves: seq<Move>, kept: set<Sent>)
    requires c.Valid() && RunsPromptly(c, games, moves)
    requires kept <= games[|moves|].network && forall s :: s in games[|moves|].network && s.pkt.flag == Exit ==> s in kept
    ensures games[|moves|].cfg == c && Waiting(games[|moves|].(network := kept))
  {
    var g := games[|moves|];
    var h := g.(network := kept);
    ResendAlways(c, games, moves);
    LosingKeepsInv(g, kept);
    forall i | 0 <= i < c.nodes && h.running[i] ensures SelfInv(h, i) {
      SelfAlways(c, games, moves, i);
    }
    forall i, p | 0 <= i < c.nodes && 0 <= p < c.nodes ensures WordSent(h, i, p) && (WaitsFor(h, i, p) ==> Room(h, i, p)) {
      WordAlwaysSent(c, games, moves, i, p);
      assert PeerInv(g, i, i);
    }
  }

  /** From every state of a game in which requests were prompt, whatever packets of tics are lost
      from now on and whoever has left, moves in which nobody leaves bring every node that is
      still there as far as one likes. */
  lemma GameGoesOn(c: Config, games: seq<Game>, moves: seq<Move>, kept: set<Sent>, tics: nat) returns (h: Game)
    requires c.Valid() && RunsPromptly(c, games, moves)
    requires kept <= games[|moves|].network && forall s :: s in games[|moves|].network && s.pkt.flag == Exit ==> s in kept
    ensures CanGo(games[|moves|].(network := kept), h) && Inv(h) && h.cfg == c && h.running == games[|moves|].running
    ensures forall i :: 0 <= i < c.nodes && h.running[i] ==> |h.played[i]| >= c.ticdup * tics
  {
    var g := games[|moves|].(network := kept);
    PromptIsWaiting(c, games, moves, kept);
    Stay(g);
    h := HearsAll(g, g, c.nodes, 0);
    assert Live(h);
    h := AllReach(g, h, tics);
    forall i | 0 <= i < c.nodes && h.running[i] ensures |h.played[i]| >= c.ticdup * tics {
      assert PlayedInv(h, i) && tics <= Tic(h.nodes[i], c);
      TicsPlayed(h.nodes[i].gametic, c.ticdup, tics);
    }
  }

  lemma TicsPlayed(gametic: nat, ticdup: nat, tics: nat)
    requires ticdup > 0 && tics <= gametic / ticdup
    ensures gametic >= ticdup * tics
  {
    var q := gametic / ticdup;
    assert gametic >= ticdup * q;
    assert ticdup * q >= ticdup * tics;
  }
}
