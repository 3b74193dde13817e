/** A whole game in which a request for old tics arrives late and stops the node that answers it. */
module LockstepHalt {
  import opened Lockstep
  import opened LockstepGame
  import opened LockstepRuns
  import opened Wrappers

  const TWO_PLAYERS := Config(2, 1, 0)

  // ------------------------------------------------- what matters about a node

  /** Tics built, played and received from the other node, the next tic to send to it, and
      whether its tics are to be sent again. */
  datatype Counters = Counters(make: nat, game: nat, net: nat, to: nat, wants: bool)

  ghost predicate Counts(n: Node, i: nat, k: Counters) {
    && Shaped(n, TWO_PLAYERS) && i < 2 && n.me == i && n.ingame[0] && n.ingame[1] && n.skiptics == 0
    && n.maketic == n.nettics[i] == n.resendto[i] == k.make && n.gametic == k.game && !n.remoteresend[i]
    && n.nettics[1 - i] == k.net && n.resendto[1 - i] == k.to && n.remoteresend[1 - i] == k.wants
    && n.resendcount[1 - i] <= 0
  }

  ghost predicate Has(g: Game, i: nat, k: Counters) {
    Inv(g) && Reached(TWO_PLAYERS, g) && g.cfg == TWO_PLAYERS && i < 2 && g.running[i] && Counts(g.nodes[i], i, k)
  }

  ghost predicate Carries(g: Game, s: Sent, src: nat, start: nat, length: nat, from: Option<nat>) {
    s in g.network && IsPacket(s, src, start, length, from)
  }

  /** A packet of `length` tics, and the tic from which it asks for more if it does. */
  ghost predicate IsPacket(s: Sent, src: nat, start: nat, length: nat, from: Option<nat>) {
    && src < 2 && s.src == src && s.dst == 1 - src && s.start == start && |s.pkt.cmds| == length
    && match from
       case None => s.pkt.flag == Plain
       case Some(t) => s.pkt.flag == Retransmit && s.resendfrom == t
  }

  function Min(a: nat, b: nat): nat {
    if a < b then a else b
  }

  // ------------------------------------------------------------------- moves

  ghost function Tick(g: Game, i: nat): Move
    requires Shape(g) && i < g.cfg.nodes
  {
    Update(i, g.nodes[i].gametime + 1, [NO_COMMAND])
  }

  lemma TickBuilds(n: Node, k: Counters)
    requires n.skiptics == 0 && n.maketic == k.make && n.gametic == k.game && k.make <= k.game + 5
    ensures var b := Built(n, TWO_PLAYERS, n.gametime + 1, [NO_COMMAND]);
            && b.maketic == Min(k.make + 1, k.game + 5)
            && b == n.(gametime := n.gametime + 1, localcmds := b.localcmds, maketic := b.maketic)
  {
    var n0 := n.(gametime := n.gametime + 1, skiptics := 0);
    assert DueTics(n, 1) == (1, 0);
    assert [NO_COMMAND][1..] == [];
    assert Tic(n0, TWO_PLAYERS) == k.game;
    if !CannotHoldMore(n0, TWO_PLAYERS) {
      var n1 := n0.(localcmds := n0.localcmds[n0.maketic % BACKUPTICS := NO_COMMAND], maketic := n0.maketic + 1);
      assert Build(n1, TWO_PLAYERS, []) == n1;
    }
  }

  lemma OwnPacket(b: Node, i: nat, was: nat)
    requires Shaped(b, TWO_PLAYERS) && i < 2 && !b.remoteresend[i] && b.resendto[i] == was && was <= b.maketic <= was + 1
    ensures var pkt := PacketFor(b, i);
            pkt.flag == Plain && pkt.starttic == was % 256 && |pkt.cmds| == b.maketic - was
  {
  }

  lemma TakesOwn(a: Node, i: nat, pkt: Packet, was: nat)
    requires Shaped(a, TWO_PLAYERS) && i < 2 && a.nettics[i] == was && !a.remoteresend[i] && was <= a.maketic <= was + 1
    requires pkt.flag == Plain && pkt.starttic == was % 256 && |pkt.cmds| == a.maketic - was
    ensures var r := Receive(a, i, pkt);
            && r.Some? && Shaped(r.value, TWO_PLAYERS)
            && r.value.nettics[i] == a.maketic && !r.value.remoteresend[i] && r.value.resendto == a.resendto
            && r.value.nettics[1 - i] == a.nettics[1 - i] && r.value.remoteresend[1 - i] == a.remoteresend[1 - i]
            && r.value.resendcount[1 - i] == a.resendcount[1 - i]
            && r.value == a.(resendcount := r.value.resendcount, remoteresend := r.value.remoteresend,
                             netcmds := r.value.netcmds, nettics := r.value.nettics)
  {
    ExpandTicsExact(was, a.maketic);
  }

  /** A node takes its own packet and is up to date with itself. */
  lemma Rebound(b: Node, i: nat, was: nat)
    requires Shaped(b, TWO_PLAYERS) && b.me == i && b.ingame[0] && b.ingame[1] && !b.remoteresend[i]
    requires b.nettics[i] == b.resendto[i] == was && was <= b.maketic <= was + 1
    ensures var r := Receive(AfterSend(b, TWO_PLAYERS), i, PacketFor(b, i));
            && r.Some? && Shaped(r.value, TWO_PLAYERS)
            && r.value.nettics[i] == r.value.resendto[i] == r.value.resendto[1 - i] == b.maketic && !r.value.remoteresend[i]
            && r.value.nettics[1 - i] == b.nettics[1 - i] && r.value.remoteresend[1 - i] == b.remoteresend[1 - i]
            && r.value.resendcount[1 - i] == b.resendcount[1 - i]
            && r.value == b.(resendto := r.value.resendto, resendcount := r.value.resendcount,
                             remoteresend := r.value.remoteresend, netcmds := r.value.netcmds, nettics := r.value.nettics)
  {
    OwnPacket(b, i, was);
    TakesOwn(AfterSend(b, TWO_PLAYERS), i, PacketFor(b, i), was);
  }

  lemma TickSizes(b: Node, i: nat, own: nat, to: nat)
    requires Shaped(b, TWO_PLAYERS) && i < 2 && b.resendto[i] == own && b.resendto[1 - i] == to
    requires own <= b.maketic <= own + 1 && to <= b.maketic <= to + BACKUPTICS
    ensures NumTics(b, 1 - i) == b.maketic - to && !SendFails(b)
  {
    forall p | 0 <= p < |b.ingame| ensures NumTics(b, p) <= BACKUPTICS {
      assert p == i || p == 1 - i;
    }
  }

  ghost predicate MayTick(n: Node, i: nat, k: Counters) {
    Counts(n, i, k) && k.to <= k.make <= k.game + 5 && k.make < k.to + BACKUPTICS
  }

  lemma TickCounts(n: Node, i: nat, k: Counters)
    requires MayTick(n, i, k)
    ensures var b, make := Built(n, TWO_PLAYERS, n.gametime + 1, [NO_COMMAND]), Min(k.make + 1, k.game + 5);
            && Shaped(b, TWO_PLAYERS) && b.me == i && NumTics(b, 1 - i) == make - k.to && !SendFails(b)
            && var r := Receive(AfterSend(b, TWO_PLAYERS), i, PacketFor(b, i));
               r.Some? && Counts(r.value, i, k.(make := make, to := make))
  {
    TickBuilds(n, k);
    var b := Built(n, TWO_PLAYERS, n.gametime + 1, [NO_COMMAND]);
    TickSizes(b, i, k.make, k.to);
    Rebound(b, i, k.make);
  }

  /** What node `i` sends to the other one at its next tic. */
  ghost function TickPacket(n: Node, i: nat): Sent
    requires Shaped(n, TWO_PLAYERS) && i < 2
  {
    BuildKeeps(n.(gametime := n.gametime + 1, skiptics := DueTics(n, 1).1), TWO_PLAYERS, [NO_COMMAND]);
    var b := Built(n, TWO_PLAYERS, n.gametime + 1, [NO_COMMAND]);
    Sent(i, 1 - i, PacketFor(b, 1 - i), b.resendto[1 - i], b.nettics[1 - i])
  }

  lemma TickSends(n: Node, i: nat, k: Counters)
    requires MayTick(n, i, k)
    ensures var b, s := Built(n, TWO_PLAYERS, n.gametime + 1, [NO_COMMAND]), TickPacket(n, i);
            var make := Min(k.make + 1, k.game + 5);
            && Shaped(b, TWO_PLAYERS) && s in DataPackets(b)
            && IsPacket(s, i, k.to, make - k.to, if k.wants then Some(k.net) else None)
  {
    TickBuilds(n, k);
    TickSizes(Built(n, TWO_PLAYERS, n.gametime + 1, [NO_COMMAND]), i, k.make, k.to);
  }

  lemma TickEnabled(g: Game, i: nat)
    requires Shape(g) && i < g.cfg.nodes && g.running[i] && g.nodes[i].skiptics == 0
    ensures Enabled(g, Tick(g, i))
  {
    assert DueTics(g.nodes[i], 1) == (1, 0);
  }

  lemma TickMoves(g: Game, i: nat, b: Node, n: Node)
    requires Shape(g) && i < g.cfg.nodes && Enabled(g, Tick(g, i)) && Shaped(b, g.cfg)
    requires b == Built(g.nodes[i], g.cfg, g.nodes[i].gametime + 1, [NO_COMMAND]) && !SendFails(b)
    requires Receive(AfterSend(b, g.cfg), i, PacketFor(b, i)) == Some(n)
    ensures var h := Apply(g, Tick(g, i));
            && h.cfg == g.cfg && h.running == g.running && h.nodes == g.nodes[i := n] && h.network == g.network + DataPackets(b)
  {
  }

  /** One tic goes by at node `i`: it builds a command if it may, and sends. */
  lemma Ticks(g: Game, i: nat, k: Counters, o: Counters) returns (h: Game, s: Sent)
    requires i < 2 && Has(g, i, k) && Has(g, 1 - i, o) && MayTick(g.nodes[i], i, k)
    ensures var make := Min(k.make + 1, k.game + 5);
            && Has(h, i, k.(make := make, to := make)) && Has(h, 1 - i, o) && g.network <= h.network
            && Carries(h, s, i, k.to, make - k.to, if k.wants then Some(k.net) else None)
  {
    var n := g.nodes[i];
    TickCounts(n, i, k);
    TickSends(n, i, k);
    TickEnabled(g, i);
    var b := Built(n, g.cfg, n.gametime + 1, [NO_COMMAND]);
    TickMoves(g, i, b, Receive(AfterSend(b, g.cfg), i, PacketFor(b, i)).value);
    MoveReached(TWO_PLAYERS, g, Tick(g, i));
    MoveKeepsInv(g, Tick(g, i));
    h, s := Apply(g, Tick(g, i)), TickPacket(n, i);
  }

  /** A packet of the other node arrives that does not ask for anything. */
  lemma Arrives(g: Game, i: nat, k: Counters, o: Counters, s: Sent, start: nat, length: nat) returns (h: Game)
    requires i < 2 && Has(g, i, k) && Has(g, 1 - i, o) && Carries(g, s, 1 - i, start, length, None)
    requires -STALE <= start - k.make <= STALE
    ensures var got := if start + length <= k.net then k
                       else if start > k.net then k.(wants := true) else k.(net := start + length, wants := false);
            Has(h, i, got) && Has(h, 1 - i, o) && g.network <= h.network
  {
    assert SentInv(g, s);
    assert Enabled(g, Deliver(i, s));
    h := Apply(g, Deliver(i, s));
    MoveReached(TWO_PLAYERS, g, Deliver(i, s));
    MoveKeepsInv(g, Deliver(i, s));
    ExpandTicsExact(start, k.make);
  }

  lemma Plays(g: Game, i: nat, k: Counters, o: Counters) returns (h: Game)
    requires i < 2 && Has(g, i, k) && Has(g, 1 - i, o) && k.game < k.net && k.game < k.make
    ensures Has(h, i, k.(game := k.game + 1)) && Has(h, 1 - i, o) && g.network <= h.network
  {
    var n := g.nodes[i];
    assert CanPlay(n, g.cfg);
    h := Apply(g, Play(i));
    MoveReached(TWO_PLAYERS, g, Play(i));
    MoveKeepsInv(g, Play(i));
    PlaysOneTic(n);
  }

  lemma PlaysOneTic(n: Node)
    requires Shaped(n, TWO_PLAYERS)
    ensures PlayFrom(n, TWO_PLAYERS, 0).0 == n.(gametic := n.gametic + 1)
  {
    var n1 := PlayOnce(n, TWO_PLAYERS, 0).0;
    assert n1 == n.(gametic := n.gametic + 1);
    assert PlayFrom(n1, TWO_PLAYERS, 1) == (n1, []);
  }

  // ---------------------------------------------------------------- the game

  /** Five tics go by at node 1, and node 0 receives what it builds. */
  lemma {:induction false} Opening(g: Game, k: Counters, o: Counters, n: nat) returns (h: Game)
    requires Has(g, 0, k) && Has(g, 1, o) && n <= 5
    requires k.make <= STALE && k.net == 0 && !k.wants && o == Counters(0, 0, 0, 0, false)
    ensures Has(h, 0, k.(net := n)) && Has(h, 1, o.(make := n, to := n)) && g.network <= h.network
    decreases n
  {
    if n == 0 {
      h := g;
    } else {
      var s;
      h := Opening(g, k, o, n - 1);
      h, s := Ticks(h, 1, o.(make := n - 1, to := n - 1), k.(net := n - 1));
      h := Arrives(h, 0, k.(net := n - 1), o.(make := n, to := n), s, n - 1, 1);
    }
  }

  /** Both nodes play a tic, build one and send it, and both packets arrive. */
  lemma Turn(g: Game, r: nat) returns (h: Game)
    requires Has(g, 0, Counters(r + 2, r, r + 5, r + 2, false)) && Has(g, 1, Counters(r + 5, r, r + 2, r + 5, false))
    ensures Has(h, 0, Counters(r + 3, r + 1, r + 6, r + 3, false)) && Has(h, 1, Counters(r + 6, r + 1, r + 3, r + 6, false))
    ensures g.network <= h.network
  {
    var s, t;
    h := Plays(g, 0, Counters(r + 2, r, r + 5, r + 2, false), Counters(r + 5, r, r + 2, r + 5, false));
    h := Plays(h, 1, Counters(r + 5, r, r + 2, r + 5, false), Counters(r + 2, r + 1, r + 5, r + 2, false));
    h, s := Ticks(h, 0, Counters(r + 2, r + 1, r + 5, r + 2, false), Counters(r + 5, r + 1, r + 2, r + 5, false));
    h := Arrives(h, 1, Counters(r + 5, r + 1, r + 2, r + 5, false), Counters(r + 3, r + 1, r + 5, r + 3, false), s, r + 2, 1);
    h, t := Ticks(h, 1, Counters(r + 5, r + 1, r + 3, r + 5, false), Counters(r + 3, r + 1, r + 5, r + 3, false));
    h := Arrives(h, 0, Counters(r + 3, r + 1, r + 5, r + 3, false), Counters(r + 6, r + 1, r + 3, r + 6, false), t, r + 5, 1);
  }

  lemma {:induction false} Turns(g: Game, r: nat) returns (h: Game)
    requires Has(g, 0, Counters(2, 0, 5, 2, false)) && Has(g, 1, Counters(5, 0, 2, 5, false))
    ensures Has(h, 0, Counters(r + 2, r, r + 5, r + 2, false)) && Has(h, 1, Counters(r + 5, r, r + 2, r + 5, false))
    ensures g.network <= h.network
    decreases r
  {
    if r == 0 {
      h := g;
    } else {
      h := Turns(g, r - 1);
      h := Turn(h, r - 1);
    }
  }

  /** Node 0's first two packets arrive in the wrong order, and in between node 1, which may not
      build any more, asks for the first one again. */
  lemma RequestSent() returns (h: Game, s: Sent)
    ensures Has(h, 0, Counters(2, 0, 5, 2, false)) && Has(h, 1, Counters(5, 0, 2, 5, false))
    ensures Carries(h, s, 1, 5, 0, Some(0))
  {
    var first, second;
    h := Start(TWO_PLAYERS);
    StartReached(TWO_PLAYERS);
    StartInv(TWO_PLAYERS);
    h, first := Ticks(h, 0, Counters(0, 0, 0, 0, false), Counters(0, 0, 0, 0, false));
    h, second := Ticks(h, 0, Counters(1, 0, 0, 1, false), Counters(0, 0, 0, 0, false));
    h := Opening(h, Counters(2, 0, 0, 2, false), Counters(0, 0, 0, 0, false), 5);
    h := Arrives(h, 1, Counters(5, 0, 0, 5, false), Counters(2, 0, 5, 2, false), second, 1, 1);
    h, s := Ticks(h, 1, Counters(5, 0, 0, 5, true), Counters(2, 0, 5, 2, false));
    h := Arrives(h, 1, Counters(5, 0, 0, 5, true), Counters(2, 0, 5, 2, false), first, 0, 1);
    h := Arrives(h, 1, Counters(5, 0, 1, 5, false), Counters(2, 0, 5, 2, false), second, 1, 1);
  }

  /** Node 0, `r` tics later, gets the request. */
  lemma RequestArrives(g: Game, r: nat, s: Sent) returns (h: Game)
    requires Has(g, 0, Counters(r + 2, r, r + 5, r + 2, false)) && Has(g, 1, Counters(r + 5, r, r + 2, r + 5, false))
    requires Carries(g, s, 1, 5, 0, Some(0)) && r + 2 <= STALE
    ensures Inv(h) && Reached(TWO_PLAYERS, h) && h.cfg == TWO_PLAYERS && h.running[0] && h.running[1]
    ensures h.nodes[0] == g.nodes[0].(resendto := h.nodes[0].resendto, resendcount := h.nodes[0].resendcount)
    ensures h.nodes[0].resendto[1] == 0 && h.nodes[0].resendto[0] == r + 2
  {
    assert SentInv(g, s);
    assert Enabled(g, Deliver(0, s));
    h := Apply(g, Deliver(0, s));
    MoveReached(TWO_PLAYERS, g, Deliver(0, s));
    MoveKeepsInv(g, Deliver(0, s));
    ExpandTicsExact(5, r + 2);
    ExpandTicsExact(0, r + 2);
  }

  /** The next tic stops node 0, though nobody has left, exactly if the request is for more tics
      than a packet holds: `r + 3` is what node 0 has built by then. */
  lemma LateRequestStops(r: nat) returns (g: Game)
    requires r + 2 <= STALE
    ensures Shape(g) && Reached(TWO_PLAYERS, g) && g.cfg == TWO_PLAYERS && g.running[0] && g.running[1]
    ensures Enabled(g, Tick(g, 0))
    ensures Apply(g, Tick(g, 0)).running[0] <==> r + 3 <= BACKUPTICS
  {
    var s;
    g, s := RequestSent();
    g := Turns(g, r);
    g := RequestArrives(g, r, s);
    var n := g.nodes[0];
    assert DueTics(n, 1) == (1, 0);
    TickBuilds(n, Counters(r + 2, r, r + 5, 0, false));
    var b := Built(n, g.cfg, n.gametime + 1, [NO_COMMAND]);
    assert NumTics(b, 1) == r + 3 && NumTics(b, 0) == 1;
    assert SendFails(b) <==> r + 3 > BACKUPTICS;
  }
}
