/** Any number of nodes playing over a network that loses, repeats, reorders and delays
    packets. Everything ever sent stays available for delivery; a delivery may come any
    time, if it is of tics only while the tic numbers in the packet are at most `STALE` behind the
    receiver. */
module LockstepGame {
  import opened Wrappers
  import opened Arithmetic
  import opened Lockstep

  const STALE := 64

  /** A packet on the network, with the tic numbers its bytes were cut from. */
  datatype Sent = Sent(src: nat, dst: nat, pkt: Packet, start: int, resendfrom: int)

  /** `built` and `played` record what each node built and played so far. */
  datatype Game = Game(cfg: Config, nodes: seq<Node>, running: seq<bool>, network: set<Sent>,
                       built: seq<seq<Ticcmd>>, played: seq<seq<Row>>)

  datatype Move =
    | Update(i: nat, now: int, input: seq<Ticcmd>)
    | Deliver(i: nat, sent: Sent)
    | Play(i: nat)
    | AdaptClock(i: nat)
    | Quit(i: nat)

  ghost predicate Shape(g: Game) {
    && g.cfg.Valid()
    && |g.nodes| == |g.running| == |g.built| == |g.played| == g.cfg.nodes
    && forall i :: 0 <= i < |g.nodes| ==> Shaped(g.nodes[i], g.cfg) && g.nodes[i].me == i
                                          && g.nodes[i].ingame[i]
  }

  function Start(c: Config): Game
    requires c.Valid()
  {
    Game(c, seq(c.nodes, i requires 0 <= i => InitNode(i, c)), seq(c.nodes, _ => true), {},
         seq(c.nodes, _ => []), seq(c.nodes, _ => []))
  }

  // ------------------------------------------------------------------ moves

  ghost predicate Enabled(g: Game, m: Move)
    requires Shape(g)
  {
    && m.i < g.cfg.nodes && g.running[m.i]
    && var n := g.nodes[m.i];
       match m
       case Update(i, now, input) =>
         |input| == if now <= n.gametime then 0 else DueTics(n, now - n.gametime).0
       case Deliver(i, s) =>
         && s in g.network && s.dst == i
         && (s.pkt.flag == Exit || n.maketic - s.start <= STALE)
         && (s.pkt.flag == Retransmit ==> n.maketic - s.resendfrom <= STALE)
       case Play(i) => CanPlay(n, g.cfg)
       case AdaptClock(i) => true
       case Quit(i) => true
  }

  ghost function DataPackets(n: Node): set<Sent>
    requires |n.ingame| == |n.resendto| == |n.remoteresend| == |n.nettics|
  {
    set p | 0 <= p < |n.ingame| && n.ingame[p] && p != n.me && NumTics(n, p) <= BACKUPTICS ::
      Sent(n.me, p, PacketFor(n, p), n.resendto[p], n.nettics[p])
  }

  ghost function ExitPackets(n: Node): set<Sent> {
    set p | 0 <= p < |n.ingame| && n.ingame[p] && p != n.me ::
      Sent(n.me, p, Packet(Exit, 0, 0, n.me, []), 0, 0)
  }

  /** The node after the build loop of an update. */
  function Built(n: Node, c: Config, now: int, input: seq<Ticcmd>): Node
    requires c.Valid() && now > n.gametime
  {
    Build(n.(gametime := now, skiptics := DueTics(n, now - n.gametime).1), c, input)
  }

  ghost function AfterUpdate(g: Game, i: nat, now: int, input: seq<Ticcmd>): Game
    requires Shape(g) && i < g.cfg.nodes
  {
    var n := g.nodes[i];
    if now <= n.gametime then g.(nodes := g.nodes[i := n.(gametime := now)])
    else
      BuildKeeps(n.(gametime := now, skiptics := DueTics(n, now - n.gametime).1), g.cfg, input);
      var b := Built(n, g.cfg, now, input);
      var h := g.(built := g.built[i := g.built[i] + input[..b.maketic - n.maketic]]);
      if SendFails(b) then
        h.(nodes := h.nodes[i := b], running := h.running[i := false],
           network := h.network + DataPackets(b) + ExitPackets(b))
      else
        h.(nodes := h.nodes[i := Receive(AfterSend(b, g.cfg), i, PacketFor(b, i)).value],
           network := h.network + DataPackets(b))
  }

  ghost function Apply(g: Game, m: Move): Game
    requires Shape(g) && Enabled(g, m)
  {
    var n := g.nodes[m.i];
    match m
    case Update(i, now, input) => AfterUpdate(g, i, now, input)
    case Deliver(i, s) =>
      if s.src >= g.cfg.nodes then g
      else
        (match Receive(n, s.src, s.pkt)
         case Some(n') => g.(nodes := g.nodes[i := n'])
         case None => g.(running := g.running[i := false], network := g.network + ExitPackets(n)))
    case Play(i) =>
      var (n', rows) := PlayFrom(n, g.cfg, 0);
      g.(nodes := g.nodes[i := n'], played := g.played[i := g.played[i] + rows])
    case AdaptClock(i) => g.(nodes := g.nodes[i := Adapt(n, g.cfg)])
    case Quit(i) => g.(running := g.running[i := false], network := g.network + ExitPackets(n))
  }

  // -------------------------------------------------------------- invariant

  /** What a node keeps by itself. */
  ghost predicate NodeInv(g: Game, i: nat)
    requires Shape(g) && i < g.cfg.nodes
  {
    var n := g.nodes[i];
    && n.gametic % g.cfg.ticdup == 0
    && |g.built[i]| == n.maketic
    && n.maketic <= Tic(n, g.cfg) + 5
    && RingHolds(n.localcmds, g.built[i], n.maketic - BACKUPTICS, n.maketic)
    && (n.maketic == 0 ==> n.skiptics == 0 && !n.frameskip[0] && !n.frameskip[1] && !n.frameskip[2] && !n.frameskip[3])
    && n.oldnettics <= n.maketic
  }

  /** What node `i` knows about peer `p`. */
  ghost predicate PeerInv(g: Game, i: nat, p: nat)
    requires Shape(g) && i < g.cfg.nodes && p < g.cfg.nodes
  {
    var n := g.nodes[i];
    && n.nettics[p] <= g.nodes[p].maketic
    && 0 <= n.resendto[p] <= n.maketic
    && (!n.ingame[p] ==> !g.running[p])
    && (n.ingame[p] ==> Tic(n, g.cfg) <= n.nettics[p])
    && (n.ingame[p] && g.running[i] ==> n.maketic - n.resendto[p] <= STALE)
    && (g.running[i] ==> RingHolds(n.netcmds[p], g.built[p], Tic(n, g.cfg), n.nettics[p]))
  }

  ghost predicate SentInv(g: Game, s: Sent)
    requires Shape(g)
  {
    && s.src < g.cfg.nodes && s.dst < g.cfg.nodes && s.src != s.dst
    && s.pkt.flag != Kill
    && (s.pkt.flag == Exit ==> !g.running[s.src])
    && (s.pkt.flag == Plain || s.pkt.flag == Retransmit ==>
          && s.pkt.starttic == s.start % 256
          && 0 <= s.start && s.start + |s.pkt.cmds| <= |g.built[s.src]|
          && s.pkt.cmds == g.built[s.src][s.start..s.start + |s.pkt.cmds|])
    && (s.pkt.flag == Retransmit ==>
          && s.pkt.retransmitfrom == s.resendfrom % 256
          && 0 <= s.resendfrom <= g.nodes[s.dst].maketic)
  }

  /** The command read for a player in play `k` is the one that player built for that tic. */
  ghost predicate RowInv(g: Game, k: nat, row: Row)
    requires Shape(g)
  {
    && |row| == g.cfg.nodes
    && forall p :: 0 <= p < g.cfg.nodes ==>
         match row[p]
         case None => !g.running[p]
         case Some(cmd) => k / g.cfg.ticdup < |g.built[p]|
                           && cmd == Replayed(g.built[p][k / g.cfg.ticdup], k % g.cfg.ticdup)
  }

  ghost predicate PlayedInv(g: Game, i: nat)
    requires Shape(g) && i < g.cfg.nodes
  {
    && |g.played[i]| == g.nodes[i].gametic
    && forall k :: 0 <= k < |g.played[i]| ==> RowInv(g, k, g.played[i][k])
  }

  ghost predicate Inv(g: Game) {
    && Shape(g)
    && (forall i :: 0 <= i < g.cfg.nodes ==> NodeInv(g, i))
    && (forall i, p :: 0 <= i < g.cfg.nodes && 0 <= p < g.cfg.nodes ==> PeerInv(g, i, p))
    && (forall s :: s in g.network ==> SentInv(g, s))
    && (forall i :: 0 <= i < g.cfg.nodes ==> PlayedInv(g, i))
  }

  // ------------------------------------------------------ the window bounds

  /** How far apart two nodes can be: at most ten tics of a peer are waiting to be played,
      so no waiting command is overwritten in a ring of twelve. */
  lemma Window(g: Game, i: nat, p: nat)
    requires Inv(g) && i < g.cfg.nodes && p < g.cfg.nodes && g.running[i]
    ensures g.nodes[i].ingame[p] ==> Tic(g.nodes[i], g.cfg) <= g.nodes[i].nettics[p]
    ensures g.nodes[i].nettics[p] <= g.nodes[p].maketic <= Tic(g.nodes[p], g.cfg) + 5
    ensures g.nodes[p].maketic <= g.nodes[i].maketic + 5
    ensures g.nodes[i].nettics[p] - Tic(g.nodes[i], g.cfg) <= 10
  {
    assert PeerInv(g, i, p) && PeerInv(g, p, i);
    assert NodeInv(g, i) && NodeInv(g, p);
  }

  // ---------------------------------------------------------------- framing

  /** `h` follows `g` by a change of node `i` only. */
  ghost predicate Follows(g: Game, h: Game, i: nat)
    requires Shape(g) && i < g.cfg.nodes
  {
    && Shape(h) && h.cfg == g.cfg
    && (forall j :: 0 <= j < g.cfg.nodes && j != i ==>
          && h.nodes[j] == g.nodes[j] && h.running[j] == g.running[j]
          && h.built[j] == g.built[j] && h.played[j] == g.played[j])
    && g.nodes[i].maketic <= h.nodes[i].maketic
    && g.built[i] <= h.built[i]
    && (h.running[i] ==> g.running[i])
  }

  lemma RowFrame(g: Game, h: Game, i: nat, k: nat, row: Row)
    requires Shape(g) && i < g.cfg.nodes && Follows(g, h, i)
    requires RowInv(g, k, row)
    ensures RowInv(h, k, row)
  {
    forall p | 0 <= p < g.cfg.nodes
      ensures match row[p]
              case None => !h.running[p]
              case Some(cmd) => k / g.cfg.ticdup < |h.built[p]|
                                && cmd == Replayed(h.built[p][k / g.cfg.ticdup], k % g.cfg.ticdup)
    {
      assert g.built[p] <= h.built[p];
    }
  }

  lemma SentFrame(g: Game, h: Game, i: nat, s: Sent)
    requires Shape(g) && i < g.cfg.nodes && Follows(g, h, i)
    requires SentInv(g, s)
    ensures SentInv(h, s)
  {
    assert g.built[s.src] <= h.built[s.src];
    assert g.nodes[s.dst].maketic <= h.nodes[s.dst].maketic;
  }

  lemma PeerFrame(g: Game, h: Game, i: nat, j: nat, p: nat)
    requires Shape(g) && i < g.cfg.nodes && Follows(g, h, i)
    requires j < g.cfg.nodes && p < g.cfg.nodes && j != i
    requires PeerInv(g, j, p)
    requires |g.built[p]| == g.nodes[p].maketic
    ensures PeerInv(h, j, p)
  {
    assert g.built[p] <= h.built[p];
  }

  /** After a move of node `i`, only what concerns node `i` remains to be shown. */
  lemma InvByNode(g: Game, h: Game, i: nat, rows: seq<Row>)
    requires Inv(g) && i < g.cfg.nodes && Follows(g, h, i)
    requires NodeInv(h, i)
    requires forall p :: 0 <= p < g.cfg.nodes ==> PeerInv(h, i, p)
    requires forall s :: s in h.network && s !in g.network ==> SentInv(h, s)
    requires h.played[i] == g.played[i] + rows
    requires h.nodes[i].gametic == g.nodes[i].gametic + |rows|
    requires forall k :: 0 <= k < |rows| ==> RowInv(h, |g.played[i]| + k, rows[k])
    ensures Inv(h)
  {
    forall j | 0 <= j < g.cfg.nodes
      ensures NodeInv(h, j)
    {
      assert NodeInv(g, j);
    }
    forall j, p | 0 <= j < g.cfg.nodes && 0 <= p < g.cfg.nodes
      ensures PeerInv(h, j, p)
    {
      if j != i {
        assert PeerInv(g, j, p) && NodeInv(g, p);
        PeerFrame(g, h, i, j, p);
      }
    }
    forall s | s in h.network
      ensures SentInv(h, s)
    {
      if s in g.network {
        SentFrame(g, h, i, s);
      }
    }
    forall j | 0 <= j < g.cfg.nodes
      ensures PlayedInv(h, j)
    {
      assert PlayedInv(g, j);
      forall k | 0 <= k < |h.played[j]|
        ensures RowInv(h, k, h.played[j][k])
      {
        if k < |g.played[j]| {
          RowFrame(g, h, i, k, g.played[j][k]);
        } else {
          assert h.played[j][k] == rows[k - |g.played[i]|];
        }
      }
    }
  }

  // --------------------------------------------------------------- building

  /** Building only touches the local ring and `maketic`, and never uses more than `input`. */
  lemma {:induction false} BuildKeeps(n: Node, c: Config, input: seq<Ticcmd>)
    requires c.Valid()
    ensures var b := Build(n, c, input);
            && n.maketic <= b.maketic <= n.maketic + |input|
            && b == n.(localcmds := b.localcmds, maketic := b.maketic)
            && (n.maketic <= Tic(n, c) + 5 ==> b.maketic <= Tic(b, c) + 5)
            && (input != [] && !CannotHoldMore(n, c) ==> b.maketic > n.maketic)
    decreases |input|
  {
    if input != [] && !CannotHoldMore(n, c) {
      BuildKeeps(n.(localcmds := n.localcmds[n.maketic % BACKUPTICS := input[0]], maketic := n.maketic + 1), c, input[1..]);
    }
  }

  /** The local ring always holds the last commands built. */
  lemma {:induction false} BuildRing(n: Node, c: Config, history: seq<Ticcmd>, input: seq<Ticcmd>)
    requires c.Valid() && |history| == n.maketic
    requires RingHolds(n.localcmds, history, n.maketic - BACKUPTICS, n.maketic)
    ensures var b := Build(n, c, input);
            && 0 <= b.maketic - n.maketic <= |input|
            && RingHolds(b.localcmds, history + input[..b.maketic - n.maketic], b.maketic - BACKUPTICS, b.maketic)
    decreases |input|
  {
    BuildKeeps(n, c, input);
    if input == [] || CannotHoldMore(n, c) {
      assert history + input[..0] == history;
    } else {
      var h := history + [input[0]];
      var n1 := n.(localcmds := n.localcmds[n.maketic % BACKUPTICS := input[0]], maketic := n.maketic + 1);
      assert RingHolds(n.localcmds, h, n.maketic - BACKUPTICS + 1, n.maketic);
      RingPut(n.localcmds, h, n.maketic - BACKUPTICS + 1, n.maketic);
      BuildKeeps(n1, c, input[1..]);
      BuildRing(n1, c, h, input[1..]);
      var k := Build(n1, c, input[1..]).maketic - n1.maketic;
      assert h + input[1..][..k] == history + input[..k + 1];
    }
  }

  /** A node that is about to send has at least the backup tic to send. */
  lemma BuiltNode(g: Game, i: nat, now: int, input: seq<Ticcmd>)
    requires Inv(g) && Enabled(g, Update(i, now, input)) && now > g.nodes[i].gametime
    ensures var n := g.nodes[i];
            var b := Built(n, g.cfg, now, input);
            && n.maketic <= b.maketic <= n.maketic + |input|
            && b == n.(gametime := now, skiptics := b.skiptics, localcmds := b.localcmds, maketic := b.maketic)
            && 0 < b.maketic <= Tic(b, g.cfg) + 5
            && RingHolds(b.localcmds, g.built[i] + input[..b.maketic - n.maketic], b.maketic - BACKUPTICS, b.maketic)
  {
    var n := g.nodes[i];
    assert NodeInv(g, i) && PeerInv(g, i, i);
    var n0 := n.(gametime := now, skiptics := DueTics(n, now - n.gametime).1);
    BuildKeeps(n0, g.cfg, input);
    BuildRing(n0, g.cfg, g.built[i], input);
  }

  /** The tics a packet carries are the ones its sender built. */
  lemma PacketCarries(b: Node, history: seq<Ticcmd>, p: nat)
    requires p < |b.resendto| == |b.remoteresend| == |b.nettics|
    requires |history| == b.maketic
    requires RingHolds(b.localcmds, history, b.maketic - BACKUPTICS, b.maketic)
    requires 0 <= b.resendto[p] <= b.maketic < b.resendto[p] + 256 && NumTics(b, p) <= BACKUPTICS
    ensures var cmds := PacketFor(b, p).cmds;
            b.resendto[p] + |cmds| == b.maketic && cmds == history[b.resendto[p]..b.maketic]
  {
  }

  /** Receiving commands changes what is known about the sender only, never forgets a tic,
      and stores the sender's own commands. */
  lemma ReceiveTakes(n: Node, c: Config, src: nat, pkt: Packet, start: int, resendfrom: int,
                     history: seq<Ticcmd>, lo: int)
    requires Shaped(n, c) && src < c.nodes && (pkt.flag == Plain || pkt.flag == Retransmit)
    requires pkt.starttic == start % 256 && -STALE <= start - n.maketic <= STALE
    requires 0 <= start && start + |pkt.cmds| <= |history| && start + |pkt.cmds| - lo <= BACKUPTICS
    requires pkt.cmds == history[start..start + |pkt.cmds|]
    requires pkt.flag == Retransmit ==>
               pkt.retransmitfrom == resendfrom % 256 && 0 <= resendfrom <= n.maketic <= resendfrom + STALE
    requires 0 <= n.resendto[src] <= n.maketic
    requires RingHolds(n.netcmds[src], history, lo, n.nettics[src])
    ensures Receive(n, src, pkt).Some?
    ensures var r := Receive(n, src, pkt).value;
            && Shaped(r, c)
            && r == n.(resendto := r.resendto, resendcount := r.resendcount, remoteresend := r.remoteresend,
                       netcmds := r.netcmds, nettics := r.nettics)
            && (forall q :: 0 <= q < c.nodes && q != src ==>
                  r.resendto[q] == n.resendto[q] && r.netcmds[q] == n.netcmds[q] && r.nettics[q] == n.nettics[q])
            && n.nettics[src] <= r.nettics[src]
            && (r.nettics[src] == n.nettics[src] || r.nettics[src] == start + |pkt.cmds|)
            && 0 <= r.resendto[src] <= n.maketic
            && (n.maketic - n.resendto[src] <= STALE ==> n.maketic - r.resendto[src] <= STALE)
            && RingHolds(r.netcmds[src], history, lo, r.nettics[src])
  {
    ExpandTicsExact(start, n.maketic);
    if pkt.flag == Retransmit {
      ExpandTicsExact(resendfrom, n.maketic);
    }
    var have := n.nettics[src];
    if start <= have < start + |pkt.cmds| {
      assert pkt.cmds[have - start..] == history[have..have + |pkt.cmds[have - start..]|];
      StoreRunHolds(n.netcmds[src], history, lo, have, pkt.cmds[have - start..]);
    }
  }

  /** A node takes the packet it sent to itself. */
  lemma ReboundKeeps(g: Game, i: nat, b: Node, history: seq<Ticcmd>)
    requires Inv(g) && i < g.cfg.nodes && g.running[i]
    requires Shaped(b, g.cfg) && b.me == i && g.built[i] <= history && |history| == b.maketic
    requires b == g.nodes[i].(gametime := b.gametime, skiptics := b.skiptics, localcmds := b.localcmds,
                              maketic := b.maketic)
    requires g.nodes[i].maketic <= b.maketic <= Tic(b, g.cfg) + 5 && 0 < b.maketic
    requires 0 <= b.resendto[i] <= b.maketic <= b.resendto[i] + 69
    requires PacketFor(b, i).cmds == history[b.resendto[i]..b.maketic] && NumTics(b, i) <= BACKUPTICS
    ensures Receive(AfterSend(b, g.cfg), i, PacketFor(b, i)).Some?
    ensures var n := Receive(AfterSend(b, g.cfg), i, PacketFor(b, i)).value;
            && Shaped(n, g.cfg)
            && n == b.(resendto := n.resendto, resendcount := n.resendcount, remoteresend := n.remoteresend,
                       netcmds := n.netcmds, nettics := n.nettics)
            && (forall q :: 0 <= q < g.cfg.nodes && q != i ==>
                  && n.netcmds[q] == b.netcmds[q] && n.nettics[q] == b.nettics[q]
                  && n.resendto[q] == if b.ingame[q] then b.maketic - g.cfg.extratics else b.resendto[q])
            && b.nettics[i] <= n.nettics[i] <= b.maketic
            && 0 <= n.resendto[i] <= b.maketic <= n.resendto[i] + STALE
            && RingHolds(n.netcmds[i], history, Tic(b, g.cfg), n.nettics[i])
  {
    assert PeerInv(g, i, i) && NodeInv(g, i);
    ReceiveTakes(AfterSend(b, g.cfg), g.cfg, i, PacketFor(b, i), b.resendto[i], b.nettics[i], history, Tic(b, g.cfg));
  }

  lemma UpdateKeepsInv(g: Game, i: nat, now: int, input: seq<Ticcmd>)
    requires Inv(g) && Enabled(g, Update(i, now, input))
    ensures Inv(AfterUpdate(g, i, now, input))
  {
    var n := g.nodes[i];
    var h := AfterUpdate(g, i, now, input);
    assert NodeInv(g, i) && PlayedInv(g, i);
    assert g.played[i] + [] == g.played[i];
    forall p | 0 <= p < g.cfg.nodes ensures PeerInv(g, i, p) {}
    if now <= n.gametime {
      assert Follows(g, h, i);
      forall p | 0 <= p < g.cfg.nodes ensures PeerInv(h, i, p) { assert PeerInv(g, i, p); }
      InvByNode(g, h, i, []);
    } else {
      UpdateSends(g, i, now, input);
    }
  }

  /** What an update leaves to check: `b` is the node after building, `history` its commands. */
  ghost predicate BuiltFrom(g: Game, i: nat, b: Node, history: seq<Ticcmd>)
    requires Shape(g)
  {
    && i < g.cfg.nodes && g.running[i] && Shaped(b, g.cfg) && b.me == i
    && g.built[i] <= history && |history| == b.maketic
    && b == g.nodes[i].(gametime := b.gametime, skiptics := b.skiptics, localcmds := b.localcmds, maketic := b.maketic)
    && g.nodes[i].maketic <= b.maketic <= Tic(b, g.cfg) + 5 && 0 < b.maketic
    && RingHolds(b.localcmds, history, b.maketic - BACKUPTICS, b.maketic)
    && (forall p :: 0 <= p < g.cfg.nodes && b.ingame[p] ==> 0 <= b.resendto[p] <= b.maketic <= b.resendto[p] + 69)
  }

  lemma NewPacketsOk(g: Game, h: Game, i: nat, b: Node, history: seq<Ticcmd>, s: Sent)
    requires Inv(g) && BuiltFrom(g, i, b, history) && Follows(g, h, i) && h.built[i] == history
    requires s in DataPackets(b) || (s in ExitPackets(b) && !h.running[i])
    ensures SentInv(h, s)
  {
    if s in DataPackets(b) {
      var p :| 0 <= p < |b.ingame| && b.ingame[p] && p != b.me && NumTics(b, p) <= BACKUPTICS
               && s == Sent(b.me, p, PacketFor(b, p), b.resendto[p], b.nettics[p]);
      PacketCarries(b, history, p);
      assert PeerInv(g, i, p);
    }
  }

  lemma UpdateSends(g: Game, i: nat, now: int, input: seq<Ticcmd>)
    requires Inv(g) && Enabled(g, Update(i, now, input)) && now > g.nodes[i].gametime
    ensures Inv(AfterUpdate(g, i, now, input))
  {
    var n := g.nodes[i];
    var b := Built(n, g.cfg, now, input);
    BuiltNode(g, i, now, input);
    assert NodeInv(g, i);
    var history := g.built[i] + input[..b.maketic - n.maketic];
    forall p | 0 <= p < g.cfg.nodes && b.ingame[p]
      ensures 0 <= b.resendto[p] <= b.maketic <= b.resendto[p] + 69
    {
      assert PeerInv(g, i, p) && PeerInv(g, i, i);
    }
    assert BuiltFrom(g, i, b, history);
    if SendFails(b) {
      SendHalts(g, AfterUpdate(g, i, now, input), i, b, history);
    } else {
      SendGoesOut(g, AfterUpdate(g, i, now, input), i, b, history);
    }
  }

  lemma SendHalts(g: Game, h: Game, i: nat, b: Node, history: seq<Ticcmd>)
    requires Inv(g) && BuiltFrom(g, i, b, history)
    requires h == g.(built := g.built[i := history], nodes := g.nodes[i := b], running := g.running[i := false],
                     network := g.network + DataPackets(b) + ExitPackets(b))
    requires b.maketic == 0 ==> b.skiptics == 0
    ensures Inv(h)
  {
    assert NodeInv(g, i) && PlayedInv(g, i);
    assert Follows(g, h, i);
    forall s | s in h.network && s !in g.network ensures SentInv(h, s) {
      NewPacketsOk(g, h, i, b, history, s);
    }
    forall p | 0 <= p < g.cfg.nodes ensures PeerInv(h, i, p) {
      assert PeerInv(g, i, p);
    }
    assert g.played[i] + [] == g.played[i];
    InvByNode(g, h, i, []);
  }

  lemma SendGoesOut(g: Game, h: Game, i: nat, b: Node, history: seq<Ticcmd>)
    requires Inv(g) && BuiltFrom(g, i, b, history) && !SendFails(b)
    requires var r := Receive(AfterSend(b, g.cfg), i, PacketFor(b, i));
             r.Some? ==> h == g.(built := g.built[i := history], nodes := g.nodes[i := r.value],
                                 network := g.network + DataPackets(b))
    ensures Inv(h)
  {
    assert NodeInv(g, i) && PlayedInv(g, i);
    assert NumTics(b, i) <= BACKUPTICS;
    PacketCarries(b, history, i);
    ReboundKeeps(g, i, b, history);
    assert Follows(g, h, i);
    forall s | s in h.network && s !in g.network ensures SentInv(h, s) {
      NewPacketsOk(g, h, i, b, history, s);
    }
    forall p | 0 <= p < g.cfg.nodes ensures PeerInv(h, i, p) {
      assert PeerInv(g, i, p);
      assert g.built[p] <= h.built[p];
    }
    assert g.played[i] + [] == g.played[i];
    InvByNode(g, h, i, []);
  }

  // -------------------------------------------------------------- receiving

  /** `h` differs from `g` only in what node `i` knows about peer `q`. */
  lemma InvByPeer(g: Game, h: Game, i: nat, n': Node, q: nat)
    requires Inv(g) && i < g.cfg.nodes && q < g.cfg.nodes && h == g.(nodes := g.nodes[i := n'])
    requires Shaped(n', g.cfg) && n'.ingame[i]
    requires n' == g.nodes[i].(resendto := n'.resendto, resendcount := n'.resendcount, ingame := n'.ingame,
                               remoteresend := n'.remoteresend, netcmds := n'.netcmds, nettics := n'.nettics)
    requires forall p :: 0 <= p < g.cfg.nodes && p != q ==>
               && n'.resendto[p] == g.nodes[i].resendto[p] && n'.netcmds[p] == g.nodes[i].netcmds[p]
               && n'.nettics[p] == g.nodes[i].nettics[p] && n'.ingame[p] == g.nodes[i].ingame[p]
    requires PeerInv(h, i, q)
    ensures Inv(h)
  {
    assert NodeInv(g, i) && PlayedInv(g, i);
    forall p | 0 <= p < g.cfg.nodes ensures PeerInv(h, i, p) {
      assert PeerInv(g, i, p);
    }
    assert g.played[i] + [] == g.played[i];
    assert Follows(g, h, i);
    InvByNode(g, h, i, []);
  }

  lemma DeliverKeepsInv(g: Game, i: nat, s: Sent)
    requires Inv(g) && Enabled(g, Deliver(i, s))
    ensures Inv(Apply(g, Deliver(i, s)))
  {
    var n := g.nodes[i];
    assert SentInv(g, s) && NodeInv(g, i) && PeerInv(g, i, s.src);
    if s.pkt.flag == Plain || s.pkt.flag == Retransmit {
      // s.src cannot be far ahead: it still waits for node i.
      assert PeerInv(g, s.src, i) && NodeInv(g, s.src);
      ReceiveTakes(n, g.cfg, s.src, s.pkt, s.start, s.resendfrom, g.built[s.src], Tic(n, g.cfg));
    }
    var n' := Receive(n, s.src, s.pkt).value;
    InvByPeer(g, Apply(g, Deliver(i, s)), i, n', s.src);
  }

  // ---------------------------------------------------------------- playing

  lemma SameTic(gametic: nat, ticdup: nat, i: nat)
    requires ticdup > 0 && gametic % ticdup == 0 && i < ticdup
    ensures (gametic + i) / ticdup == gametic / ticdup && (gametic + i) % ticdup == i
  {
    assert gametic + i == ticdup * (gametic / ticdup) + i;
    DivMod(gametic / ticdup, ticdup, i);
  }

  lemma NextTic(gametic: nat, ticdup: nat)
    requires ticdup > 0 && gametic % ticdup == 0
    ensures (gametic + ticdup) / ticdup == gametic / ticdup + 1 && (gametic + ticdup) % ticdup == 0
  {
    var q := gametic / ticdup;
    assert gametic + ticdup == ticdup * (q + 1) + 0;
    DivMod(q + 1, ticdup, 0);
  }

  /** The rows played for tic `t` by a node that still is at play `from` of it. */
  ghost predicate Replays(g: Game, i: nat, n: Node, from: nat, t: nat)
    requires Shape(g)
  {
    && i < g.cfg.nodes && from <= g.cfg.ticdup
    && Shaped(n, g.cfg)
    && n == g.nodes[i].(gametic := n.gametic, netcmds := n.netcmds)
    && n.gametic == g.nodes[i].gametic + from
    && t == Tic(g.nodes[i], g.cfg)
    && (forall p :: 0 <= p < g.cfg.nodes ==> RingHolds(n.netcmds[p], g.built[p], t + 1, n.nettics[p]))
    && forall p :: 0 <= p < g.cfg.nodes && n.ingame[p] ==>
         && t < n.nettics[p] <= |g.built[p]|
         && (from < g.cfg.ticdup ==> n.netcmds[p][t % BACKUPTICS] == Replayed(g.built[p][t], from))
  }

  lemma DuplicateSlotKeeps(ring: Ring, history: seq<Ticcmd>, t: nat, hi: nat)
    requires RingHolds(ring, history, t + 1, hi) && hi - t <= BACKUPTICS
    ensures RingHolds(DuplicateAt(ring, t % BACKUPTICS), history, t + 1, hi)
  {
  }

  /** The slot being repeated is never one that a later tic already occupies. */
  lemma {:induction false} PlayFromRows(g: Game, i: nat, n: Node, from: nat, t: nat)
    requires Inv(g) && i < g.cfg.nodes && g.running[i] && Replays(g, i, n, from, t)
    requires forall p :: 0 <= p < g.cfg.nodes ==> n.nettics[p] - t <= BACKUPTICS
    requires g.nodes[i].gametic % g.cfg.ticdup == 0
    ensures var (n', rows) := PlayFrom(n, g.cfg, from);
            && Replays(g, i, n', g.cfg.ticdup, t)
            && |rows| == g.cfg.ticdup - from
            && forall k :: 0 <= k < |rows| ==> RowInv(g, n.gametic + k, rows[k])
    decreases g.cfg.ticdup - from
  {
    if from < g.cfg.ticdup {
      var (n1, row) := PlayOnce(n, g.cfg, from);
      SameTic(g.nodes[i].gametic, g.cfg.ticdup, from);
      forall p | 0 <= p < g.cfg.nodes
        ensures match row[p]
                case None => !g.running[p]
                case Some(cmd) => n.gametic / g.cfg.ticdup < |g.built[p]|
                                  && cmd == Replayed(g.built[p][n.gametic / g.cfg.ticdup], n.gametic % g.cfg.ticdup)
      {
        assert PeerInv(g, i, p);
      }
      assert RowInv(g, n.gametic, row);
      PlayOnceReplays(g, i, n, from, t);
      PlayFromRows(g, i, n1, from + 1, t);
      var (n2, rows) := PlayFrom(n1, g.cfg, from + 1);
      forall k | 0 <= k < |[row] + rows|
        ensures RowInv(g, n.gametic + k, ([row] + rows)[k])
      {
        if k > 0 {
          assert RowInv(g, n1.gametic + (k - 1), rows[k - 1]);
        }
      }
    }
  }

  lemma PlayOnceReplays(g: Game, i: nat, n: Node, from: nat, t: nat)
    requires Shape(g) && Replays(g, i, n, from, t) && from < g.cfg.ticdup
    requires forall p :: 0 <= p < g.cfg.nodes ==> n.nettics[p] - t <= BACKUPTICS
    requires g.nodes[i].gametic % g.cfg.ticdup == 0
    ensures Replays(g, i, PlayOnce(n, g.cfg, from).0, from + 1, t)
  {
    if from + 1 < g.cfg.ticdup {
      SameTic(g.nodes[i].gametic, g.cfg.ticdup, from + 1);
      forall p | 0 <= p < g.cfg.nodes
        ensures RingHolds(DuplicateAt(n.netcmds[p], t % BACKUPTICS), g.built[p], t + 1, n.nettics[p])
      {
        DuplicateSlotKeeps(n.netcmds[p], g.built[p], t, n.nettics[p]);
      }
    }
  }

  lemma PlayReplays(g: Game, i: nat)
    requires Inv(g) && Enabled(g, Play(i))
    ensures var n := g.nodes[i];
            && n.gametic % g.cfg.ticdup == 0
            && Replays(g, i, n, 0, Tic(n, g.cfg))
            && (forall p :: 0 <= p < g.cfg.nodes ==> n.nettics[p] - Tic(n, g.cfg) <= BACKUPTICS)
  {
    var n := g.nodes[i];
    assert NodeInv(g, i);
    forall p | 0 <= p < g.cfg.nodes
      ensures n.nettics[p] - Tic(n, g.cfg) <= BACKUPTICS && n.nettics[p] <= |g.built[p]|
      ensures RingHolds(n.netcmds[p], g.built[p], Tic(n, g.cfg), n.nettics[p])
    {
      Window(g, i, p);
      assert PeerInv(g, i, p) && NodeInv(g, p);
    }
  }

  lemma PlayKeepsPeer(g: Game, h: Game, i: nat, p: nat, n': Node)
    requires Inv(g) && i < g.cfg.nodes && p < g.cfg.nodes && g.running[i]
    requires Shape(h) && h.cfg == g.cfg && h.nodes == g.nodes[i := n'] && h.running == g.running && h.built == g.built
    requires Replays(g, i, n', g.cfg.ticdup, Tic(g.nodes[i], g.cfg))
    ensures PeerInv(h, i, p)
  {
    assert NodeInv(g, i) && PeerInv(g, i, p);
    NextTic(g.nodes[i].gametic, g.cfg.ticdup);
  }

  lemma PlayKeepsRows(g: Game, h: Game, i: nat, rows: seq<Row>)
    requires Inv(g) && i < g.cfg.nodes && Follows(g, h, i)
    requires forall k :: 0 <= k < |rows| ==> RowInv(g, g.nodes[i].gametic + k, rows[k])
    ensures forall k :: 0 <= k < |rows| ==> RowInv(h, |g.played[i]| + k, rows[k])
  {
    assert PlayedInv(g, i);
    forall k | 0 <= k < |rows| ensures RowInv(h, |g.played[i]| + k, rows[k]) {
      assert RowInv(g, g.nodes[i].gametic + k, rows[k]);
      RowFrame(g, h, i, g.nodes[i].gametic + k, rows[k]);
    }
  }

  lemma PlayKeepsNode(g: Game, h: Game, i: nat, n': Node)
    requires Inv(g) && i < g.cfg.nodes && g.running[i]
    requires Shape(h) && h.cfg == g.cfg && h.nodes == g.nodes[i := n'] && h.running == g.running && h.built == g.built
    requires Replays(g, i, n', g.cfg.ticdup, Tic(g.nodes[i], g.cfg))
    ensures NodeInv(h, i)
    ensures forall p :: 0 <= p < g.cfg.nodes ==> PeerInv(h, i, p)
  {
    assert NodeInv(g, i);
    NextTic(g.nodes[i].gametic, g.cfg.ticdup);
    forall p | 0 <= p < g.cfg.nodes ensures PeerInv(h, i, p) {
      PlayKeepsPeer(g, h, i, p, n');
    }
  }

  lemma PlayKeepsInv(g: Game, i: nat)
    requires Inv(g) && Enabled(g, Play(i))
    ensures Inv(Apply(g, Play(i)))
  {
    var n := g.nodes[i];
    var (n', rows) := PlayFrom(n, g.cfg, 0);
    var h := g.(nodes := g.nodes[i := n'], played := g.played[i := g.played[i] + rows]);
    PlayReplays(g, i);
    PlayFromRows(g, i, n, 0, Tic(n, g.cfg));
    PlayKeepsNode(g, h, i, n');
    assert Follows(g, h, i);
    PlayKeepsRows(g, h, i, rows);
    InvByNode(g, h, i, rows);
    assert h == Apply(g, Play(i));
  }

  // ------------------------------------------------------ adapting, quitting

  lemma AdaptKeepsInv(g: Game, i: nat)
    requires Inv(g) && Enabled(g, AdaptClock(i))
    ensures Inv(Apply(g, AdaptClock(i)))
  {
    var h := Apply(g, AdaptClock(i));
    assert NodeInv(g, i) && PlayedInv(g, i) && PeerInv(g, i, i);
    assert Follows(g, h, i);
    forall p | 0 <= p < g.cfg.nodes ensures PeerInv(h, i, p) {
      assert PeerInv(g, i, p);
    }
    assert g.played[i] + [] == g.played[i];
    InvByNode(g, h, i, []);
  }

  lemma QuitKeepsInv(g: Game, i: nat)
    requires Inv(g) && Enabled(g, Quit(i))
    ensures Inv(Apply(g, Quit(i)))
  {
    var h := Apply(g, Quit(i));
    assert NodeInv(g, i) && PlayedInv(g, i);
    assert Follows(g, h, i);
    forall p | 0 <= p < g.cfg.nodes ensures PeerInv(h, i, p) {
      assert PeerInv(g, i, p);
    }
    assert g.played[i] + [] == g.played[i];
    InvByNode(g, h, i, []);
  }

  // ------------------------------------------------------------------- runs

  lemma StartInv(c: Config)
    requires c.Valid()
    ensures Inv(Start(c))
  {
    var g := Start(c);
    assert forall i :: 0 <= i < c.nodes ==> g.nodes[i] == InitNode(i, c);
    forall i | 0 <= i < c.nodes
      ensures NodeInv(g, i) && PlayedInv(g, i)
    {
      DivMod(0, c.ticdup, 0);
    }
    forall i, p | 0 <= i < c.nodes && 0 <= p < c.nodes
      ensures PeerInv(g, i, p)
    {
      DivMod(0, c.ticdup, 0);
    }
  }

  /** Every move, by any node, keeps the invariant. */
  lemma MoveKeepsInv(g: Game, m: Move)
    requires Inv(g) && Enabled(g, m)
    ensures Inv(Apply(g, m))
  {
    match m
    case Update(i, now, input) => UpdateKeepsInv(g, i, now, input);
    case Deliver(i, s) => DeliverKeepsInv(g, i, s);
    case Play(i) => PlayKeepsInv(g, i);
    case AdaptClock(i) => AdaptKeepsInv(g, i);
    case Quit(i) => QuitKeepsInv(g, i);
  }
}
