/** Whole games: all nodes play the same commands, and what requests that come late can do. */
module LockstepRuns {
  import opened Lockstep
  import opened LockstepGame
  import opened Wrappers

  /** A game from its start on: the states between the moves. */
  ghost predicate Runs(c: Config, games: seq<Game>, moves: seq<Move>)
    requires c.Valid()
  {
    && |games| == |moves| + 1 && games[0] == Start(c)
    && forall k :: 0 <= k < |moves| ==> Leads(games[k], moves[k], games[k + 1])
  }

  ghost predicate Leads(g: Game, m: Move, h: Game) {
    Shape(g) ==> Enabled(g, m) && h == Apply(g, m)
  }

  lemma {:induction false} ReachableInv(c: Config, games: seq<Game>, moves: seq<Move>)
    requires c.Valid() && Runs(c, games, moves)
    ensures Inv(games[|moves|]) && games[|moves|].cfg == c
    decreases |moves|
  {
    if moves == [] {
      StartInv(c);
    } else {
      var last := |moves| - 1;
      ReachableInv(c, games[..last + 1], moves[..last]);
      assert Leads(games[last], moves[last], games[last + 1]);
      MoveKeepsInv(games[last], moves[last]);
    }
  }

  /** The state can come about in a game from its start on. */
  ghost predicate Reached(c: Config, g: Game) {
    exists games: seq<Game>, moves: seq<Move> :: RunTo(c, games, moves, g)
  }

  ghost predicate RunTo(c: Config, games: seq<Game>, moves: seq<Move>, g: Game) {
    c.Valid() && Runs(c, games, moves) && games[|moves|] == g
  }

  lemma ReachedInv(c: Config, g: Game)
    requires Reached(c, g)
    ensures Inv(g) && g.cfg == c
  {
    var games, moves :| RunTo(c, games, moves, g);
    ReachableInv(c, games, moves);
  }

  lemma StartReached(c: Config)
    requires c.Valid()
    ensures Reached(c, Start(c))
  {
    assert RunTo(c, [Start(c)], [], Start(c));
  }

  lemma MoveReached(c: Config, g: Game, m: Move)
    requires Reached(c, g) && Inv(g) && Enabled(g, m)
    ensures Reached(c, Apply(g, m))
  {
    var games, moves :| RunTo(c, games, moves, g);
    var games', moves' := games + [Apply(g, m)], moves + [m];
    forall k | 0 <= k < |moves'| ensures Leads(games'[k], moves'[k], games'[k + 1]) {
      if k < |moves| {
        assert Leads(games[k], moves[k], games[k + 1]);
      }
    }
    assert RunTo(c, games', moves', Apply(g, m));
  }

  /** What node `i` played for player `p` in its turn `k`: that player's command for the tic. */
  ghost predicate PlayedBuilt(g: Game, i: nat, k: nat, p: nat)
    requires Shape(g) && i < g.cfg.nodes && p < g.cfg.nodes && k < |g.played[i]|
  {
    && |g.played[i][k]| == g.cfg.nodes
    && match g.played[i][k][p]
       case Some(cmd) =>
         k / g.cfg.ticdup < |g.built[p]| && cmd == Replayed(g.built[p][k / g.cfg.ticdup], k % g.cfg.ticdup)
       case None => !g.running[p]
  }

  /** Whatever the network does, a node only ever plays for player `p` in tic `t` the
      command that player's own node built for that tic. */
  lemma PlaysWhatWasBuilt(c: Config, games: seq<Game>, moves: seq<Move>, i: nat, p: nat)
    requires c.Valid() && Runs(c, games, moves) && i < c.nodes && p < c.nodes
    ensures Shape(games[|moves|]) && games[|moves|].cfg == c
    ensures forall k :: 0 <= k < |games[|moves|].played[i]| ==> PlayedBuilt(games[|moves|], i, k, p)
  {
    var g := games[|moves|];
    ReachableInv(c, games, moves);
    forall k | 0 <= k < |g.played[i]| ensures PlayedBuilt(g, i, k, p) {
      assert PlayedInv(g, i);
      assert RowInv(g, k, g.played[i][k]);
    }
  }

  /** However often a tic is played, the player moves as commanded each time, and what is said and
      any special action are given in the first play alone. */
  lemma RepeatsOnlyMove(c: Config, games: seq<Game>, moves: seq<Move>, i: nat, p: nat, k: nat)
    requires c.Valid() && Runs(c, games, moves) && i < c.nodes && p < c.nodes
    requires Shape(games[|moves|]) && games[|moves|].cfg == c && k < |games[|moves|].played[i]|
    ensures PlayedBuilt(games[|moves|], i, k, p)
    ensures var g := games[|moves|];
            g.played[i][k][p].Some? ==>
              var built, cmd := g.built[p][k / c.ticdup], g.played[i][k][p].value;
              && cmd.forwardmove == built.forwardmove && cmd.sidemove == built.sidemove && cmd.angleturn == built.angleturn
              && (k % c.ticdup == 0 ==> cmd == built)
              && (k % c.ticdup > 0 ==> cmd.chatchar == 0 && cmd.buttons / 128 % 2 == 0
                                       && (built.buttons / 128 % 2 == 0 ==> cmd.buttons == built.buttons))
  {
    PlaysWhatWasBuilt(c, games, moves, i, p);
    var g := games[|moves|];
    assert PlayedBuilt(g, i, k, p);
    if g.played[i][k][p].Some? {
      ReplayMeans(g.built[p][k / c.ticdup], k % c.ticdup);
    }
  }

  /** For a player still in the game two nodes play the same; for one that has left, what they
      play may differ only in that one of them plays nothing. */
  ghost predicate SamePlay(g: Game, i: nat, j: nat, k: nat, p: nat)
    requires Shape(g) && i < g.cfg.nodes && j < g.cfg.nodes && p < g.cfg.nodes && k < |g.played[i]| && k < |g.played[j]|
  {
    && |g.played[i][k]| == |g.played[j][k]| == g.cfg.nodes
    && (g.running[p] || (g.played[i][k][p].Some? && g.played[j][k][p].Some?) ==> g.played[i][k][p] == g.played[j][k][p])
  }

  /** All nodes play the same, as far as each has come, but for players that have left; and while
      nobody has left, they have played the same rows. */
  lemma Agreement(c: Config, games: seq<Game>, moves: seq<Move>, i: nat, j: nat)
    requires c.Valid() && Runs(c, games, moves) && i < c.nodes && j < c.nodes
    ensures var g := games[|moves|];
            && Shape(g) && g.cfg == c
            && (forall k, p :: 0 <= k < |g.played[i]| && k < |g.played[j]| && 0 <= p < c.nodes ==> SamePlay(g, i, j, k, p))
            && ((forall p :: 0 <= p < c.nodes ==> g.running[p]) && |g.played[i]| <= |g.played[j]| ==> g.played[i] <= g.played[j])
  {
    var g := games[|moves|];
    ReachableInv(c, games, moves);
    forall k, p | 0 <= k < |g.played[i]| && k < |g.played[j]| && 0 <= p < c.nodes ensures SamePlay(g, i, j, k, p) {
      SameEntry(g, i, j, k, p);
    }
    if (forall p :: 0 <= p < c.nodes ==> g.running[p]) && |g.played[i]| <= |g.played[j]| {
      forall k | 0 <= k < |g.played[i]| ensures g.played[i][k] == g.played[j][k] {
        SameRow(g, i, j, k);
      }
    }
  }

  lemma SameEntry(g: Game, i: nat, j: nat, k: nat, p: nat)
    requires Inv(g) && i < g.cfg.nodes && j < g.cfg.nodes && p < g.cfg.nodes && k < |g.played[i]| && k < |g.played[j]|
    ensures SamePlay(g, i, j, k, p)
  {
    assert PlayedInv(g, i) && PlayedInv(g, j);
    assert RowInv(g, k, g.played[i][k]) && RowInv(g, k, g.played[j][k]);
  }

  lemma SameRow(g: Game, i: nat, j: nat, k: nat)
    requires Inv(g) && i < g.cfg.nodes && j < g.cfg.nodes && k < |g.played[i]| && k < |g.played[j]|
    requires forall p :: 0 <= p < g.cfg.nodes ==> g.running[p]
    ensures g.played[i][k] == g.played[j][k]
  {
    assert PlayedInv(g, i) && RowInv(g, k, g.played[i][k]);
    assert PlayedInv(g, j) && RowInv(g, k, g.played[j][k]);
    forall p | 0 <= p < g.cfg.nodes ensures g.played[i][k][p] == g.played[j][k][p] {
      SameEntry(g, i, j, k, p);
    }
  }

  /** A player that leaves can be heard of at any time, however long the game has been going on. */
  lemma QuitIsHeard(g: Game, i: nat, p: nat)
    requires Inv(g) && Enabled(g, Quit(i)) && p < g.cfg.nodes && p != i && g.running[p] && g.nodes[i].ingame[p]
    ensures Inv(Apply(g, Quit(i)))
    ensures var h, s := Apply(g, Quit(i)), Sent(i, p, Packet(Exit, 0, 0, i, []), 0, 0);
            && h.cfg == g.cfg && Enabled(h, Deliver(p, s)) && Inv(Apply(h, Deliver(p, s)))
            && p < |Apply(h, Deliver(p, s)).nodes| && Apply(h, Deliver(p, s)).nodes[p] == g.nodes[p].(ingame := g.nodes[p].ingame[i := false])
  {
    var h, s := Apply(g, Quit(i)), Sent(i, p, Packet(Exit, 0, 0, i, []), 0, 0);
    MoveKeepsInv(g, Quit(i));
    assert s in ExitPackets(g.nodes[i]);
    MoveKeepsInv(h, Deliver(p, s));
  }

  /** The window bounds in every reachable state. */
  lemma WindowAlways(c: Config, games: seq<Game>, moves: seq<Move>, i: nat, p: nat)
    requires c.Valid() && Runs(c, games, moves) && i < c.nodes && p < c.nodes
    ensures Shape(games[|moves|]) && games[|moves|].cfg == c
    ensures games[|moves|].running[i] ==> InWindow(games[|moves|], i, p)
  {
    var g := games[|moves|];
    ReachableInv(c, games, moves);
    if g.running[i] {
      Window(g, i, p);
      assert PeerInv(g, i, p);
    }
  }

  ghost predicate InWindow(g: Game, i: nat, p: nat)
    requires Shape(g) && i < g.cfg.nodes && p < g.cfg.nodes
  {
    && (g.nodes[i].ingame[p] ==> Tic(g.nodes[i], g.cfg) <= g.nodes[i].nettics[p])
    && g.nodes[i].nettics[p] <= g.nodes[p].maketic <= Tic(g.nodes[p], g.cfg) + 5
    && g.nodes[i].nettics[p] - Tic(g.nodes[i], g.cfg) <= 10
    && RingHolds(g.nodes[i].netcmds[p], g.built[p], Tic(g.nodes[i], g.cfg), g.nodes[i].nettics[p])
  }

  // ------------------------------------------- what late packets can still do

  /** When exactly an update stops with the error of a packet that cannot hold the tics. */
  lemma SendFailsExactly(g: Game, i: nat, now: int, input: seq<Ticcmd>)
    requires Inv(g) && Enabled(g, Update(i, now, input)) && now > g.nodes[i].gametime
    ensures var b := Built(g.nodes[i], g.cfg, now, input);
            && |b.ingame| == |b.resendto| == g.cfg.nodes
            && (SendFails(b) <==> exists p :: 0 <= p < g.cfg.nodes && b.ingame[p] && b.maketic - b.resendto[p] > BACKUPTICS)
  {
    BuiltNode(g, i, now, input);
    var b := Built(g.nodes[i], g.cfg, now, input);
    forall p | 0 <= p < g.cfg.nodes && b.ingame[p]
      ensures NumTics(b, p) == b.maketic - b.resendto[p]
    {
      assert PeerInv(g, i, p) && PeerInv(g, i, i);
    }
  }

  /** A request for tics that have left the local ring makes the next send fail. */
  lemma LateRequestHalts(g: Game, i: nat, s: Sent)
    requires Inv(g) && Enabled(g, Deliver(i, s)) && s.pkt.flag == Retransmit
    requires g.nodes[i].resendcount[s.src] <= 0 && g.nodes[i].ingame[s.src]
    ensures var n := Apply(g, Deliver(i, s)).nodes[i];
            SendFails(n) <== n.maketic - s.resendfrom > BACKUPTICS
    ensures var n := Apply(g, Deliver(i, s)).nodes[i];
            n.resendto[s.src] == s.resendfrom
  {
    var n := g.nodes[i];
    assert SentInv(g, s) && NodeInv(g, i);
    ExpandTicsExact(s.resendfrom, n.maketic);
    var n' := Apply(g, Deliver(i, s)).nodes[i];
    assert n'.resendto[s.src] == s.resendfrom && n'.ingame[s.src];
    if n.maketic - s.resendfrom > BACKUPTICS {
      assert NumTics(n', s.src) == n.maketic - s.resendfrom;
    }
  }

  /** A move is prompt when it delivers no request for tics more than `BACKUPTICS - 5` back. */
  ghost predicate Prompt(g: Game, m: Move)
    requires Shape(g) && Enabled(g, m)
  {
    m.Deliver? && m.sent.pkt.flag == Retransmit ==> g.nodes[m.i].maketic - m.sent.resendfrom <= BACKUPTICS - 5
  }

  ghost predicate ResendInv(g: Game)
    requires Shape(g)
  {
    forall i, p :: 0 <= i < g.cfg.nodes && 0 <= p < g.cfg.nodes && g.running[i] && g.nodes[i].ingame[p] ==>
      g.nodes[i].maketic - g.nodes[i].resendto[p] <= BACKUPTICS - 5
  }

  /** With prompt requests no update ever has more tics to send than a packet holds. */
  lemma PromptUpdateSends(g: Game, i: nat, now: int, input: seq<Ticcmd>)
    requires Inv(g) && ResendInv(g) && Enabled(g, Update(i, now, input)) && now > g.nodes[i].gametime
    ensures var b := Built(g.nodes[i], g.cfg, now, input);
            |b.ingame| == |b.resendto| && !SendFails(b)
  {
    BuiltNode(g, i, now, input);
    SendFailsExactly(g, i, now, input);
    var b := Built(g.nodes[i], g.cfg, now, input);
    forall p | 0 <= p < g.cfg.nodes && b.ingame[p]
      ensures b.maketic - b.resendto[p] <= BACKUPTICS
    {
      assert PeerInv(g, i, i);
    }
  }

  lemma ReboundResend(b: Node, c: Config, i: nat)
    requires Shaped(b, c) && b.me == i && b.ingame[i] && b.maketic <= Tic(b, c) + 5
    requires Tic(b, c) <= b.nettics[i] <= b.maketic
    ensures var r := Receive(AfterSend(b, c), i, PacketFor(b, i));
            r.Some? && r.value.maketic == b.maketic && r.value.ingame == b.ingame
            && |r.value.resendto| == |b.resendto|
            && forall p :: 0 <= p < c.nodes && b.ingame[p] ==> b.maketic - r.value.resendto[p] <= 5
  {
    ExpandTicsExact(b.nettics[i], b.maketic);
  }

  /** A move of node `i` only has to keep the requests answered by node `i` recent. */
  lemma ResendByNode(g: Game, h: Game, i: nat)
    requires Shape(g) && ResendInv(g) && i < g.cfg.nodes && Follows(g, h, i)
    requires forall p :: 0 <= p < g.cfg.nodes && h.running[i] && h.nodes[i].ingame[p] ==>
               h.nodes[i].maketic - h.nodes[i].resendto[p] <= BACKUPTICS - 5
    ensures ResendInv(h)
  {
  }

  lemma PromptUpdateKeeps(g: Game, i: nat, now: int, input: seq<Ticcmd>)
    requires Inv(g) && ResendInv(g) && Enabled(g, Update(i, now, input)) && now > g.nodes[i].gametime
    requires Shape(Apply(g, Update(i, now, input)))
    ensures ResendInv(Apply(g, Update(i, now, input)))
  {
    BuiltNode(g, i, now, input);
    PromptUpdateSends(g, i, now, input);
    assert PeerInv(g, i, i) && NodeInv(g, i);
    ReboundResend(Built(g.nodes[i], g.cfg, now, input), g.cfg, i);
    ResendByNode(g, Apply(g, Update(i, now, input)), i);
  }

  lemma PromptDeliverKeeps(g: Game, i: nat, s: Sent)
    requires Inv(g) && ResendInv(g) && Enabled(g, Deliver(i, s)) && Prompt(g, Deliver(i, s))
    requires Shape(Apply(g, Deliver(i, s)))
    ensures ResendInv(Apply(g, Deliver(i, s)))
  {
    assert SentInv(g, s);
    ExpandTicsExact(s.resendfrom, g.nodes[i].maketic);
    ResendByNode(g, Apply(g, Deliver(i, s)), i);
  }

  lemma PromptPlayKeeps(g: Game, i: nat)
    requires Inv(g) && ResendInv(g) && Enabled(g, Play(i)) && Shape(Apply(g, Play(i)))
    ensures ResendInv(Apply(g, Play(i)))
  {
    PlayReplays(g, i);
    PlayFromRows(g, i, g.nodes[i], 0, Tic(g.nodes[i], g.cfg));
  }

  lemma PromptKeepsResend(g: Game, m: Move)
    requires Inv(g) && ResendInv(g) && Enabled(g, m) && Prompt(g, m)
    requires Shape(Apply(g, m))
    ensures ResendInv(Apply(g, m))
  {
    match m
    case Update(i, now, input) =>
      if now > g.nodes[i].gametime {
        PromptUpdateKeeps(g, i, now, input);
      }
    case Deliver(i, s) => PromptDeliverKeeps(g, i, s);
    case Play(i) => PromptPlayKeeps(g, i);
    case AdaptClock(i) =>
    case Quit(i) =>
  }

  /** Only a quitter stops: the errors that end a node are out of reach. */
  lemma PromptKeepsRunning(g: Game, m: Move, i: nat)
    requires Inv(g) && ResendInv(g) && Enabled(g, m) && i < g.cfg.nodes && g.running[i] && m != Quit(i)
    requires Shape(Apply(g, m))
    ensures Apply(g, m).running[i]
  {
    if m.Update? && m.now > g.nodes[m.i].gametime {
      PromptUpdateSends(g, m.i, m.now, m.input);
    }
    if m.Deliver? {
      assert SentInv(g, m.sent);
    }
  }

  /** Every request is delivered promptly. */
  ghost predicate RunsPromptly(c: Config, games: seq<Game>, moves: seq<Move>)
    requires c.Valid()
  {
    && Runs(c, games, moves)
    && forall k :: 0 <= k < |moves| ==> DeliversPromptly(games[k], moves[k])
  }

  ghost predicate DeliversPromptly(g: Game, m: Move) {
    Shape(g) && Enabled(g, m) ==> Prompt(g, m)
  }

  /** Then a node only ever leaves the game by quitting. */
  lemma {:induction false} OnlyQuittersLeave(c: Config, games: seq<Game>, moves: seq<Move>, i: nat)
    requires c.Valid() && RunsPromptly(c, games, moves) && i < c.nodes
    requires forall k :: 0 <= k < |moves| ==> moves[k] != Quit(i)
    ensures var g := games[|moves|]; Inv(g) && ResendInv(g) && g.cfg == c && g.running[i]
    decreases |moves|
  {
    if moves == [] {
      StartInv(c);
    } else {
      var last := |moves| - 1;
      OnlyQuittersLeave(c, games[..last + 1], moves[..last], i);
      assert Leads(games[last], moves[last], games[last + 1]) && DeliversPromptly(games[last], moves[last]);
      MoveKeepsInv(games[last], moves[last]);
      PromptKeepsResend(games[last], moves[last]);
      PromptKeepsRunning(games[last], moves[last], i);
    }
  }

  /** Why deliveries have to be bounded: a packet that is 256 tics old is taken for a new
      one, and its command lands in the slot of a tic its sender has yet to build. */
  lemma AncientPacketMisread(n: Node, c: Config, src: nat, pkt: Packet, start: nat)
    requires Shaped(n, c) && src < c.nodes && pkt.flag == Plain && |pkt.cmds| == 1
    requires pkt.starttic == start % 256 && n.maketic == start + 256 && n.nettics[src] == n.maketic
    ensures var r := Receive(n, src, pkt);
            r.Some? && r.value.nettics[src] == n.maketic + 1
            && r.value.netcmds[src][n.maketic % BACKUPTICS] == pkt.cmds[0]
  {
    ExpandTicsExact(start + 256, n.maketic);
    assert (start + 256) % 256 == start % 256;
    var ring := n.netcmds[src];
    assert pkt.cmds[0..] == pkt.cmds && pkt.cmds[1..] == [];
    assert StoreRun(ring, n.maketic, pkt.cmds) == StoreRun(ring[n.maketic % BACKUPTICS := pkt.cmds[0]], n.maketic + 1, []);
  }
}
