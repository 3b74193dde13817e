/** The steps a node takes by itself, among the moves of all the others, are a run of the game. */
module LockstepClient {
  import opened Lockstep
  import opened LockstepGame
  import opened LockstepRuns
  import opened NodeSteps
  import opened Wrappers

  /** A step of node `i`, with the packets that a visit receives, or a move of another node. */
  datatype Turn = Mine(s: LocalStep, sents: seq<Sent>) | Theirs(m: Move)

  ghost predicate TurnOk(g: Game, i: nat, t: Turn)
    requires Inv(g)
  {
    && i < g.cfg.nodes
    && match t
       case Theirs(m) => Enabled(g, m) && m.i != i
       case Mine(Net(v), sents) =>
         && g.running[i] && InboxOk(v.inbox, g.cfg) && NotFrom(i, v.inbox)
         && (AfterSending(g, i, v).running[i] ==> v.inbox == Inbox(sents) && Deliverable(AfterSending(g, i, v), i, sents))
       case Mine(Clock, _) => Enabled(g, AdaptClock(i))
       case Mine(Round, _) => Enabled(g, Play(i))
  }

  ghost function TurnTo(g: Game, i: nat, t: Turn): (h: Game)
    requires Inv(g) && TurnOk(g, i, t)
  {
    match t
    case Theirs(m) => Apply(g, m)
    case Mine(Net(v), sents) =>
      var h := AfterSending(g, i, v);
      if h.running[i] then DeliverAll(h, i, sents) else h
    case Mine(Clock, _) => Apply(g, AdaptClock(i))
    case Mine(Round, _) => Apply(g, Play(i))
  }

  /** Moves of the others leave a node's state and what it has played alone. */
  lemma OthersKeep(g: Game, m: Move, i: nat)
    requires Inv(g) && Enabled(g, m) && m.i != i && i < g.cfg.nodes
    ensures var h := Apply(g, m);
            |h.nodes| == |h.running| == |h.played| == g.cfg.nodes && h.nodes[i] == g.nodes[i]
            && h.running[i] == g.running[i] && h.played[i] == g.played[i]
  {
    MoveKeepsInv(g, m);
  }

  /** Deliveries are moves, after which a node still runs and has played nothing. */
  lemma {:induction false} DeliveriesReached(c: Config, g: Game, i: nat, sents: seq<Sent>)
    requires Reached(c, g) && Inv(g) && i < g.cfg.nodes && Deliverable(g, i, sents) && g.running[i]
    ensures var h := DeliverAll(g, i, sents);
            Reached(c, h) && Inv(h) && h.cfg == g.cfg && h.running[i] && h.played == g.played
    decreases |sents|
  {
    if sents != [] {
      MoveReached(c, g, Deliver(i, sents[0]));
      DeliverKeepsInv(g, i, sents[0]);
      assert SentInv(g, sents[0]);
      DeliveriesReached(c, Apply(g, Deliver(i, sents[0])), i, sents[1..]);
    }
  }

  ghost function Local(g: Game, i: nat): Option<Node>
    requires Shape(g) && i < g.cfg.nodes
  {
    if g.running[i] then Some(g.nodes[i]) else None
  }

  lemma NodeIsLocal(g: Game, i: nat)
    requires Inv(g) && i < g.cfg.nodes
    ensures LocalInv(g.nodes[i], g.cfg)
  {
    assert NodeInv(g, i);
    forall p | 0 <= p < g.cfg.nodes && g.nodes[i].ingame[p] ensures Tic(g.nodes[i], g.cfg) <= g.nodes[i].nettics[p] {
      assert PeerInv(g, i, p);
    }
  }

  lemma UpdateReached(c: Config, g: Game, i: nat, v: Visit)
    requires Reached(c, g) && Inv(g) && i < g.cfg.nodes && g.running[i]
    ensures var h := AfterSending(g, i, v); Reached(c, h) && h.played == g.played
  {
    MoveReached(c, g, UpdateMove(g.nodes[i], i, v));
  }

  lemma VisitReached(c: Config, g: Game, i: nat, v: Visit, sents: seq<Sent>)
    requires Reached(c, g) && Inv(g) && g.cfg == c && TurnOk(g, i, Mine(Net(v), sents))
    ensures var h := TurnTo(g, i, Mine(Net(v), sents));
            && Reached(c, h) && Inv(h) && h.cfg == c && h.played == g.played
            && StepOk(g.nodes[i], c, Net(v)) && Local(h, i) == TakeStep(g.nodes[i], c, Net(v))
  {
    var h := AfterSending(g, i, v);
    UpdateReached(c, g, i, v);
    if h.running[i] {
      DeliveriesReached(c, h, i, sents);
    }
    VisitIsMoves(g, i, v, sents);
    NodeIsLocal(g, i);
  }

  lemma StepReached(c: Config, g: Game, i: nat, s: LocalStep)
    requires Reached(c, g) && Inv(g) && g.cfg == c && !s.Net? && TurnOk(g, i, Mine(s, []))
    ensures var h := TurnTo(g, i, Mine(s, []));
            && Reached(c, h) && Inv(h) && h.cfg == c
            && StepOk(g.nodes[i], c, s) && Local(h, i) == TakeStep(g.nodes[i], c, s)
            && h.played[i] == g.played[i] + StepRows(g.nodes[i], c, s)
  {
    NodeIsLocal(g, i);
    var m := if s.Round? then Play(i) else AdaptClock(i);
    RoundIsPlay(g, i, s);
    MoveReached(c, g, m);
    MoveKeepsInv(g, m);
  }

  // ------------------------------------------------------------------- turns

  /** The games between the turns. */
  ghost predicate TurnsRun(games: seq<Game>, i: nat, turns: seq<Turn>) {
    |games| == |turns| + 1 && forall k :: 0 <= k < |turns| ==> Turned(games[k], i, turns[k], games[k + 1])
  }

  ghost predicate Turned(g: Game, i: nat, t: Turn, h: Game) {
    Inv(g) ==> TurnOk(g, i, t) && h == TurnTo(g, i, t)
  }

  /** The node's own steps among the turns. */
  function StepsOf(turns: seq<Turn>): seq<LocalStep>
    decreases |turns|
  {
    if turns == [] then [] else StepsOf(turns[..|turns| - 1]) + StepOf(turns[|turns| - 1])
  }

  function StepOf(t: Turn): seq<LocalStep> {
    if t.Mine? then [t.s] else []
  }

  lemma TurnReached(c: Config, g: Game, i: nat, t: Turn)
    requires Reached(c, g) && Inv(g) && g.cfg == c && TurnOk(g, i, t)
    ensures Reached(c, TurnTo(g, i, t))
  {
    match t
    case Theirs(m) => MoveReached(c, g, m);
    case Mine(Net(v), sents) => VisitReached(c, g, i, v, sents);
    case Mine(Clock, sents) => StepReached(c, g, i, Clock);
    case Mine(Round, sents) => StepReached(c, g, i, Round);
  }

  /** What the turn is for node `i`: its own step, or nothing. */
  ghost predicate Stepped(c: Config, g: Game, h: Game, i: nat, t: Turn) {
    && Shape(g) && Inv(h) && g.cfg == h.cfg == c && i < c.nodes
    && match t
       case Theirs(_) => Local(h, i) == Local(g, i) && h.played[i] == g.played[i]
       case Mine(s, _) =>
         && g.running[i] && StepOk(g.nodes[i], c, s) && Local(h, i) == TakeStep(g.nodes[i], c, s)
         && h.played[i] == g.played[i] + StepRows(g.nodes[i], c, s)
  }

  lemma TurnSteps(c: Config, g: Game, i: nat, t: Turn)
    requires Reached(c, g) && Inv(g) && g.cfg == c && TurnOk(g, i, t)
    ensures Stepped(c, g, TurnTo(g, i, t), i, t)
  {
    match t
    case Theirs(m) =>
      OthersKeep(g, m, i);
      MoveKeepsInv(g, m);
    case Mine(Net(v), sents) =>
      VisitReached(c, g, i, v, sents);
      assert g.played[i] + [] == g.played[i];
    case Mine(Clock, sents) => StepReached(c, g, i, Clock);
    case Mine(Round, sents) => StepReached(c, g, i, Round);
  }

  /** From `g` to `h` node `i` has walked the steps, and played what the walk says. */
  ghost predicate GameWalked(c: Config, g: Game, h: Game, i: nat, steps: seq<LocalStep>) {
    && Reached(c, h) && Inv(g) && Inv(h) && g.cfg == h.cfg == c && i < c.nodes && g.played[i] <= h.played[i]
    && Walks(g.nodes[i], c, steps, Local(h, i), h.played[i][|g.played[i]|..])
  }

  lemma TurnWalks(c: Config, g: Game, k: Game, h: Game, i: nat, t: Turn, walked: seq<LocalStep>)
    requires GameWalked(c, g, k, i, walked) && Stepped(c, k, h, i, t) && Reached(c, h)
    ensures GameWalked(c, g, h, i, walked + StepOf(t))
  {
    var before := k.played[i][|g.played[i]|..];
    if t.Mine? {
      var rows := StepRows(k.nodes[i], c, t.s);
      RowsOnward(g.played[i], k.played[i], rows);
      Walk(g.nodes[i], c, walked, k.nodes[i], before, t.s, Local(h, i), before + rows);
    } else {
      assert walked + [] == walked;
    }
  }

  lemma RowsOnward(a: seq<Row>, b: seq<Row>, rows: seq<Row>)
    requires a <= b
    ensures a <= b + rows && (b + rows)[|a|..] == b[|a|..] + rows
  {
  }

  lemma {:induction false} TurnsWalk(c: Config, games: seq<Game>, i: nat, turns: seq<Turn>)
    requires TurnsRun(games, i, turns) && Reached(c, games[0]) && i < c.nodes
    requires i < |games[0].running| && games[0].running[i]
    ensures GameWalked(c, games[0], games[|turns|], i, StepsOf(turns))
    decreases |turns|
  {
    if turns == [] {
      ReachedInv(c, games[0]);
    } else {
      var last := |turns| - 1;
      TurnsWalk(c, games[..last + 1], i, turns[..last]);
      assert Turned(games[last], i, turns[last], games[last + 1]);
      TurnSteps(c, games[last], i, turns[last]);
      TurnReached(c, games[last], i, turns[last]);
      TurnWalks(c, games[0], games[last], games[last + 1], i, turns[last], StepsOf(turns[..last]));
    }
  }

  lemma {:induction false} WalksAgree(n: Node, c: Config, steps: seq<LocalStep>, m: Option<Node>, rows: seq<Row>,
                                      m': Option<Node>, rows': seq<Row>)
    requires Walks(n, c, steps, m, rows) && Walks(n, c, steps, m', rows')
    ensures m == m' && rows == rows'
    decreases |steps|
  {
    if steps != [] {
      var last := |steps| - 1;
      var k, before :| Walks(n, c, steps[..last], Some(k), before) && Goes(k, c, steps[last], m, before, rows);
      var k', before' :| Walks(n, c, steps[..last], Some(k'), before') && Goes(k', c, steps[last], m', before', rows');
      WalksAgree(n, c, steps[..last], Some(k), before, Some(k'), before');
    }
  }

  /** A client that takes its steps in a game, among the moves of the others and with packets
      from the network, is what the game says of its node: it ends in the same state, and what
      it plays is what the game records, so that what holds of all games holds of the client. */
  lemma ClientPlaysTheGame(c: Config, games: seq<Game>, i: nat, turns: seq<Turn>, m: Option<Node>, rows: seq<Row>)
    requires TurnsRun(games, i, turns) && Reached(c, games[0]) && i < c.nodes
    requires i < |games[0].running| == |games[0].nodes| && games[0].running[i]
    requires Walks(games[0].nodes[i], c, StepsOf(turns), m, rows)
    ensures var g, h := games[0], games[|turns|];
            Reached(c, h) && Inv(g) && Inv(h) && g.cfg == h.cfg == c && m == Local(h, i) && h.played[i] == g.played[i] + rows
  {
    TurnsWalk(c, games, i, turns);
    var g, h := games[0], games[|turns|];
    WalksAgree(g.nodes[i], c, StepsOf(turns), m, rows, Local(h, i), h.played[i][|g.played[i]|..]);
  }
}
