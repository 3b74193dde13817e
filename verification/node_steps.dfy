/** The steps one node takes by itself, and why each of them is a move of the whole game. */
module NodeSteps {
  import opened Wrappers
  import opened Lockstep
  import opened LockstepGame

  /** One visit to the network layer: the time, the commands the player would give, and
      the packets that are waiting. */
  datatype Visit = Visit(now: int, input: nat -> Ticcmd, inbox: seq<(nat, Packet)>)

  /** The node's own steps, in the order it took them. */
  datatype LocalStep = Net(visit: Visit) | Clock | Round

  const MAXINT := 0x7fffffff

  /** The tic before which the commands of every node in the game below `k` have arrived. */
  function LowestTic(n: Node, k: nat): (low: int)
    requires k <= |n.ingame| == |n.nettics|
    ensures forall p :: 0 <= p < k && n.ingame[p] ==> low <= n.nettics[p]
    ensures low == MAXINT || exists p :: 0 <= p < k && n.ingame[p] && low == n.nettics[p]
  {
    if k == 0 then MAXINT
    else
      var low := LowestTic(n, k - 1);
      if n.ingame[k - 1] && n.nettics[k - 1] < low then n.nettics[k - 1] else low
  }

  /** What the number of tics a call runs must be, after `realtics` have gone by and with
      `available` there to run: never none, never more than are there, one to catch up when
      more than one would be left over, and else what went by or all that are there. */
  predicate RunsAsDue(realtics: int, available: int, counts: int) {
    && counts >= 1
    && (available >= 1 ==> counts <= available)
    && (available <= 1 || realtics <= 0 ==> counts == 1)
    && (realtics >= 0 && available - realtics >= 2 ==> available - counts == available - realtics - 1)
    && (1 <= realtics <= available <= realtics + 1 ==> counts == realtics)
    && (1 <= available <= realtics ==> counts == available)
  }

  /** How many tics to run: one more than went by if that many are there, and at least one. */
  function Counts(realtics: int, availabletics: int): (r: nat)
    ensures RunsAsDue(realtics, availabletics, r)
  {
    var counts := if realtics < availabletics - 1 then realtics + 1
                  else if realtics < availabletics then realtics
                  else availabletics;
    if counts < 1 then 1 else counts
  }

  /** Calls that ran `ran` tics each, while the tics in `gone` went by and arrived before
      each, with `behind` tics there already at the start. */
  predicate RunsEach(behind: int, gone: seq<nat>, ran: seq<nat>)
    decreases |gone|
  {
    && |ran| == |gone|
    && (gone == []
        || (RunsAsDue(gone[0], behind + gone[0], ran[0])
            && RunsEach(behind + gone[0] - ran[0], gone[1..], ran[1..])))
  }

  function Sum(tics: seq<nat>): nat {
    if tics == [] then 0 else tics[0] + Sum(tics[1..])
  }

  /** A node that has fallen behind catches up by one tic a call until a single tic is left
      over, and stays there; one that has not runs exactly what goes by. */
  lemma {:induction false} CatchesUp(behind: nat, gone: seq<nat>, ran: seq<nat>)
    requires RunsEach(behind, gone, ran) && forall k :: 0 <= k < |gone| ==> gone[k] >= 1
    ensures behind + Sum(gone) - Sum(ran)
            == if behind <= 1 then behind else if behind - |gone| >= 1 then behind - |gone| else 1
    decreases |gone|
  {
    if gone != [] {
      CatchesUp(behind + gone[0] - ran[0], gone[1..], ran[1..]);
    }
  }

  /** How many tics a call wants to run, once the first visit is made. */
  function Wanted(n: Node, c: Config, v: Visit, realtics: int): nat
    requires Shaped(n, c) && InboxOk(v.inbox, c) && Visited(n, c, v).Some? && Shaped(Visited(n, c, v).value, c)
  {
    Counts(realtics, LowestTic(Visited(n, c, v).value, c.nodes) - Tic(n, c))
  }

  function DueInput(n: Node, v: Visit): seq<Ticcmd>
    requires v.now > n.gametime
  {
    seq(DueTics(n, v.now - n.gametime).0, i requires 0 <= i => v.input(i))
  }

  /** Building and sending; `None` when there are more tics to send than a packet holds. */
  function Updated(n: Node, c: Config, v: Visit): (r: Option<Node>)
    requires Shaped(n, c)
    ensures r.Some? ==> Shaped(r.value, c)
  {
    if v.now <= n.gametime then Some(n.(gametime := v.now))
    else
      BuildKeeps(n.(gametime := v.now, skiptics := DueTics(n, v.now - n.gametime).1), c, DueInput(n, v));
      var b := Built(n, c, v.now, DueInput(n, v));
      if SendFails(b) then None else Receive(AfterSend(b, c), n.me, PacketFor(b, n.me))
  }

  /** What is sent to the peers below `k`, in order. */
  function Outbox(n: Node, k: nat): seq<(nat, Packet)>
    requires k <= |n.ingame| == |n.resendto| == |n.remoteresend| == |n.nettics|
  {
    if k == 0 then []
    else Outbox(n, k - 1) + if n.ingame[k - 1] && k - 1 != n.me then [(k - 1, PacketFor(n, k - 1))] else []
  }

  /** Every other node in the game is sent its packet, once and in the order of the nodes. */
  lemma {:induction false} OutboxMeans(n: Node, k: nat, p: nat, pkt: Packet)
    requires k <= |n.ingame| == |n.resendto| == |n.remoteresend| == |n.nettics|
    ensures (p, pkt) in Outbox(n, k) <==> p < k && p != n.me && n.ingame[p] && pkt == PacketFor(n, p)
    ensures forall i, j :: 0 <= i < j < |Outbox(n, k)| ==> Outbox(n, k)[i].0 < Outbox(n, k)[j].0
    ensures forall i :: 0 <= i < |Outbox(n, k)| ==> Outbox(n, k)[i].0 < k
  {
    if k > 0 {
      OutboxMeans(n, k - 1, p, pkt);
    }
  }

  ghost predicate InboxOk(inbox: seq<(nat, Packet)>, c: Config) {
    forall k :: 0 <= k < |inbox| ==> inbox[k].0 < c.nodes
  }

  function ReceiveAll(n: Node, c: Config, inbox: seq<(nat, Packet)>): (r: Option<Node>)
    requires Shaped(n, c) && InboxOk(inbox, c)
    ensures r.Some? ==> Shaped(r.value, c)
    decreases |inbox|
  {
    if inbox == [] then Some(n)
    else
      match Receive(n, inbox[0].0, inbox[0].1)
      case None => None
      case Some(n1) => ReceiveAll(n1, c, inbox[1..])
  }

  function Visited(n: Node, c: Config, v: Visit): Option<Node>
    requires Shaped(n, c) && InboxOk(v.inbox, c)
  {
    match Updated(n, c, v)
    case None => None
    case Some(n1) => ReceiveAll(n1, c, v.inbox)
  }

  /** What a node keeps by itself, whatever arrives: it never is behind what it plays. */
  ghost predicate LocalInv(n: Node, c: Config) {
    && Shaped(n, c) && n.ingame[n.me] && n.gametic % c.ticdup == 0
    && forall p :: 0 <= p < c.nodes && n.ingame[p] ==> Tic(n, c) <= n.nettics[p]
  }

  ghost predicate StepOk(n: Node, c: Config, s: LocalStep) {
    && LocalInv(n, c)
    && match s
       case Net(v) => InboxOk(v.inbox, c) && NotFrom(n.me, v.inbox)
       case Clock => true
       case Round => CanPlay(n, c)
  }

  ghost predicate NotFrom(me: nat, inbox: seq<(nat, Packet)>) {
    forall k :: 0 <= k < |inbox| ==> inbox[k].0 != me
  }

  /** What arrives comes from other nodes of the game. */
  ghost predicate VisitsOk(env: seq<Visit>, c: Config, me: nat) {
    forall k :: 0 <= k < |env| ==> InboxOk(env[k].inbox, c) && NotFrom(me, env[k].inbox)
  }

  ghost function TakeStep(n: Node, c: Config, s: LocalStep): Option<Node>
    requires StepOk(n, c, s)
  {
    match s
    case Net(v) => Visited(n, c, v)
    case Clock => Some(Adapt(n, c))
    case Round => Some(PlayFrom(n, c, 0).0)
  }

  ghost function StepRows(n: Node, c: Config, s: LocalStep): seq<Row>
    requires StepOk(n, c, s)
  {
    if s.Round? then PlayFrom(n, c, 0).1 else []
  }

  /** The step `s`, taken at `k` when it is allowed, leads to `m` and adds its rows. */
  ghost predicate Goes(k: Node, c: Config, s: LocalStep, m: Option<Node>, before: seq<Row>, rows: seq<Row>) {
    StepOk(k, c, s) && m == TakeStep(k, c, s) && rows == before + StepRows(k, c, s)
  }

  /** `m` is reached from `n` by taking the steps one after the other, each when it is
      allowed, and playing `rows` on the way. */
  ghost predicate Walks(n: Node, c: Config, steps: seq<LocalStep>, m: Option<Node>, rows: seq<Row>)
    decreases |steps|
  {
    if steps == [] then m == Some(n) && rows == []
    else
      var last := |steps| - 1;
      exists k: Node, before: seq<Row> ::
        Walks(n, c, steps[..last], Some(k), before) && Goes(k, c, steps[last], m, before, rows)
  }

  lemma Walk(n: Node, c: Config, steps: seq<LocalStep>, k: Node, before: seq<Row>, s: LocalStep,
             m: Option<Node>, rows: seq<Row>)
    requires Walks(n, c, steps, Some(k), before) && Goes(k, c, s, m, before, rows)
    ensures Walks(n, c, steps + [s], m, rows)
  {
    assert (steps + [s])[..|steps|] == steps;
  }

  // --------------------------------------------- what every local step keeps

  lemma ReceiveKeepsLocal(n: Node, c: Config, src: nat, pkt: Packet)
    requires LocalInv(n, c) && src < c.nodes && src != n.me
    ensures match Receive(n, src, pkt)
            case None => pkt.flag == Kill
            case Some(r) => LocalInv(r, c) && r.gametic == n.gametic
                            && (forall p :: 0 <= p < c.nodes ==> n.nettics[p] <= r.nettics[p])
                            && (forall p :: 0 <= p < c.nodes && r.ingame[p] ==> n.ingame[p])
                            && r.me == n.me && r.gametime == n.gametime
  {
  }

  lemma {:induction false} ReceiveAllKeepsLocal(n: Node, c: Config, inbox: seq<(nat, Packet)>)
    requires LocalInv(n, c) && InboxOk(inbox, c) && NotFrom(n.me, inbox)
    ensures match ReceiveAll(n, c, inbox)
            case None => true
            case Some(r) => LocalInv(r, c) && Grown(n, r)
    decreases |inbox|
  {
    if inbox != [] {
      ReceiveKeepsLocal(n, c, inbox[0].0, inbox[0].1);
      match Receive(n, inbox[0].0, inbox[0].1)
      case None =>
      case Some(n1) => ReceiveAllKeepsLocal(n1, c, inbox[1..]);
    }
  }

  /** Nothing a visit does forgets a tic, moves the game, or lets a player back in. */
  ghost predicate Grown(n: Node, r: Node) {
    && |r.nettics| == |n.nettics| == |r.ingame| == |n.ingame|
    && r.gametic == n.gametic && r.me == n.me
    && (forall p :: 0 <= p < |n.nettics| ==> n.nettics[p] <= r.nettics[p])
    && (forall p :: 0 <= p < |n.ingame| && r.ingame[p] ==> n.ingame[p])
  }

  lemma VisitKeepsLocal(n: Node, c: Config, v: Visit)
    requires LocalInv(n, c) && InboxOk(v.inbox, c) && NotFrom(n.me, v.inbox)
    ensures match Visited(n, c, v)
            case None => true
            case Some(r) => LocalInv(r, c) && Grown(n, r)
  {
    if v.now > n.gametime {
      BuildKeeps(n.(gametime := v.now, skiptics := DueTics(n, v.now - n.gametime).1), c, DueInput(n, v));
    }
    match Updated(n, c, v)
    case None =>
    case Some(n1) =>
      assert LocalInv(n1, c) && Grown(n, n1);
      ReceiveAllKeepsLocal(n1, c, v.inbox);
  }

  lemma {:induction false} PlayFromLocal(n: Node, c: Config, i: nat)
    requires Shaped(n, c) && i <= c.ticdup
    ensures var m := PlayFrom(n, c, i).0;
            Shaped(m, c) && m == n.(gametic := n.gametic + c.ticdup - i, netcmds := m.netcmds)
    ensures |PlayFrom(n, c, i).1| == c.ticdup - i
    decreases c.ticdup - i
  {
    if i < c.ticdup {
      PlayFromLocal(PlayOnce(n, c, i).0, c, i + 1);
    }
  }

  lemma RoundKeepsLocal(n: Node, c: Config)
    requires LocalInv(n, c) && CanPlay(n, c)
    ensures var r := PlayFrom(n, c, 0).0;
            LocalInv(r, c) && Tic(r, c) == Tic(n, c) + 1 && r == n.(gametic := r.gametic, netcmds := r.netcmds)
  {
    PlayFromLocal(n, c, 0);
    NextTic(n.gametic, c.ticdup);
  }

  lemma AdaptKeepsLocal(n: Node, c: Config)
    requires LocalInv(n, c)
    ensures LocalInv(Adapt(n, c), c)
  {
  }

  // ------------------------------------------------ local steps are game moves

  /** The packets can be delivered to node `i` one after the other. */
  ghost predicate Deliverable(g: Game, i: nat, sents: seq<Sent>)
    requires Inv(g)
    decreases |sents|
  {
    sents == [] ||
    (&& Enabled(g, Deliver(i, sents[0]))
     && (DeliverKeepsInv(g, i, sents[0]); Deliverable(Apply(g, Deliver(i, sents[0])), i, sents[1..])))
  }

  ghost function DeliverAll(g: Game, i: nat, sents: seq<Sent>): Game
    requires Inv(g) && Deliverable(g, i, sents)
    decreases |sents|
  {
    if sents == [] then g
    else
      DeliverKeepsInv(g, i, sents[0]);
      DeliverAll(Apply(g, Deliver(i, sents[0])), i, sents[1..])
  }

  function Inbox(sents: seq<Sent>): seq<(nat, Packet)> {
    seq(|sents|, k requires 0 <= k < |sents| => (sents[k].src, sents[k].pkt))
  }

  lemma {:induction false} ReceivingIsDelivering(g: Game, i: nat, sents: seq<Sent>)
    requires Inv(g) && i < g.cfg.nodes && Deliverable(g, i, sents)
    ensures InboxOk(Inbox(sents), g.cfg)
    ensures i < |DeliverAll(g, i, sents).nodes|
    ensures ReceiveAll(g.nodes[i], g.cfg, Inbox(sents)) == Some(DeliverAll(g, i, sents).nodes[i])
    decreases |sents|
  {
    if sents != [] {
      DeliverKeepsInv(g, i, sents[0]);
      assert SentInv(g, sents[0]);
      ReceivingIsDelivering(Apply(g, Deliver(i, sents[0])), i, sents[1..]);
      assert Inbox(sents)[1..] == Inbox(sents[1..]);
      forall k | 0 <= k < |sents| ensures Inbox(sents)[k].0 < g.cfg.nodes {
        if k > 0 {
          assert Inbox(sents)[k] == Inbox(sents[1..])[k - 1];
        }
      }
    }
  }

  ghost function UpdateMove(n: Node, i: nat, v: Visit): Move {
    Update(i, v.now, if v.now <= n.gametime then [] else DueInput(n, v))
  }

  /** The game after node `i` has built and sent for the visit. */
  ghost function AfterSending(g: Game, i: nat, v: Visit): (h: Game)
    requires Inv(g) && i < g.cfg.nodes && g.running[i]
    ensures Inv(h) && h.cfg == g.cfg
    ensures Enabled(g, UpdateMove(g.nodes[i], i, v)) && h == Apply(g, UpdateMove(g.nodes[i], i, v))
  {
    MoveKeepsInv(g, UpdateMove(g.nodes[i], i, v));
    Apply(g, UpdateMove(g.nodes[i], i, v))
  }

  lemma UpdateIsMove(g: Game, i: nat, v: Visit)
    requires Inv(g) && i < g.cfg.nodes && g.running[i]
    ensures var h := AfterSending(g, i, v);
            Updated(g.nodes[i], g.cfg, v) == if h.running[i] then Some(h.nodes[i]) else None
  {
    if v.now > g.nodes[i].gametime {
      BuiltNode(g, i, v.now, DueInput(g.nodes[i], v));
    }
  }

  /** A visit to the network is an update move followed by deliveries. The visit fails exactly if
      the update stops the node. */
  lemma VisitIsMoves(g: Game, i: nat, v: Visit, sents: seq<Sent>)
    requires Inv(g) && i < g.cfg.nodes && g.running[i] && InboxOk(v.inbox, g.cfg)
    requires AfterSending(g, i, v).running[i] ==> v.inbox == Inbox(sents) && Deliverable(AfterSending(g, i, v), i, sents)
    ensures var h := AfterSending(g, i, v);
            if h.running[i] then
              i < |DeliverAll(h, i, sents).nodes| && Visited(g.nodes[i], g.cfg, v) == Some(DeliverAll(h, i, sents).nodes[i])
            else Visited(g.nodes[i], g.cfg, v) == None
  {
    UpdateIsMove(g, i, v);
    if AfterSending(g, i, v).running[i] {
      ReceivingIsDelivering(AfterSending(g, i, v), i, sents);
    }
  }

  /** A round is a play move, a clock step an adapt move. */
  lemma RoundIsPlay(g: Game, i: nat, s: LocalStep)
    requires Inv(g) && i < g.cfg.nodes && g.running[i] && !s.Net?
    requires StepOk(g.nodes[i], g.cfg, s)
    ensures var m := if s.Round? then Play(i) else AdaptClock(i);
            Enabled(g, m) && i < |Apply(g, m).nodes| && TakeStep(g.nodes[i], g.cfg, s) == Some(Apply(g, m).nodes[i])
            && i < |Apply(g, m).played| && Apply(g, m).played[i] == g.played[i] + StepRows(g.nodes[i], g.cfg, s)
  {
    assert g.played[i] + [] == g.played[i];
  }
}
