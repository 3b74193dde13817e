/** The node's variables and the procedures that update them in place. */
module NodeProgram {
  import opened Wrappers
  import opened Arithmetic
  import opened Lockstep
  import opened LockstepGame
  import opened NodeSteps

  class NetNode {
    const c: Config
    const me: nat
    var maketic: nat
    var gametic: nat
    var gametime: int
    const localcmds: array<Ticcmd>
    const netcmds: array2<Ticcmd>
    var nettics: seq<nat>
    var ingame: seq<bool>
    var remoteresend: seq<bool>
    var resendto: seq<int>
    var resendcount: seq<int>
    var skiptics: nat
    var oldnettics: nat
    var frameon: nat
    var frameskip: seq<bool>
    var oldentertics: int

    ghost predicate Buffers() {
      && localcmds.Length == BACKUPTICS
      && netcmds.Length0 == c.nodes && netcmds.Length1 == BACKUPTICS
    }

    ghost function RingOf(p: nat): Ring
      requires Buffers() && p < c.nodes
      reads netcmds
    {
      seq(BACKUPTICS, k requires 0 <= k < BACKUPTICS && Buffers() reads netcmds => netcmds[p, k])
    }

    ghost function Rings(): (r: seq<Ring>)
      requires Buffers()
      reads netcmds
      ensures |r| == c.nodes && forall p :: 0 <= p < c.nodes ==> r[p] == RingOf(p)
    {
      seq(c.nodes, p requires 0 <= p < c.nodes && Buffers() reads netcmds => RingOf(p))
    }

    /** The node as the protocol describes it. */
    ghost function View(): Node
      requires Buffers()
      reads this, localcmds, netcmds
    {
      Node(me, maketic, gametic, gametime, localcmds[..], Rings(), nettics, ingame, remoteresend, resendto,
           resendcount, skiptics, oldnettics, frameon, frameskip)
    }

    ghost predicate Valid()
      reads this, localcmds, netcmds
    {
      Buffers() && LocalInv(View(), c)
    }

    /** The node is where the walk of `steps` from `n` leads, having played `rows`. */
    ghost predicate Walked(n: Node, steps: seq<LocalStep>, rows: seq<Row>)
      reads this, localcmds, netcmds
    {
      Valid() && Walks(n, c, steps, Some(View()), rows)
    }

    /** Every node in the game has sent its commands for the tics below `lowtic`. */
    ghost predicate Has(lowtic: int)
      reads this
    {
      |ingame| == |nettics| && forall p :: 0 <= p < |ingame| && ingame[p] ==> lowtic <= nettics[p]
    }

    constructor (c: Config, me: nat)
      requires c.Valid() && me < c.nodes
      ensures Valid() && View() == InitNode(me, c) && fresh(localcmds) && fresh(netcmds) && this.c == c
    {
      this.c := c;
      this.me := me;
      maketic, gametic, gametime := 0, 0, 0;
      localcmds := new Ticcmd[BACKUPTICS](_ => NO_COMMAND);
      netcmds := new Ticcmd[c.nodes, BACKUPTICS]((_, _) => NO_COMMAND);
      nettics := seq(c.nodes, _ => 0);
      ingame := seq(c.nodes, _ => true);
      remoteresend := seq(c.nodes, _ => false);
      resendto := seq(c.nodes, _ => 0);
      resendcount := seq(c.nodes, _ => 0);
      skiptics, oldnettics, frameon, oldentertics := 0, 0, 0, 0;
      frameskip := seq(4, _ => false);
      new;
      DivMod(0, c.ticdup, 0);
      assert localcmds[..] == InitNode(me, c).localcmds;
      forall p | 0 <= p < c.nodes ensures Rings()[p] == InitNode(me, c).netcmds[p] {
        assert RingOf(p) == InitNode(me, c).netcmds[p];
      }
      assert Rings() == InitNode(me, c).netcmds;
    }

    method PutNetcmd(p: nat, slot: nat, cmd: Ticcmd)
      requires Buffers() && p < c.nodes && slot < BACKUPTICS
      modifies netcmds
      ensures Rings() == old(Rings())[p := old(RingOf(p))[slot := cmd]]
    {
      netcmds[p, slot] := cmd;
      forall q | 0 <= q < c.nodes
        ensures RingOf(q) == if q == p then old(RingOf(p))[slot := cmd] else old(RingOf(q))
      {
      }
    }

    /** Stores the commands that are new, one tic after the other. */
    method StoreTics(src: nat, realstart: int, cmds: seq<Ticcmd>)
      requires Buffers() && src < c.nodes == |nettics|
      requires realstart <= nettics[src] < realstart + |cmds|
      modifies this`nettics, netcmds
      ensures nettics == old(nettics)[src := realstart + |cmds|]
      ensures Rings() == old(Rings())[src := StoreRun(old(RingOf(src)), old(nettics[src]), cmds[old(nettics[src]) - realstart..])]
    {
      ghost var rings, tics := Rings(), nettics;
      while nettics[src] < realstart + |cmds|
        invariant |nettics| == c.nodes && realstart <= nettics[src] <= realstart + |cmds|
        invariant nettics == tics[src := nettics[src]]
        invariant Rings() == rings[src := RingOf(src)]
        invariant StoreRun(RingOf(src), nettics[src], cmds[nettics[src] - realstart..])
               == StoreRun(rings[src], tics[src], cmds[tics[src] - realstart..])
        decreases realstart + |cmds| - nettics[src]
      {
        var t := nettics[src];
        assert cmds[t - realstart..][1..] == cmds[t + 1 - realstart..];
        nettics := nettics[src := t + 1];
        PutNetcmd(src, t % BACKUPTICS, cmds[t - realstart]);
        assert RingOf(src) == Rings()[src];
        assert Rings() == rings[src := RingOf(src)];
      }
    }

    method TakeCommands(src: nat, realstart: int, cmds: seq<Ticcmd>)
      requires Buffers() && Shaped(View(), c) && src < c.nodes
      modifies this`nettics, this`remoteresend, netcmds
      ensures Shaped(View(), c) && View() == TakeTics(old(View()), src, realstart, cmds)
    {
      var realend := realstart + |cmds|;
      if realend <= nettics[src] {
        return;
      }
      if realstart > nettics[src] {
        remoteresend := remoteresend[src := true];
        return;
      }
      remoteresend := remoteresend[src := false];
      StoreTics(src, realstart, cmds);
    }

    /** Takes one packet; false when it kills the game. */
    method TakePacket(src: nat, pkt: Packet) returns (ok: bool)
      requires Buffers() && Shaped(View(), c) && src < c.nodes
      modifies this, netcmds
      ensures oldentertics == old(oldentertics)
      ensures ok == Receive(old(View()), src, pkt).Some?
      ensures ok ==> Shaped(View(), c) && View() == Receive(old(View()), src, pkt).value
    {
      if pkt.flag == Setup {
        return true;
      }
      var realstart := ExpandTics(pkt.starttic, maketic);
      if pkt.flag == Exit {
        if ingame[src] {
          ingame := ingame[src := false];
        } else {
          assert ingame == ingame[src := false];
        }
        return true;
      }
      if pkt.flag == Kill {
        return false;
      }
      if resendcount[src] <= 0 && pkt.flag == Retransmit {
        resendto := resendto[src := ExpandTics(pkt.retransmitfrom, maketic)];
        resendcount := resendcount[src := RESENDCOUNT];
      } else {
        resendcount := resendcount[src := resendcount[src] - 1];
      }
      assert View() == NoteResend(old(View()), src, pkt);
      TakeCommands(src, realstart, pkt.cmds);
      return true;
    }

    /** Takes the packets that are waiting, the looped-back one first. */
    method GetPackets(rebound: Option<Packet>, inbox: seq<(nat, Packet)>) returns (ok: bool)
      requires Buffers() && Shaped(View(), c) && InboxOk(inbox, c)
      requires rebound.Some? ==> rebound.value.flag != Kill
      modifies this, netcmds
      ensures oldentertics == old(oldentertics)
      ensures var n := if rebound.Some? then Receive(old(View()), me, rebound.value).value else old(View());
              && ok == ReceiveAll(n, c, inbox).Some?
              && (ok ==> View() == ReceiveAll(n, c, inbox).value)
    {
      if rebound.Some? {
        ok := TakePacket(me, rebound.value);
      }
      ghost var n := View();
      var k := 0;
      while k < |inbox|
        invariant k <= |inbox| && Buffers() && Shaped(View(), c) && oldentertics == old(oldentertics)
        invariant ReceiveAll(n, c, inbox) == ReceiveAll(View(), c, inbox[k..])
      {
        assert inbox[k..][1..] == inbox[k + 1..];
        ok := TakePacket(inbox[k].0, inbox[k].1);
        if !ok {
          return false;
        }
        k := k + 1;
      }
      return true;
    }

    /** Builds new commands, sends them to every node in the game, and listens. */
    method NetUpdate(v: Visit) returns (ok: bool, outbox: seq<(nat, Packet)>)
      requires Valid() && InboxOk(v.inbox, c) && NotFrom(me, v.inbox)
      modifies this, localcmds, netcmds
      ensures oldentertics == old(oldentertics)
      ensures ok == Visited(old(View()), c, v).Some?
      ensures ok ==> View() == Visited(old(View()), c, v).value && Valid()
      ensures var n := old(View());
              ok ==> outbox == if v.now <= n.gametime then [] else
                (BuildKeeps(n.(gametime := v.now, skiptics := DueTics(n, v.now - n.gametime).1), c, DueInput(n, v));
                 Outbox(Built(n, c, v.now, DueInput(n, v)), c.nodes))
    {
      outbox := [];
      VisitKeepsLocal(View(), c, v);
      ghost var n := View();
      var newtics := v.now - gametime;
      gametime := v.now;
      if newtics <= 0 {
        ok := GetPackets(None, v.inbox);
        return;
      }
      BuildDue(v, newtics, n);
      var rebound;
      ok, rebound, outbox := SendAll();
      if ok {
        ok := GetPackets(rebound, v.inbox);
      }
    }

    method BuildDue(v: Visit, newtics: nat, ghost n: Node)
      requires Buffers() && Shaped(n, c) && View() == n.(gametime := v.now) && newtics == v.now - n.gametime > 0
      modifies this`skiptics, this`maketic, localcmds
      ensures oldentertics == old(oldentertics)
      ensures View() == Built(n, c, v.now, DueInput(n, v)) && Shaped(View(), c)
    {
      var due := SkipTics(newtics);
      BuildKeeps(View(), c, DueInput(n, v));
      BuildTics(due, v.input);
    }

    /** How many tics are due when some of those that went by are to be skipped. */
    method SkipTics(newtics: nat) returns (due: nat)
      requires Buffers()
      modifies this`skiptics
      ensures (due, skiptics) == DueTics(old(View()), newtics) && View() == old(View()).(skiptics := skiptics)
    {
      if skiptics <= newtics {
        due := newtics - skiptics;
        skiptics := 0;
      } else {
        skiptics := skiptics - newtics;
        due := 0;
      }
    }

    method BuildTics(newtics: nat, input: nat -> Ticcmd)
      requires Buffers() && Shaped(View(), c)
      modifies this`maketic, localcmds
      ensures oldentertics == old(oldentertics)
      ensures View() == Build(old(View()), c, seq(newtics, i requires 0 <= i => input(i)))
    {
      ghost var all := seq(newtics, i requires 0 <= i => input(i));
      ghost var n := View();
      var gameticdiv := gametic / c.ticdup;
      var i := 0;
      while i < newtics
        invariant i <= newtics && Buffers() && Shaped(View(), c) && gameticdiv == Tic(View(), c)
        invariant Build(n, c, all) == Build(View(), c, all[i..])
        invariant oldentertics == old(oldentertics)
      {
        if maketic - gameticdiv >= BACKUPTICS / 2 - 1 {
          return;
        }
        assert all[i..][1..] == all[i + 1..];
        localcmds[maketic % BACKUPTICS] := input(i);
        maketic := maketic + 1;
        i := i + 1;
      }
    }

    method MakePacket(i: nat) returns (pkt: Packet)
      requires Buffers() && Shaped(View(), c) && i < c.nodes
      ensures pkt == PacketFor(View(), i)
    {
      var realstart := resendto[i];
      var numtics := (maketic - realstart) % 256;
      var cmds := [];
      var j := 0;
      while j < numtics
        invariant j <= numtics && |cmds| == j
        invariant forall k :: 0 <= k < j ==> cmds[k] == localcmds[(realstart + k) % BACKUPTICS]
      {
        cmds := cmds + [localcmds[(realstart + j) % BACKUPTICS]];
        j := j + 1;
      }
      assert cmds == PacketFor(View(), i).cmds;
      if remoteresend[i] {
        pkt := Packet(Retransmit, nettics[i] % 256, realstart % 256, me, cmds);
      } else {
        pkt := Packet(Plain, 0, realstart % 256, me, cmds);
      }
    }

    /** Sends what peer `i` is to get, unless it does not fit a packet. */
    method SendOne(i: nat, ghost n: Node) returns (ok: bool, pkt: Packet)
      requires Buffers() && Shaped(View(), c) && Shaped(n, c) && i < c.nodes
      requires n == View().(resendto := n.resendto) && n.resendto[i] == resendto[i]
      modifies this`resendto
      ensures ok == (NumTics(n, i) <= BACKUPTICS)
      ensures ok ==> pkt == PacketFor(n, i)
      ensures resendto == if ok then old(resendto)[i := maketic - c.extratics] else old(resendto)
    {
      pkt := MakePacket(i);
      assert PacketFor(View(), i) == PacketFor(n, i);
      ok := (maketic - resendto[i]) % 256 <= BACKUPTICS;
      if ok {
        resendto := resendto[i := maketic - c.extratics];
      }
    }

    /** Sends to peer `i`, or keeps the packet if the peer is the node itself. */
    method SendPeer(i: nat, ghost n: Node, was: Option<Packet>, box: seq<(nat, Packet)>)
      returns (ok: bool, rebound: Option<Packet>, outbox: seq<(nat, Packet)>)
      requires Buffers() && Shaped(View(), c) && Shaped(n, c) && i < c.nodes && ingame[i]
      requires n == View().(resendto := n.resendto) && n.resendto[i] == resendto[i] && box == Outbox(n, i)
      modifies this`resendto
      ensures ok == (NumTics(n, i) <= BACKUPTICS)
      ensures ok ==> outbox == Outbox(n, i + 1) && rebound == if i == me then Some(PacketFor(n, i)) else was
      ensures resendto == if ok then old(resendto)[i := maketic - c.extratics] else old(resendto)
    {
      rebound, outbox := was, box;
      var pkt;
      ok, pkt := SendOne(i, n);
      if ok {
        if i == me {
          rebound := Some(pkt);
        } else {
          outbox := outbox + [(i, pkt)];
        }
      }
    }

    /** Sends to every node in the game; false when the tics for one do not fit a packet. */
    method SendAll() returns (ok: bool, rebound: Option<Packet>, outbox: seq<(nat, Packet)>)
      requires Buffers() && Shaped(View(), c) && View().ingame[me]
      modifies this`resendto
      ensures Shaped(old(View()), c) && ok == !SendFails(old(View()))
      ensures ok ==> View() == AfterSend(old(View()), c) && rebound == Some(PacketFor(old(View()), me))
      ensures ok ==> outbox == Outbox(old(View()), c.nodes)
    {
      ghost var n := View();
      rebound, outbox := None, [];
      var i := 0;
      while i < c.nodes
        invariant i <= c.nodes && |resendto| == c.nodes && n == View().(resendto := n.resendto)
        invariant forall p :: 0 <= p < c.nodes ==>
                    resendto[p] == if p < i && n.ingame[p] then n.maketic - c.extratics else n.resendto[p]
        invariant forall p :: 0 <= p < i && n.ingame[p] ==> NumTics(n, p) <= BACKUPTICS
        invariant i > me ==> rebound == Some(PacketFor(n, me))
        invariant outbox == Outbox(n, i)
      {
        if ingame[i] {
          ok, rebound, outbox := SendPeer(i, n, rebound, outbox);
          if !ok {
            return;
          }
        }
        i := i + 1;
      }
      assert resendto == AfterSend(n, c).resendto;
      return true, rebound, outbox;
    }
  
    /** The tic before which the commands of every node in the game have arrived. */
    method LowTic() returns (lowtic: int)
      requires Valid() && Tic(View(), c) <= MAXINT
      ensures Has(lowtic) && Tic(View(), c) <= lowtic && lowtic == LowestTic(View(), c.nodes)
    {
      lowtic := MAXINT;
      var i := 0;
      while i < c.nodes
        invariant i <= c.nodes && Tic(View(), c) <= lowtic && lowtic == LowestTic(View(), i)
      {
        if ingame[i] && nettics[i] < lowtic {
          lowtic := nettics[i];
        }
        i := i + 1;
      }
    }

    /** Gives up a tic when this node has been ahead of the first player for four frames. */
    method AdaptClock()
      requires Valid()
      modifies this`gametime, this`frameskip, this`oldnettics, this`skiptics, this`frameon
      ensures Shaped(old(View()), c) && View() == Adapt(old(View()), c) && Valid()
    {
      AdaptKeepsLocal(View(), c);
      frameon := frameon + 1;
      var i := 0;
      while i < c.nodes && !ingame[i]
        invariant i <= c.nodes && forall j :: 0 <= j < i ==> !ingame[j]
      {
        i := i + 1;
      }
      assert i == FirstInGame(ingame, 0);
      if me != i {
        if nettics[me] <= nettics[i] {
          gametime := gametime - 1;
        }
        frameskip := frameskip[frameon % 4 := oldnettics > nettics[i]];
        oldnettics := nettics[me];
        if frameskip[0] && frameskip[1] && frameskip[2] && frameskip[3] {
          skiptics := 1;
        }
      }
    }

    method DuplicateCommands(buf: nat)
      requires Buffers() && buf < BACKUPTICS && |ingame| == c.nodes
      modifies netcmds
      ensures View() == DuplicateSlot(old(View()), buf)
    {
      ghost var rings := Rings();
      var j := 0;
      while j < c.nodes
        invariant j <= c.nodes
        invariant forall p :: 0 <= p < c.nodes ==>
                    Rings()[p] == if p < j then DuplicateAt(rings[p], buf) else rings[p]
      {
        assert netcmds[j, buf] == rings[j][buf] by {
          assert RingOf(j) == Rings()[j];
        }
        PutNetcmd(j, buf, Duplicate(netcmds[j, buf]));
        j := j + 1;
      }
      assert Rings() == DuplicateSlot(old(View()), buf).netcmds;
    }

    /** Plays one tic, as many times as tics are duplicated. */
    method PlayRound(lowtic: int) returns (rows: seq<Row>)
      requires Valid() && Tic(View(), c) < lowtic
      modifies this`gametic, netcmds
      ensures Shaped(old(View()), c) && (View(), rows) == PlayFrom(old(View()), c, 0)
    {
      ghost var n := View();
      rows := [];
      var i := 0;
      while i < c.ticdup
        invariant i <= c.ticdup && Shaped(View(), c) && gametic == n.gametic + i
        invariant PlayFrom(n, c, 0).0 == PlayFrom(View(), c, i).0
        invariant PlayFrom(n, c, 0).1 == rows + PlayFrom(View(), c, i).1
      {
        SameTic(n.gametic, c.ticdup, i);
        assert gametic / c.ticdup <= lowtic;   // so the error "gametic>lowtic" is not raised
        ghost var before := View();
        var row := ReadRow(gametic / c.ticdup % BACKUPTICS);
        rows := rows + [row];
        gametic := gametic + 1;
        if i != c.ticdup - 1 {
          DuplicateCommands(gametic / c.ticdup % BACKUPTICS);
        }
        assert (View(), row) == PlayOnce(before, c, i);
        i := i + 1;
      }
      assert rows + [] == rows;
    }

    method ReadRow(buf: nat) returns (row: Row)
      requires Buffers() && Shaped(View(), c)
      requires buf == Tic(View(), c) % BACKUPTICS
      ensures Shaped(View(), c) && row == CurrentRow(View(), c)
    {
      row := [];
      var p := 0;
      while p < c.nodes
        invariant p <= c.nodes && |row| == p
        invariant forall q :: 0 <= q < p ==> row[q] == if ingame[q] then Some(netcmds[q, buf]) else None
      {
        row := row + [if ingame[p] then Some(netcmds[p, buf]) else None];
        p := p + 1;
      }
      forall q | 0 <= q < c.nodes ensures row[q] == CurrentRow(View(), c)[q] {
        assert RingOf(q)[buf] == netcmds[q, buf];
      }
    }

    /** One more visit to the network on the walk that started at `n`. */
    method Visit(v: Visit, ghost n: Node, ghost walked: seq<LocalStep>, ghost rows: seq<Row>, ghost low: int)
      returns (ok: bool, ghost steps: seq<LocalStep>)
      requires Walked(n, walked, rows) && InboxOk(v.inbox, c) && NotFrom(me, v.inbox)
      requires Has(low)
      modifies this, localcmds, netcmds
      ensures ok ==> Walked(n, steps, rows) && Has(low) && gametic == old(gametic)
      ensures !ok ==> Walks(n, c, steps, None, rows)
      ensures Visited(old(View()), c, v) == if ok then Some(View()) else None
      ensures oldentertics == old(oldentertics)
    {
      VisitKeepsLocal(View(), c, v);
      assert rows + [] == rows;
      Walk(n, c, walked, View(), rows, Net(v), Visited(View(), c, v), rows);
      steps := walked + [Net(v)];
      var outbox;
      ok, outbox := NetUpdate(v);
    }

    method VisitForTics(v: Visit, ghost n: Node, ghost walked: seq<LocalStep>, ghost low: int)
      returns (ok: bool, lowtic: int, ghost steps: seq<LocalStep>)
      requires Walked(n, walked, []) && InboxOk(v.inbox, c) && NotFrom(me, v.inbox) && Has(low)
      requires Tic(View(), c) <= MAXINT
      modifies this, localcmds, netcmds
      ensures ok ==> Walked(n, steps, []) && Has(lowtic) && gametic == old(gametic)
      ensures !ok ==> Walks(n, c, steps, None, [])
      ensures oldentertics == old(oldentertics)
    {
      lowtic := 0;
      ok, steps := Visit(v, n, walked, [], low);
      if ok {
        lowtic := LowTic();
        assert lowtic >= gametic / c.ticdup;   // so the error "lowtic < gametic" is not raised
      }
    }

    /** Waits until `counts` tics can run; `ready` is false when it gives up. */
    method Wait(counts: nat, low: int, entertic: int, env: seq<Visit>, ghost n: Node, ghost walked: seq<LocalStep>)
      returns (ok: bool, ready: bool, lowtic: int, pos: nat, ghost steps: seq<LocalStep>)
      requires Walked(n, walked, []) && env != [] && VisitsOk(env, c, me) && Has(low)
      requires Tic(View(), c) <= MAXINT
      modifies this, localcmds, netcmds
      ensures ok ==> Walked(n, steps, []) && 0 < pos <= |env| && gametic == old(gametic)
      ensures !ok ==> Walks(n, c, steps, None, [])
      ensures ok && ready ==> Has(lowtic) && c.ticdup > 0 && gametic / c.ticdup + counts <= lowtic
      ensures c.ticdup > 0 && (old(gametic) / c.ticdup + counts <= low ==> ok && ready)
      ensures ok && !ready ==> GaveUp(env, entertic)
      ensures oldentertics == old(oldentertics)
    {
      ready, steps, pos, lowtic := false, walked, 1, low;
      while lowtic < gametic / c.ticdup + counts
        invariant 1 <= pos <= |env| && Walked(n, steps, []) && Has(lowtic) && gametic == old(gametic)
        invariant oldentertics == old(oldentertics) && (old(gametic) / c.ticdup + counts <= low ==> lowtic == low)
        invariant InTime(env, entertic, pos)
        decreases |env| - pos
      {
        if pos == |env| {
          return true, false, lowtic, pos, steps;
        }
        ok, lowtic, steps := VisitForTics(env[pos], n, steps, lowtic);
        if !ok {
          return;
        }
        if env[pos].now - entertic >= 20 {
          return true, false, lowtic, pos, steps;
        }
        pos := pos + 1;
      }
      return true, true, lowtic, pos, steps;
    }

    /** A walk on the way of which `left` more tics have arrived. */
    ghost predicate Running(n: Node, steps: seq<LocalStep>, rows: seq<Row>, low: int, left: nat)
      reads this, localcmds, netcmds
    {
      Walked(n, steps, rows) && Has(low) && Tic(View(), c) + left <= low
    }

    /** One tic and the visit that follows it. */
    method Advance(lowtic: int, ghost left: nat, env: seq<Visit>, pos: nat, ghost n: Node, ghost walked: seq<LocalStep>, rows: seq<Row>)
      returns (ok: bool, more: seq<Row>, ghost steps: seq<LocalStep>)
      requires Running(n, walked, rows, lowtic, left + 1) && VisitsOk(env, c, me)
      modifies this, localcmds, netcmds
      ensures ok ==> Running(n, steps, more, lowtic, left)
      ensures !ok ==> Walks(n, c, steps, None, more)
      ensures |more| == |rows| + c.ticdup && oldentertics == old(oldentertics)
    {
      RoundKeepsLocal(View(), c);
      PlayFromLocal(View(), c, 0);
      var (m, tics) := PlayFrom(View(), c, 0);
      Walk(n, c, walked, View(), rows, Round, Some(m), rows + tics);
      var played := PlayRound(lowtic);
      ok, more, steps := true, rows + played, walked + [Round];
      if pos < |env| {
        ok, steps := Visit(env[pos], n, steps, more, lowtic);
      }
    }

    /** Runs `total` tics, all of which have arrived. */
    method RunTics(total: nat, low: int, env: seq<Visit>, start: nat, ghost n: Node, ghost walked: seq<LocalStep>)
      returns (ok: bool, rows: seq<Row>, ghost steps: seq<LocalStep>)
      requires Walked(n, walked, []) && VisitsOk(env, c, me) && Has(low) && Tic(View(), c) + total <= low
      modifies this, localcmds, netcmds
      ensures ok ==> Walked(n, steps, rows) && |rows| == Repeated(c.ticdup, total)
      ensures !ok ==> Walks(n, c, steps, None, rows)
      ensures oldentertics == old(oldentertics)
    {
      var counts, pos := total, start;
      rows, steps := [], walked;
      while counts > 0
        invariant 0 <= counts <= total && Running(n, steps, rows, low, counts)
        invariant |rows| + Repeated(c.ticdup, counts) == Repeated(c.ticdup, total) && oldentertics == old(oldentertics)
        decreases counts
      {
        ok, rows, steps := Advance(low, counts - 1, env, pos, n, steps, rows);
        if !ok {
          return;
        }
        pos, counts := pos + 1, counts - 1;
      }
      return true, rows, steps;
    }

    /** The first visit of a call, after which it is known how many tics are to run. */
    method Begin(realtics: int, v: Visit) returns (ok: bool, counts: nat, lowtic: int, ghost steps: seq<LocalStep>)
      requires Valid() && InboxOk(v.inbox, c) && NotFrom(me, v.inbox) && Tic(View(), c) <= MAXINT
      modifies this, localcmds, netcmds
      ensures ok ==> Walked(old(View()), steps, []) && Has(lowtic) && gametic == old(gametic)
      ensures !ok ==> Walks(old(View()), c, steps, None, [])
      ensures ok ==> Begun(old(View()), v, realtics, counts, lowtic)
      ensures ok ==> RunsAsDue(realtics, lowtic - old(gametic) / c.ticdup, counts)
      ensures oldentertics == old(oldentertics)
    {
      ghost var n := View();
      counts, lowtic := 0, 0;
      ok, steps := Visit(v, n, [], [], Tic(n, c));
      if !ok {
        return;
      }
      lowtic := LowTic();
      counts := Counts(realtics, lowtic - gametic / c.ticdup);
    }

    ghost predicate Begun(n: Node, v: Visit, realtics: int, counts: nat, lowtic: int) {
      && Shaped(n, c) && InboxOk(v.inbox, c) && Visited(n, c, v).Some? && Shaped(Visited(n, c, v).value, c)
      && counts == Wanted(n, c, v, realtics) && lowtic == LowestTic(Visited(n, c, v).value, c.nodes)
    }

    /** The visits after the first and before `end` came less than twenty tics after the call. */
    ghost predicate InTime(env: seq<Visit>, entertic: int, end: nat) {
      forall k :: 1 <= k < end && k < |env| ==> env[k].now - entertic < 20
    }

    /** Twenty tics went by, and not before, or there are no more visits. */
    ghost predicate GaveUp(env: seq<Visit>, entertic: int) {
      exists end: nat :: 1 <= end <= |env| && InTime(env, entertic, end) && (end == |env| || env[end].now - entertic >= 20)
    }

    /** All the tics are played that were wanted, or none because one of them was not there at first. */
    ghost predicate AllOrNone(n: Node, counts: nat, lowtic: int, rows: nat) {
      c.Valid() && (rows == c.ticdup * counts || (rows == 0 && lowtic < Tic(n, c) + counts))
    }

    /** Adapts the clock, waits until the tics have arrived, and runs them. */
    method RunWhenReady(counts: nat, low: int, entertic: int, env: seq<Visit>, ghost n: Node, ghost walked: seq<LocalStep>)
      returns (ok: bool, rows: seq<Row>, ghost steps: seq<LocalStep>)
      requires Walked(n, walked, []) && env != [] && VisitsOk(env, c, me) && Has(low) && Tic(View(), c) <= MAXINT
      modifies this, localcmds, netcmds
      ensures ok ==> Walked(n, steps, rows) && AllOrNone(old(View()), counts, low, |rows|)
      ensures ok && |rows| < c.ticdup * counts ==> GaveUp(env, entertic)
      ensures !ok ==> Walks(n, c, steps, None, rows)
      ensures oldentertics == old(oldentertics)
    {
      rows := [];
      ClockStep(n, walked);
      var ready, lowtic, pos;
      ok, ready, lowtic, pos, steps := Wait(counts, low, entertic, env, n, walked + [Clock]);
      if !ok || !ready {
        return;
      }
      ok, rows, steps := RunTics(counts, lowtic, env, pos, n, steps);
      RepeatedIs(c.ticdup, counts);
    }

    /** Runs the tics that are due, waiting for the other nodes when it has to: all that it wants
        to run or, if they do not arrive in time, none. Every change of the node is a step of
        the protocol; both errors are out of reach. */
    method TryRunTics(entertic: int, env: seq<Visit>)
      returns (ok: bool, rows: seq<Row>, ghost steps: seq<LocalStep>, ghost counts: nat, ghost lowtic: int)
      requires Valid() && env != [] && VisitsOk(env, c, me) && Tic(View(), c) <= MAXINT
      modifies this, localcmds, netcmds
      ensures ok ==> Walked(old(View()), steps, rows)
      ensures !ok ==> Walks(old(View()), c, steps, None, rows)
      ensures ok ==> Begun(old(View()), env[0], entertic - old(oldentertics), counts, lowtic)
      ensures ok ==> AllOrNone(old(View()), counts, lowtic, |rows|)
      ensures ok ==> RunsAsDue(entertic - old(oldentertics), lowtic - old(gametic) / c.ticdup, counts)
      ensures ok && lowtic > old(gametic) / c.ticdup ==> |rows| == c.ticdup * counts
      ensures ok && |rows| < c.ticdup * counts ==> GaveUp(env, entertic)
      ensures oldentertics == entertic
    {
      ghost var n := View();
      rows, counts, lowtic := [], 0, 0;
      var realtics := entertic - oldentertics;
      oldentertics := entertic;
      var wanted, low;
      ok, wanted, low, steps := Begin(realtics, env[0]);
      if !ok {
        return;
      }
      counts, lowtic := wanted, low;
      ok, rows, steps := RunWhenReady(wanted, low, entertic, env, n, steps);
    }

    method ClockStep(ghost n: Node, ghost walked: seq<LocalStep>)
      requires Walked(n, walked, [])
      modifies this
      ensures Walked(n, walked + [Clock], []) && gametic == old(gametic) && oldentertics == old(oldentertics)
      ensures forall low :: old(Has(low)) ==> Has(low)
    {
      Walk(n, c, walked, View(), [], Clock, Some(Adapt(View(), c)), []);
      AdaptClock();
    }
  }

  function Repeated(a: nat, n: nat): nat {
    if n == 0 then 0 else Repeated(a, n - 1) + a
  }

  lemma {:induction false} RepeatedIs(a: nat, n: nat)
    ensures Repeated(a, n) == a * n
  {
    if n > 0 {
      RepeatedIs(a, n - 1);
    }
  }
}
