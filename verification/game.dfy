/**
 The game loop of both iterations run by a server and a client over one
 connection.  Each tick a peer polls its events, updates its velocities,
 exchanges its chat packet (src/main.cpp only, result ignored) and its local
 paddle velocity (a failure ends the loop), and moves its shapes.  Only the
 paddle velocity crosses the link; the ball is simulated independently on
 each side, so the two simulations agree only if the rules keep them in step.
 */
module Game {
  import opened Optional
  import opened Connection
  import opened Lockstep
  import opened Physics
  import opened Chat

  /** src/main.cpp exchanges a chat packet before the velocity every tick; Source/main.cpp does not. */
  datatype Variant = WithChat | VelocityOnly

  /** One peer's game. */
  datatype Peer = Peer(role: Role, shapes: Shapes, vel: Velocities, chat: ChatState, remoteNick: string)

  /** What happens at a peer during one tick: window events, and the last line its input thread read ("" for none). */
  datatype Input = Input(events: seq<Event>, typed: string)

  /**
   Initial placement: the server's own paddle at the left edge and the other
   at the right, the client the other way round, both at mid height; the ball
   at the center of the window.
   */
  function InitialShapes(role: Role): (s: Shapes)
    ensures s.ball == Vec(256.0, 128.0)
    ensures s.local == if role == Server then Vec(7.5, 128.0) else Vec(504.5, 128.0)
    ensures s.remote == if role == Server then Vec(504.5, 128.0) else Vec(7.5, 128.0)
  {
    var middle := WinHeight / 2.0;
    var left := Vec(PaddleWidth / 2.0, middle);
    var right := Vec(WinWidth - PaddleWidth / 2.0, middle);
    var ball := Vec(WinWidth / 2.0, WinHeight / 2.0);
    if role == Server then Shapes(ball, left, right) else Shapes(ball, right, left)
  }

  /** Each peer's own paddle starts where the other draws its remote paddle, and the paddles start inside the window. */
  lemma InitialPlacementMirrors()
    ensures InitialShapes(Server).local == InitialShapes(Client).remote
    ensures InitialShapes(Server).remote == InitialShapes(Client).local
    ensures InitialShapes(Server).ball == InitialShapes(Client).ball
  {
  }

  /** The paddles start as 15 by 60 boxes at mid height, against the left and right walls. */
  lemma InitialPaddleBoxes()
    ensures UpdatePositions(InitialShapes(Server)).local == Box(98.0, 158.0, 0.0, 15.0)
    ensures UpdatePositions(InitialShapes(Server)).remote == Box(98.0, 158.0, 497.0, 512.0)
    ensures UpdatePositions(InitialShapes(Client)).local == Box(98.0, 158.0, 497.0, 512.0)
    ensures UpdatePositions(InitialShapes(Client)).remote == Box(98.0, 158.0, 0.0, 15.0)
  {
  }

  /** A peer right after the handshake. */
  function Start(role: Role, nick: string, remoteNick: string): (p: Peer)
  {
    Peer(role, InitialShapes(role), Velocities(Vec(BallSpeed, BallSpeed / 4.0), 0.0, 0.0),
         ChatState(nick, "", []), remoteNick)
  }

  /**
   The part of a tick before the exchanges: the event loop, then
   `update_positions` and `update_velocities`, and the line the input thread
   hands over becomes the pending message.  Source/main.cpp has no input
   thread and no chat: there the chat state is carried along unused, and
   nothing reads the pending message.
   */
  function Prepare(p: Peer, input: Input): (q: Peer)
    ensures q.role == p.role && q.shapes == p.shapes && q.remoteNick == p.remoteNick
    ensures q.vel.remote == p.vel.remote
    ensures q.chat == p.chat.(pending := Handed(input.typed))
  {
    var vel := ProcessEvents(input.events, p.vel);
    p.(vel := UpdateVelocities(UpdatePositions(p.shapes), vel), chat := p.chat.(pending := Handed(input.typed)))
  }

  /** The exchanges of one tick. */
  function TickSteps(v: Variant, p: Peer): (steps: seq<Step>)
    ensures 0 < |steps| && steps[|steps| - 1] == Step(Scalar(p.vel.local), true)
    ensures forall i :: 0 <= i < |steps| - 1 ==> !steps[i].critical
  {
    (if v == WithChat then [Step(Packet(Outgoing(p.chat)), false)] else []) + [Step(Scalar(p.vel.local), true)]
  }

  /** Rendezvous a tick uses on a healthy link. */
  function PerTick(v: Variant): (n: nat)
  {
    if v == WithChat then 4 else 2
  }

  /** Rendezvous `k` ticks use on a healthy link. */
  function Budget(v: Variant, k: nat): (n: nat)
  {
    if v == WithChat then 4 * k else 2 * k
  }

  /** The text of a received packet; nothing received reads as the empty string. */
  function TextOf(g: Option<Msg>): (text: string)
  {
    if g.Some? && g.value.Packet? then g.value.text else ""
  }

  /** Whether the last thing a peer received in the tick is a velocity. */
  predicate GotVelocity(run: PeerRun)
  {
    0 < |run.got| && run.got[|run.got| - 1].Some? && run.got[|run.got| - 1].value.Scalar?
  }

  /**
   The part of a tick after the exchanges: the chat update, the remote
   velocity as far as it was received, then, unless the velocity exchange
   failed, motion.  A client whose receive completed and whose send then
   failed has already written the remote velocity, but does not move.
   */
  function Finish(v: Variant, p: Peer, run: PeerRun): (f: Peer)
    ensures f.chat.nick == p.chat.nick
    ensures f.chat == if v == WithChat && 0 < |run.got| then UpdateChat(p.chat, TextOf(run.got[0])).state else p.chat
  {
    var chat := if v == WithChat && 0 < |run.got| then UpdateChat(p.chat, TextOf(run.got[0])).state else p.chat;
    if !GotVelocity(run) then p.(chat := chat)
    else
      var vel := p.vel.(remote := run.got[|run.got| - 1].value.value);
      if run.halted then p.(vel := vel, chat := chat)
      else p.(vel := vel, shapes := UpdateShapes(vel, p.shapes), chat := chat)
  }

  datatype Tick = Deadlocked | Ticked(server: Peer, client: Peer, stopped: bool, left: nat)

  /** One tick at both peers, the exchanges going over a link that carries `alive` more rendezvous. */
  function JointTick(v: Variant, s: Peer, c: Peer, inS: Input, inC: Input, alive: nat): (t: Tick)
    ensures t.Ticked? ==> t.server.role == s.role && t.client.role == c.role
    ensures t.Ticked? ==> t.server.chat.nick == s.chat.nick && t.client.chat.nick == c.chat.nick
  {
    var s1, c1 := Prepare(s, inS), Prepare(c, inC);
    match Play(s.role, c.role, TickSteps(v, s1), TickSteps(v, c1), alive)
    case Stuck => Deadlocked
    case Both(rs, rc, left) => Ticked(Finish(v, s1, rs), Finish(v, c1, rc), rs.halted || rc.halted, left)
  }

  /** The two boards agree: the ball in the same place, and each peer's own paddle where the other draws its remote paddle. */
  predicate Board(s: Peer, c: Peer)
  {
    && s.role == Server && c.role == Client
    && s.shapes.ball == c.shapes.ball
    && s.shapes.local == c.shapes.remote && s.shapes.remote == c.shapes.local
  }

  /**
   The two simulations agree: the boards agree, the ball moves the same way,
   and each peer's remote velocity is the other's own.
   */
  predicate Mirror(s: Peer, c: Peer)
  {
    && Board(s, c) && s.vel.ball == c.vel.ball
    && s.vel.local == c.vel.remote && s.vel.remote == c.vel.local
  }

  lemma StartMirrors(nickS: string, nickC: string, remoteS: string, remoteC: string)
    ensures Mirror(Start(Server, nickS, remoteS), Start(Client, nickC, remoteC))
  {
    InitialPlacementMirrors();
  }

  /** Before the exchanges both peers compute the same ball velocity, and nothing else they share changes. */
  lemma PrepareAgrees(s: Peer, c: Peer, inS: Input, inC: Input)
    requires Mirror(s, c)
    ensures var s1, c1 := Prepare(s, inS), Prepare(c, inC);
      && Board(s1, c1) && s1.vel.ball == c1.vel.ball && s1.shapes == s.shapes && c1.shapes == c.shapes
      && s1.remoteNick == s.remoteNick && c1.remoteNick == c.remoteNick
  {
    var ps, pc := UpdatePositions(s.shapes), UpdatePositions(c.shapes);
    assert ps.ball == pc.ball && ps.local == pc.remote && ps.remote == pc.local;
  }
  /** The exchanges of one tick between a server and a client, both of the same variant. */
  lemma TickExchange(v: Variant, s1: Peer, c1: Peer, alive: nat)
    ensures var p := Play(Server, Client, TickSteps(v, s1), TickSteps(v, c1), alive);
      && p.Both?
      && p.server.halted == p.client.halted
      && (p.server.halted <==> alive < PerTick(v))
      && p.left == (if PerTick(v) <= alive then alive - PerTick(v) else 0)
      && (!p.server.halted ==>
            && |p.server.got| == |p.client.got| == |TickSteps(v, s1)|
            && p.server.got[|p.server.got| - 1] == Some(Scalar(c1.vel.local))
            && p.client.got[|p.client.got| - 1] == Some(Scalar(s1.vel.local))
            && (v == WithChat ==>
                  p.server.got[0] == Some(Packet(Outgoing(c1.chat))) && p.client.got[0] == Some(Packet(Outgoing(s1.chat)))))
  {
    var ss, cs := TickSteps(v, s1), TickSteps(v, c1);
    InStep(ss, cs, alive);
    var n := |ss|;
    assert 2 * n == PerTick(v);
    assert CutShort(ss, alive) <==> alive < PerTick(v) by {
      if alive < PerTick(v) {
        assert ss[n - 1].critical && alive <= 2 * (n - 1) + 1;
      }
    }
  }

  /**
   The exchanges of a tick over a link that dies between the client's
   receive and its send of the velocity: both stop, the client having
   received the server's velocity and the server nothing in its place.
   */
  lemma CutAfterClientReceive(v: Variant, s1: Peer, c1: Peer, alive: nat)
    requires alive + 1 == PerTick(v)
    ensures var p := Play(Server, Client, TickSteps(v, s1), TickSteps(v, c1), alive);
      && p.Both? && p.server.halted && p.client.halted
      && GotVelocity(p.client) && p.client.got[|p.client.got| - 1] == Some(Scalar(s1.vel.local))
      && !GotVelocity(p.server)
  {
    var ss, cs := TickSteps(v, s1), TickSteps(v, c1);
    InStep(ss, cs, alive);
    var p := Play(Server, Client, ss, cs, alive);
    assert CutShort(ss, alive) by {
      assert ss[|ss| - 1].critical && alive <= 2 * (|ss| - 1) + 1;
    }
    var n := |p.server.got|;
    assert n == |ss| by {
      assert ss[n - 1].critical;
    }
    assert p.client.got[n - 1] == Some(ss[n - 1].out);
    assert p.server.got[n - 1] == None;
  }

  /**
   A tick whose link dies between the client's receive and its send of the
   velocity stops: the client has taken the server's velocity as its remote
   one, the server has not heard back, and neither board moves.
   */
  lemma TickCutAfterClientReceive(v: Variant, s: Peer, c: Peer, inS: Input, inC: Input, alive: nat)
    requires s.role == Server && c.role == Client && alive + 1 == PerTick(v)
    ensures var t := JointTick(v, s, c, inS, inC, alive);
      && t.Ticked? && t.stopped
      && t.client.vel == Prepare(c, inC).vel.(remote := Prepare(s, inS).vel.local)
      && t.server.vel == Prepare(s, inS).vel
      && t.server.shapes == s.shapes && t.client.shapes == c.shapes
  {
    var s1, c1 := Prepare(s, inS), Prepare(c, inC);
    CutAfterClientReceive(v, s1, c1, alive);
    var p := Play(Server, Client, TickSteps(v, s1), TickSteps(v, c1), alive);
    var t := JointTick(v, s, c, inS, inC, alive);
    assert t == Ticked(Finish(v, s1, p.server), Finish(v, c1, p.client), true, p.left);
    FinishKeeps(v, s1, p.server);
    FinishKeeps(v, c1, p.client);
  }

  /**
   Finishing keeps a peer's role and nicks and its own and the ball's
   velocity.  The remote velocity is the one received, if the last receive
   brought one, and is kept otherwise.  After a failed exchange the board
   stays where it was.
   */
  lemma FinishKeeps(v: Variant, q: Peer, run: PeerRun)
    ensures var f := Finish(v, q, run);
      && f.role == q.role && f.remoteNick == q.remoteNick
      && f.vel.local == q.vel.local && f.vel.ball == q.vel.ball
      && (GotVelocity(run) ==> Some(Scalar(f.vel.remote)) == run.got[|run.got| - 1])
      && (!GotVelocity(run) ==> f.vel == q.vel)
      && (run.halted ==> f.shapes == q.shapes)
  {
  }

  /** After a completed velocity exchange that delivered `x`, a peer takes `x` as remote velocity and moves. */
  lemma FinishMoves(v: Variant, q: Peer, run: PeerRun, x: real)
    requires !run.halted && 0 < |run.got| && run.got[|run.got| - 1] == Some(Scalar(x))
    ensures var f := Finish(v, q, run);
      && f.vel == q.vel.(remote := x)
      && f.shapes == UpdateShapes(q.vel.(remote := x), q.shapes)
      && f.chat == if v == WithChat then UpdateChat(q.chat, TextOf(run.got[0])).state else q.chat
  {
  }

  /** Two peers that agreed before moving, and each took the other's own velocity as remote, agree after moving. */
  lemma MovedMirror(s1: Peer, c1: Peer, f: Peer, g: Peer)
    requires Board(s1, c1) && s1.vel.ball == c1.vel.ball
    requires f.role == s1.role && f.vel == s1.vel.(remote := c1.vel.local) && f.shapes == UpdateShapes(f.vel, s1.shapes)
    requires g.role == c1.role && g.vel == c1.vel.(remote := s1.vel.local) && g.shapes == UpdateShapes(g.vel, c1.shapes)
    ensures Mirror(f, g)
  {
  }

  /**
   A tick never deadlocks.  It completes exactly when the link carries all of
   its rendezvous, and a completed tick keeps the simulations in agreement.  A
   tick that stops leaves the boards as they were.
   */
  lemma TickAgrees(v: Variant, s: Peer, c: Peer, inS: Input, inC: Input, alive: nat)
    requires Mirror(s, c)
    ensures JointTick(v, s, c, inS, inC, alive).Ticked?
    ensures var t := JointTick(v, s, c, inS, inC, alive);
      && (t.stopped <==> alive < PerTick(v))
      && (!t.stopped ==> t.left == alive - PerTick(v))
      && t.server.remoteNick == s.remoteNick && t.client.remoteNick == c.remoteNick
      && (t.stopped ==> Board(t.server, t.client) && t.server.shapes == s.shapes && t.client.shapes == c.shapes)
      && (!t.stopped ==> Mirror(t.server, t.client))
  {
    var s1, c1 := Prepare(s, inS), Prepare(c, inC);
    PrepareAgrees(s, c, inS, inC);
    TickExchange(v, s1, c1, alive);
    var p := Play(Server, Client, TickSteps(v, s1), TickSteps(v, c1), alive);
    var t := JointTick(v, s, c, inS, inC, alive);
    assert t == Ticked(Finish(v, s1, p.server), Finish(v, c1, p.client), p.server.halted || p.client.halted, p.left);
    FinishKeeps(v, s1, p.server);
    FinishKeeps(v, c1, p.client);
    if !t.stopped {
      FinishMoves(v, s1, p.server, c1.vel.local);
      FinishMoves(v, c1, p.client, s1.vel.local);
      MovedMirror(s1, c1, t.server, t.client);
    }
  }

  /**
   `TickAgrees`, and in src/main.cpp each side's chat of a completed tick
   receives the line the other sent.
   */
  lemma TickKeepsMirror(v: Variant, s: Peer, c: Peer, inS: Input, inC: Input, alive: nat)
    requires Mirror(s, c)
    ensures JointTick(v, s, c, inS, inC, alive).Ticked?
    ensures var t := JointTick(v, s, c, inS, inC, alive);
      && (t.stopped <==> alive < PerTick(v))
      && (!t.stopped ==> t.left == alive - PerTick(v))
      && t.server.remoteNick == s.remoteNick && t.client.remoteNick == c.remoteNick
      && (t.stopped ==> Board(t.server, t.client) && t.server.shapes == s.shapes && t.client.shapes == c.shapes)
      && (!t.stopped ==> Mirror(t.server, t.client))
      && (v == WithChat && !t.stopped ==>
            && t.server.chat == UpdateChat(s.chat.(pending := Handed(inS.typed)), Outgoing(c.chat.(pending := Handed(inC.typed)))).state
            && t.client.chat == UpdateChat(c.chat.(pending := Handed(inC.typed)), Outgoing(s.chat.(pending := Handed(inS.typed)))).state)
  {
    TickAgrees(v, s, c, inS, inC, alive);
    if v == WithChat && PerTick(v) <= alive {
      var s1, c1 := Prepare(s, inS), Prepare(c, inC);
      TickExchange(v, s1, c1, alive);
      var p := Play(Server, Client, TickSteps(v, s1), TickSteps(v, c1), alive);
      assert JointTick(v, s, c, inS, inC, alive) == Ticked(Finish(v, s1, p.server), Finish(v, c1, p.client), false, p.left);
    }
  }

  /**
   How a session ends: stuck for good, or over after `ticks` ticks both peers
   completed, `failed` if a transfer failed.  After a failure the states are
   those the failing tick left: its chat lines are in, its motion is not.
   */
  datatype Session = Hung | Over(server: Peer, client: Peer, ticks: nat, failed: bool)

  /** Whether the peer's window was closed during the tick; the peer then leaves the loop once the tick is over. */
  predicate Closes(input: Input)
  {
    Closed in input.events
  }

  /**
   Ticks at both peers until the inputs run out, a tick stops, or a window
   is closed.
   */
  function RunTicks(v: Variant, s: Peer, c: Peer, insS: seq<Input>, insC: seq<Input>, alive: nat, done: nat): (r: Session)
    requires |insS| == |insC|
    ensures r.Over? ==> r.server.role == s.role && r.client.role == c.role
    ensures r.Over? ==> r.server.chat.nick == s.chat.nick && r.client.chat.nick == c.chat.nick
    decreases |insS|
  {
    if insS == [] then Over(s, c, done, false)
    else
      match JointTick(v, s, c, insS[0], insC[0], alive)
      case Deadlocked => Hung
      case Ticked(s', c', stopped, left) =>
        if stopped then Over(s', c', done, true)
        else if Closes(insS[0]) || Closes(insC[0]) then Closing(v, s', c', insS[0], insC[0], insS[1..], insC[1..], done + 1)
        else RunTicks(v, s', c', insS[1..], insC[1..], left, done + 1)
  }

  /**
   The end after a tick, with inputs `lastS` and `lastC`, in which a window
   was closed: a peer that closed its window disconnects.  When only one did
   and the other has a further tick, that tick runs against the dead link and
   fails.  On a dead link the peers no longer interact, so the survivor's tick
   is its part of a joint tick over a link with no rendezvous left.
   */
  function Closing(v: Variant, s: Peer, c: Peer, lastS: Input, lastC: Input, insS: seq<Input>, insC: seq<Input>, done: nat): (r: Session)
    requires |insS| == |insC|
    ensures r.Over? ==> r.ticks == done && r.server.role == s.role && r.client.role == c.role
    ensures r.Over? ==> r.server.chat.nick == s.chat.nick && r.client.chat.nick == c.chat.nick
  {
    if (Closes(lastS) && Closes(lastC)) || insS == [] then Over(s, c, done, false)
    else
      match JointTick(v, s, c, insS[0], insC[0], 0)
      case Deadlocked => Hung
      case Ticked(s', c', _, _) => Over(if Closes(lastS) then s else s', if Closes(lastC) then c else c', done, true)
  }

  /** How many ticks both peers play on a link that never dies: up to and including the first in which a window is closed. */
  function Span(insS: seq<Input>, insC: seq<Input>): (m: nat)
    requires |insS| == |insC|
    ensures m <= |insS| && (m == 0 <==> insS == [])
    ensures forall i :: 0 <= i < m - 1 ==> !Closes(insS[i]) && !Closes(insC[i])
    ensures m < |insS| ==> Closes(insS[m - 1]) || Closes(insC[m - 1])
    decreases |insS|
  {
    if insS == [] then 0
    else if Closes(insS[0]) || Closes(insC[0]) then 1
    else
      var rest := Span(insS[1..], insC[1..]);
      assert forall i :: 1 <= i < |insS| ==> insS[1..][i - 1] == insS[i] && insC[1..][i - 1] == insC[i];
      1 + rest
  }

  /** Whether the first window closed is closed at one peer only, and the other peer has a further tick. */
  predicate Deserted(insS: seq<Input>, insC: seq<Input>)
    requires |insS| == |insC|
    decreases |insS|
  {
    && insS != []
    && if Closes(insS[0]) || Closes(insC[0]) then !(Closes(insS[0]) && Closes(insC[0])) && 1 < |insS|
       else Deserted(insS[1..], insC[1..])
  }

  /**
   The rendezvous count of a run `r`, the first tick numbered `done`, that
   plays `m` ticks when the link carries them all, over a link that carries
   `alive`: the completed ticks fit in the link, a run that stops early stops
   at the first tick that does not fit, and the run fails exactly when the
   `m` ticks do not fit or a peer is left alone.
   */
  predicate Accounted(v: Variant, r: Session, done: nat, m: nat, deserted: bool, alive: nat)
  {
    && r.Over? && done <= r.ticks <= done + m
    && Budget(v, r.ticks - done) <= alive
    && (r.failed <==> alive < Budget(v, m) || deserted)
    && (r.ticks < done + m ==> alive < Budget(v, r.ticks - done + 1))
  }

  /** A run `r` that ended with the boards agreeing, the simulations agreeing unless it failed, and the nicks in place. */
  predicate Agreed(r: Session, remoteS: string, remoteC: string)
  {
    && r.Over? && Board(r.server, r.client) && (!r.failed ==> Mirror(r.server, r.client))
    && r.server.remoteNick == remoteS && r.client.remoteNick == remoteC
  }

  /** A run of no ticks. */
  lemma AccountedNone(v: Variant, r: Session, done: nat, alive: nat)
    requires r.Over? && r.ticks == done && !r.failed
    ensures Accounted(v, r, done, 0, false, alive)
  {
  }

  /** A run that stops at its first tick, which the link could not carry. */
  lemma AccountedStop(v: Variant, r: Session, done: nat, m: nat, deserted: bool, alive: nat)
    requires r.Over? && r.ticks == done && r.failed && 0 < m && alive < PerTick(v)
    ensures Accounted(v, r, done, m, deserted, alive)
  {
  }

  /** A run whose first tick, which the link carried, closed a window. */
  lemma AccountedClose(v: Variant, r: Session, done: nat, m: nat, deserted: bool, alive: nat)
    requires r.Over? && r.ticks == done + 1 && m == 1 && PerTick(v) <= alive && (r.failed <==> deserted)
    ensures Accounted(v, r, done, m, deserted, alive)
  {
  }

  /** A run whose first tick took `PerTick(v)` rendezvous, accounted for by the run of the other ticks. */
  lemma AccountedStep(v: Variant, r: Session, done: nat, m: nat, rest: nat, deserted: bool, alive: nat, left: nat)
    requires m == rest + 1 && alive == left + PerTick(v)
    requires Accounted(v, r, done + 1, rest, deserted, left)
    ensures Accounted(v, r, done, m, deserted, alive)
  {
  }

  /** The end after a window is closed keeps the boards in agreement, and fails exactly when a peer is left alone. */
  lemma ClosingLockstep(v: Variant, s: Peer, c: Peer, lastS: Input, lastC: Input, insS: seq<Input>, insC: seq<Input>, done: nat)
    requires |insS| == |insC| && Mirror(s, c)
    ensures var r := Closing(v, s, c, lastS, lastC, insS, insC, done);
      && r.Over? && r.ticks == done
      && (r.failed <==> !(Closes(lastS) && Closes(lastC)) && insS != [])
      && Agreed(r, s.remoteNick, c.remoteNick)
  {
    var r := Closing(v, s, c, lastS, lastC, insS, insC, done);
    if (Closes(lastS) && Closes(lastC)) || insS == [] {
      assert r == Over(s, c, done, false);
    } else {
      DeadLinkTick(v, s, c, insS[0], insC[0]);
      var t := JointTick(v, s, c, insS[0], insC[0], 0);
      var s', c' := if Closes(lastS) then s else t.server, if Closes(lastC) then c else t.client;
      assert r == Over(s', c', done, true);
      assert Board(s', c');
    }
  }

  /** A tick over a dead link stops, and either peer's half of it leaves the boards as they were. */
  lemma DeadLinkTick(v: Variant, s: Peer, c: Peer, inS: Input, inC: Input)
    requires Mirror(s, c)
    ensures var t := JointTick(v, s, c, inS, inC, 0);
      && t.Ticked? && t.stopped
      && t.server.role == Server && t.client.role == Client
      && t.server.shapes == s.shapes && t.client.shapes == c.shapes
      && t.server.remoteNick == s.remoteNick && t.client.remoteNick == c.remoteNick
  {
    TickAgrees(v, s, c, inS, inC, 0);
  }

  /**
   From agreeing states, ticking never hangs, keeps the boards in agreement,
   and keeps the simulations in agreement unless it fails.  It plays the
   `Span` ticks when the link carries them, and otherwise stops at the first
   tick the link cannot carry; it fails exactly then, or when a peer closes
   its window and leaves the other alone.
   */
  lemma {:induction false} RunTicksLockstep(v: Variant, s: Peer, c: Peer, insS: seq<Input>, insC: seq<Input>,
                                            alive: nat, done: nat)
    requires |insS| == |insC| && Mirror(s, c)
    ensures Accounted(v, RunTicks(v, s, c, insS, insC, alive, done), done, Span(insS, insC), Deserted(insS, insC), alive)
    ensures Agreed(RunTicks(v, s, c, insS, insC, alive, done), s.remoteNick, c.remoteNick)
    decreases |insS|
  {
    var r := RunTicks(v, s, c, insS, insC, alive, done);
    if insS == [] {
      AccountedNone(v, r, done, alive);
    } else {
      TickAgrees(v, s, c, insS[0], insC[0], alive);
      var t := JointTick(v, s, c, insS[0], insC[0], alive);
      RunTicksUnfold(v, s, c, insS, insC, alive, done, t);
      if t.stopped {
        AccountedStop(v, r, done, Span(insS, insC), Deserted(insS, insC), alive);
      } else if Closes(insS[0]) || Closes(insC[0]) {
        ClosingLockstep(v, t.server, t.client, insS[0], insC[0], insS[1..], insC[1..], done + 1);
        AccountedClose(v, r, done, Span(insS, insC), Deserted(insS, insC), alive);
      } else {
        RunTicksLockstep(v, t.server, t.client, insS[1..], insC[1..], t.left, done + 1);
        assert Deserted(insS, insC) == Deserted(insS[1..], insC[1..]);
        AccountedStep(v, r, done, Span(insS, insC), Span(insS[1..], insC[1..]), Deserted(insS, insC), alive, t.left);
      }
    }
  }

  /** One step of `RunTicks` after a first tick `t` that did not hang. */
  lemma RunTicksUnfold(v: Variant, s: Peer, c: Peer, insS: seq<Input>, insC: seq<Input>, alive: nat, done: nat, t: Tick)
    requires |insS| == |insC| && insS != [] && t.Ticked? && t == JointTick(v, s, c, insS[0], insC[0], alive)
    ensures RunTicks(v, s, c, insS, insC, alive, done)
        == if t.stopped then Over(t.server, t.client, done, true)
           else if Closes(insS[0]) || Closes(insC[0]) then
             Closing(v, t.server, t.client, insS[0], insC[0], insS[1..], insC[1..], done + 1)
           else RunTicks(v, t.server, t.client, insS[1..], insC[1..], t.left, done + 1)
  {
  }

  /**
   A whole session: the nick handshake (a failure ends the program), then one
   tick per input pair.  `alive` is how many rendezvous the link carries.
   */
  function PlaySession(v: Variant, nickS: string, nickC: string, insS: seq<Input>, insC: seq<Input>, alive: nat): (r: Session)
    requires |insS| == |insC|
    ensures r.Over? ==> r.server.role == Server && r.client.role == Client
    ensures r.Over? ==> r.server.chat.nick == nickS && r.client.chat.nick == nickC
  {
    AfterHandshake(v, nickS, nickC, Play(Server, Client, [Step(Packet(nickS), true)], [Step(Packet(nickC), true)], alive),
                   insS, insC)
  }

  /** The text of the first thing a peer received. */
  function FirstText(run: PeerRun): (text: string)
  {
    if 0 < |run.got| then TextOf(run.got[0]) else ""
  }

  /** The rest of a session once the nick handshake has played out as `h`. */
  function AfterHandshake(v: Variant, nickS: string, nickC: string, h: Played, insS: seq<Input>, insC: seq<Input>): (r: Session)
    requires |insS| == |insC|
  {
    match h
    case Stuck => Hung
    case Both(rs, rc, left) =>
      if rs.halted || rc.halted then Over(Start(Server, nickS, ""), Start(Client, nickC, ""), 0, true)
      else RunTicks(v, Start(Server, nickS, FirstText(rs)), Start(Client, nickC, FirstText(rc)), insS, insC, left, 0)
  }

  /**
   The outcome of a whole session that plays `m` ticks when the link carries
   them, over a link that carries `alive`, the nick handshake included.
   */
  predicate SessionOutcome(v: Variant, r: Session, m: nat, deserted: bool, alive: nat, nickS: string, nickC: string)
  {
    && r.Over? && Board(r.server, r.client) && (!r.failed ==> Mirror(r.server, r.client))
    && r.ticks <= m
    && (r.failed <==> alive < 2 + Budget(v, m) || deserted)
    && (r.ticks < m ==> alive < 2 + Budget(v, r.ticks + 1))
    && (alive < 2 ==> r.ticks == 0)
    && (2 <= alive ==> 2 + Budget(v, r.ticks) <= alive && r.server.remoteNick == nickC && r.client.remoteNick == nickS)
  }

  /**
   A server and a client playing a session never deadlock.  Each learns the
   other's nick, the boards agree at the end, and the two simulations agree
   unless a transfer failed.  The session plays the `Span` ticks when the link
   carries them and otherwise stops at the first tick it cannot carry, both
   peers completing the same ticks; it fails exactly then, or when one peer
   closes its window and leaves the other alone.
   */
  lemma SessionLockstep(v: Variant, nickS: string, nickC: string, insS: seq<Input>, insC: seq<Input>, alive: nat)
    requires |insS| == |insC|
    ensures SessionOutcome(v, PlaySession(v, nickS, nickC, insS, insC, alive), Span(insS, insC), Deserted(insS, insC),
                           alive, nickS, nickC)
  {
    var h := Play(Server, Client, [Step(Packet(nickS), true)], [Step(Packet(nickC), true)], alive);
    var r := PlaySession(v, nickS, nickC, insS, insC, alive);
    Handshake(nickS, nickC, alive);
    if alive < 2 {
      StartMirrors(nickS, nickC, "", "");
      assert r == Over(Start(Server, nickS, ""), Start(Client, nickC, ""), 0, true);
    } else {
      SessionAfterHandshake(v, nickS, nickC, h, insS, insC);
      assert r == AfterHandshake(v, nickS, nickC, h, insS, insC);
      SessionFromTicks(v, r, Span(insS, insC), Deserted(insS, insC), alive, nickS, nickC);
    }
  }

  /** A session whose ticks, after a completed handshake, are accounted for and agreed. */
  lemma SessionFromTicks(v: Variant, r: Session, m: nat, deserted: bool, alive: nat, nickS: string, nickC: string)
    requires 2 <= alive && Accounted(v, r, 0, m, deserted, alive - 2) && Agreed(r, nickC, nickS)
    ensures SessionOutcome(v, r, m, deserted, alive, nickS, nickC)
  {
  }

  /** The nick handshake: it completes exactly when the link carries both of its rendezvous, and then each side has the other's nick. */
  lemma Handshake(nickS: string, nickC: string, alive: nat)
    ensures var h := Play(Server, Client, [Step(Packet(nickS), true)], [Step(Packet(nickC), true)], alive);
      && h.Both? && h.server.halted == h.client.halted
      && (h.server.halted <==> alive < 2)
      && (!h.server.halted ==>
            && h.left == alive - 2
            && 0 < |h.server.got| && h.server.got[0] == Some(Packet(nickC))
            && 0 < |h.client.got| && h.client.got[0] == Some(Packet(nickS)))
  {
    var ss, cs := [Step(Packet(nickS), true)], [Step(Packet(nickC), true)];
    InStep(ss, cs, alive);
    if alive < 2 {
      assert CutShort(ss, alive) by { assert ss[0].critical && alive <= 2 * 0 + 1; }
    } else {
      assert !CutShort(ss, alive);
    }
  }

  /** After a completed handshake, the ticks run in lockstep from the starting states. */
  lemma SessionAfterHandshake(v: Variant, nickS: string, nickC: string, h: Played, insS: seq<Input>, insC: seq<Input>)
    requires |insS| == |insC|
    requires h.Both? && !h.server.halted && !h.client.halted
    requires 0 < |h.server.got| && h.server.got[0] == Some(Packet(nickC))
    requires 0 < |h.client.got| && h.client.got[0] == Some(Packet(nickS))
    ensures Accounted(v, AfterHandshake(v, nickS, nickC, h, insS, insC), 0, Span(insS, insC), Deserted(insS, insC), h.left)
    ensures Agreed(AfterHandshake(v, nickS, nickC, h, insS, insC), nickC, nickS)
  {
    var s0, c0 := Start(Server, nickS, FirstText(h.server)), Start(Client, nickC, FirstText(h.client));
    assert s0.remoteNick == nickC && c0.remoteNick == nickS;
    assert AfterHandshake(v, nickS, nickC, h, insS, insC) == RunTicks(v, s0, c0, insS, insC, h.left, 0);
    StartMirrors(nickS, nickC, FirstText(h.server), FirstText(h.client));
    RunTicksLockstep(v, s0, c0, insS, insC, h.left, 0);
  }
}
