/**
 Two peers sharing one connection, modelled as an unbuffered rendezvous
 channel: a transfer completes only together with an opposite transfer of the
 other peer, and two peers that both wait to send (or both wait to receive)
 are stuck for good.  The link carries `alive` more rendezvous and then dies;
 a peer that has run out of exchanges closes its socket, which kills the link
 as well.  Once the link is dead every transfer fails at once with
 `Disconnected` instead of blocking.
 */
module Lockstep {
  import opened Optional
  import opened Connection

  /** A transfer a peer offers to the channel: putting a value, or taking one. */
  datatype Action = Put(m: Msg) | Take

  /** How a transfer ended: completed, with the value that crossed the link, or failed. */
  datatype Outcome = Crossed(value: Msg) | Failed(status: Status)

  /** The two transfers of one exchange, in the order the role performs them. */
  function Offer(role: Role, step: Step): (a: seq<Action>)
    ensures |a| == 2
    ensures forall k :: 0 <= k < 2 ==> (a[k].Put? <==> Order(role)[k] == Send)
    ensures forall k :: 0 <= k < 2 ==> a[k].Put? ==> a[k].m == step.out
  {
    if role == Server then [Put(step.out), Take] else [Take, Put(step.out)]
  }

  /** Every transfer a peer offers when it performs `steps` on a healthy link. */
  function Actions(role: Role, steps: seq<Step>): (a: seq<Action>)
    ensures |a| == 2 * |steps|
    decreases |steps|
  {
    if steps == [] then [] else Offer(role, steps[0]) + Actions(role, steps[1..])
  }

  /** Exchange `i` of a peer contributes its transfers `2 * i` and `2 * i + 1`, in the role's order. */
  lemma {:induction false} ActionsAt(role: Role, steps: seq<Step>, i: nat)
    requires i < |steps|
    ensures Actions(role, steps)[2 * i] == if role == Server then Put(steps[i].out) else Take
    ensures Actions(role, steps)[2 * i + 1] == if role == Server then Take else Put(steps[i].out)
    decreases i
  {
    if 0 < i {
      ActionsAt(role, steps[1..], i - 1);
      assert steps[1..][i - 1] == steps[i];
    }
  }

  /** A server's and a client's transfers always go opposite ways. */
  lemma ActionsOpposite(ss: seq<Step>, cs: seq<Step>)
    requires |ss| == |cs|
    ensures forall k :: 0 <= k < 2 * |ss| ==> Actions(Server, ss)[k].Put? != Actions(Client, cs)[k].Put?
  {
    forall k | 0 <= k < 2 * |ss|
      ensures Actions(Server, ss)[k].Put? != Actions(Client, cs)[k].Put?
    {
      ActionsAt(Server, ss, k / 2);
      ActionsAt(Client, cs, k / 2);
      assert k == 2 * (k / 2) || k == 2 * (k / 2) + 1;
    }
  }

  /** Result of running two peers' transfers over the channel. */
  datatype Link = Deadlock | Outcomes(a: seq<Outcome>, b: seq<Outcome>, left: nat)

  /** `n` transfers against a dead link. */
  function Severed(n: nat): (o: seq<Outcome>)
    ensures |o| == n
    ensures forall k :: 0 <= k < n ==> o[k] == Failed(Disconnected)
  {
    seq(n, _ => Failed(Disconnected))
  }

  /** The channel pairing the heads of the two peers' transfer sequences, one rendezvous at a time. */
  function Channel(a: seq<Action>, b: seq<Action>, alive: nat): (r: Link)
    ensures r.Outcomes? ==> |r.a| == |a| && |r.b| == |b|
    ensures alive == 0 ==> r.Outcomes?
    decreases |a|
  {
    if a == [] && b == [] then Outcomes([], [], alive)
    else if alive == 0 || a == [] || b == [] then Outcomes(Severed(|a|), Severed(|b|), 0)
    else if a[0].Put? == b[0].Put? then Deadlock
    else
      var v := if a[0].Put? then a[0].m else b[0].m;
      match Channel(a[1..], b[1..], alive - 1)
      case Deadlock => Deadlock
      case Outcomes(ra, rb, left) => Outcomes([Crossed(v)] + ra, [Crossed(v)] + rb, left)
  }

  /** How many rendezvous take place before the link dies or a peer runs out of transfers. */
  function Reach(m: nat, n: nat, alive: nat): (k: nat)
  {
    if alive <= m && alive <= n then alive else if m <= n then m else n
  }

  /** The value that crosses when transfers `x` and `y` meet. */
  function Passed(x: Action, y: Action): (m: Msg)
  {
    if x.Put? then x.m else if y.Put? then y.m else Packet("")
  }

  /** The channel is stuck exactly when, before the link dies, two paired transfers go the same way. */
  lemma {:induction false} DeadlockIff(a: seq<Action>, b: seq<Action>, alive: nat)
    ensures Channel(a, b, alive).Deadlock?
        <==> exists k :: 0 <= k < Reach(|a|, |b|, alive) && a[k].Put? == b[k].Put?
    decreases |a|
  {
    if a == [] || b == [] || alive == 0 {
    } else if a[0].Put? == b[0].Put? {
      assert 0 < Reach(|a|, |b|, alive);
    } else {
      DeadlockIff(a[1..], b[1..], alive - 1);
      assert Reach(|a|, |b|, alive) == Reach(|a| - 1, |b| - 1, alive - 1) + 1;
      if exists k :: 0 <= k < Reach(|a|, |b|, alive) && a[k].Put? == b[k].Put? {
        var k :| 0 <= k < Reach(|a|, |b|, alive) && a[k].Put? == b[k].Put?;
        assert k != 0;
        assert a[1..][k - 1].Put? == b[1..][k - 1].Put?;
      }
      if exists k :: 0 <= k < Reach(|a| - 1, |b| - 1, alive - 1) && a[1..][k].Put? == b[1..][k].Put? {
        var k :| 0 <= k < Reach(|a| - 1, |b| - 1, alive - 1) && a[1..][k].Put? == b[1..][k].Put?;
        assert a[k + 1].Put? == b[k + 1].Put?;
      }
    }
  }

  /**
   When the paired transfers always go opposite ways, the first `Reach` of them
   complete on both sides with the same value, every later one fails with
   `Disconnected`, and the link keeps what was not used only when both peers
   finished together.
   */
  lemma {:induction false} ChannelAligned(a: seq<Action>, b: seq<Action>, alive: nat)
    requires forall k :: 0 <= k < |a| && k < |b| ==> a[k].Put? != b[k].Put?
    ensures Channel(a, b, alive).Outcomes?
    ensures forall k :: 0 <= k < |a| ==>
      Channel(a, b, alive).a[k] == (if k < Reach(|a|, |b|, alive) then Crossed(Passed(a[k], b[k])) else Failed(Disconnected))
    ensures forall k :: 0 <= k < |b| ==>
      Channel(a, b, alive).b[k] == (if k < Reach(|a|, |b|, alive) then Crossed(Passed(a[k], b[k])) else Failed(Disconnected))
    ensures Channel(a, b, alive).left == if |a| == |b| && |a| <= alive then alive - |a| else 0
    decreases |a|
  {
    if a == [] && b == [] {
    } else if alive == 0 || a == [] || b == [] {
    } else {
      ChannelAligned(a[1..], b[1..], alive - 1);
      var r := Channel(a, b, alive);
      var rest := Channel(a[1..], b[1..], alive - 1);
      assert Reach(|a|, |b|, alive) == Reach(|a| - 1, |b| - 1, alive - 1) + 1;
      assert r.a == [Crossed(Passed(a[0], b[0]))] + rest.a;
      assert r.b == [Crossed(Passed(a[0], b[0]))] + rest.b;
      forall k | 1 <= k < |a|
        ensures r.a[k] == if k < Reach(|a|, |b|, alive) then Crossed(Passed(a[k], b[k])) else Failed(Disconnected)
      {
        assert r.a[k] == rest.a[k - 1];
        if k < Reach(|a|, |b|, alive) {
          assert a[1..][k - 1] == a[k] && b[1..][k - 1] == b[k];
        }
      }
      forall k | 1 <= k < |b|
        ensures r.b[k] == if k < Reach(|a|, |b|, alive) then Crossed(Passed(a[k], b[k])) else Failed(Disconnected)
      {
        assert r.b[k] == rest.b[k - 1];
        if k < Reach(|a|, |b|, alive) {
          assert a[1..][k - 1] == a[k] && b[1..][k - 1] == b[k];
        }
      }
    }
  }

  /** Under the conditions of `ChannelAligned` the channel does not deadlock. */
  lemma AlignedOutcomes(a: seq<Action>, b: seq<Action>, alive: nat)
    requires forall j :: 0 <= j < |a| && j < |b| ==> a[j].Put? != b[j].Put?
    ensures Channel(a, b, alive).Outcomes?
  {
    ChannelAligned(a, b, alive);
  }

  /** Transfer `k` of each side, under the conditions of `ChannelAligned`. */
  lemma ChannelAt(a: seq<Action>, b: seq<Action>, alive: nat, k: nat)
    requires forall j :: 0 <= j < |a| && j < |b| ==> a[j].Put? != b[j].Put?
    requires k < |a| && k < |b|
    ensures Channel(a, b, alive).Outcomes?
    ensures Channel(a, b, alive).a[k] == if k < Reach(|a|, |b|, alive) then Crossed(Passed(a[k], b[k])) else Failed(Disconnected)
    ensures Channel(a, b, alive).b[k] == if k < Reach(|a|, |b|, alive) then Crossed(Passed(a[k], b[k])) else Failed(Disconnected)
  {
    ChannelAligned(a, b, alive);
  }

  /** The status a transfer leaves behind. */
  function StatusAfter(o: Outcome): (s: Status)
  {
    if o.Crossed? then Done else o.status
  }

  /** The socket's answer to one exchange, read off the outcomes of the role's two transfers. */
  function AnswerOf(role: Role, first: Outcome, second: Outcome): (a: Answer)
  {
    var sent := if role == Server then first else second;
    var taken := if role == Server then second else first;
    Answer(StatusAfter(sent), StatusAfter(taken), if taken.Crossed? then taken.value else Packet(""))
  }

  /** The answers to consecutive exchanges, two transfer outcomes each. */
  function AnswersOf(role: Role, outs: seq<Outcome>): (r: seq<Answer>)
    requires |outs| % 2 == 0
    ensures 2 * |r| == |outs|
    ensures forall i :: 0 <= i < |r| ==> r[i] == AnswerOf(role, outs[2 * i], outs[2 * i + 1])
  {
    seq(|outs| / 2, i requires 0 <= i < |outs| / 2 => AnswerOf(role, outs[2 * i], outs[2 * i + 1]))
  }

  /** Both peers' runs, or `Stuck` when the channel deadlocks. */
  datatype Played = Stuck | Both(server: PeerRun, client: PeerRun, left: nat)

  /**
   A peer of role `rs` performing `ss` and a peer of role `rc` performing `cs`
   over one connection whose link carries `alive` rendezvous.  Both start with
   the socket status `Done`, the zero value of a static status variable.
   */
  function Play(rs: Role, rc: Role, ss: seq<Step>, cs: seq<Step>, alive: nat): (p: Played)
    ensures alive == 0 ==> p.Both?
  {
    match Channel(Actions(rs, ss), Actions(rc, cs), alive)
    case Deadlock => Stuck
    case Outcomes(a, b, left) =>
      Both(RunPeer(rs, ss, AnswersOf(rs, a), Done), RunPeer(rc, cs, AnswersOf(rc, b), Done), left)
  }

  /**
   The role-dependent order is what keeps the exchange from deadlocking: two
   peers get stuck exactly when they hold the same role, both have something to
   exchange, and the link is alive.
   */
  lemma StuckIff(rs: Role, rc: Role, ss: seq<Step>, cs: seq<Step>, alive: nat)
    ensures Play(rs, rc, ss, cs, alive).Stuck? <==> rs == rc && 0 < alive && ss != [] && cs != []
  {
    var a, b := Actions(rs, ss), Actions(rc, cs);
    DeadlockIff(a, b, alive);
    if rs == rc && 0 < alive && ss != [] && cs != [] {
      ActionsAt(rs, ss, 0);
      ActionsAt(rc, cs, 0);
      assert 0 < Reach(|a|, |b|, alive) && a[0].Put? == b[0].Put?;
    }
    if Channel(a, b, alive).Deadlock? {
      var k :| 0 <= k < Reach(|a|, |b|, alive) && a[k].Put? == b[k].Put?;
      ActionsAt(rs, ss, k / 2);
      ActionsAt(rc, cs, k / 2);
      assert k == 2 * (k / 2) || k == 2 * (k / 2) + 1;
    }
  }

  /** Two runs whose programs end at the same exchanges stop at the same place. */
  lemma {:induction false} SameStops(r1: Role, s1: seq<Step>, a1: seq<Answer>, st1: Status,
                                     r2: Role, s2: seq<Step>, a2: seq<Answer>, st2: Status)
    requires |a1| == |s1| == |s2| == |a2|
    requires forall i :: 0 <= i < |s1| ==> Ends(r1, s1[i], a1[i]) == Ends(r2, s2[i], a2[i])
    ensures |RunPeer(r1, s1, a1, st1).got| == |RunPeer(r2, s2, a2, st2).got|
    ensures RunPeer(r1, s1, a1, st1).halted == RunPeer(r2, s2, a2, st2).halted
    decreases |s1|
  {
    if s1 != [] && !Ends(r1, s1[0], a1[0]) {
      assert !Ends(r2, s2[0], a2[0]);
      var x1 := ExchangeFun(r1, a1[0].sendStatus, a1[0].receiveStatus);
      var x2 := ExchangeFun(r2, a2[0].sendStatus, a2[0].receiveStatus);
      forall i | 0 <= i < |s1| - 1
        ensures Ends(r1, s1[1..][i], a1[1..][i]) == Ends(r2, s2[1..][i], a2[1..][i])
      {
        assert s1[1..][i] == s1[i + 1] && a1[1..][i] == a1[i + 1];
        assert s2[1..][i] == s2[i + 1] && a2[1..][i] == a2[i + 1];
      }
      SameStops(r1, s1[1..], a1[1..], x1.status, r2, s2[1..], a2[1..], x2.status);
    }
  }

  /** Whether some critical exchange lies where the link no longer carries both of its transfers. */
  predicate CutShort(steps: seq<Step>, alive: nat)
  {
    exists i :: 0 <= i < |steps| && steps[i].critical && alive <= 2 * i + 1
  }

  /** The link status of the `k`-th transfer of a session on a link that carries `alive` rendezvous. */
  function LinkStatus(k: nat, alive: nat): (s: Status)
  {
    if k < alive then Done else Disconnected
  }

  /** The answers a server's socket gives on a link carrying `alive` rendezvous, against a client performing `cs`. */
  predicate ServerSees(cs: seq<Step>, alive: nat, sa: seq<Answer>)
  {
    && |sa| == |cs|
    && forall i :: 0 <= i < |sa| ==>
         sa[i] == Answer(LinkStatus(2 * i, alive), LinkStatus(2 * i + 1, alive),
                         if 2 * i + 1 < alive then cs[i].out else Packet(""))
  }

  /** The answers a client's socket gives on a link carrying `alive` rendezvous, against a server performing `ss`. */
  predicate ClientSees(ss: seq<Step>, alive: nat, ac: seq<Answer>)
  {
    && |ac| == |ss|
    && forall i :: 0 <= i < |ac| ==>
         ac[i] == Answer(LinkStatus(2 * i + 1, alive), LinkStatus(2 * i, alive),
                         if 2 * i < alive then ss[i].out else Packet(""))
  }

  /**
   The answers each peer's socket gives to exchange `i`: the transfers of the
   exchange are numbered `2 * i` and `2 * i + 1`, the server sends in the first
   and the client in the second, and a completed receive yields the other
   peer's value.
   */
  lemma ChannelAnswers(ss: seq<Step>, cs: seq<Step>, alive: nat)
    requires |ss| == |cs|
    ensures Channel(Actions(Server, ss), Actions(Client, cs), alive).Outcomes?
    ensures var ch := Channel(Actions(Server, ss), Actions(Client, cs), alive);
      && ch.left == (if 2 * |ss| <= alive then alive - 2 * |ss| else 0)
      && ServerSees(cs, alive, AnswersOf(Server, ch.a))
      && ClientSees(ss, alive, AnswersOf(Client, ch.b))
  {
    ActionsOpposite(ss, cs);
    ChannelAligned(Actions(Server, ss), Actions(Client, cs), alive);
    ServerAnswers(ss, cs, alive);
    ClientAnswers(ss, cs, alive);
  }

  /** The server's half of `ChannelAnswers`. */
  lemma ServerAnswers(ss: seq<Step>, cs: seq<Step>, alive: nat)
    requires |ss| == |cs|
    ensures Channel(Actions(Server, ss), Actions(Client, cs), alive).Outcomes?
    ensures ServerSees(cs, alive, AnswersOf(Server, Channel(Actions(Server, ss), Actions(Client, cs), alive).a))
  {
    ActionsOpposite(ss, cs);
    AlignedOutcomes(Actions(Server, ss), Actions(Client, cs), alive);
    forall i | 0 <= i < |ss|
      ensures AnswersOf(Server, Channel(Actions(Server, ss), Actions(Client, cs), alive).a)[i]
           == Answer(LinkStatus(2 * i, alive), LinkStatus(2 * i + 1, alive),
                     if 2 * i + 1 < alive then cs[i].out else Packet(""))
    {
      ServerAnswerAt(ss, cs, alive, i);
    }
  }

  /** The client's half of `ChannelAnswers`. */
  lemma ClientAnswers(ss: seq<Step>, cs: seq<Step>, alive: nat)
    requires |ss| == |cs|
    ensures Channel(Actions(Server, ss), Actions(Client, cs), alive).Outcomes?
    ensures ClientSees(ss, alive, AnswersOf(Client, Channel(Actions(Server, ss), Actions(Client, cs), alive).b))
  {
    ActionsOpposite(ss, cs);
    AlignedOutcomes(Actions(Server, ss), Actions(Client, cs), alive);
    forall i | 0 <= i < |cs|
      ensures AnswersOf(Client, Channel(Actions(Server, ss), Actions(Client, cs), alive).b)[i]
           == Answer(LinkStatus(2 * i + 1, alive), LinkStatus(2 * i, alive),
                     if 2 * i < alive then ss[i].out else Packet(""))
    {
      ClientAnswerAt(ss, cs, alive, i);
    }
  }

  /** The server's answer to exchange `i`. */
  lemma ServerAnswerAt(ss: seq<Step>, cs: seq<Step>, alive: nat, i: nat)
    requires |ss| == |cs| && i < |ss|
    ensures Channel(Actions(Server, ss), Actions(Client, cs), alive).Outcomes?
    ensures AnswersOf(Server, Channel(Actions(Server, ss), Actions(Client, cs), alive).a)[i]
         == Answer(LinkStatus(2 * i, alive), LinkStatus(2 * i + 1, alive),
                   if 2 * i + 1 < alive then cs[i].out else Packet(""))
  {
    OutcomesAt(ss, cs, alive, i);
  }

  /** The client's answer to exchange `i`. */
  lemma ClientAnswerAt(ss: seq<Step>, cs: seq<Step>, alive: nat, i: nat)
    requires |ss| == |cs| && i < |cs|
    ensures Channel(Actions(Server, ss), Actions(Client, cs), alive).Outcomes?
    ensures AnswersOf(Client, Channel(Actions(Server, ss), Actions(Client, cs), alive).b)[i]
         == Answer(LinkStatus(2 * i + 1, alive), LinkStatus(2 * i, alive),
                   if 2 * i < alive then ss[i].out else Packet(""))
  {
    OutcomesAt(ss, cs, alive, i);
  }

  /** How the two transfers of exchange `i` end on each side. */
  lemma OutcomesAt(ss: seq<Step>, cs: seq<Step>, alive: nat, i: nat)
    requires |ss| == |cs| && i < |ss|
    ensures Channel(Actions(Server, ss), Actions(Client, cs), alive).Outcomes?
    ensures var ch := Channel(Actions(Server, ss), Actions(Client, cs), alive);
      && ch.a[2 * i] == ch.b[2 * i] == (if 2 * i < alive then Crossed(ss[i].out) else Failed(Disconnected))
      && ch.a[2 * i + 1] == ch.b[2 * i + 1] == (if 2 * i + 1 < alive then Crossed(cs[i].out) else Failed(Disconnected))
  {
    ActionsOpposite(ss, cs);
    ActionsAt(Server, ss, i);
    ActionsAt(Client, cs, i);
    ExchangeOutcomes(Actions(Server, ss), Actions(Client, cs), alive, i, ss[i].out, cs[i].out);
  }

  /** An exchange in which the first side sends `x` and the other sends `y` back, on channels that never deadlock. */
  lemma ExchangeOutcomes(a: seq<Action>, b: seq<Action>, alive: nat, i: nat, x: Msg, y: Msg)
    requires forall j :: 0 <= j < |a| && j < |b| ==> a[j].Put? != b[j].Put?
    requires |a| == |b| && 2 * i + 1 < |a|
    requires a[2 * i] == Put(x) && b[2 * i] == Take && a[2 * i + 1] == Take && b[2 * i + 1] == Put(y)
    ensures Channel(a, b, alive).Outcomes?
    ensures var ch := Channel(a, b, alive);
      && ch.a[2 * i] == ch.b[2 * i] == (if 2 * i < alive then Crossed(x) else Failed(Disconnected))
      && ch.a[2 * i + 1] == ch.b[2 * i + 1] == (if 2 * i + 1 < alive then Crossed(y) else Failed(Disconnected))
  {
    ChannelAt(a, b, alive, 2 * i);
    ChannelAt(a, b, alive, 2 * i + 1);
    assert Reach(|a|, |b|, alive) == if alive <= |a| then alive else |a|;
  }

  /** On such a link both peers stop at the same exchange, and only where a critical one is cut short. */
  lemma LinkStops(ss: seq<Step>, cs: seq<Step>, alive: nat, sa: seq<Answer>, ac: seq<Answer>)
    requires |ss| == |cs|
    requires forall i :: 0 <= i < |ss| ==> ss[i].critical == cs[i].critical
    requires ServerSees(cs, alive, sa) && ClientSees(ss, alive, ac)
    ensures |RunPeer(Server, ss, sa, Done).got| == |RunPeer(Client, cs, ac, Done).got|
    ensures RunPeer(Server, ss, sa, Done).halted == RunPeer(Client, cs, ac, Done).halted
    ensures RunPeer(Server, ss, sa, Done).halted <==> CutShort(ss, alive)
    ensures RunPeer(Server, ss, sa, Done).halted ==>
      RunPeer(Server, ss, sa, Done).status == Disconnected && RunPeer(Client, cs, ac, Done).status == Disconnected
    ensures var k := |RunPeer(Server, ss, sa, Done).got| - 1;
      RunPeer(Server, ss, sa, Done).halted ==> ss[k].critical && alive <= 2 * k + 1
  {
    forall i | 0 <= i < |ss|
      ensures Ends(Server, ss[i], sa[i]) == Ends(Client, cs[i], ac[i])
      ensures Ends(Server, ss[i], sa[i]) <==> ss[i].critical && alive <= 2 * i + 1
    {
    }
    SameStops(Server, ss, sa, Done, Client, cs, ac, Done);
    HaltsIff(Server, ss, sa, Done);
    RunPeerRecords(Server, ss, sa, Done);
    RunPeerStatus(Server, ss, sa, Done);
    RunPeerStatus(Client, cs, ac, Done);
    RunPeerHalts(Server, ss, sa, Done);
    var p := RunPeer(Server, ss, sa, Done);
    if p.halted {
      var i := |p.got| - 1;
      assert sa[i].sendStatus != Done ==> sa[i].sendStatus == Disconnected;
    }
  }

  /** On such a link a completed receive yields exactly the other peer's value, and a failed one nothing. */
  lemma LinkDelivers(ss: seq<Step>, cs: seq<Step>, alive: nat, sa: seq<Answer>, ac: seq<Answer>)
    requires |ss| == |cs|
    requires ServerSees(cs, alive, sa) && ClientSees(ss, alive, ac)
    ensures var g := RunPeer(Server, ss, sa, Done).got;
      forall i :: 0 <= i < |g| ==> g[i] == if 2 * i + 1 < alive then Some(cs[i].out) else None
    ensures var g := RunPeer(Client, cs, ac, Done).got;
      forall i :: 0 <= i < |g| ==> g[i] == if 2 * i < alive then Some(ss[i].out) else None
  {
    RunPeerReceipts(Server, ss, sa, Done);
    RunPeerReceipts(Client, cs, ac, Done);
    var g := RunPeer(Server, ss, sa, Done).got;
    forall i | 0 <= i < |g|
      ensures g[i] == if 2 * i + 1 < alive then Some(cs[i].out) else None
    {
      DeliveredIff(Server, sa[i].sendStatus, sa[i].receiveStatus);
    }
    var h := RunPeer(Client, cs, ac, Done).got;
    forall i | 0 <= i < |h|
      ensures h[i] == if 2 * i < alive then Some(ss[i].out) else None
    {
      DeliveredIff(Client, ac[i].sendStatus, ac[i].receiveStatus);
    }
  }

  /**
   A server and a client running programs of the same shape never deadlock.
   Every exchange whose transfers the link still carries delivers to each side
   exactly the value the other sent; no receive yields anything else.  Both
   peers stop at the same exchange, with status `Disconnected`, and they stop
   early exactly when a critical exchange falls beyond the link's life.
   */
  lemma InStep(ss: seq<Step>, cs: seq<Step>, alive: nat)
    requires |ss| == |cs|
    requires forall i :: 0 <= i < |ss| ==> ss[i].critical == cs[i].critical
    ensures Play(Server, Client, ss, cs, alive).Both?
    ensures var p := Play(Server, Client, ss, cs, alive);
      && |p.server.got| == |p.client.got|
      && p.server.halted == p.client.halted
      && (p.server.halted <==> CutShort(ss, alive))
      && (forall i :: 0 <= i < |p.server.got| ==>
            p.server.got[i] == if 2 * i + 1 < alive then Some(cs[i].out) else None)
      && (forall i :: 0 <= i < |p.client.got| ==>
            p.client.got[i] == if 2 * i < alive then Some(ss[i].out) else None)
      && (p.server.halted ==> p.server.status == Disconnected && p.client.status == Disconnected)
      && (p.server.halted ==> ss[|p.server.got| - 1].critical && alive <= 2 * (|p.server.got| - 1) + 1)
      && p.left == if 2 * |ss| <= alive then alive - 2 * |ss| else 0
  {
    ChannelAnswers(ss, cs, alive);
    var ch := Channel(Actions(Server, ss), Actions(Client, cs), alive);
    var sa, ac := AnswersOf(Server, ch.a), AnswersOf(Client, ch.b);
    assert ServerSees(cs, alive, sa) && ClientSees(ss, alive, ac);
    LinkStops(ss, cs, alive, sa, ac);
    LinkDelivers(ss, cs, alive, sa, ac);
    var p := Play(Server, Client, ss, cs, alive);
    assert p.server == RunPeer(Server, ss, sa, Done);
    assert p.client == RunPeer(Client, cs, ac, Done);
  }
}
