/**
 The connection layer shared by both iterations of the game: the two transfer
 primitives (`Send`, `Receive`), which succeed only when the socket reports
 `Done`, and the role-ordered exchange built from them (`ExchangeFun`).  The
 socket itself is not modelled; its answers are inputs.  A peer's whole use of
 the connection is a list of exchanges, each either critical (its failure ends
 the program) or not (its result is discarded).
 */
module Connection {
  import opened Optional

  /** The end of the connection a process holds, fixed at startup. */
  datatype Role = Server | Client

  /** The statuses a socket transfer reports. */
  datatype Status = Done | NotReady | Partial | Disconnected | Error

  /** The direction of one transfer. */
  datatype Dir = Send | Receive

  /** What crosses the connection: a packet holding one string, or a raw fixed-size scalar. */
  datatype Msg = Packet(text: string) | Scalar(value: real)

  /** The order in which a peer of the given role performs the two transfers of an exchange. */
  function Order(role: Role): (o: seq<Dir>)
    ensures |o| == 2 && o[0] != o[1]
    ensures o[0] == Send <==> role == Server
  {
    if role == Server then [Send, Receive] else [Receive, Send]
  }

  /** `Send` and `Receive` count a transfer as successful only when the socket says `Done`. */
  predicate Succeeded(status: Status)
  {
    status == Done
  }

  /** The status the socket reports for the transfer in direction `d`. */
  function StatusOf(d: Dir, sendStatus: Status, receiveStatus: Status): (s: Status)
  {
    if d == Send then sendStatus else receiveStatus
  }

  /** The result of one exchange: its boolean result, the last status stored, the transfers tried. */
  datatype Exchanged = Exchanged(ok: bool, status: Status, attempted: seq<Dir>)

  /**
   One exchange: the server sends and then receives, the client receives and
   then sends, and the second transfer is skipped when the first fails.
   `sendStatus` and `receiveStatus` are what the socket would answer.
   */
  function ExchangeFun(role: Role, sendStatus: Status, receiveStatus: Status): (r: Exchanged)
    ensures r.ok <==> sendStatus == Done && receiveStatus == Done
    ensures 1 <= |r.attempted| <= 2
    ensures r.attempted == Order(role)[..|r.attempted|]
    ensures |r.attempted| == 2 <==> StatusOf(Order(role)[0], sendStatus, receiveStatus) == Done
    ensures r.status == StatusOf(r.attempted[|r.attempted| - 1], sendStatus, receiveStatus)
  {
    if role == Server then
      if Succeeded(sendStatus) then Exchanged(Succeeded(receiveStatus), receiveStatus, [Send, Receive])
      else Exchanged(false, sendStatus, [Send])
    else
      if Succeeded(receiveStatus) then Exchanged(Succeeded(sendStatus), sendStatus, [Receive, Send])
      else Exchanged(false, receiveStatus, [Receive])
  }

  /** Whether the exchange's receive was tried and completed, so its buffer holds the peer's value. */
  predicate Delivered(role: Role, sendStatus: Status, receiveStatus: Status)
  {
    Receive in ExchangeFun(role, sendStatus, receiveStatus).attempted && receiveStatus == Done
  }

  /** The client always tries its receive; the server only after its send went through. */
  lemma DeliveredIff(role: Role, sendStatus: Status, receiveStatus: Status)
    ensures Delivered(role, sendStatus, receiveStatus)
        <==> receiveStatus == Done && (role == Client || sendStatus == Done)
  {
    var r := ExchangeFun(role, sendStatus, receiveStatus);
    if role == Server && sendStatus != Done {
      assert r.attempted == [Send];
    }
  }

  /** One exchange of a peer's program: the value it sends, and whether failing ends the program. */
  datatype Step = Step(out: Msg, critical: bool)

  /** What the socket answers to the two transfers of one exchange, and what a completed receive yields. */
  datatype Answer = Answer(sendStatus: Status, receiveStatus: Status, incoming: Msg)

  /** Whether the exchange of `step` fails against `a` and that failure ends the program. */
  predicate Ends(role: Role, step: Step, a: Answer)
  {
    step.critical && !ExchangeFun(role, a.sendStatus, a.receiveStatus).ok
  }

  /** What the receive buffer of one exchange holds afterwards: the peer's value, or nothing. */
  function Receipt(role: Role, a: Answer): (g: Option<Msg>)
  {
    if Delivered(role, a.sendStatus, a.receiveStatus) then Some(a.incoming) else None
  }

  /** A peer's run: one receipt per exchange performed, the stored status, and whether it stopped early. */
  datatype PeerRun = PeerRun(got: seq<Option<Msg>>, status: Status, halted: bool)

  /**
   A peer performing `steps` in order against the socket answers `answers`
   (one per exchange): it stops at the first critical exchange that fails and
   carries on past a non-critical one.  `status` is the stored status before
   the first exchange.
   */
  function RunPeer(role: Role, steps: seq<Step>, answers: seq<Answer>, status: Status): (r: PeerRun)
    requires |answers| == |steps|
    ensures |r.got| <= |steps|
    ensures r.halted ==> 0 < |r.got|
    ensures !r.halted ==> |r.got| == |steps|
    decreases |steps|
  {
    if steps == [] then PeerRun([], status, false)
    else
      var x := ExchangeFun(role, answers[0].sendStatus, answers[0].receiveStatus);
      var g := Receipt(role, answers[0]);
      if !x.ok && steps[0].critical then PeerRun([g], x.status, true)
      else
        var rest := RunPeer(role, steps[1..], answers[1..], x.status);
        PeerRun([g] + rest.got, rest.status, rest.halted)
  }

  /** Every exchange a run performed leaves its receipt, in order. */
  lemma {:induction false} RunPeerReceipts(role: Role, steps: seq<Step>, answers: seq<Answer>, status: Status)
    requires |answers| == |steps|
    ensures var r := RunPeer(role, steps, answers, status);
      forall i :: 0 <= i < |r.got| ==> r.got[i] == Receipt(role, answers[i])
    decreases |steps|
  {
    if steps != [] {
      var x := ExchangeFun(role, answers[0].sendStatus, answers[0].receiveStatus);
      if x.ok || !steps[0].critical {
        RunPeerReceipts(role, steps[1..], answers[1..], x.status);
        var rest := RunPeer(role, steps[1..], answers[1..], x.status);
        var r := RunPeer(role, steps, answers, status);
        assert r.got == [Receipt(role, answers[0])] + rest.got;
        assert forall i :: 1 <= i < |r.got| ==> r.got[i] == rest.got[i - 1] && answers[i] == answers[1..][i - 1];
      }
    }
  }

  /** A run goes on past every exchange whose failure does not end the program. */
  lemma {:induction false} RunPeerGoesOn(role: Role, steps: seq<Step>, answers: seq<Answer>, status: Status)
    requires |answers| == |steps|
    ensures var r := RunPeer(role, steps, answers, status);
      && (forall i :: 0 <= i < |r.got| - 1 ==> !Ends(role, steps[i], answers[i]))
      && (!r.halted ==> forall i :: 0 <= i < |steps| ==> !Ends(role, steps[i], answers[i]))
    decreases |steps|
  {
    if steps != [] {
      var x := ExchangeFun(role, answers[0].sendStatus, answers[0].receiveStatus);
      if x.ok || !steps[0].critical {
        RunPeerGoesOn(role, steps[1..], answers[1..], x.status);
        assert !Ends(role, steps[0], answers[0]);
        assert forall i :: 1 <= i < |steps| ==> steps[i] == steps[1..][i - 1] && answers[i] == answers[1..][i - 1];
      }
    }
  }

  /** A run that halts does so right at an exchange whose failure ends the program. */
  lemma {:induction false} RunPeerHalts(role: Role, steps: seq<Step>, answers: seq<Answer>, status: Status)
    requires |answers| == |steps|
    ensures var r := RunPeer(role, steps, answers, status);
      r.halted ==> Ends(role, steps[|r.got| - 1], answers[|r.got| - 1])
    decreases |steps|
  {
    if steps != [] {
      var x := ExchangeFun(role, answers[0].sendStatus, answers[0].receiveStatus);
      if x.ok || !steps[0].critical {
        RunPeerHalts(role, steps[1..], answers[1..], x.status);
        var rest := RunPeer(role, steps[1..], answers[1..], x.status);
        if rest.halted {
          assert steps[|rest.got|] == steps[1..][|rest.got| - 1] && answers[|rest.got|] == answers[1..][|rest.got| - 1];
        }
      }
    }
  }

  /** The status a run leaves stored is that of its last exchange, or the one it started with. */
  lemma {:induction false} RunPeerStatus(role: Role, steps: seq<Step>, answers: seq<Answer>, status: Status)
    requires |answers| == |steps|
    ensures var r := RunPeer(role, steps, answers, status);
      r.status == if |r.got| == 0 then status
                  else ExchangeFun(role, answers[|r.got| - 1].sendStatus, answers[|r.got| - 1].receiveStatus).status
    decreases |steps|
  {
    if steps != [] {
      var x := ExchangeFun(role, answers[0].sendStatus, answers[0].receiveStatus);
      if x.ok || !steps[0].critical {
        RunPeerStatus(role, steps[1..], answers[1..], x.status);
        var rest := RunPeer(role, steps[1..], answers[1..], x.status);
        if |rest.got| != 0 {
          assert answers[1..][|rest.got| - 1] == answers[|rest.got|];
        }
      }
    }
  }

  /** Everything a run records, in one place. */
  lemma RunPeerRecords(role: Role, steps: seq<Step>, answers: seq<Answer>, status: Status)
    requires |answers| == |steps|
    ensures var r := RunPeer(role, steps, answers, status);
      && (forall i :: 0 <= i < |r.got| ==> r.got[i] == Receipt(role, answers[i]))
      && (forall i :: 0 <= i < |r.got| - 1 ==> !Ends(role, steps[i], answers[i]))
      && (r.halted ==> Ends(role, steps[|r.got| - 1], answers[|r.got| - 1]))
      && (!r.halted ==> forall i :: 0 <= i < |steps| ==> !Ends(role, steps[i], answers[i]))
      && r.status == if |r.got| == 0 then status
                     else ExchangeFun(role, answers[|r.got| - 1].sendStatus, answers[|r.got| - 1].receiveStatus).status
  {
    RunPeerReceipts(role, steps, answers, status);
    RunPeerGoesOn(role, steps, answers, status);
    RunPeerHalts(role, steps, answers, status);
    RunPeerStatus(role, steps, answers, status);
  }

  /** A peer halts exactly when some critical exchange of its program fails. */
  lemma HaltsIff(role: Role, steps: seq<Step>, answers: seq<Answer>, status: Status)
    requires |answers| == |steps|
    ensures RunPeer(role, steps, answers, status).halted
        <==> exists i :: 0 <= i < |steps| && Ends(role, steps[i], answers[i])
  {
    RunPeerRecords(role, steps, answers, status);
    var r := RunPeer(role, steps, answers, status);
    if r.halted {
      var i := |r.got| - 1;
      assert Ends(role, steps[i], answers[i]);
    }
  }
}
