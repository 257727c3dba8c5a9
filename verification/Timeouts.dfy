/** The server's side of whole runs, counted by events: when it gives up on timeouts and what it sends when it
    does not, what it sends first, and when it aborts. */
module Timeouts {
  import opened Netascii
  import opened RFile
  import opened Sender
  import opened Transfer

  // ---------- one client ----------

  /** A waiting server hears nothing in time. */
  predicate TimedOut(s: System, step: Step) {
    step == ServerPass(Timeout) && s.server.state == WAIT_PACKET
  }

  /** The timeouts among the first k steps that come after the last acknowledgement among them. */
  function TimeoutsSince(run: Run, k: nat): nat
    requires |run.states| == |run.steps| + 1 && k <= |run.steps|
  {
    if k == 0 || run.steps[k - 1].ServerAck? then 0
    else TimeoutsSince(run, k - 1) + if TimedOut(run.states[k - 1], run.steps[k - 1]) then 1 else 0
  }

  /** What the server last put on the wire in the first k steps. */
  function LastPacket(run: Run, k: nat): seq<Down>
    requires |run.states| == |run.steps| + 1 && k <= |run.steps|
  {
    if k == 0 then
      []
    else
      var sent, before := run.states[k].down, run.states[k - 1].down;
      if run.steps[k - 1].ServerPass? && |sent| > |before| then sent[|before|..] else LastPacket(run, k - 1)
  }

  /** The packet that the server sends in this state. */
  function PacketOf(v: Server, data: seq<byte>, size: nat): seq<Down> {
    match v.state
    case SEND_OACK => [DownOack]
    case SEND_DATA => [DownData((v.blockNumber + 1) % WRAP, BlockOf(data, size, v.blockNumber), v.blockNumber + 1)]
    case _ => []
  }

  /** The count is that of the run, and a waiting server would repeat what it sent last. */
  ghost predicate Counted(run: Run, data: seq<byte>, size: nat, k: nat)
    requires |run.states| == |run.steps| + 1 && k <= |run.steps|
  {
    var v := run.states[k].server;
    && v.timeouts == TimeoutsSince(run, k)
    && (v.state == WAIT_PACKET ==>
          && (v.timeoutState == SEND_OACK || v.timeoutState == SEND_DATA)
          && LastPacket(run, k) == PacketOf(v.(state := v.timeoutState), data, size))
  }

  lemma CountedStep(run: Run, data: seq<byte>, size: nat, options: bool, k: nat)
    requires |run.states| == |run.steps| + 1 && k < |run.steps| && Counted(run, data, size, k)
    requires Next(run.states[k], run.states[k + 1], run.steps[k], data, size, options)
    ensures Counted(run, data, size, k + 1)
  {
    hide BlockOf, AtEndAfter, Receive;
  }

  lemma {:induction false} RunCounted(run: Run, data: seq<byte>, size: nat, options: bool, k: nat)
    requires IsRun(run, data, size, options) && k <= |run.steps|
    ensures Counted(run, data, size, k)
  {
    hide Counted, Next;
    if k == 0 {
      NothingCounted(run, data, size);
    } else {
      RunCounted(run, data, size, options, k - 1);
      CountedStep(run, data, size, options, k - 1);
    }
  }

  lemma NothingCounted(run: Run, data: seq<byte>, size: nat)
    requires |run.states| == |run.steps| + 1 && run.states[0] == START_STATE
    ensures Counted(run, data, size, 0)
  {
  }

  /** A timeout ends the transfer exactly when it is at least the sixth since the last acknowledgement, or
      since the start. */
  lemma GivesUpIff(run: Run, data: seq<byte>, size: nat, options: bool, k: nat)
    requires IsRun(run, data, size, options) && k < |run.steps| && TimedOut(run.states[k], run.steps[k])
    ensures run.states[k + 1].server.state == END <==> TimeoutsSince(run, k + 1) > 5
  {
    RunCounted(run, data, size, options, k);
    assert Next(run.states[k], run.states[k + 1], run.steps[k], data, size, options);
    hide BlockOf, AtEndAfter;
  }

  /** Only the server's own passes and acknowledgements change the server. */
  lemma {:induction false} ServerKept(run: Run, data: seq<byte>, size: nat, options: bool, i: nat, j: nat)
    requires IsRun(run, data, size, options) && i <= j <= |run.steps| && run.states[i].server.state != WAIT_PACKET
    requires forall m | i <= m < j :: !run.steps[m].ServerPass?
    ensures run.states[j].server == run.states[i].server
    decreases j
  {
    if i < j {
      ServerKept(run, data, size, options, i, j - 1);
      assert Next(run.states[j - 1], run.states[j - 1 + 1], run.steps[j - 1], data, size, options);
    }
  }

  lemma TimeoutStep(s: System, s': System, step: Step, data: seq<byte>, size: nat, options: bool)
    requires Next(s, s', step, data, size, options) && TimedOut(s, step)
    ensures s'.server == s.server.(timeouts := s.server.timeouts + 1,
                                   state := if s.server.timeouts + 1 > 5 then END else s.server.timeoutState)
  {
  }

  lemma SendStep(s: System, s': System, step: Step, data: seq<byte>, size: nat, options: bool)
    requires Next(s, s', step, data, size, options) && step.ServerPass?
    requires s.server.state == SEND_OACK || s.server.state == SEND_DATA
    ensures s'.down == s.down + PacketOf(s.server, data, size) && s'.server.state == WAIT_PACKET
  {
    hide BlockOf, AtEndAfter;
  }

  lemma OnePacket(v: Server, data: seq<byte>, size: nat)
    ensures v.state == SEND_OACK || v.state == SEND_DATA ==> |PacketOf(v, data, size)| == 1
  {
  }

  lemma SamePacket(u: Server, v: Server, data: seq<byte>, size: nat)
    requires v == u.(timeouts := v.timeouts, state := u.timeoutState)
    ensures PacketOf(v, data, size) == PacketOf(u.(state := u.timeoutState), data, size)
  {
  }

  /** After a timeout that does not end the transfer, the next pass sends again what was sent last: one packet,
      the option acknowledgement or the same block. */
  lemma RepeatsLast(run: Run, data: seq<byte>, size: nat, options: bool, k: nat, j: nat)
    requires IsRun(run, data, size, options) && k < j < |run.steps| && TimedOut(run.states[k], run.steps[k])
    requires TimeoutsSince(run, k + 1) <= 5
    requires run.steps[j].ServerPass? && forall m | k < m < j :: !run.steps[m].ServerPass?
    ensures |LastPacket(run, k)| == 1
    ensures run.states[j + 1].down == run.states[j].down + LastPacket(run, k)
    ensures run.states[j + 1].server.state == WAIT_PACKET
  {
    hide Next, BlockOf, LastPacket, PacketOf;
    RunCounted(run, data, size, options, k);
    TimeoutStep(run.states[k], run.states[k + 1], run.steps[k], data, size, options);
    ServerKept(run, data, size, options, k + 1, j);
    SendStep(run.states[j], run.states[j + 1], run.steps[j], data, size, options);
    OnePacket(run.states[j].server, data, size);
    SamePacket(run.states[k].server, run.states[j].server, data, size);
  }

  // ---------- what is sent first ----------

  /** The server has taken an acknowledgement in the first k steps. */
  ghost predicate Acked(run: Run, k: nat)
    requires k <= |run.steps|
  {
    exists i :: 0 <= i < k && run.steps[i].ServerAck?
  }

  /** Sends, or waits to send again, a packet of this kind. */
  predicate SendsKind(v: Server, kind: Mode) {
    v.state == kind || (v.state == WAIT_PACKET && v.timeoutState == kind)
  }

  ghost predicate KindOk(v: Server, options: bool, acked: bool) {
    && (v.state == BEGIN ==> !acked)
    && (SendsKind(v, SEND_OACK) ==> options && !acked)
    && (SendsKind(v, SEND_DATA) ==> !options || acked)
    && (v.state == WAIT_PACKET ==> v.timeoutState == SEND_OACK || v.timeoutState == SEND_DATA)
  }

  lemma KindStep(s: System, s': System, step: Step, data: seq<byte>, size: nat, options: bool, acked: bool)
    requires Next(s, s', step, data, size, options) && KindOk(s.server, options, acked)
    ensures KindOk(s'.server, options, acked || step.ServerAck?)
  {
    hide BlockOf, AtEndAfter, Receive;
  }

  lemma AckedMore(run: Run, k: nat)
    requires k < |run.steps|
    ensures Acked(run, k + 1) <==> Acked(run, k) || run.steps[k].ServerAck?
  {
  }

  lemma {:induction false} RunKind(run: Run, data: seq<byte>, size: nat, options: bool, k: nat)
    requires IsRun(run, data, size, options) && k <= |run.steps|
    ensures KindOk(run.states[k].server, options, Acked(run, k))
  {
    hide Next, KindOk;
    if k == 0 {
      assert KindOk(INITIAL, options, false) by { StartKind(options); }
    } else {
      RunKind(run, data, size, options, k - 1);
      AckedMore(run, k - 1);
      assert Next(run.states[k - 1], run.states[k - 1 + 1], run.steps[k - 1], data, size, options);
      KindStep(run.states[k - 1], run.states[k], run.steps[k - 1], data, size, options, Acked(run, k - 1));
    }
  }

  lemma StartKind(options: bool)
    ensures KindOk(INITIAL, options, false)
  {
  }

  /** A pass puts one packet on the wire or none. Options, if the request had any, are acknowledged until the
      client answers for the first time; DATA is sent from then on, and from the start if there were none. */
  lemma OackUntilAnswered(run: Run, data: seq<byte>, size: nat, options: bool, k: nat)
    requires IsRun(run, data, size, options) && k < |run.steps| && run.steps[k].ServerPass?
    ensures var sent, before := run.states[k + 1].down, run.states[k].down;
            && |before| <= |sent| <= |before| + 1
            && (|sent| > |before| ==> (sent[|before|] == DownOack <==> options && !Acked(run, k)))
  {
    RunKind(run, data, size, options, k);
    assert Next(run.states[k], run.states[k + 1], run.steps[k], data, size, options);
    hide BlockOf, AtEndAfter, Acked;
  }

  // ---------- errors ----------

  /** A waiting server hears of an error. */
  predicate Failed(s: System, step: Step) {
    (step == ServerPass(Error) || step == ServerPass(SocketError)) && s.server.state == WAIT_PACKET
  }

  /** The server aborts exactly on an ERROR packet or an error of the socket. */
  lemma AbortsIff(s: System, s': System, step: Step, data: seq<byte>, size: nat, options: bool)
    requires Next(s, s', step, data, size, options) && s.server.state != ABORT
    requires s.server.state == WAIT_PACKET ==> s.server.timeoutState != ABORT
    ensures s'.server.state == ABORT <==> Failed(s, step)
    ensures step == ServerPass(Discarded) && s.server.state == WAIT_PACKET ==> s' == s
  {
    hide BlockOf, AtEndAfter;
    assert s.down + [] == s.down;
  }

  /** Over a run: the server has aborted exactly when it has heard of an error. */
  lemma {:induction false} AbortedIff(run: Run, data: seq<byte>, size: nat, options: bool, k: nat)
    requires IsRun(run, data, size, options) && k <= |run.steps|
    ensures run.states[k].server.state == ABORT
       <==> exists i :: 0 <= i < k && Failed(run.states[i], run.steps[i])
  {
    hide BlockOf, AtEndAfter, TimeoutsSince, LastPacket, PacketOf;
    if k > 0 {
      AbortedIff(run, data, size, options, k - 1);
      RunCounted(run, data, size, options, k - 1);
      assert Next(run.states[k - 1], run.states[k - 1 + 1], run.steps[k - 1], data, size, options);
      if run.states[k - 1].server.state == ABORT {
        NoPass(run.states[k - 1], run.states[k], run.steps[k - 1], data, size, options);
      } else {
        AbortsIff(run.states[k - 1], run.states[k], run.steps[k - 1], data, size, options);
      }
    }
  }

  lemma NoPass(s: System, s': System, step: Step, data: seq<byte>, size: nat, options: bool)
    requires Next(s, s', step, data, size, options) && Over(s.server)
    ensures s'.server == s.server && !step.ServerPass? && !step.ServerAck?
  {
  }

  /** Nothing follows a transfer that is over: the server makes no pass and sends nothing. */
  lemma {:induction false} OverForGood(run: Run, data: seq<byte>, size: nat, options: bool, i: nat, j: nat)
    requires IsRun(run, data, size, options) && i <= j <= |run.steps| && Over(run.states[i].server)
    ensures run.states[j].server == run.states[i].server
    ensures forall m | i <= m < j :: !run.steps[m].ServerPass? && !run.steps[m].ServerAck?
    decreases j
  {
    hide Next;
    if i < j {
      OverForGood(run, data, size, options, i, j - 1);
      assert Next(run.states[j - 1], run.states[j - 1 + 1], run.steps[j - 1], data, size, options);
      NoPass(run.states[j - 1], run.states[j], run.steps[j - 1], data, size, options);
    }
  }
}
