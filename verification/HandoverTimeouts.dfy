/** Timeouts of a multicast server thread, counted over whole runs. The count is carried from client to client. */
module HandoverTimeouts {
  import opened RFile
  import opened Sender
  import opened Clients
  import opened Handover

  /** The timeouts among the first k actions that come after the last acknowledgement among them, whoever
      sent it and whichever clients have been served meanwhile. */
  function TimeoutsSince(c: Course, k: nat): nat
    requires k <= |c.acts|
  {
    if k == 0 || c.acts[k - 1].AckFrom? then 0
    else TimeoutsSince(c, k - 1) + if c.acts[k - 1].Timer? || c.acts[k - 1].Switch? then 1 else 0
  }

  /** The kind of packet the server last sent in the first k actions: the option acknowledgement, or DATA. */
  function LastKind(c: Course, k: nat): Mode
    requires |c.states| == |c.acts| + 1 && k <= |c.acts|
  {
    if k == 0 then BEGIN
    else if c.acts[k - 1].Send? then SEND_DATA
    else if c.acts[k - 1].Prepare? && c.states[k - 1].server.state == SEND_OACK then SEND_OACK
    else LastKind(c, k - 1)
  }

  /** The block number DATA was last sent from. */
  function LastNumber(c: Course, k: nat): nat
    requires |c.states| == |c.acts| + 1 && k <= |c.acts|
  {
    if k == 0 then 0
    else if c.acts[k - 1].Send? then c.states[k - 1].server.blockNumber
    else LastNumber(c, k - 1)
  }

  ghost predicate Counted(c: Course, k: nat)
    requires |c.states| == |c.acts| + 1 && k <= |c.acts|
  {
    var v := c.states[k].server;
    && v.timeouts == TimeoutsSince(c, k)
    && (v.state == WAIT_PACKET ==>
          && v.timeoutState == LastKind(c, k) && (v.timeoutState == SEND_OACK || v.timeoutState == SEND_DATA)
          && (v.timeoutState == SEND_DATA ==> v.blockNumber == LastNumber(c, k)))
  }

  lemma CountedStep(c: Course, f: File, k: nat)
    requires |c.states| == |c.acts| + 1 && k < |c.acts| && Counted(c, k)
    requires Step(c.states[k], c.acts[k], c.states[k + 1], f)
    ensures Counted(c, k + 1)
  {
    hide AtEndAfter, BlockOf, NextIs, Waiting, LeadIs, Heard, File.Blocks;
  }

  lemma {:induction false} CourseCounted(c: Course, f: File, k: nat)
    requires IsCourse(c, f) && k <= |c.acts|
    ensures Counted(c, k)
  {
    if k > 0 {
      hide Counted, Step;
      CourseCounted(c, f, k - 1);
      CountedStep(c, f, k - 1);
    }
  }

  /** Over a run: a timeout gives the client up exactly when it is at least the sixth since the last
      acknowledgement by anybody, or since the start. Otherwise, unless another client is taken or the
      thread aborts, the server goes back to send what it sent last. */
  lemma TimeoutEndsIff(c: Course, f: File, k: nat)
    requires IsCourse(c, f) && k < |c.acts| && (c.acts[k].Timer? || c.acts[k].Switch?)
    ensures var v := c.states[k + 1].server;
            && (v.state == END <==> TimeoutsSince(c, k + 1) > 5)
            && (v.state == END ==> c.acts[k].Timer? && c.states[k + 1].cause == GaveUp)
            && (v.state != END && (c.acts[k].Timer? || c.acts[k].found == Same) ==>
                  && v.state == LastKind(c, k) && (v.state == SEND_DATA ==> v.blockNumber == LastNumber(c, k)))
  {
    hide AtEndAfter, BlockOf, NextIs, Waiting, LeadIs, Heard, File.Blocks;
    CourseCounted(c, f, k);
    assert Step(c.states[k], c.acts[k], c.states[k + 1], f);
  }

  /** The next client is given up at its first timeout exactly when five timeouts or more have passed since
      the last acknowledgement, all of them in the time of the clients before it. */
  lemma NextGivenUpIff(c: Course, f: File, k: nat, j: nat)
    requires IsCourse(c, f) && k + 3 < |c.acts|
    requires c.acts[k] == Finish && c.acts[k + 1] == Advance(Other(j)) && c.acts[k + 2] == Prepare
    requires c.acts[k + 3].Timer? || c.acts[k + 3].Switch?
    ensures c.states[k + 4].server.state == END <==> TimeoutsSince(c, k) >= 5
  {
    TimeoutEndsIff(c, f, k + 3);
    NoTimeouts(c, k);
  }

  lemma NoTimeouts(c: Course, k: nat)
    requires k + 3 < |c.acts| && c.acts[k] == Finish && c.acts[k + 1].Advance? && c.acts[k + 2] == Prepare
    requires c.acts[k + 3].Timer? || c.acts[k + 3].Switch?
    ensures TimeoutsSince(c, k + 4) == TimeoutsSince(c, k) + 1
  {
    assert TimeoutsSince(c, k + 1) == TimeoutsSince(c, k);
    assert TimeoutsSince(c, k + 2) == TimeoutsSince(c, k + 1);
    assert TimeoutsSince(c, k + 3) == TimeoutsSince(c, k + 2);
  }
}
