/** What the hand-over of clients means for the file each of them gets. The loop variables are not reset
    between clients, and whoever sends a packet is taken for the current client, so a client that holds
    nothing can be taken for one that holds everything. */
module Multicast {
  import opened RFile
  import opened Sender
  import Transfer
  import opened Clients
  import opened Handover

  /** Fewer than 65536 blocks, the files the server means to send without wrap-around. */
  predicate Small(f: File) {
    f.Ok() && f.Blocks() < 65536
  }

  // ---------- the loop variables ----------

  /** The offset has been bumped past every block number of the file. */
  predicate Bumped(v: Server) {
    v.wraparoundOffset >= WRAP
  }

  predicate VarsOk(v: Server, total: nat) {
    && (v.wraparoundOffset == 0 || Bumped(v))
    && (v.wraparoundOffset == 0 ==> v.blockNumber <= total && (v.lastBlock == -1 || v.lastBlock == total - 1))
    && (Bumped(v) ==>
          && v.blockNumber >= v.wraparoundOffset
          && (v.lastBlock == -1 ==> v.state == SEND_DATA || v.state == ABORT)
          && (v.lastBlock == -1 || v.lastBlock == total - 1 || v.lastBlock == WRAP))
    && (v.state == WAIT_PACKET ==> v.timeoutState == SEND_OACK || v.timeoutState == SEND_DATA)
    && (v.state == SEND_DATA || (v.state == WAIT_PACKET && v.timeoutState == SEND_DATA) ==>
          v.blockNumber < total || v.blockNumber == WRAP)
  }

  /** Clients hold blocks of the file only, and the last one only once the server knows it is the last. */
  ghost predicate HoldingsOk(s: Hand, total: nat) {
    && (forall a, n :: a in s.has && n in s.has[a] ==> 1 <= n <= total)
    && (forall a :: a in s.has && total in s.has[a] ==> s.server.lastBlock != -1)
  }

  ghost predicate VarsInv(s: Hand, f: File)
    requires f.Ok()
  {
    VarsOk(s.server, f.Blocks()) && HoldingsOk(s, f.Blocks()) && (s.phase.Marked? ==> s.server.state == END)
  }

  /** Reading at or past the last block reaches the end of the file. */
  lemma EndFrom(f: File, k: nat)
    requires f.Ok()
    ensures k >= f.Blocks() ==> AtEndAfter(f.data, f.size, k)
    ensures k < f.Blocks() ==> (AtEndAfter(f.data, f.size, k) <==> k == f.Blocks() - 1)
  {
    if k < f.Blocks() {
      Transfer.EndAtLastBlock(f.data, f.size, k);
    } else {
      Transfer.TotalBounds(f.data, f.size, k);
    }
  }

  lemma LeadBounded(held: set<nat>, h: nat, total: nat)
    requires LeadIs(held, h) && forall n :: n in held ==> 1 <= n <= total
    ensures h <= total && (Whole(held, total) <==> h == total)
  {
    if h >= 1 {
      assert h in held;
    }
    assert h < total && Whole(held, total) ==> h + 1 in held;
  }

  lemma SendVars(s: Hand, heard: set<Address>, s': Hand, f: File)
    requires Small(f) && VarsInv(s, f) && Step(s, Send(heard), s', f)
    ensures VarsInv(s', f)
  {
    EndFrom(f, s.server.blockNumber);
    hide AtEndAfter, Transfer.Total, BlockOf;
  }

  lemma AckVars(s: Hand, a: Address, h: nat, s': Hand, f: File)
    requires Small(f) && VarsInv(s, f) && Step(s, AckFrom(a, h), s', f)
    ensures VarsInv(s', f)
  {
    hide Transfer.Total;
    LeadBounded(s.Held(a), h, f.Blocks());
    assert h == f.Blocks() && h > 0 ==> f.Blocks() in s.Held(a);
    BlocksPositive(f);
  }

  lemma BlocksPositive(f: File)
    requires f.Ok()
    ensures f.Blocks() >= 1
  {
  }

  /** What the server is sending, or waiting to send again. */
  predicate Sending(v: Server) {
    v.state == SEND_DATA || (v.state == WAIT_PACKET && v.timeoutState == SEND_DATA)
  }

  predicate WaitsForSome(v: Server) {
    v.state == WAIT_PACKET ==> v.timeoutState == SEND_OACK || v.timeoutState == SEND_DATA
  }

  /** The steps that neither send DATA nor take an acknowledgement leave block numbers and holdings alone. */
  lemma OtherStep(s: Hand, act: Action, s': Hand, f: File)
    requires Step(s, act, s', f) && !act.Send? && !act.AckFrom?
    ensures s'.has == s.has && s.who <= s'.who && (!act.Finish? ==> s'.why == s.why)
    ensures s'.server.blockNumber == s.server.blockNumber && s'.server.lastBlock == s.server.lastBlock
    ensures s'.server.wraparoundOffset == s.server.wraparoundOffset
    ensures WaitsForSome(s.server) ==> WaitsForSome(s'.server) && (Sending(s'.server) ==> Sending(s.server))
    ensures s'.server.state == SEND_DATA ==> Sending(s.server)
    ensures (s.server.state == SEND_DATA || s.server.state == ABORT) && !s.phase.Marked? ==> s'.server == s.server
    ensures s'.phase.Marked? ==> act.Finish? || (s'.phase == s.phase && s'.server == s.server)
    ensures act.Finish? ==> In(s, END) && s'.server == s.server && s'.phase == Marked(s.phase.k)
    ensures act.Finish? ==> s'.why == s.why[s.phase.k := s.cause] && s'.who == s.who
    ensures s'.phase.Serving? && s'.server.state == END && s'.cause == AckedToEnd ==>
              s'.phase == s.phase && s.server.state == END && s.cause == AckedToEnd
  {
    hide AtEndAfter, BlockOf, NextIs, Waiting, LeadIs;
  }

  lemma OtherVars(s: Hand, act: Action, s': Hand, f: File)
    requires Small(f) && VarsInv(s, f) && Step(s, act, s', f) && !act.Send? && !act.AckFrom?
    ensures VarsInv(s', f)
  {
    OtherStep(s, act, s', f);
    hide Transfer.Total, HoldingsOk, Step;
    BlocksPositive(f);
    HoldingsKept(s, s', f.Blocks());
  }

  /** Holdings change only when DATA is sent. */
  lemma HoldingsKept(s: Hand, s': Hand, total: nat)
    requires HoldingsOk(s, total) && s'.server.lastBlock == s.server.lastBlock
    requires s'.has == s.has
    ensures HoldingsOk(s', total)
  {
  }

  lemma VarsStep(s: Hand, act: Action, s': Hand, f: File)
    requires Small(f) && VarsInv(s, f) && Step(s, act, s', f)
    ensures VarsInv(s', f)
  {
    hide Step, VarsInv;
    match act
    case Send(heard) => SendVars(s, heard, s', f);
    case AckFrom(a, h) => AckVars(s, a, h, s', f);
    case _ => OtherVars(s, act, s', f);
  }

  lemma {:induction false} CourseVars(c: Course, f: File, i: nat)
    requires Small(f) && IsCourse(c, f) && i < |c.states|
    ensures VarsInv(c.states[i], f)
    decreases i
  {
    hide Step;
    if i == 0 {
      hide VarsInv, Transfer.Total;
      InitVars(c.states[0], f);
    } else {
      CourseVars(c, f, i - 1);
      VarsStep(c.states[i - 1], c.acts[i - 1], c.states[i - 1 + 1], f);
    }
  }

  lemma InitVars(s: Hand, f: File)
    requires f.Ok() && Init(s)
    ensures VarsInv(s, f)
  {
    BlocksPositive(f);
    hide Transfer.Total;
  }

  // ---------- delivery ----------

  /** Whoever was marked done, or is about to be, because a transfer was acknowledged to the end holds the
      file. */
  ghost predicate Delivered(s: Hand, total: nat) {
    && (forall i :: i in s.why && i < |s.who| && s.why[i] == AckedToEnd ==> Whole(s.Held(s.who[i]), total))
    && (In(s, END) && s.phase.k < |s.who| && s.cause == AckedToEnd ==> Whole(s.Held(s.who[s.phase.k]), total))
  }

  /** The acknowledgement ends the transfer: the last block is known, and the number is that of the last
      block, or an offset is left from an earlier client, or a number 0 is about to leave one. */
  predicate EndsBy(v: Server, num: nat, total: nat) {
    v.lastBlock != -1 && (num == total || v.wraparoundOffset != 0 || (num == 0 && v.blockNumber != 0))
  }

  lemma AckEndsIff(s: Hand, a: Address, h: nat, s': Hand, f: File)
    requires Small(f) && VarsInv(s, f) && Step(s, AckFrom(a, h), s', f)
    ensures s'.server.state == END <==> EndsBy(s.server, h, f.Blocks())
    ensures h <= f.Blocks() && (h == f.Blocks() <==> Whole(s.Held(a), f.Blocks()))
  {
    hide Transfer.Total;
    BlocksPositive(f);
    LeadBounded(s.Held(a), h, f.Blocks());
    assert h == f.Blocks() ==> f.Blocks() in s.Held(a);
    hide LeadIs, Whole, HoldingsOk;
  }

  /** The server mistakes an acknowledgement for that of the last block from the client being served: the
      number means something else to the client that sent it, or another one sent it and the client being
      served lacks a block. */
  ghost predicate Mistaken(s: Hand, a: Address, num: nat, total: nat) {
    && s.phase.Serving? && s.phase.k < |s.who| && EndsBy(s.server, num, total)
    && if a == s.who[s.phase.k] then num < total else !Whole(s.Held(s.who[s.phase.k]), total)
  }

  ghost predicate ReadsRight(s: Hand, act: Action, total: nat) {
    act.AckFrom? ==> !Mistaken(s, act.from, act.lead, total)
  }

  lemma SendDelivers(s: Hand, heard: set<Address>, s': Hand, f: File)
    requires f.Ok() && Delivered(s, f.Blocks()) && Step(s, Send(heard), s', f)
    ensures Delivered(s', f.Blocks())
  {
    hide Transfer.Total, AtEndAfter, BlockOf;
  }

  lemma AckDelivers(s: Hand, a: Address, h: nat, s': Hand, f: File)
    requires Small(f) && Inv(s) && VarsInv(s, f) && Delivered(s, f.Blocks()) && Step(s, AckFrom(a, h), s', f)
    ensures Delivered(s', f.Blocks()) <==> !Mistaken(s, a, h, f.Blocks())
  {
    hide VarsInv, EndsBy, Whole, LeadIs, AfterAck;
    AckEndsIff(s, a, h, s', f);
    AckKeeps(s, a, h, s', f);
  }

  lemma AckKeeps(s: Hand, a: Address, h: nat, s': Hand, f: File)
    requires Inv(s) && Step(s, AckFrom(a, h), s', f)
    ensures s.phase.Serving? && s.phase.k < |s.who| && s.phase.k < |s'.l|
    ensures s'.has == s.has && s'.who == s.who && s'.why == s.why && s'.phase == s.phase
    ensures s.server.state == WAIT_PACKET && (s'.server.state == END ==> s'.cause == AckedToEnd)
  {
  }

  lemma OtherDelivers(s: Hand, act: Action, s': Hand, f: File)
    requires f.Ok() && Inv(s) && Delivered(s, f.Blocks()) && Step(s, act, s', f) && !act.Send? && !act.AckFrom?
    ensures Delivered(s', f.Blocks())
  {
    OtherStep(s, act, s', f);
    hide Transfer.Total, Whole, Step;
    if act.Finish? {
      DoneDelivers(s, s', f.Blocks());
    }
  }

  lemma DoneDelivers(s: Hand, s': Hand, total: nat)
    requires Inv(s) && Delivered(s, total) && In(s, END) && s'.has == s.has && s'.who == s.who
    requires s'.phase == Marked(s.phase.k) && s'.why == s.why[s.phase.k := s.cause]
    ensures Delivered(s', total)
  {
    hide Whole;
  }

  /** A step keeps delivery exactly when it is no mistaken acknowledgement. */
  lemma DeliveredStep(s: Hand, act: Action, s': Hand, f: File)
    requires Small(f) && Inv(s) && VarsInv(s, f) && Step(s, act, s', f) && Delivered(s, f.Blocks())
    ensures Delivered(s', f.Blocks()) <==> ReadsRight(s, act, f.Blocks())
  {
    hide Step, Inv, VarsInv, Delivered, Mistaken;
    match act
    case Send(heard) => SendDelivers(s, heard, s', f);
    case AckFrom(a, h) => AckDelivers(s, a, h, s', f);
    case _ => OtherDelivers(s, act, s', f);
  }

  lemma InitDelivered(s: Hand, f: File)
    requires f.Ok() && Init(s)
    ensures Delivered(s, f.Blocks())
  {
    hide Transfer.Total;
  }

  /** Files of fewer than 65536 blocks: up to any state of a run, delivery has held throughout exactly when
      the server has mistaken no acknowledgement. */
  lemma {:induction false} CourseDeliversIff(c: Course, f: File, n: nat)
    requires Small(f) && IsCourse(c, f) && n < |c.states|
    ensures (forall i | 0 <= i <= n :: Delivered(c.states[i], f.Blocks()))
       <==> forall i | 0 <= i < n :: ReadsRight(c.states[i], c.acts[i], f.Blocks())
    decreases n
  {
    hide Step, Inv, VarsInv, Delivered, ReadsRight, Transfer.Total;
    if n == 0 {
      InitDelivered(c.states[0], f);
    } else {
      CourseDeliversIff(c, f, n - 1);
      if Delivered(c.states[n - 1], f.Blocks()) {
        CourseInv(c, f, n - 1);
        CourseVars(c, f, n - 1);
        DeliveredStep(c.states[n - 1], c.acts[n - 1], c.states[n - 1 + 1], f);
      }
    }
  }

  // ---------- one client ----------

  /** The packet, if it is one, comes from a client that has been listed. */
  ghost predicate FromListed(s: Hand, act: Action) {
    act.AckFrom? || act.ErrorFrom? || act.OtherFrom? ==> act.from in s.who
  }

  ghost predicate FromClients(c: Course)
    requires |c.states| == |c.acts| + 1
  {
    forall i | 0 <= i < |c.acts| :: FromListed(c.states[i], c.acts[i])
  }

  /** With a single client there is no offset, and it holds every block it has acknowledged. */
  ghost predicate Alone(s: Hand) {
    && |s.who| == 1 && s.server.wraparoundOffset == 0
    && forall i :: 1 <= i <= s.server.blockNumber ==> i in s.Held(s.who[0])
  }

  lemma AloneStep(s: Hand, act: Action, s': Hand, f: File)
    requires Small(f) && Inv(s) && VarsInv(s, f) && Step(s, act, s', f) && Alone(s) && |s'.who| <= 1
    requires FromListed(s, act)
    ensures Alone(s') && ReadsRight(s, act, f.Blocks())
  {
    hide Transfer.Total, AtEndAfter, BlockOf, NextIs, Waiting, Inv, VarsInv, Alone, Mistaken;
    match act
    case AckFrom(a, h) => AloneAck(s, a, h, s', f);
    case Send(heard) => AloneSend(s, heard, s', f);
    case _ => AloneOther(s, act, s', f);
  }

  lemma AloneAck(s: Hand, a: Address, h: nat, s': Hand, f: File)
    requires Small(f) && Inv(s) && VarsInv(s, f) && Step(s, AckFrom(a, h), s', f) && Alone(s) && a in s.who
    ensures Alone(s') && !Mistaken(s, a, h, f.Blocks())
  {
    hide Transfer.Total, Whole, HoldingsOk;
    AckEndsIff(s, a, h, s', f);
    assert s.server.blockNumber != 0 ==> 1 in s.Held(s.who[0]);
  }

  lemma AloneSend(s: Hand, heard: set<Address>, s': Hand, f: File)
    requires Small(f) && Step(s, Send(heard), s', f) && Alone(s)
    ensures Alone(s')
  {
    hide Transfer.Total, AtEndAfter, BlockOf;
    var w := s.who[0];
    var held, held' := s.Held(w), s'.Held(w);
    assert held <= held';
    forall i | 1 <= i <= s'.server.blockNumber ensures i in held' {
      assert i in held;
    }
  }

  lemma AloneOther(s: Hand, act: Action, s': Hand, f: File)
    requires Step(s, act, s', f) && Alone(s) && |s'.who| <= 1 && !act.Send? && !act.AckFrom?
    ensures Alone(s')
  {
    OtherStep(s, act, s', f);
    hide Step;
    assert |s'.who| == 1 && s'.who[0] == s.who[0];
    var held := s.Held(s.who[0]);
    assert s'.Held(s'.who[0]) == held;
    assert forall i :: 1 <= i <= s'.server.blockNumber ==> i in held;
  }

  lemma {:induction false} CourseAlone(c: Course, f: File, n: nat)
    requires Small(f) && IsCourse(c, f) && n < |c.states| && FromClients(c)
    requires forall i | 0 <= i < |c.states| :: |c.states[i].who| <= 1
    ensures Alone(c.states[n]) && forall i | 0 <= i < n :: ReadsRight(c.states[i], c.acts[i], f.Blocks())
    decreases n
  {
    hide Step, VarsInv, ReadsRight, Transfer.Total, FromListed;
    if n > 0 {
      CourseAlone(c, f, n - 1);
      CourseInv(c, f, n - 1);
      CourseVars(c, f, n - 1);
      AloneStep(c.states[n - 1], c.acts[n - 1], c.states[n - 1 + 1], f);
    }
  }
}
