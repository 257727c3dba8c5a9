/** Particular runs of a multicast server thread: how clients come to be listed twice, marked done with
    nothing, or given up. */
module MulticastRuns {
  import opened RFile
  import opened Sender
  import Transfer
  import opened Clients
  import opened Handover
  import opened Multicast

  function Last(c: Course): Hand
    requires c.states != []
  {
    c.states[|c.states| - 1]
  }

  /** At most n clients have been listed. */
  ghost predicate AtMost(c: Course, n: int) {
    forall i | 0 <= i < |c.states| :: |c.states[i].who| <= n
  }

  /** At most two clients have been listed, and no packet came from anybody else. */
  ghost predicate Few(c: Course) {
    |c.states| == |c.acts| + 1 && AtMost(c, 2) && FromClients(c)
  }

  /** The run with one more step. */
  lemma Extend(c: Course, f: File, act: Action, s: Hand) returns (c': Course)
    requires IsCourse(c, f) && Step(Last(c), act, s, f)
    ensures IsCourse(c', f) && Last(c') == s && c'.acts == c.acts + [act]
    ensures Few(c) && |s.who| <= 2 && FromListed(Last(c), act) ==> Few(c')
  {
    hide Step, FromListed;
    c' := Course(c.states + [s], c.acts + [act]);
    forall i | 0 <= i < |c'.acts|
      ensures Step(c'.states[i], c'.acts[i], c'.states[i + 1], f)
      ensures Few(c) && FromListed(Last(c), act) ==> FromListed(c'.states[i], c'.acts[i])
    {
      if i == |c.acts| {
        assert c'.states[i] == Last(c);
      }
    }
  }

  // ---------- steps, one kind at a time ----------

  lemma DoPrepare(c: Course, f: File) returns (c': Course)
    requires IsCourse(c, f) && (In(Last(c), BEGIN) || In(Last(c), SEND_OACK))
    ensures IsCourse(c', f) && (Few(c) && |Last(c).who| <= 2 ==> Few(c'))
    ensures c'.acts == c.acts + [Prepare]
    ensures Last(c') == var s := Last(c);
              if s.server.state == BEGIN then s.(server := s.server.(state := SEND_OACK))
              else s.(server := s.server.(timeoutState := SEND_OACK, state := WAIT_PACKET))
  {
    var s := Last(c);
    c' := Extend(c, f, Prepare, s.(server := Pass(s.server, Discarded, f.data, f.size, true).0));
  }

  lemma DoJoin(c: Course, f: File, a: Address) returns (c': Course)
    requires IsCourse(c, f) && Last(c).ready && a.Address? && !Waiting(Last(c).l, a)
    ensures IsCourse(c', f) && (Few(c) && |Last(c).who| <= 1 ==> Few(c'))
    ensures Last(c') == Last(c).(l := Last(c).l + [Entry(a, false)], who := Last(c).who + [a])
  {
    c' := Extend(c, f, Join(a), Last(c).(l := Last(c).l + [Entry(a, false)], who := Last(c).who + [a]));
  }

  lemma DoSend(c: Course, f: File, heard: set<Address>) returns (c': Course)
    requires f.Ok() && IsCourse(c, f) && In(Last(c), SEND_DATA)
    ensures IsCourse(c', f) && (Few(c) && |Last(c).who| <= 2 ==> Few(c'))
    ensures var s, s' := Last(c), Last(c'); var b := s.server.blockNumber;
            && s' == s.(server := s'.server, has := s'.has)
            && s'.server == s.server.(timeoutState := SEND_DATA, state := WAIT_PACKET, lastBlock := s'.server.lastBlock)
            && s'.server.lastBlock == (if b >= f.Blocks() - 1 then b else s.server.lastBlock)
            && forall a :: s'.Held(a) == s.Held(a) + if a in heard && b < f.Blocks() then {b + 1} else {}
  {
    var s := Last(c);
    EndFrom(f, s.server.blockNumber);
    hide Transfer.Total, AtEndAfter, BlockOf, IsCourse, Few;
    c' := Extend(c, f, Send(heard), s.(server := Pass(s.server, Discarded, f.data, f.size, true).0,
                                       has := if s.server.blockNumber < f.Blocks()
                                              then Heard(s, heard, s.server.blockNumber + 1) else s.has));
  }

  lemma DoAck(c: Course, f: File, a: Address, h: nat) returns (c': Course)
    requires IsCourse(c, f) && In(Last(c), WAIT_PACKET) && a.Address? && LeadIs(Last(c).Held(a), h)
    ensures IsCourse(c', f) && (Few(c) && |Last(c).who| <= 2 && a in Last(c).who ==> Few(c'))
    ensures var v := AfterAck(Last(c).server, h % WRAP);
            Last(c') == Received(Last(c), a).(server := v,
                                              cause := if v.state == END then AckedToEnd else Last(c).cause)
  {
    var v := AfterAck(Last(c).server, h % WRAP);
    c' := Extend(c, f, AckFrom(a, h),
                 Received(Last(c), a).(server := v, cause := if v.state == END then AckedToEnd else Last(c).cause));
  }

  lemma DoError(c: Course, f: File, a: Address) returns (c': Course)
    requires IsCourse(c, f) && In(Last(c), WAIT_PACKET) && a.Address?
    ensures IsCourse(c', f) && (Few(c) && |Last(c).who| <= 2 && a in Last(c).who ==> Few(c'))
    ensures Last(c') == Received(Last(c), a).(server := Last(c).server.(state := END), cause := ClientError)
  {
    c' := Extend(c, f, ErrorFrom(a),
                 Received(Last(c), a).(server := Last(c).server.(state := END), cause := ClientError));
  }

  lemma DoTimer(c: Course, f: File) returns (c': Course)
    requires IsCourse(c, f) && In(Last(c), WAIT_PACKET) && !f.switching && Last(c).server.timeoutState == SEND_OACK
    ensures IsCourse(c', f) && c'.acts == c.acts + [Timer]
    ensures var s := Last(c); var n := s.server.timeouts + 1;
            Last(c') == if n > NB_OF_RETRY
                        then s.(server := s.server.(timeouts := n, state := END), cause := GaveUp)
                        else s.(server := s.server.(timeouts := n, state := SEND_OACK))
  {
    var s := Last(c);
    var v := Pass(s.server, Timeout, f.data, f.size, true).0;
    c' := Extend(c, f, Timer, s.(server := v, cause := if v.state == END then GaveUp else s.cause));
  }

  lemma DoFinish(c: Course, f: File) returns (c': Course)
    requires IsCourse(c, f) && In(Last(c), END)
    ensures IsCourse(c', f) && (Few(c) && |Last(c).who| <= 2 ==> Few(c'))
    ensures c'.acts == c.acts + [Finish]
    ensures Last(c') == var s := Last(c);
              s.(l := s.l[s.phase.k := s.l[s.phase.k].(done := true)],
                 phase := Marked(s.phase.k), why := s.why[s.phase.k := s.cause])
  {
    var s := Last(c);
    c' := Extend(c, f, Finish, s.(l := s.l[s.phase.k := s.l[s.phase.k].(done := true)],
                                  phase := Marked(s.phase.k), why := s.why[s.phase.k := s.cause]));
  }

  lemma DoAdvance(c: Course, f: File, j: nat) returns (c': Course)
    requires IsCourse(c, f) && Last(c).phase.Marked? && Last(c).phase.k < |Last(c).l|
    requires NextIs(Last(c).l, Last(c).phase.k, Other(j))
    ensures IsCourse(c', f) && (Few(c) && |Last(c).who| <= 2 ==> Few(c'))
    ensures c'.acts == c.acts + [Advance(Other(j))]
    ensures Last(c') == Last(c).(phase := Serving(j), server := Last(c).server.(state := SEND_OACK))
  {
    c' := Extend(c, f, Advance(Other(j)),
                 Last(c).(phase := Serving(j), server := Last(c).server.(state := SEND_OACK)));
  }

  // ---------- two clients ----------

  /** The thread waits for its second client, which holds nothing; the first is done. */
  ghost predicate SecondWaits(s: Hand, a: Address, b: Address, cause: Cause) {
    && |s.l| == 2 && s.l[0].done && s.l[1] == Entry(b, false) && s.who == [a, b] && s.Held(b) == {}
    && s.ready && s.phase == Serving(1) && s.why == map[0 := cause]
    && s.server.state == WAIT_PACKET && s.server.timeoutState == SEND_OACK
  }

  /** The thread has just sent the option acknowledgement to its first client. */
  lemma OneClient(f: File, a: Address) returns (c: Course)
    requires a.Address?
    ensures IsCourse(c, f) && Few(c)
    ensures Last(c) == Hand([Entry(Unspecified, false)], true, Serving(0),
                            INITIAL.(state := WAIT_PACKET, timeoutState := SEND_OACK), AckedToEnd, map[], [a], map[])
  {
    c := Course([Hand([Entry(Unspecified, false)], true, Serving(0), INITIAL, AckedToEnd, map[], [a], map[])], []);
    c := DoPrepare(c, f);
    c := DoPrepare(c, f);
  }

  /** And a second one has joined. */
  lemma TwoClients(f: File, a: Address, b: Address) returns (c: Course)
    requires a.Address? && b.Address?
    ensures IsCourse(c, f) && Few(c)
    ensures Last(c) == Hand([Entry(Unspecified, false), Entry(b, false)], true, Serving(0),
                            INITIAL.(state := WAIT_PACKET, timeoutState := SEND_OACK), AckedToEnd, map[], [a, b], map[])
  {
    c := OneClient(f, a);
    c := DoJoin(c, f, b);
  }

  /** From the first client's end to the wait for the second. */
  lemma ToSecond(c: Course, f: File, a: Address, b: Address) returns (c': Course)
    requires IsCourse(c, f) && |Last(c).l| == 2 && !Last(c).l[0].done && Last(c).l[1] == Entry(b, false)
    requires Last(c).phase == Serving(0) && Last(c).server.state == END && Last(c).why == map[] && Last(c).ready
    requires Last(c).who == [a, b] && Last(c).Held(b) == {}
    ensures IsCourse(c', f) && (Few(c) ==> Few(c')) && SecondWaits(Last(c'), a, b, Last(c).cause)
    ensures Last(c').server == Last(c).server.(state := WAIT_PACKET, timeoutState := SEND_OACK)
  {
    hide IsCourse, Few, Step;
    c' := DoFinish(c, f);
    assert NextIs(Last(c').l, 0, Other(1));
    c' := DoAdvance(c', f, 1);
    c' := DoPrepare(c', f);
  }

  // ---------- an address that waits twice ----------

  /** A first client that repeats its request before its first packet arrives is listed twice, because its
      address is unspecified until then; with that packet both entries have its address. */
  lemma FirstClientTwice(f: File, a: Address) returns (c: Course)
    requires a.Address?
    ensures IsCourse(c, f) && Few(c)
    ensures Last(c).l == [Entry(a, false), Entry(a, false)] && !WaitsOnce(Last(c).l)
  {
    c := TwoClients(f, a, a);
    assert Last(c).Held(a) == {} && LeadIs({}, 0);
    c := DoAck(c, f, a, 0);
    assert SockaddrEqual(Last(c).l[0].address, Last(c).l[1].address);
  }

  // ---------- a client marked done with nothing ----------

  /** The first client has acknowledged one block. */
  lemma FirstAcknowledges(f: File, a: Address, b: Address) returns (c: Course)
    requires Small(f) && a.Address? && b.Address? && a != b
    ensures IsCourse(c, f) && Few(c)
    ensures var s := Last(c);
            && s.l == [Entry(a, false), Entry(b, false)] && s.who == [a, b] && s.Held(b) == {}
            && s.ready && s.phase == Serving(0) && s.why == map[]
            && s.server.blockNumber == 1 && s.server.wraparoundOffset == 0
            && s.server.lastBlock == (if f.Blocks() == 1 then 0 else -1)
            && s.server.state == (if f.Blocks() == 1 then END else SEND_DATA)
            && (f.Blocks() == 1 ==> s.cause == AckedToEnd)
  {
    BlocksPositive(f);
    hide Few, Step, Transfer.Total;
    c := TwoClients(f, a, b);
    c := DoAck(c, f, a, 0);
    c := DoSend(c, f, {a});
    assert Last(c).Held(b) == {} && Last(c).Held(a) == {1};
    c := DoAck(c, f, a, 1);
  }

  /** The first client is done, after one block; the second one waits. */
  lemma FirstServed(f: File, a: Address, b: Address) returns (c: Course)
    requires Small(f) && a.Address? && b.Address? && a != b
    ensures IsCourse(c, f) && Few(c)
    ensures SecondWaits(Last(c), a, b, if f.Blocks() == 1 then AckedToEnd else ClientError)
    ensures var v := Last(c).server;
            && v.blockNumber == 1 && v.wraparoundOffset == 0
            && v.lastBlock == if f.Blocks() <= 2 then f.Blocks() - 1 else -1
  {
    BlocksPositive(f);
    hide IsCourse, Few, Step, Transfer.Total;
    c := FirstAcknowledges(f, a, b);
    if f.Blocks() > 1 {
      c := DoSend(c, f, {});
      c := DoError(c, f, a);
    }
    c := ToSecond(c, f, a, b);
  }

  /** For every file of fewer than 65536 blocks a second client, holding nothing, can be marked done as if
      it had acknowledged everything: it answers the option acknowledgement with number 0. */
  lemma SecondClientLost(f: File, a: Address, b: Address) returns (c: Course)
    requires Small(f) && a.Address? && b.Address? && a != b
    ensures IsCourse(c, f) && Few(c)
    ensures var s := Last(c); s.who == [a, b] && 1 in s.why && s.why[1] == AckedToEnd && s.Held(b) == {}
  {
    BlocksPositive(f);
    c := FirstServed(f, a, b);
    hide IsCourse, Few, Step, Transfer.Total;
    c := DoAck(c, f, b, 0);
    if f.Blocks() > 2 {
      c := DoSend(c, f, {});
      c := DoAck(c, f, b, 0);
    }
    c := DoFinish(c, f);
  }

  /** Delivery can be relied on, with packets from listed clients only, exactly when no second client is
      ever listed. */
  lemma OneClientIff(f: File, n: nat)
    requires Small(f)
    ensures (forall c, i | IsCourse(c, f) && AtMost(c, n) && FromClients(c) && 0 <= i < |c.states| ::
               Delivered(c.states[i], f.Blocks()))
       <==> n <= 1
  {
    BlocksPositive(f);
    hide Delivered, Step, Transfer.Total, FromListed;
    if n <= 1 {
      forall c, i | IsCourse(c, f) && AtMost(c, n) && FromClients(c) && 0 <= i < |c.states|
        ensures Delivered(c.states[i], f.Blocks())
      {
        CourseAlone(c, f, i);
        CourseDeliversIff(c, f, i);
      }
    } else {
      var c := SecondClientLost(f, Address(0, 0), Address(1, 0));
      NotWhole(Last(c), 1, f.Blocks());
      assert AtMost(c, n);
    }
  }

  lemma NotWhole(s: Hand, i: nat, total: nat)
    requires total >= 1 && i in s.why && s.why[i] == AckedToEnd && i < |s.who| && s.Held(s.who[i]) == {}
    ensures !Delivered(s, total)
  {
    assert 1 !in s.Held(s.who[i]);
  }

  // ---------- the acknowledgements of another client ----------

  ghost predicate HoldsFirst(held: set<nat>, n: nat) {
    forall i :: i in held <==> 1 <= i <= n
  }

  /** The first client is being served, and the second one has heard and acknowledged n blocks. */
  lemma {:induction false} OtherHears(f: File, a: Address, b: Address, n: nat) returns (c: Course)
    requires Small(f) && a.Address? && b.Address? && a != b && n <= f.Blocks()
    ensures IsCourse(c, f) && Few(c)
    ensures var s := Last(c);
            && s.phase == Serving(0) && s.who == [a, b] && s.why == map[] && |s.l| == 2
            && s.Held(a) == {} && HoldsFirst(s.Held(b), n)
            && s.server.blockNumber == n && s.server.wraparoundOffset == 0
            && s.server.lastBlock == (if n == f.Blocks() then n - 1 else -1)
            && s.server.state == (if n == f.Blocks() then END else SEND_DATA)
            && (n == f.Blocks() ==> s.cause == AckedToEnd)
  {
    hide Few, Step, Transfer.Total;
    BlocksPositive(f);
    if n == 0 {
      c := TwoClients(f, a, b);
      c := DoAck(c, f, b, 0);
    } else {
      c := OtherHears(f, a, b, n - 1);
      c := DoSend(c, f, {b});
      assert HoldsFirst(Last(c).Held(b), n);
      c := DoAck(c, f, b, n);
    }
  }

  /** For every file of fewer than 65536 blocks the first client, holding nothing, can be marked done for the
      acknowledgements of the second, each of which has the number it should have. */
  lemma AnotherAcknowledges(f: File, a: Address, b: Address) returns (c: Course)
    requires Small(f) && a.Address? && b.Address? && a != b
    ensures IsCourse(c, f) && Few(c)
    ensures var s := Last(c);
            && s.who == [a, b] && 0 in s.why && s.why[0] == AckedToEnd
            && s.Held(a) == {} && Whole(s.Held(b), f.Blocks())
  {
    hide IsCourse, Few, Step, Transfer.Total;
    c := OtherHears(f, a, b, f.Blocks());
    c := DoFinish(c, f);
  }

  /** The ERROR of a waiting client ends the transfer of the one being served, which is marked done in its
      place; the entry of the client that failed goes on waiting. */
  lemma AnotherFails(f: File, a: Address, b: Address) returns (c: Course)
    requires a.Address? && b.Address?
    ensures IsCourse(c, f) && Few(c)
    ensures Last(c).who == [a, b] && Last(c).l == [Entry(b, true), Entry(b, false)]
    ensures Last(c).why == map[0 := ClientError]
  {
    hide IsCourse, Few, Step;
    c := TwoClients(f, a, b);
    c := DoError(c, f, b);
    c := DoFinish(c, f);
  }

  // ---------- giving up ----------

  /** With switching enabled, a timeout of the last waiting client aborts the thread: it is never served. */
  lemma LastClientAborted(f: File, a: Address, b: Address) returns (c: Course)
    requires f.switching && a.Address? && b.Address?
    ensures IsCourse(c, f) && Last(c).phase == Aborted && Last(c).l == [Entry(a, true), Entry(b, false)]
  {
    c := TwoClients(f, a, b);
    c := DoError(c, f, a);
    c := DoFinish(c, f);
    assert NextIs(Last(c).l, 0, Other(1));
    c := DoAdvance(c, f, 1);
    c := DoPrepare(c, f);
    var s := Last(c);
    var v := Pass(s.server, Timeout, f.data, f.size, true).0;
    assert NextIs(s.l, 1, Nobody);
    c := Extend(c, f, Switch(Nobody), s.(phase := Aborted, ready := false, server := v.(state := ABORT)));
  }

  /** The count of timeouts is carried over from one client to the next, which is given up at its first
      timeout exactly when NB_OF_RETRY or more had been counted. */
  lemma GivenUpAtOnceIff(s0: Hand, s1: Hand, s2: Hand, s3: Hand, s4: Hand, f: File, j: nat, act: Action)
    requires Step(s0, Finish, s1, f) && Step(s1, Advance(Other(j)), s2, f) && Step(s2, Prepare, s3, f)
    requires (act == Timer || act.Switch?) && Step(s3, act, s4, f)
    ensures s4.server.state == END <==> s0.server.timeouts >= NB_OF_RETRY
  {
  }

  /** The first client has not answered n times. */
  lemma {:induction false} Silent(f: File, a: Address, b: Address, n: nat) returns (c: Course)
    requires !f.switching && a.Address? && b.Address? && n <= NB_OF_RETRY
    ensures IsCourse(c, f)
    ensures Last(c) == Hand([Entry(Unspecified, false), Entry(b, false)], true, Serving(0),
                            INITIAL.(state := WAIT_PACKET, timeoutState := SEND_OACK, timeouts := n),
                            AckedToEnd, map[], [a, b], map[])
  {
    if n == 0 {
      c := TwoClients(f, a, b);
    } else {
      c := Silent(f, a, b, n - 1);
      c := DoTimer(c, f);
      c := DoPrepare(c, f);
    }
  }

  /** After a client that never answered, the next one is given up at its first timeout. */
  lemma GivenUpAtOnce(f: File, a: Address, b: Address) returns (c0: Course, c: Course)
    requires !f.switching && a.Address? && b.Address?
    ensures IsCourse(c0, f) && Last(c0).who == [a, b] && Last(c0).why == map[0 := GaveUp]
    ensures IsCourse(c, f) && c.acts == c0.acts + [Advance(Other(1)), Prepare, Timer, Finish]
    ensures Last(c).who == [a, b] && Last(c).why == map[0 := GaveUp, 1 := GaveUp]
  {
    hide IsCourse, Few, Step;
    c := Silent(f, a, b, NB_OF_RETRY);
    c := DoTimer(c, f);
    c0 := DoFinish(c, f);
    assert NextIs(Last(c0).l, 0, Other(1));
    c := DoAdvance(c0, f, 1);
    c := DoPrepare(c, f);
    c := DoTimer(c, f);
    c := DoFinish(c, f);
  }
}
