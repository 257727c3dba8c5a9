/** How a multicast server thread works through its clients while others may join: the loop variables
    carried from client to client, the client list, and what each client holds of the file. */
module Handover {
  import opened Netascii
  import opened RFile
  import opened Sender
  import opened Transfer
  import opened Clients

  /** Serving client k; k marked done and the next one not yet looked for; returned OK; gave up. */
  datatype Phase = Serving(k: nat) | Marked(k: nat) | Ended | Aborted

  /** Why a client was marked done: a transfer was acknowledged to the end, was given up after too many
      timeouts, or ended with an ERROR, while that client was being served. */
  datatype Cause = AckedToEnd | GaveUp | ClientError

  /** The client list, whether it is open, and the variables of the send loop; for the record, why S_END
      was last entered, why each client was marked done, who each entry was made for, and which blocks of
      the file each address has received. An address stands for one transfer: a client that starts over
      takes another port. */
  datatype Hand = Hand(l: seq<Entry>, ready: bool, phase: Phase, server: Server, cause: Cause,
                       why: map<nat, Cause>, who: seq<Address>, has: map<Address, set<nat>>) {
    function Held(a: Address): set<nat> {
      if a in has then has[a] else {}
    }
  }

  datatype Action =
    | Join(address: Address)              // another thread finds this one and hands over its client
    | Prepare                             // S_BEGIN, or sending the option acknowledgement
    | Send(heard: set<Address>)           // sending DATA to the group, heard by some
    | Timer                               // a timeout that gives up or repeats
    | Switch(found: Found)                // a timeout with client switching enabled: look for another client
    | AckFrom(from: Address, lead: nat)   // somebody acknowledges the leading blocks it holds
    | ErrorFrom(from: Address)            // an ERROR from somebody
    | OtherFrom(from: Address)            // any other packet from somebody
    | Failure                             // the socket fails
    | Finish                              // S_END: mark the current client done
    | Advance(found: Found)               // S_END: look for the next client

  /** The file, the block size, and whether client switching is enabled. */
  datatype File = File(data: seq<byte>, size: nat, switching: bool) {
    predicate Ok() {
      size >= 1
    }

    function Blocks(): nat
      requires Ok()
    {
      Total(data, size)
    }
  }

  /** One client, whose address has just been made unspecified to unconnect the socket; the list is open. */
  ghost predicate Init(s: Hand) {
    exists a: Address ::
      a.Address? && s == Hand([Entry(Unspecified, false)], true, Serving(0), INITIAL, AckedToEnd, map[], [a], map[])
  }

  /** The blocks a client holds, counted from 1, lead with exactly h. */
  predicate LeadIs(held: set<nat>, h: nat) {
    (forall i :: 1 <= i <= h ==> i in held) && h + 1 !in held
  }

  predicate Whole(held: set<nat>, total: nat) {
    forall i :: 1 <= i <= total ==> i in held
  }

  /** A DATA packet with block n of the file, heard by some. */
  function Heard(s: Hand, heard: set<Address>, n: nat): (has: map<Address, set<nat>>)
    ensures has.Keys == s.has.Keys + heard
    ensures forall a :: a in has ==> has[a] == s.Held(a) + if a in heard then {n} else {}
  {
    map a | a in s.has.Keys + heard :: s.Held(a) + if a in heard then {n} else {}
  }

  /** A client is being served, and the loop is in the given state. */
  predicate In(s: Hand, state: Mode) {
    s.phase.Serving? && s.phase.k < |s.l| && s.server.state == state
  }

  /** A packet has been received: its sender's address now stands in the entry of the current client. */
  function Received(s: Hand, from: Address): Hand
    requires In(s, WAIT_PACKET)
  {
    s.(l := s.l[s.phase.k := s.l[s.phase.k].(address := from)])
  }

  ghost predicate Step(s: Hand, act: Action, s': Hand, f: File) {
    match act
    case Join(a) =>
      && a.Address?
      && s' == if s.ready && !Waiting(s.l, a) then s.(l := s.l + [Entry(a, false)], who := s.who + [a]) else s
    case Prepare =>
      (In(s, BEGIN) || In(s, SEND_OACK)) && s' == s.(server := Pass(s.server, Discarded, f.data, f.size, true).0)
    case Send(heard) =>
      && In(s, SEND_DATA)
      && s' == s.(server := Pass(s.server, Discarded, f.data, f.size, true).0,
                  has := if f.Ok() && s.server.blockNumber < f.Blocks()
                         then Heard(s, heard, s.server.blockNumber + 1) else s.has)
    case Timer =>
      && In(s, WAIT_PACKET)
      && var v := Pass(s.server, Timeout, f.data, f.size, true).0;
         (v.state == END || !f.switching) && s' == s.(server := v, cause := if v.state == END then GaveUp else s.cause)
    case Switch(found) =>
      && In(s, WAIT_PACKET) && NextIs(s.l, s.phase.k, found)
      && var v := Pass(s.server, Timeout, f.data, f.size, true).0;
         v.state != END && f.switching &&
         s' == (match found
                case Other(j) => s.(phase := Serving(j), server := v.(state := SEND_OACK))
                case Same => s.(server := v)
                case Nobody => s.(phase := Aborted, ready := false, server := v.(state := ABORT)))
    case AckFrom(a, h) =>
      && In(s, WAIT_PACKET) && a.Address? && LeadIs(s.Held(a), h)
      && var v := AfterAck(s.server, h % WRAP);
         s' == Received(s, a).(server := v, cause := if v.state == END then AckedToEnd else s.cause)
    case ErrorFrom(a) =>
      && In(s, WAIT_PACKET) && a.Address?
      && s' == Received(s, a).(server := s.server.(state := END), cause := ClientError)
    case OtherFrom(a) => In(s, WAIT_PACKET) && a.Address? && s' == Received(s, a)
    case Failure => In(s, WAIT_PACKET) && s' == s.(phase := Aborted, server := s.server.(state := ABORT))
    case Finish =>
      && In(s, END)
      && s' == s.(l := s.l[s.phase.k := s.l[s.phase.k].(done := true)],
                  phase := Marked(s.phase.k), why := s.why[s.phase.k := s.cause])
    case Advance(found) =>
      s.phase.Marked? && s.phase.k < |s.l| && NextIs(s.l, s.phase.k, found) &&
      s' == (match found
             case Other(j) => s.(phase := Serving(j), server := s.server.(state := SEND_OACK))
             case Same => s.(phase := Ended)
             case Nobody => s.(phase := Ended, ready := false))
  }

  // ---------- the list ----------

  ghost predicate AllDone(l: seq<Entry>) {
    forall i :: 0 <= i < |l| ==> l[i].done
  }

  /** Every client is done for one recorded cause, or waiting. */
  ghost predicate Accounted(s: Hand) {
    && |s.who| == |s.l|
    && (forall i :: i in s.why ==> i < |s.l|)
    && (forall i: nat :: i < |s.l| ==> (s.l[i].done <==> i in s.why))
  }

  ghost predicate PhaseOk(s: Hand) {
    match s.phase
    case Serving(k) => s.ready && k < |s.l| && !s.l[k].done
    case Marked(k) => s.ready && k < |s.l| && s.l[k].done
    case Ended => !s.ready && AllDone(s.l)
    case Aborted => true
  }

  ghost predicate Inv(s: Hand) {
    Accounted(s) && PhaseOk(s)
  }

  lemma InitInv(s: Hand)
    requires Init(s)
    ensures Inv(s)
  {
  }

  lemma StepInv(s: Hand, act: Action, s': Hand, f: File)
    requires Inv(s) && Step(s, act, s', f)
    ensures Inv(s')
  {
    hide AfterAck, Pass, LeadIs, Waiting;
  }

  // ---------- runs ----------

  datatype Course = Course(states: seq<Hand>, acts: seq<Action>)

  ghost predicate IsCourse(c: Course, f: File) {
    && |c.states| == |c.acts| + 1
    && Init(c.states[0])
    && forall i :: 0 <= i < |c.acts| ==> Step(c.states[i], c.acts[i], c.states[i + 1], f)
  }

  lemma {:induction false} CourseInv(c: Course, f: File, i: nat)
    requires IsCourse(c, f) && i < |c.states|
    ensures Inv(c.states[i])
    decreases i
  {
    hide Inv, Step;
    if i == 0 {
      InitInv(c.states[0]);
    } else {
      CourseInv(c, f, i - 1);
      StepInv(c.states[i - 1], c.acts[i - 1], c.states[i - 1 + 1], f);
    }
  }

  /** Clients are only added, keep their places, and stay done for the cause recorded. */
  ghost predicate Grown(s: Hand, s': Hand) {
    && |s.l| <= |s'.l|
    && s.who <= s'.who
    && (forall i :: 0 <= i < |s.l| ==> (s.l[i].done ==> s'.l[i].done))
    && (forall i :: i in s.why ==> i in s'.why && s'.why[i] == s.why[i])
  }

  lemma StepGrows(s: Hand, act: Action, s': Hand, f: File)
    requires Inv(s) && Step(s, act, s', f)
    ensures Grown(s, s')
  {
    hide AfterAck, Pass, LeadIs, Waiting;
  }

  lemma {:induction false} CourseGrows(c: Course, f: File, i: nat, j: nat)
    requires IsCourse(c, f) && i <= j < |c.states|
    ensures Grown(c.states[i], c.states[j])
    decreases j
  {
    hide Step, Inv;
    if i < j {
      CourseGrows(c, f, i, j - 1);
      CourseInv(c, f, j - 1);
      StepGrows(c.states[j - 1], c.acts[j - 1], c.states[j - 1 + 1], f);
    }
  }

  /** Nobody is forgotten: whoever was listed at any point of a run that ended normally has been marked
      done, for one cause, which is the one recorded when it was marked. */
  lemma EverybodyMarked(c: Course, f: File, i: nat, client: nat)
    requires IsCourse(c, f) && i < |c.states| && client < |c.states[i].who|
    requires c.states[|c.acts|].phase == Ended
    ensures var end := c.states[|c.acts|];
            && client < |end.l| == |end.who| && end.who[client] == c.states[i].who[client]
            && end.l[client].done && client in end.why
            && (client in c.states[i].why ==> end.why[client] == c.states[i].why[client])
  {
    hide Step;
    CourseInv(c, f, i);
    CourseInv(c, f, |c.acts|);
    CourseGrows(c, f, i, |c.acts|);
  }

  /** Looking for the next client after marking one done never finds that same client, and ends the
      thread exactly when everybody is done. */
  lemma AdvanceEndsIff(s: Hand, found: Found, s': Hand, f: File)
    requires Inv(s) && Step(s, Advance(found), s', f)
    ensures found != Same
    ensures s'.phase == Ended <==> AllDone(s.l)
    ensures s'.phase != Ended ==> s'.phase.Serving? && s'.phase.k < |s.l| && !s.l[s'.phase.k].done
  {
  }

  /** Nobody can join a thread that has ended. */
  lemma ClosedForGood(s: Hand, act: Action, s': Hand, f: File)
    requires Inv(s) && s.phase == Ended && Step(s, act, s', f)
    ensures s' == s
  {
  }

  /** All but one client, not the only one, are done. */
  ghost predicate OneLeft(l: seq<Entry>, k: nat) {
    1 < |l| && k < |l| && !l[k].done && forall i :: 0 <= i < |l| && i != k ==> l[i].done
  }

  /** A switch gives up exactly when its client is the last one waiting in a list of several. */
  lemma SwitchAbortsIff(s: Hand, found: Found, s': Hand, f: File)
    requires Inv(s) && Step(s, Switch(found), s', f)
    ensures s'.phase == Aborted <==> OneLeft(s.l, s.phase.k)
  {
  }

  // ---------- addresses ----------

  /** No address waits twice. */
  ghost predicate WaitsOnce(l: seq<Entry>) {
    forall i, j :: 0 <= i < j < |l| && !l[i].done && !l[j].done ==> !SockaddrEqual(l[i].address, l[j].address)
  }

  /** The packet's sender waits in the list behind another entry than the current client's. */
  ghost predicate Clashes(s: Hand, act: Action) {
    && (act.AckFrom? || act.ErrorFrom? || act.OtherFrom?) && s.phase.Serving?
    && exists i :: 0 <= i < |s.l| && i != s.phase.k && !s.l[i].done && SockaddrEqual(s.l[i].address, act.from)
  }

  lemma JoinWaitsOnce(l: seq<Entry>, a: Address)
    requires WaitsOnce(l) && !Waiting(l, a)
    ensures WaitsOnce(l + [Entry(a, false)])
  {
  }

  lemma DoneWaitsOnce(l: seq<Entry>, k: nat)
    requires WaitsOnce(l) && k < |l|
    ensures WaitsOnce(l[k := l[k].(done := true)])
  {
  }

  lemma ReceivedWaitsOnce(l: seq<Entry>, k: nat, a: Address)
    requires WaitsOnce(l) && k < |l| && !l[k].done && a.Address?
    ensures WaitsOnce(l[k := Entry(a, false)])
       <==> !(exists i :: 0 <= i < |l| && i != k && !l[i].done && SockaddrEqual(l[i].address, a))
  {
    var l' := l[k := Entry(a, false)];
    forall i | 0 <= i < |l| && i != k && !l[i].done && SockaddrEqual(l[i].address, a) ensures !WaitsOnce(l') {
      assert l'[i] == l[i] && l'[k] == Entry(a, false);
    }
  }

  /** A step makes an address wait twice exactly when it is a packet from a client waiting elsewhere in the
      list. */
  lemma StepWaitsOnceIff(s: Hand, act: Action, s': Hand, f: File)
    requires Inv(s) && WaitsOnce(s.l) && Step(s, act, s', f)
    ensures WaitsOnce(s'.l) <==> !Clashes(s, act)
  {
    hide AfterAck, Pass, LeadIs, NextIs, WaitsOnce, Waiting;
    match act
    case Join(a) =>
      if s' != s {
        JoinWaitsOnce(s.l, a);
      }
    case AckFrom(a, h) => ReceivedWaitsOnce(s.l, s.phase.k, a);
    case ErrorFrom(a) => ReceivedWaitsOnce(s.l, s.phase.k, a);
    case OtherFrom(a) => ReceivedWaitsOnce(s.l, s.phase.k, a);
    case Finish => DoneWaitsOnce(s.l, s.phase.k);
    case _ =>
  }

  /** Over a run, no address has ever waited twice exactly when no packet came from a client waiting
      elsewhere in the list. */
  lemma {:induction false} CourseWaitsOnceIff(c: Course, f: File, n: nat)
    requires IsCourse(c, f) && n < |c.states|
    ensures (forall i | 0 <= i <= n :: WaitsOnce(c.states[i].l))
       <==> forall i | 0 <= i < n :: !Clashes(c.states[i], c.acts[i])
    decreases n
  {
    hide Step, Inv, Clashes;
    if n > 0 {
      CourseWaitsOnceIff(c, f, n - 1);
      if WaitsOnce(c.states[n - 1].l) {
        CourseInv(c, f, n - 1);
        StepWaitsOnceIff(c.states[n - 1], c.acts[n - 1], c.states[n - 1 + 1], f);
      }
    }
  }
}
