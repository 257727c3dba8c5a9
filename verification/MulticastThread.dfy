/** The branches of the send loop that a multicast thread takes, with the list operations they call: each
    is one step of the hand-over. */
module MulticastThread {
  import opened Wrappers
  import opened Netascii
  import opened RFile
  import opened Sender
  import opened Clients
  import opened Handover

  /** The client a phase is about. */
  function Current(p: Phase): Option<nat> {
    match p
    case Serving(k) => Some(k)
    case Marked(k) => Some(k)
    case _ => None
  }

  // ---------- what makes a step ----------

  lemma IsFinish(s: Hand, s': Hand, f: File)
    requires In(s, END)
    requires s' == s.(l := s.l[s.phase.k := s.l[s.phase.k].(done := true)],
                      phase := Marked(s.phase.k), why := s.why[s.phase.k := s.cause])
    ensures Step(s, Finish, s', f)
  {
  }

  lemma IsAdvance(s: Hand, found: Found, s': Hand, f: File)
    requires s.phase.Marked? && s.phase.k < |s.l| && NextIs(s.l, s.phase.k, found)
    requires s' == match found
                   case Other(j) => s.(phase := Serving(j), server := s.server.(state := SEND_OACK))
                   case Same => s.(phase := Ended)
                   case Nobody => s.(phase := Ended, ready := false)
    ensures Step(s, Advance(found), s', f)
  {
  }

  lemma IsAck(s: Hand, a: Address, h: nat, s': Hand, f: File)
    requires In(s, WAIT_PACKET) && a.Address? && LeadIs(s.Held(a), h)
    requires var v := AfterAck(s.server, h % WRAP);
             s' == Received(s, a).(server := v, cause := if v.state == END then AckedToEnd else s.cause)
    ensures Step(s, AckFrom(a, h), s', f)
  {
  }

  lemma IsError(s: Hand, a: Address, s': Hand, f: File)
    requires In(s, WAIT_PACKET) && a.Address?
    requires s' == Received(s, a).(server := s.server.(state := END), cause := ClientError)
    ensures Step(s, ErrorFrom(a), s', f)
  {
  }

  lemma IsTimer(s: Hand, s': Hand, f: File)
    requires In(s, WAIT_PACKET)
    requires var v := s.server.(timeouts := s.server.timeouts + 1);
             s' == if v.timeouts > NB_OF_RETRY then s.(server := v.(state := END), cause := GaveUp)
                   else s.(server := v.(state := v.timeoutState))
    requires s.server.timeouts + 1 > NB_OF_RETRY || (!f.switching && s.server.timeoutState != END)
    ensures Step(s, Timer, s', f)
  {
  }

  lemma IsSwitch(s: Hand, found: Found, s': Hand, f: File)
    requires In(s, WAIT_PACKET) && NextIs(s.l, s.phase.k, found) && f.switching
    requires s.server.timeouts + 1 <= NB_OF_RETRY && s.server.timeoutState != END
    requires var v := s.server.(timeouts := s.server.timeouts + 1);
             s' == match found
                   case Other(j) => s.(phase := Serving(j), server := v.(state := SEND_OACK))
                   case Same => s.(server := v.(state := v.timeoutState))
                   case Nobody => s.(phase := Aborted, ready := false, server := v.(state := ABORT))
    ensures Step(s, Switch(found), s', f)
  {
  }

  /** The two families a real address can have. */
  const AF_INET := 2
  const AF_INET6 := 10

  class MulticastServer {
    const fp: RFile
    const list: ServerThread
    var current: Client?
    var state: Mode
    var timeoutState: Mode
    var blockNumber: nat
    var wraparoundOffset: nat
    var lastBlock: int
    var numberOfTimeout: nat
    ghost var hand: Hand

    ghost function Value(): Server
      reads this
    {
      Server(state, timeoutState, blockNumber, wraparoundOffset, lastBlock, numberOfTimeout)
    }

    /** The heap agrees with the abstract state. */
    ghost predicate Valid()
      reads this, list, list.clients, fp
    {
      ValidWith(Value())
    }

    /** The same, with the loop variables at the last step being v. */
    ghost predicate ValidWith(v: Server)
      reads this, list, list.clients, fp
    {
      && fp.Valid() && list.Valid() && timeoutState in {BEGIN, SEND_OACK, SEND_DATA}
      && hand.l == list.Entries() && hand.ready == list.clientReady && hand.server == v
      && match Current(hand.phase)
         case Some(k) => k < |list.clients| && current == list.clients[k]
         case None => true
    }

    /** The thread has one client, whose address is made unspecified to unconnect the socket; then the list is
        opened to others. */
    constructor (file: RFile, client: Client, options: string)
      requires file.Valid() && client.next == null && !client.done && client.address.Address?
      modifies client`address
      ensures Valid() && fp == file && Init(hand) && list.clients == [client] && fresh(list)
      ensures hand.who == [old(client.address)]
    {
      fp, current := file, client;
      state, timeoutState, blockNumber, wraparoundOffset, lastBlock, numberOfTimeout := BEGIN, BEGIN, 0, 0, -1, 0;
      var thread := new ServerThread(client, options);
      list := thread;
      hand := Hand([Entry(Unspecified, false)], true, Serving(0), INITIAL, AckedToEnd, map[], [client.address], map[]);
      new;
      client.address := Unspecified;
      list.ClientlistReady();
    }

    /** Another thread hands over its client. */
    method TakeOver(client: Client, ghost f: File) returns (r: int)
      requires Valid() && client !in list.clients && client.next == null && !client.done && list.clientReady
      requires client.address.Address?
      modifies this`hand, list`clients, list.clients`next
      ensures Valid() && Step(old(hand), Join(client.address), hand, f)
      ensures r == if Waiting(old(hand.l), client.address) then 2 else 1
    {
      hide ServerThread.Valid, ServerThread.Entries, Chain, NextIs, Waiting, LeadIs, Listed, FirstWith;
      r := list.Append(client);
      if r == 1 {
        hand := hand.(l := hand.l + [Entry(client.address, false)], who := hand.who + [client.address]);
      }
    }

    /** S_END, first part: the current client is marked done. */
    method MarkCurrent(ghost f: File)
      requires Valid() && In(hand, END)
      modifies this`hand, list.clients`done
      ensures Valid() && Step(old(hand), Finish, hand, f)
    {
      hide ServerThread.Valid, ServerThread.Entries, Chain, NextIs, Waiting, LeadIs, Listed, FirstWith, Step;
      ghost var k := hand.phase.k;
      forall i: nat | i < |list.clients| ensures list.clients[i] == current ==> i == k {
        list.Distinct(i, k);
      }
      var _ := list.ClientlistDone(current, None);
      hand := hand.(l := hand.l[k := hand.l[k].(done := true)], phase := Marked(k), why := hand.why[k := hand.cause]);
      assert list.Entries() == hand.l;
      IsFinish(old(hand), hand, f);
    }

    /** S_END, second part: the next client, with the file rewound and nothing else reset; or the end. */
    method NextClient(ghost f: File) returns (over: bool, ghost found: Found)
      requires Valid() && hand.phase.Marked?
      modifies this, list`clientReady, fp
      ensures Valid() && Step(old(hand), Advance(found), hand, f)
      ensures over <==> hand.phase == Ended
      ensures !over ==> hand.server == old(hand.server).(state := SEND_OACK) && fp.head == 0
    {
      hide ServerThread.Valid, ServerThread.Entries, Chain, NextIs, Waiting, LeadIs, Listed, FirstWith, Step;
      var result, next;
      result, next, found := list.ClientlistNext(current, hand.phase.k);
      if result == 1 {
        current := next;
        state := SEND_OACK;
        fp.Rewind();
        hand := hand.(phase := Serving(found.index), server := hand.server.(state := SEND_OACK));
        over := false;
      } else {
        hand := hand.(phase := Ended, ready := if result == 0 then false else hand.ready);
        over := true;
      }
      IsAdvance(old(hand), found, hand, f);
    }

    /** An acknowledgement's number is adopted as it stands. */
    method Adopt(num: u16)
      modifies this`state, this`blockNumber, this`wraparoundOffset, this`numberOfTimeout
      ensures Value() == AfterAck(old(Value()), num)
    {
      numberOfTimeout := 0;
      if num == 0 && blockNumber != 0 {
        wraparoundOffset := wraparoundOffset + WRAP;
      }
      blockNumber := wraparoundOffset + num;
      if lastBlock != -1 && blockNumber > lastBlock {
        state := END;
      } else {
        state := SEND_DATA;
      }
    }

    /** A packet has arrived. tftp_get_packet looks for a port in the pointer sa instead of the address it
        points to; word is the pointer's low 16 bits, which would have to be an address family for that.
        Client nodes are aligned, so it never is, and the sender's address is copied over the current
        client's. */
    method GetPacket(from: Address, word: nat, ghost f: File)
      requires Valid() && In(hand, WAIT_PACKET) && from.Address? && word % 4 == 0
      modifies this`hand, current`address
      ensures Valid() && hand == Received(old(hand), from) && Step(old(hand), OtherFrom(from), hand, f)
      ensures SockaddrEqual(current.address, from)
    {
      hide ServerThread.Valid, Chain, NextIs, Waiting, LeadIs, Listed, FirstWith;
      ghost var k := hand.phase.k;
      forall i: nat | i < |list.clients| ensures list.clients[i] == current ==> i == k {
        list.Distinct(i, k);
      }
      if word != AF_INET && word != AF_INET6 {
        current.address := from;
      }
      hand := Received(hand, from);
      assert list.Entries() == hand.l;
    }

    /** An acknowledgement from anybody, whose held blocks lead with h: the comparison of its sender with the
        current client comes after the copy, and so never tells them apart. */
    method TakeAck(from: Address, word: nat, num: u16, ghost h: nat, ghost f: File)
      requires Valid() && In(hand, WAIT_PACKET) && from.Address? && word % 4 == 0
      requires LeadIs(hand.Held(from), h) && num == h % WRAP
      modifies this, current`address
      ensures Valid() && Step(old(hand), AckFrom(from, h), hand, f)
    {
      hide ServerThread.Valid, ServerThread.Entries, Chain, NextIs, Waiting, LeadIs, Listed, FirstWith, Step;
      hide AfterAck;
      GetPacket(from, word, f);
      Adopt(num);
      hand := hand.(server := Value(), cause := if state == END then AckedToEnd else hand.cause);
      IsAck(old(hand), from, h, hand, f);
    }

    /** An ERROR from anybody. */
    method TakeError(from: Address, word: nat, ghost f: File)
      requires Valid() && In(hand, WAIT_PACKET) && from.Address? && word % 4 == 0
      modifies this, current`address
      ensures Valid() && Step(old(hand), ErrorFrom(from), hand, f)
    {
      hide ServerThread.Valid, ServerThread.Entries, Chain, NextIs, Waiting, LeadIs, Listed, FirstWith, Step;
      GetPacket(from, word, f);
      state := END;
      hand := hand.(server := Value(), cause := ClientError);
      IsError(old(hand), from, hand, f);
    }

    /** A timeout: give up, switch to another client, or try again. */
    method OnTimeout(switching: bool, ghost f: File) returns (ghost act: Action)
      requires Valid() && In(hand, WAIT_PACKET) && f.switching == switching
      modifies this, list`clientReady
      ensures Valid() && (act == Timer || act.Switch?) && Step(old(hand), act, hand, f)
    {
      hide ServerThread.Valid, ServerThread.Entries, Chain, NextIs, Waiting, LeadIs, Listed, FirstWith, Step;
      act := Timer;
      numberOfTimeout := numberOfTimeout + 1;
      if numberOfTimeout > NB_OF_RETRY {
        state := END;
        hand := hand.(server := Value(), cause := GaveUp);
        IsTimer(old(hand), hand, f);
        return;
      }
      if switching {
        act := SwitchClient(f);
      } else {
        state := timeoutState;
        hand := hand.(server := Value());
        IsTimer(old(hand), hand, f);
      }
    }

    /** The timeout has been counted: look for another client, and try again without one. */
    method SwitchClient(ghost f: File) returns (ghost act: Action)
      requires 1 <= numberOfTimeout <= NB_OF_RETRY && ValidWith(Value().(timeouts := numberOfTimeout - 1))
      requires In(hand, WAIT_PACKET) && f.switching
      modifies this`state, this`current, this`hand, list`clientReady
      ensures Valid() && act.Switch? && Step(old(hand), act, hand, f)
    {
      hide ServerThread.Valid, ServerThread.Entries, Chain, NextIs, Waiting, LeadIs, Listed, FirstWith, Step;
      var clientOld := current;
      var _, next, found := list.ClientlistNext(current, hand.phase.k);
      OtherNode(list, hand.phase.k, found);
      act := Switch(found);
      current := next;
      if current != null && current != clientOld {
        state := SEND_OACK;
        hand := hand.(phase := Serving(found.index), server := Value());
      } else if current == null {
        state := ABORT;
        hand := hand.(phase := Aborted, ready := false, server := Value());
      } else {
        state := timeoutState;
        hand := hand.(server := Value());
      }
      IsSwitch(old(hand), found, hand, f);
    }
  }

  lemma OtherNode(list: ServerThread, k: nat, found: Found)
    requires list.Valid() && k < |list.clients| && NextIs(list.Entries(), k, found)
    ensures found.Other? ==> found.index < |list.clients| && list.clients[found.index] != list.clients[k]
  {
    if found.Other? {
      list.Distinct(found.index, k);
    }
  }
}
