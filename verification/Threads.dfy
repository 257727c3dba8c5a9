/** The doubly linked list of server threads, and the search for a multicast server that takes over a
    client. */
module Threads {
  import opened Clients

  /** strncmp of the first len characters: equal. */
  predicate SamePrefix(s: string, options: string, len: nat)
    requires len <= |options|
  {
    len <= |s| && s[..len] == options[..len]
  }

  class ThreadList {
    var threadData: ServerThread?
    var numberOfThread: int
    ghost var threads: seq<ServerThread>

    constructor ()
      ensures Valid() && threads == []
    {
      threadData, numberOfThread, threads := null, 0, [];
    }

    /** A chain from the head in which prev undoes next, as long as the counter says. */
    ghost predicate Valid()
      reads this, threads
    {
      && numberOfThread == |threads|
      && (threadData == if threads == [] then null else threads[0])
      && (forall i, j :: 0 <= i < j < |threads| ==> threads[i] != threads[j])
      && (forall i :: 0 <= i < |threads| ==> LinkedAt(threads, i))
    }

    ghost static predicate LinkedAt(threads: seq<ServerThread>, i: nat)
      requires i < |threads|
      reads threads
    {
      && threads[i].prev == (if i > 0 then threads[i - 1] else null)
      && threads[i].next == (if i + 1 < |threads| then threads[i + 1] else null)
    }

    lemma LinkedEverywhere(i: nat)
      requires Valid() && i < |threads|
      ensures LinkedAt(threads, i)
    {
    }

    /** Walk to the end and link the new thread there. */
    method ListAdd(added: ServerThread) returns (r: int)
      requires Valid() && added !in threads
      modifies this, threads`next, added`prev, added`next
      ensures Valid() && threads == old(threads) + [added] && r == |threads|
    {
      numberOfThread := numberOfThread + 1;
      r := numberOfThread;
      ghost var before := threads;
      if threadData == null {
        threadData := added;
        added.prev, added.next := null, null;
      } else {
        var current: ServerThread := threadData;
        ghost var i: nat := 0;
        assert forall j :: 0 <= j < |threads| ==> LinkedAt(threads, j);
        while current.next != null
          invariant i < |threads| && current == threads[i]
          modifies {}
          decreases |threads| - i
        {
          assert LinkedAt(threads, i);
          current := current.next;
          i := i + 1;
        }
        assert LinkedAt(threads, i) && i == |threads| - 1;
        current.next := added;
        added.prev, added.next := current, null;
      }
      threads := threads + [added];
      forall j | 0 <= j < |threads| ensures LinkedAt(threads, j) {
        assert j < |before| ==> old(LinkedAt(before, j));
      }
    }

    /** Unlink a thread that is in the list. */
    method ListRemove(gone: ServerThread, ghost k: nat) returns (r: int)
      requires Valid() && k < |threads| && threads[k] == gone
      modifies this, threads`prev, threads`next
      ensures Valid() && threads == old(threads)[..k] + old(threads)[k + 1..] && r == |threads|
    {
      numberOfThread := numberOfThread - 1;
      r := numberOfThread;
      ghost var before := threads;
      assert forall j :: 0 <= j < |threads| ==> LinkedAt(threads, j);
      if threadData == gone {
        assert k == 0 && LinkedAt(threads, 0);
        if gone.next != null {
          assert LinkedAt(threads, 1);
          threadData := gone.next;
          threadData.prev := null;
        } else {
          threadData := null;
        }
      } else {
        var current: ServerThread := threadData;
        ghost var i: nat := 0;
        while current != gone
          invariant i <= k && current == threads[i]
          modifies {}
          decreases k - i
        {
          assert LinkedAt(threads, i);
          current := current.next;
          i := i + 1;
        }
        assert i == k > 0 && LinkedAt(threads, k);
        if current.next != null && current.prev != null {
          current.prev.next := current.next;
          current.next.prev := current.prev;
        } else {
          current.prev.next := null;
        }
      }
      threads := threads[..k] + threads[k + 1..];
      forall j | 0 <= j < |threads| ensures LinkedAt(threads, j) {
        assert old(LinkedAt(before, if j < k then j else j + 1));
      }
    }

    // ---------- taking over a client ----------

    /** Every node of every client list. */
    ghost function Nodes(): (nodes: set<Client>)
      reads this, threads
      ensures forall t, i :: t in threads && 0 <= i < |t.clients| ==> t.clients[i] in nodes
    {
      set t, i | t in threads && 0 <= i < |t.clients| :: t.clients[i]
    }

    /** The lists of the threads other than data are well formed and share no node. */
    ghost predicate ClientsValid(data: ServerThread)
      reads this, threads, Nodes()
    {
      && (forall t :: t in threads && t != data ==> t.Valid())
      && (forall t, u :: t in threads && u in threads && t != u && t != data && u != data ==> Apart(t, u))
    }

    ghost static predicate Apart(t: ServerThread, u: ServerThread)
      reads t, u
    {
      forall c :: c in t.clients ==> c !in u.clients
    }

    /** A thread that may take a client over: ready, with the same options. */
    predicate Eligible(t: ServerThread, data: ServerThread, options: string, len: nat)
      requires len <= |options|
      reads t
    {
      t != data && t.clientReady && SamePrefix(t.options, options, len)
    }

    /** Up to the length compared, the options must be the same character by character; what follows does not
        matter. */
    lemma EligibleIff(t: ServerThread, data: ServerThread, common: string, rest: string)
      ensures Eligible(t, data, common + rest, |common|)
         <==> t != data && t.clientReady && exists tail :: t.options == common + tail
    {
      assert (common + rest)[..|common|] == common;
      if Eligible(t, data, common + rest, |common|) {
        assert t.options == common + t.options[|common|..];
      }
    }

    lemma ClientsValidIff(data: ServerThread)
      ensures ClientsValid(data) <==>
              && (forall t :: t in threads && t != data ==> t.Valid())
              && (forall t, u :: t in threads && u in threads && t != u && t != data && u != data ==> Apart(t, u))
    {
    }

    /** Walk the list to the first eligible thread. */
    method FindServer(data: ServerThread, options: string, len: nat) returns (current: ServerThread?, ghost i: nat)
      requires Valid() && len <= |options|
      ensures i <= |threads| && current == if i < |threads| then threads[i] else null
      ensures current != null ==> Eligible(current, data, options, len)
      ensures forall j :: 0 <= j < i ==> !Eligible(threads[j], data, options, len)
    {
      current := threadData;
      i := 0;
      while current != null
        invariant i <= |threads| && current == if i < |threads| then threads[i] else null
        invariant forall j :: 0 <= j < i ==> !Eligible(threads[j], data, options, len)
        decreases |threads| - i
      {
        LinkedEverywhere(i);
        if current != data && current.clientReady && SamePrefix(current.options, options, len) {
          return;
        }
        current := current.next;
        i := i + 1;
      }
    }

    /** A thread none of whose nodes changed keeps its list. */
    twostate lemma Untouched(t: ServerThread)
      requires old(t.Valid()) && t.clients == old(t.clients) && t.clientInfo == old(t.clientInfo)
      requires forall c :: c in t.clients ==>
                 c.next == old(c.next) && c.done == old(c.done) && c.address == old(c.address)
      ensures t.Valid() && t.Entries() == old(t.Entries())
    {
    }

    /** Links that did not change still make up the list. */
    twostate lemma LinksKept()
      requires old(Valid()) && unchanged(this)
      requires forall t :: t in threads ==> t.prev == old(t.prev) && t.next == old(t.next)
      ensures Valid()
    {
      forall j | 0 <= j < |threads| ensures LinkedAt(threads, j) {
        assert old(LinkedAt(threads, j));
      }
    }

    /** A node that nobody else holds may be added to one list. */
    twostate lemma AllApart(data: ServerThread, new taker: ServerThread, new client: Client)
      requires old(ClientsValid(data)) && threads == old(threads) && taker in old(threads)
      requires forall t :: t in threads && t != taker ==> t.clients == old(t.clients)
      requires forall t :: t in threads && t != data ==> client !in old(t.clients)
      requires taker.clients == old(taker.clients) || taker.clients == old(taker.clients) + [client]
      ensures forall t, u :: t in threads && u in threads && t != u && t != data && u != data ==> Apart(t, u)
    {
      hide ServerThread.Valid;
      forall t, u | t in threads && u in threads && t != u && t != data && u != data
        ensures Apart(t, u)
      {
        assert old(Apart(t, u));
      }
    }

    /** Taking over leaves every other thread alone. */
    twostate lemma OthersKept(data: ServerThread, new taker: ServerThread)
      requires old(ClientsValid(data)) && unchanged(this)
      requires taker in old(threads) && taker != data && taker.Valid()
      requires forall t :: t in threads && t != taker ==>
                 t.clientInfo == old(t.clientInfo) && t.clients == old(t.clients)
      requires forall t, c :: t in threads && c in old(t.clients) && c !in old(taker.clients) ==>
                 c.next == old(c.next) && c.done == old(c.done) && c.address == old(c.address)
      ensures forall t :: t in threads && t != data ==> t.Valid()
      ensures forall t :: t in threads && t != taker && t != data ==>
                t.clients == old(t.clients) && t.Entries() == old(t.Entries())
    {
      hide ServerThread.Valid, ServerThread.Entries;
      forall t | t in threads && t != taker && t != data ensures t.Valid() && t.Entries() == old(t.Entries()) {
        assert old(Apart(t, taker));
        Untouched(t);
      }
    }

    /** Look for a thread that serves the same file with the same options, and hand it the client: the
        first eligible thread takes it, or already has its address waiting. */
    method FindMulticastServerAndAdd(data: ServerThread, client: Client, options: string, len: nat)
      returns (result: int, thread: ServerThread?, ghost i: nat)
      requires Valid() && ClientsValid(data) && len <= |options|
      requires client.next == null && !client.done
      requires forall t :: t in threads && t != data ==> client !in t.clients
      modifies threads`clients, Nodes()`next
      ensures Valid() && ClientsValid(data)
      ensures i <= |threads| && thread == (if i < |threads| then threads[i] else null)
      ensures thread == null <==> result == 0
      ensures forall j :: 0 <= j < i ==> !Eligible(threads[j], data, options, len)
      ensures forall t :: t in threads && t != thread && t != data ==>
                t.clients == old(t.clients) && t.Entries() == old(t.Entries())
      ensures thread != null ==>
                && Eligible(thread, data, options, len)
                && result == (if Waiting(old(threads[i].Entries()), client.address) then 2 else 1)
                && thread.clients == old(threads[i].clients) + (if result == 1 then [client] else [])
                && thread.Entries() == old(threads[i].Entries())
                                       + if result == 1 then [Entry(client.address, false)] else []
    {
      hide Valid, ClientsValid, Apart, ServerThread.Valid, ServerThread.Entries, Waiting;
      thread, i := FindServer(data, options, len);
      result := 0;
      if thread != null {
        assert thread in threads;
        ClientsValidIff(data);
        result := thread.Append(client);
        LinksKept();
        AllApart(data, thread, client);
        OthersKept(data, thread);
        ClientsValidIff(data);
      }
    }
  }
}
