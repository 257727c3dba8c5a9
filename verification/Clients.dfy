/** The list of clients of a multicast server thread: a singly linked list of heap nodes. */
module Clients {
  import opened Wrappers

  /** A socket address; Unspecified stands for the family AF_UNSPEC. */
  datatype Address = Unspecified | Address(host: nat, port: nat)

  /** sockaddr_equal, which tells nothing about two unspecified addresses. */
  predicate SockaddrEqual(left: Address, right: Address) {
    left.Address? && left == right
  }

  /** Two addresses are equal when host and port are; an unspecified one equals nothing, so nobody is ever
      taken for a client whose socket has been unconnected. */
  lemma SockaddrEqualIff(host: nat, port: nat, host': nat, port': nat, other: Address)
    ensures SockaddrEqual(Address(host, port), Address(host', port')) <==> host == host' && port == port'
    ensures !SockaddrEqual(Unspecified, other) && !SockaddrEqual(other, Unspecified)
  {
  }

  /** A client waits for the packets of one host and port; an unspecified address waits for nobody's. */
  lemma WaitingIff(l: seq<Entry>, host: nat, port: nat)
    ensures Waiting(l, Address(host, port))
       <==> exists i :: 0 <= i < |l| && l[i] == Entry(Address(host, port), false)
    ensures !Waiting(l, Unspecified)
  {
    if Waiting(l, Address(host, port)) {
      var i :| 0 <= i < |l| && !l[i].done && SockaddrEqual(l[i].address, Address(host, port));
      SockaddrEqualIff(host, port, host, port, l[i].address);
      assert l[i] == Entry(Address(host, port), false);
    }
  }

  class Client {
    var address: Address
    var done: bool
    var next: Client?

    constructor (address: Address)
      ensures this.address == address && !done && next == null
    {
      this.address, done, next := address, false, null;
    }
  }

  /** What a client node says: whom it serves and whether that is over. */
  datatype Entry = Entry(address: Address, done: bool)

  /** What a search for the next client can come to. */
  datatype Found = Nobody | Same | Other(index: nat)

  /** Position i is passed when walking the circle of n positions from k, exclusive, to j, exclusive. */
  ghost predicate Passed(n: nat, k: nat, i: int, j: nat) {
    0 <= i < n && i != k && if k < j then k < i < j else i > k || i < j
  }

  /** The search from position k: the first client not done in circular order, other than k itself;
      Same only for the one client of a list of one. */
  ghost predicate NextIs(l: seq<Entry>, k: nat, f: Found)
    requires k < |l|
  {
    match f
    case Other(j) => j < |l| && j != k && !l[j].done && forall i :: Passed(|l|, k, i, j) ==> l[i].done
    case Same => |l| == 1 && !l[k].done
    case Nobody => (|l| == 1 ==> l[k].done) && forall i :: 0 <= i < |l| && i != k ==> l[i].done
  }

  lemma PassedEither(n: nat, k: nat, i: nat, j: nat)
    requires k < n && i < n && j < n && i != k && j != k
    ensures i == j || Passed(n, k, i, j) || Passed(n, k, j, i)
  {
  }

  /** The result of the search is determined. */
  lemma NextUnique(l: seq<Entry>, k: nat, f: Found, g: Found)
    requires k < |l| && NextIs(l, k, f) && NextIs(l, k, g)
    ensures f == g
  {
    if f.Other? && g.Other? {
      PassedEither(|l|, k, f.index, g.index);
    }
  }

  /** Somebody is found exactly when a client other than the current one is not done. */
  lemma OtherIff(l: seq<Entry>, k: nat, f: Found)
    requires k < |l| && NextIs(l, k, f)
    ensures f.Other? <==> exists i :: 0 <= i < |l| && i != k && !l[i].done
  {
  }

  /** An address is waiting in the list. */
  ghost predicate Waiting(l: seq<Entry>, a: Address) {
    exists i :: 0 <= i < |l| && !l[i].done && SockaddrEqual(l[i].address, a)
  }

  /** The first entry with an address, done or not. */
  ghost predicate FirstWith(l: seq<Entry>, a: Address, i: nat) {
    i < |l| && SockaddrEqual(a, l[i].address) && forall j :: 0 <= j < i ==> !SockaddrEqual(a, l[j].address)
  }

  ghost predicate Listed(l: seq<Entry>, a: Address) {
    exists i :: 0 <= i < |l| && SockaddrEqual(a, l[i].address)
  }

  /** The nodes, in order, make up a list from its head. */
  ghost predicate Chain(nodes: seq<Client>, head: Client)
    reads nodes`next
  {
    && nodes != []
    && nodes[0] == head
    && (forall i, j :: 0 <= i < j < |nodes| ==> nodes[i] != nodes[j])
    && (forall i :: 0 <= i < |nodes| - 1 ==> nodes[i].next == nodes[i + 1])
    && nodes[|nodes| - 1].next == null
  }

  class ServerThread {
    var clientInfo: Client
    var clientReady: bool
    var options: string
    var prev: ServerThread?
    var next: ServerThread?
    ghost var clients: seq<Client>

    constructor (client: Client, options: string)
      requires client.next == null
      ensures Valid() && clients == [client] && !clientReady && this.options == options
      ensures prev == null && next == null
    {
      clientInfo, clientReady, this.options, prev, next := client, false, options, null, null;
      clients := [client];
    }

    ghost predicate Valid()
      reads this`clientInfo, this`clients, clients`next
    {
      Chain(clients, clientInfo)
    }

    /** The list as a value. */
    ghost function Entries(): (l: seq<Entry>)
      reads this`clients, clients
      ensures |l| == |clients|
      ensures forall i :: 0 <= i < |l| ==> l[i] == Entry(clients[i].address, clients[i].done)
    {
      var nodes := clients;
      seq(|nodes|, i requires 0 <= i < |nodes| reads nodes => Entry(nodes[i].address, nodes[i].done))
    }

    lemma Successor(i: nat)
      requires Valid() && i < |clients|
      ensures clients[i].next == if i < |clients| - 1 then clients[i + 1] else null
    {
    }

    lemma Distinct(i: nat, j: nat)
      requires Valid() && i < |clients| && j < |clients|
      ensures clients[i] == clients[j] ==> i == j
    {
    }

    /** Open the list to new clients. */
    method ClientlistReady()
      modifies this`clientReady
      ensures clientReady
    {
      clientReady := true;
    }

    /** Mark a given client done, or else the first one listed under an address, if one is given. */
    method ClientlistDone(client: Client?, sock: Option<Address>) returns (r: int)
      requires Valid() && (client != null ==> client in clients)
      modifies clients`done
      ensures Valid()
      ensures r == if client != null || (sock.Some? && Listed(old(Entries()), sock.value)) then 1 else 0
      ensures forall i :: 0 <= i < |clients| ==>
                clients[i].done == (old(clients[i].done)
                                    || clients[i] == client
                                    || (client == null && sock.Some? && FirstWith(old(Entries()), sock.value, i)))
    {
      ghost var l := Entries();
      if client != null {
        client.done := true;
        return 1;
      }
      if sock.None? {
        return 0;
      }
      var address := sock.value;
      var head: Client? := clientInfo;
      ghost var i: nat := 0;
      while head != null
        invariant i <= |clients| && head == if i < |clients| then clients[i] else null
        invariant forall j :: 0 <= j < i ==> !SockaddrEqual(address, l[j].address)
        invariant forall j :: 0 <= j < |clients| ==> clients[j].done == old(clients[j].done)
        decreases |clients| - i
      {
        if SockaddrEqual(address, head.address) {
          head.done := true;
          assert FirstWith(l, address, i);
          return 1;
        }
        head := head.next;
        i := i + 1;
      }
      return 0;
    }

    /** The next client to serve after the current one, searching from it and wrapping around. When
        there is none the list is closed. */
    method ClientlistNext(current: Client, ghost k: nat) returns (result: int, client: Client?, ghost found: Found)
      requires Valid() && k < |clients| && clients[k] == current
      modifies this`clientReady
      ensures Valid() && NextIs(Entries(), k, found)
      ensures found.Other? <==> result == 1
      ensures found.Same? <==> result == -1
      ensures found.Nobody? <==> result == 0
      ensures client == match found case Other(j) => clients[j] case Same => current case Nobody => null
      ensures clientReady == if found.Nobody? then false else old(clientReady)
    {
      ghost var l := Entries();
      ghost var j: nat := if k + 1 < |l| then k + 1 else 0;
      var tmp: Client? := if current.next != null then current.next else clientInfo;
      while tmp != null
        invariant j < |l|
        invariant tmp != null ==> tmp == clients[j] && (forall i :: Passed(|l|, k, i, j) ==> l[i].done)
        invariant tmp != null && j == k ==> |l| == 1
        invariant tmp == null ==> NextIs(l, k, Nobody)
        modifies {}
        decreases if tmp == null then 0 else 1 + if j > k then |l| - j + k else k - j
      {
        if !tmp.done {
          if tmp == current {
            return -1, current, Same;
          }
          return 1, tmp, Other(j);
        }
        Successor(j);
        tmp := tmp.next;
        j := j + 1;
        if tmp == null {
          tmp := clientInfo;
          j := 0;
        }
        if tmp == current {
          tmp := null;
        }
      }
      clientReady := false;
      return 0, null, Nobody;
    }

    /** The list with one more node linked behind the last. */
    twostate lemma Linked(client: Client)
      requires old(Valid()) && clientInfo == old(clientInfo)
      requires clients == old(clients) + [client] && client !in old(clients) && client.next == null && !client.done
      requires forall c :: c in old(clients) ==> c.done == old(c.done) && c.address == old(c.address)
      requires forall i :: 0 <= i < |old(clients)| ==>
                 clients[i].next == if i == |old(clients)| - 1 then client else old(clients[i].next)
      ensures Valid()
      ensures Entries() == old(Entries()) + [Entry(client.address, false)]
    {
      forall i | 0 <= i < |clients| - 1 ensures clients[i].next == clients[i + 1] {
        assert clients[i] == old(clients)[i];
      }
    }

    /** Walk the list to a node where the address is waiting, or to the last one. */
    method FindWaiting(address: Address) returns (tmp: Client, found: bool)
      requires Valid()
      ensures found == Waiting(Entries(), address)
      ensures !found ==> tmp == clients[|clients| - 1]
    {
      ghost var l := Entries();
      tmp := clientInfo;
      ghost var i: nat := 0;
      while true
        invariant i < |clients| && tmp == clients[i]
        invariant forall j :: 0 <= j < i ==> l[j].done || !SockaddrEqual(l[j].address, address)
        decreases |clients| - i
      {
        if SockaddrEqual(tmp.address, address) && !tmp.done {
          assert l[i] == Entry(tmp.address, false);
          return tmp, true;
        }
        Successor(i);
        if tmp.next == null {
          assert l[i] == Entry(tmp.address, tmp.done);
          return tmp, false;
        }
        tmp := tmp.next;
        i := i + 1;
      }
    }

    /** Add a client at the end of the list, unless its address is already waiting there. */
    method Append(client: Client) returns (r: int)
      requires Valid() && client !in clients && client.next == null && !client.done
      modifies this`clients, clients`next
      ensures Valid()
      ensures r == if Waiting(old(Entries()), client.address) then 2 else 1
      ensures clients == if r == 1 then old(clients) + [client] else old(clients)
      ensures Entries() == old(Entries()) + if r == 1 then [Entry(client.address, false)] else []
    {
      hide Entries, Waiting;
      var tmp, found := FindWaiting(client.address);
      if found {
        return 2;
      }
      tmp.next := client;
      clients := clients + [client];
      Linked(client);
      return 1;
    }
  }
}
