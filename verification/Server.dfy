/**
 The bookkeeping of ServerIList/Server.cpp: the list of clients, the queue of received messages, and the queue of
 disconnected sockets. What the network does is an input, or a nondeterministic choice.
 */
module Servers {
  import opened Errors

  datatype Incoming = Incoming(sock: int, text: string)
  datatype Outgoing = Outgoing(sock: int, text: string)

  ghost predicate NoDuplicates(s: seq<int>) {
    forall i, j :: 0 <= i < j < |s| ==> s[i] != s[j]
  }

  /** `std::remove`: the other elements move to the front, the tail keeps what it had. */
  function Removed(clients: seq<int>, socket: int): (moved: seq<int>)
    ensures |moved| == |clients|
  {
    var kept := Others(clients, socket);
    kept + clients[|kept|..]
  }

  function Others(clients: seq<int>, socket: int): (kept: seq<int>)
    ensures |kept| <= |clients|
  {
    if clients == [] then []
    else
      var n := |clients| - 1;
      Others(clients[..n], socket) + if clients[n] == socket then [] else [clients[n]]
  }

  lemma {:induction false} OthersOf(clients: seq<int>, socket: int)
    requires NoDuplicates(clients)
    ensures NoDuplicates(Others(clients, socket))
    ensures forall c :: c in Others(clients, socket) <==> c in clients && c != socket
    ensures |Others(clients, socket)| == |clients| - if socket in clients then 1 else 0
  {
    if clients != [] {
      var n := |clients| - 1;
      OthersOf(clients[..n], socket);
      assert clients == clients[..n] + [clients[n]];
      assert clients[n] !in clients[..n];
    }
  }

  class Server {
    var clients: seq<int>
    var messages: seq<Incoming>
    var disconnectedSockets: seq<int>
    var index: nat

    // what happened so far
    ghost var accepted: multiset<int>
    ghost var dropped: multiset<int>
    ghost var arrived: seq<Incoming>
    ghost var taken: seq<Incoming>
    ghost var sent: seq<Outgoing>

    /** Each handle was accepted once more than dropped if it is a client, and as often otherwise; packets are first in, first out. */
    ghost predicate Valid()
      reads this
    {
      && NoDuplicates(clients)
      && (forall h :: accepted[h] == dropped[h] + if h in clients then 1 else 0)
      && arrived == taken + messages
    }

    constructor ()
      ensures Valid() && clients == [] && messages == [] && disconnectedSockets == [] && sent == []
    {
      clients, messages, disconnectedSockets, index := [], [], [], 0;
      accepted, dropped, arrived, taken, sent := multiset{}, multiset{}, [], [], [];
    }

    /** One accept; None is INVALID_SOCKET. The handle of a new connection is not the handle of an open one. */
    method Accept(handle: Option<int>)
      requires Valid() && (handle.Some? ==> handle.value !in clients)
      modifies this`clients, this`accepted
      ensures Valid()
      ensures clients == old(clients) + if handle.Some? then [handle.value] else []
    {
      if handle.Some? {
        clients := clients + [handle.value];
        accepted := accepted + multiset{handle.value};
      }
    }

    method Disconnect(socket: int)
      requires Valid()
      modifies this`clients, this`disconnectedSockets, this`dropped
      ensures Valid()
      ensures clients == Others(old(clients), socket)
      ensures disconnectedSockets == old(disconnectedSockets) + if socket in old(clients) then [socket] else []
    {
      OthersOf(clients, socket);
      if |clients| != 0 && socket in clients {
        var moved := Removed(clients, socket);
        var position := |Others(clients, socket)|;
        clients := moved[..position] + moved[position + 1..];
        disconnectedSockets := disconnectedSockets + [socket];
        dropped := dropped + multiset{socket};
      } else {
        NothingRemoved(clients, socket);
      }
    }

    /** One round of the receive loop on a non-empty client list. `packet` is None for an error or a short message. */
    method Poll(ready: bool, packet: Option<string>) returns (polled: int)
      requires Valid() && clients != []
      modifies this`clients, this`disconnectedSockets, this`dropped, this`messages, this`arrived, this`index
      ensures Valid()
      ensures polled == old(clients)[Slot(old(index), |old(clients)|)]
      ensures index == Slot(old(index), |old(clients)|) + 1
      ensures clients == if ready && packet.None? then Others(old(clients), polled) else old(clients)
      ensures messages == old(messages) + if ready && packet.Some? then [Incoming(polled, packet.value)] else []
      ensures disconnectedSockets == old(disconnectedSockets) + if ready && packet.None? then [polled] else []
    {
      if index >= |clients| {
        index := 0;
      }
      polled := clients[index];
      if ready {
        if packet.None? {
          Disconnect(clients[index]);
        } else {
          messages := messages + [Incoming(clients[index], packet.value)];
          arrived := arrived + [Incoming(clients[index], packet.value)];
        }
      }
      index := index + 1;
    }

    /**
     As many rounds as there are clients, none of which drops its client: from any index, every client is polled once,
     and the packets are queued in the order of the rounds.
     */
    method PollAll(ready: seq<bool>, packets: seq<Option<string>>) returns (polled: seq<int>)
      requires Valid() && clients != [] && |ready| == |packets| == |clients|
      requires forall k :: 0 <= k < |ready| && ready[k] ==> packets[k].Some?
      modifies this`clients, this`disconnectedSockets, this`dropped, this`messages, this`arrived, this`index
      ensures Valid() && clients == old(clients) && disconnectedSockets == old(disconnectedSockets)
      ensures |polled| == |clients| && NoDuplicates(polled) && forall c :: c in polled <==> c in clients
      ensures messages == old(messages) + Received(polled, ready, packets)
    {
      var n := |clients|;
      ghost var slots := Schedule(index, n);
      polled := [];
      assert messages == messages + Received([], ready[..0], packets[..0]);
      for i := 0 to n
        invariant Valid() && clients == old(clients) && disconnectedSockets == old(disconnectedSockets)
        invariant |polled| == i && forall k :: 0 <= k < i ==> polled[k] == clients[slots[k]]
        invariant i < n ==> Slot(index, n) == slots[i]
        invariant messages == old(messages) + Received(polled, ready[..i], packets[..i])
      {
        var sock := Poll(ready[i], packets[i]);
        OneMoreReceived(polled, sock, ready, packets);
        polled := polled + [sock];
      }
      assert ready[..n] == ready && packets[..n] == packets;
      AllVisited(clients, slots, polled);
    }

    method GetLastPacket() returns (msg: Incoming)
      requires Valid() && messages != []
      modifies this`messages, this`taken
      ensures Valid()
      ensures [msg] + messages == old(messages) && taken == old(taken) + [msg]
    {
      msg := messages[0];
      messages := messages[1..];
      taken := taken + [msg];
    }

    /** One attempt to send; the network decides whether it fails, and then the client is dropped. */
    method SendMessage(socket: int, message: string)
      requires Valid()
      modifies this`clients, this`disconnectedSockets, this`dropped, this`sent
      ensures Valid()
      ensures sent == old(sent) + [Outgoing(socket, message)]
    {
      sent := sent + [Outgoing(socket, message)];
      if * {
        Disconnect(socket);
      }
    }
  }

  /** What the rounds put into the queue. */
  function Received(polled: seq<int>, ready: seq<bool>, packets: seq<Option<string>>): seq<Incoming>
    requires |polled| == |ready| == |packets|
  {
    if polled == [] then []
    else
      var n := |polled| - 1;
      Received(polled[..n], ready[..n], packets[..n]) +
      if ready[n] && packets[n].Some? then [Incoming(polled[n], packets[n].value)] else []
  }

  lemma OneMoreReceived(polled: seq<int>, sock: int, ready: seq<bool>, packets: seq<Option<string>>)
    requires |polled| < |ready| == |packets|
    ensures var i := |polled|;
            Received(polled + [sock], ready[..i + 1], packets[..i + 1]) == Received(polled, ready[..i], packets[..i]) +
            if ready[i] && packets[i].Some? then [Incoming(sock, packets[i].value)] else []
  {
    var i := |polled|;
    assert (polled + [sock])[..i] == polled;
    assert ready[..i + 1][..i] == ready[..i] && packets[..i + 1][..i] == packets[..i];
  }

  /** Polling each position once is polling each client once. */
  lemma AllVisited(clients: seq<int>, slots: seq<nat>, polled: seq<int>)
    requires NoDuplicates(clients) && |slots| == |polled| == |clients|
    requires forall k :: 0 <= k < |slots| ==> slots[k] < |clients| && polled[k] == clients[slots[k]]
    requires forall i, j :: 0 <= i < j < |slots| ==> slots[i] != slots[j]
    requires forall c :: 0 <= c < |clients| ==> c in slots
    ensures NoDuplicates(polled) && forall c :: c in polled <==> c in clients
  {
    forall c | c in clients ensures c in polled {
      var position :| 0 <= position < |clients| && clients[position] == c;
      assert position in slots;
      var k :| 0 <= k < |slots| && slots[k] == position;
      assert polled[k] == c;
    }
    forall i, j | 0 <= i < j < |polled| ensures polled[i] != polled[j] {
      assert slots[i] != slots[j];
      assert slots[i] < slots[j] || slots[j] < slots[i];
    }
  }

  lemma {:induction false} NothingRemoved(clients: seq<int>, socket: int)
    requires socket !in clients
    ensures Others(clients, socket) == clients
  {
    if clients != [] {
      var n := |clients| - 1;
      NothingRemoved(clients[..n], socket);
      assert clients[n] in clients;
    }
  }

  // ---- fairness of the wrapping index ----

  function Slot(index: nat, n: nat): nat {
    if index >= n then 0 else index
  }

  /** The positions polled in `rounds` rounds over `n` unchanged clients. */
  function Polled(index: nat, n: nat, rounds: nat): seq<nat>
    decreases rounds
  {
    if rounds == 0 then [] else [Slot(index, n)] + Polled(Slot(index, n) + 1, n, rounds - 1)
  }

  lemma {:induction false} PolledAt(index: nat, n: nat, rounds: nat, k: nat)
    requires k < rounds <= n
    ensures |Polled(index, n, rounds)| == rounds
    ensures Polled(index, n, rounds)[k] == if Slot(index, n) + k < n then Slot(index, n) + k else Slot(index, n) + k - n
    decreases rounds
  {
    if rounds > 1 {
      PolledAt(Slot(index, n) + 1, n, rounds - 1, if k == 0 then 0 else k - 1);
    }
  }

  /** Wherever it starts, n rounds over n unchanged clients poll each of them exactly once. */
  lemma EachPolledOnce(index: nat, n: nat)
    ensures var polls := Polled(index, n, n);
            && |polls| == n
            && (forall i, j :: 0 <= i < j < n ==> polls[i] != polls[j])
            && (forall c :: 0 <= c < n <==> c in polls)
  {
    var polls := Polled(index, n, n);
    var start := Slot(index, n);
    if n > 0 {
      PolledAt(index, n, n, 0);
    }
    forall k | 0 <= k < n ensures polls[k] == if start + k < n then start + k else start + k - n {
      PolledAt(index, n, n, k);
    }
    forall c | 0 <= c < n ensures c in polls {
      var k := if c >= start then c - start else c + n - start;
      assert polls[k] == c;
    }
  }

  /** The positions of n rounds: each is the one after the one before, and every position comes once. */
  lemma Schedule(index: nat, n: nat) returns (slots: seq<nat>)
    requires n > 0
    ensures |slots| == n && slots[0] == Slot(index, n)
    ensures forall k :: 0 <= k < n ==> slots[k] < n
    ensures forall k :: 0 <= k < n - 1 ==> slots[k + 1] == Slot(slots[k] + 1, n)
    ensures forall i, j :: 0 <= i < j < n ==> slots[i] != slots[j]
    ensures forall c :: 0 <= c < n ==> c in slots
  {
    slots := Polled(index, n, n);
    EachPolledOnce(index, n);
    forall k | 0 <= k < n
      ensures slots[k] == if Slot(index, n) + k < n then Slot(index, n) + k else Slot(index, n) + k - n
    {
      PolledAt(index, n, n, k);
    }
  }
}
