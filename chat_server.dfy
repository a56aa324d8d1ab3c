/** The WebSocket chat server: `ConnectionManager` keeps the list of open
    connections, and each connection's handler broadcasts what its client
    sends and announces when the client leaves.

    A connection is an abstract identifier, and sending a text to a
    connection is recorded by appending the pair to a log; the order of the
    log is the order in which the server sends. */
module ChatServer {

  /** A WebSocket connection, identified by value. */
  datatype ConnId = ConnId(id: nat)

  /** Position of the first `x` in `s`, or `|s|` when there is none. */
  function IndexOf(s: seq<ConnId>, x: ConnId): (i: nat)
    ensures i <= |s|
    ensures i < |s| ==> s[i] == x
    ensures forall k :: 0 <= k < i ==> s[k] != x
    ensures i == |s| <==> x !in s
  {
    if s == [] then 0 else if s[0] == x then 0 else 1 + IndexOf(s[1..], x)
  }

  /** `list.remove(x)` on a list that holds `x`: the first occurrence goes. */
  function RemoveFirst(s: seq<ConnId>, x: ConnId): (r: seq<ConnId>)
    requires x in s
    ensures |r| == |s| - 1
    ensures multiset(r) == multiset(s) - multiset{x}
    ensures forall k :: 0 <= k < IndexOf(s, x) ==> r[k] == s[k]
    ensures forall k :: IndexOf(s, x) <= k < |r| ==> r[k] == s[k + 1]
  {
    var i := IndexOf(s, x);
    RemoveAt(s, i);
    s[..i] + s[i + 1..]
  }

  /** Cutting out the element at `i` takes one copy of it out of the multiset. */
  lemma RemoveAt(s: seq<ConnId>, i: nat)
    requires i < |s|
    ensures multiset(s[..i] + s[i + 1..]) == multiset(s) - multiset{s[i]}
  {
    assert s == s[..i] + [s[i]] + s[i + 1..];
  }

  /** Connecting and then disconnecting a connection that was not open yet
      gives back the list it started from. */
  lemma RemoveAppended(s: seq<ConnId>, x: ConnId)
    requires x !in s
    ensures RemoveFirst(s + [x], x) == s
  {
    assert IndexOf(s + [x], x) == |s| by {
      assert forall k :: 0 <= k < |s| ==> (s + [x])[k] == s[k];
    }
  }

  /** The sends of one broadcast: one per connection, in list order. */
  function Sends(conns: seq<ConnId>, msg: string): (r: seq<(ConnId, string)>)
    ensures |r| == |conns|
    ensures forall i :: 0 <= i < |conns| ==> r[i] == (conns[i], msg)
  {
    seq(|conns|, i requires 0 <= i < |conns| => (conns[i], msg))
  }

  /** A broadcast reaches exactly the connections in the list. */
  lemma SendsReach(conns: seq<ConnId>, msg: string, c: ConnId, m: string)
    ensures (c, m) in Sends(conns, msg) <==> c in conns && m == msg
  {
    if c in conns && m == msg {
      var i :| 0 <= i < |conns| && conns[i] == c;
      assert Sends(conns, msg)[i] == (c, m);
    }
  }

  /** How many times `c` is sent something in `log`. */
  function CountTo(log: seq<(ConnId, string)>, c: ConnId): nat {
    if log == [] then 0 else (if log[0].0 == c then 1 else 0) + CountTo(log[1..], c)
  }

  lemma {:induction false} CountSends(conns: seq<ConnId>, msg: string, c: ConnId)
    ensures CountTo(Sends(conns, msg), c) == multiset(conns)[c]
  {
    if conns != [] {
      CountSends(conns[1..], msg, c);
      assert Sends(conns, msg)[1..] == Sends(conns[1..], msg);
      assert conns == [conns[0]] + conns[1..];
    }
  }

  /** A broadcast sends once to each open connection: a connection that is
      open once receives the message exactly once. */
  lemma BroadcastOnce(conns: seq<ConnId>, msg: string, c: ConnId)
    requires c in conns && forall i, j :: 0 <= i < j < |conns| ==> conns[i] != conns[j]
    ensures CountTo(Sends(conns, msg), c) == 1
  {
    CountSends(conns, msg, c);
    var i :| 0 <= i < |conns| && conns[i] == c;
    assert conns == conns[..i] + [c] + conns[i + 1..];
    assert c !in conns[..i] by {
      forall k | 0 <= k < i ensures conns[..i][k] != c {
        assert conns[k] != conns[i];
      }
    }
    assert c !in conns[i + 1..] by {
      forall k | i < k < |conns| ensures conns[k] != c {
        assert conns[i] != conns[k];
      }
    }
  }

  /** `f"Message: {data}"` */
  function ChatLine(data: string): (r: string)
    ensures |r| == 9 + |data| && r[..9] == "Message: " && r[9..] == data
  {
    "Message: " + data
  }

  /** The announcement made when a client leaves. */
  const LeaveNotice: string := "A client left the chat"

  /** The sends of broadcasting the chat line of every text in `received`,
      one text after the other, to `conns`. */
  function ChatSends(conns: seq<ConnId>, received: seq<string>): (r: seq<(ConnId, string)>)
    ensures |r| == |conns| * |received|
    decreases |received|
  {
    if received == [] then []
    else ChatSends(conns, received[..|received| - 1]) + Sends(conns, ChatLine(received[|received| - 1]))
  }

  class ConnectionManager {
    /** `active_connections` */
    var active: seq<ConnId>
    /** Every text sent so far, with the connection it went to. */
    var sent: seq<(ConnId, string)>

    /** A new manager has no connections and has sent nothing. */
    constructor ()
      ensures active == [] && sent == []
    {
      active := [];
      sent := [];
    }

    /** `connect`: the accepted connection joins the end of the list. */
    method Connect(ws: ConnId)
      modifies this
      ensures active == old(active) + [ws]
      ensures sent == old(sent)
    {
      active := active + [ws];
    }

    /** `disconnect`: `list.remove` drops the first occurrence; on a
        connection that is not in the list it fails (`ok` is false) and
        nothing changes. */
    method Disconnect(ws: ConnId) returns (ok: bool)
      modifies this
      ensures ok <==> ws in old(active)
      ensures ok ==> active == RemoveFirst(old(active), ws)
      ensures !ok ==> active == old(active)
      ensures sent == old(sent)
    {
      var i := IndexOf(active, ws);
      if i == |active| {
        ok := false;
      } else {
        active := active[..i] + active[i + 1..];
        ok := true;
      }
    }

    /** `broadcast`: the message goes to every connection, in list order;
        the list itself is not changed. */
    method Broadcast(msg: string)
      modifies this
      ensures active == old(active)
      ensures sent == old(sent) + Sends(old(active), msg)
    {
      var i := 0;
      while i < |active|
        invariant 0 <= i <= |active| && active == old(active)
        invariant sent == old(sent) + Sends(active[..i], msg)
      {
        assert Sends(active[..i + 1], msg) == Sends(active[..i], msg) + [(active[i], msg)];
        sent := sent + [(active[i], msg)];
        i := i + 1;
      }
      assert active[..i] == active;
    }

    /** `websocket_endpoint` for one client: connect, broadcast every text
        it sends as a chat line, and when it disconnects remove it and then
        announce that it left. */
    method Session(ws: ConnId, received: seq<string>)
      modifies this
      ensures active == RemoveFirst(old(active) + [ws], ws)
      ensures sent == old(sent) + ChatSends(old(active) + [ws], received) + Sends(active, LeaveNotice)
    {
      Connect(ws);
      var joined := active;
      for i := 0 to |received|
        invariant active == joined
        invariant sent == old(sent) + ChatSends(joined, received[..i])
      {
        assert received[..i + 1][..i] == received[..i];
        Broadcast(ChatLine(received[i]));
      }
      assert received[..|received|] == received;
      var ok := Disconnect(ws);
      assert ok;
      Broadcast(LeaveNotice);
    }
  }

  /** For a client that was not connected before, the session leaves the
      list as it found it, and the client that left is not told that it
      left. */
  lemma SessionLeave(before: seq<ConnId>, ws: ConnId)
    requires ws !in before
    ensures RemoveFirst(before + [ws], ws) == before
    ensures forall m :: (ws, m) !in Sends(RemoveFirst(before + [ws], ws), LeaveNotice)
  {
    RemoveAppended(before, ws);
    forall m ensures (ws, m) !in Sends(before, LeaveNotice) {
      SendsReach(before, LeaveNotice, ws, m);
    }
  }

  /** Every chat line of the session reaches the client itself as well as
      every other open connection. */
  lemma {:induction false} ChatSendsReach(conns: seq<ConnId>, received: seq<string>, c: ConnId, m: string)
    ensures (c, m) in ChatSends(conns, received) <==>
      c in conns && exists i :: 0 <= i < |received| && m == ChatLine(received[i])
    decreases |received|
  {
    if received != [] {
      var init := received[..|received| - 1];
      ChatSendsReach(conns, init, c, m);
      SendsReach(conns, ChatLine(received[|received| - 1]), c, m);
      assert forall i :: 0 <= i < |init| ==> init[i] == received[i];
      if c in conns && exists i :: 0 <= i < |received| && m == ChatLine(received[i]) {
        var i :| 0 <= i < |received| && m == ChatLine(received[i]);
        if i < |init| {
          assert m == ChatLine(init[i]);
        }
      }
    }
  }
}
