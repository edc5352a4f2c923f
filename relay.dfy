/**
 * The relay's client registry (src/server.c): a fixed table of at most twelve
 * connected sensors, the same-type broadcast, and the two locked regions of a
 * connection handler -- registering a reading and handling a disconnect.
 * Each locked region runs start to finish, so each is one method here.
 */
module Relay {
  import opened Messages

  /** Capacity of the table (MAXIMO_CLIENTES). */
  const MaxClients: nat := 12

  /** One row of the table: the connection's socket and its last announced reading. */
  datatype ClientInfo = ClientInfo(socket: int, kind: string, coords: Coords, measurement: real)

  /** What one broadcast sends: `msg`, once to each socket of `targets`, in that order. */
  datatype Delivery = Delivery(targets: seq<int>, msg: SensorMessage)

  // ---------------------------------------------------------------------------
  // The table as a sequence: the first `count` slots of the array.
  // ---------------------------------------------------------------------------

  /** No socket occupies two rows. */
  predicate DistinctSockets(e: seq<ClientInfo>)
  {
    forall i, j :: 0 <= i < j < |e| ==> e[i].socket != e[j].socket
  }

  predicate Registered(e: seq<ClientInfo>, socket: int)
  {
    exists i :: 0 <= i < |e| && e[i].socket == socket
  }

  /** The row the handler's linear scan stops at: the first one holding `socket`. */
  function Find(e: seq<ClientInfo>, socket: int): (r: Option<nat>)
    ensures r.None? <==> forall i :: 0 <= i < |e| ==> e[i].socket != socket
    ensures r.Some? ==> r.value < |e| && e[r.value].socket == socket
    ensures r.Some? ==> forall j :: 0 <= j < r.value ==> e[j].socket != socket
  {
    if e == [] then None
    else if e[0].socket == socket then Some(0)
    else match Find(e[1..], socket)
      case None => None
      case Some(k) => Some(k + 1)
  }

  /**
   * The table after a reading `msg` arrives on `socket`: a known socket only has
   * its measurement refreshed; an unknown one is appended while there is room,
   * and silently not recorded once the table is full.
   */
  function Upserted(e: seq<ClientInfo>, socket: int, msg: SensorMessage): seq<ClientInfo>
  {
    match Find(e, socket)
    case Some(i) => e[i := e[i].(measurement := msg.measurement)]
    case None =>
      if |e| < MaxClients then e + [ClientInfo(socket, msg.kind, msg.coords, msg.measurement)]
      else e
  }

  /** Swap-removal of row `i`: the last row takes its slot and the table shrinks by one. */
  function RemovedAt(e: seq<ClientInfo>, i: nat): seq<ClientInfo>
    requires i < |e|
  {
    e[i := e[|e| - 1]][..|e| - 1]
  }

  /** The table after `socket` disconnects. */
  function Disconnected(e: seq<ClientInfo>, socket: int): seq<ClientInfo>
  {
    match Find(e, socket)
    case None => e
    case Some(i) => RemovedAt(e, i)
  }

  /** The notice a leaving client's peers receive: its type and place, measurement -1. */
  function RemovalNotice(c: ClientInfo): SensorMessage
  {
    SensorMessage(c.kind, c.coords, RemovedMeasurement)
  }

  /**
   * The sockets a broadcast of type `kind` from `sender` reaches, in row order:
   * every row of that type except the sender's own.
   */
  function Targets(e: seq<ClientInfo>, kind: string, sender: int): (r: seq<int>)
    ensures sender !in r
    ensures |r| <= |e|
  {
    if e == [] then []
    else
      var last := e[|e| - 1];
      Targets(e[..|e| - 1], kind, sender) + (if last.kind == kind && last.socket != sender then [last.socket] else [])
  }

  /** The broadcast a disconnect of `socket` triggers, if the socket had a row. */
  function Notice(e: seq<ClientInfo>, socket: int): Option<Delivery>
  {
    match Find(e, socket)
    case None => None
    case Some(i) => Some(Delivery(Targets(e, e[i].kind, socket), RemovalNotice(e[i])))
  }

  /** Reference view of the table: socket -> row, the identity-keyed mapping it stands for. */
  function View(e: seq<ClientInfo>): map<int, ClientInfo>
  {
    if e == [] then map[] else View(e[..|e| - 1])[e[|e| - 1].socket := e[|e| - 1]]
  }

  // ---------------------------------------------------------------------------
  // Properties of the reference view.
  // ---------------------------------------------------------------------------

  lemma {:induction false} ViewCharacterized(e: seq<ClientInfo>)
    requires DistinctSockets(e)
    ensures forall s :: s in View(e) <==> Registered(e, s)
    ensures forall i :: 0 <= i < |e| ==> e[i].socket in View(e) && View(e)[e[i].socket] == e[i]
    ensures |View(e)| == |e|
  {
    if e != [] {
      var p := e[..|e| - 1];
      ViewCharacterized(p);
      var last := e[|e| - 1];
      assert !Registered(p, last.socket);
      forall s ensures s in View(e) <==> Registered(e, s) {
        if Registered(e, s) {
          var i :| 0 <= i < |e| && e[i].socket == s;
          if i < |e| - 1 { assert p[i].socket == s; }
        }
        if s in View(p) {
          var i :| 0 <= i < |p| && p[i].socket == s;
          assert e[i].socket == s;
        }
      }
      forall i | 0 <= i < |e| ensures e[i].socket in View(e) && View(e)[e[i].socket] == e[i] {
        if i < |e| - 1 { assert p[i] == e[i]; }
      }
    }
  }

  /** A table stands for any mapping that has exactly its sockets and rows. */
  lemma ViewEquals(b: seq<ClientInfo>, m: map<int, ClientInfo>)
    requires DistinctSockets(b)
    requires forall s :: Registered(b, s) <==> s in m
    requires forall i :: 0 <= i < |b| ==> b[i].socket in m && m[b[i].socket] == b[i]
    ensures View(b) == m
  {
    ViewCharacterized(b);
    forall s ensures s in View(b) <==> s in m {
      assert s in View(b) <==> Registered(b, s);
    }
    assert View(b).Keys == m.Keys;
    forall s | s in m ensures View(b)[s] == m[s] {
      var i :| 0 <= i < |b| && b[i].socket == s;
    }
  }

  // ---------------------------------------------------------------------------
  // Registering a reading (src/server.c:64-83).
  // ---------------------------------------------------------------------------

  /** A reading from a registered socket changes only that row's measurement. */
  lemma UpsertRefreshes(e: seq<ClientInfo>, socket: int, msg: SensorMessage, i: nat)
    requires DistinctSockets(e)
    requires i < |e| && e[i].socket == socket
    ensures var r := Upserted(e, socket, msg);
      |r| == |e| &&
      r[i] == ClientInfo(socket, e[i].kind, e[i].coords, msg.measurement) &&
      forall j :: 0 <= j < |e| && j != i ==> r[j] == e[j]
  {
  }

  /** A reading from an unknown socket while there is room appends one row at the end. */
  lemma UpsertAppends(e: seq<ClientInfo>, socket: int, msg: SensorMessage)
    requires !Registered(e, socket) && |e| < MaxClients
    ensures Upserted(e, socket, msg) == e + [ClientInfo(socket, msg.kind, msg.coords, msg.measurement)]
  {
  }

  /** A reading from an unknown socket while the table is full leaves the table as it is. */
  lemma UpsertIgnoredWhenFull(e: seq<ClientInfo>, socket: int, msg: SensorMessage)
    requires !Registered(e, socket) && |e| >= MaxClients
    ensures Upserted(e, socket, msg) == e
  {
  }

  /** Registering keeps the table within capacity and free of duplicate sockets. */
  lemma UpsertKeepsInvariant(e: seq<ClientInfo>, socket: int, msg: SensorMessage)
    requires DistinctSockets(e) && |e| <= MaxClients
    ensures var r := Upserted(e, socket, msg);
      DistinctSockets(r) && |r| <= MaxClients && |e| <= |r| <= |e| + 1
  {
  }

  /** Refreshing row `i` in place: the mapping gets that socket's new measurement. */
  lemma RefreshView(e: seq<ClientInfo>, i: nat, measurement: real)
    requires DistinctSockets(e) && i < |e|
    ensures View(e[i := e[i].(measurement := measurement)]) ==
      View(e)[e[i].socket := e[i].(measurement := measurement)]
  {
    ViewCharacterized(e);
    var r := e[i := e[i].(measurement := measurement)];
    var m := View(e)[e[i].socket := e[i].(measurement := measurement)];
    assert forall k :: 0 <= k < |e| ==> r[k].socket == e[k].socket;
    forall s ensures Registered(r, s) <==> s in m {
      if s in m {
        var k :| 0 <= k < |e| && e[k].socket == s;
        assert r[k].socket == s;
      }
      if Registered(r, s) {
        var k :| 0 <= k < |r| && r[k].socket == s;
        assert e[k].socket == s;
      }
    }
    ViewEquals(r, m);
  }

  /** Against the reference mapping: refresh the measurement, insert while there is room, else nothing. */
  lemma UpsertView(e: seq<ClientInfo>, socket: int, msg: SensorMessage)
    requires DistinctSockets(e)
    ensures View(Upserted(e, socket, msg)) ==
      if socket in View(e) then View(e)[socket := View(e)[socket].(measurement := msg.measurement)]
      else if |e| < MaxClients then View(e)[socket := ClientInfo(socket, msg.kind, msg.coords, msg.measurement)]
      else View(e)
  {
    ViewCharacterized(e);
    var r := Upserted(e, socket, msg);
    match Find(e, socket)
    case Some(i) =>
      RefreshView(e, i, msg.measurement);
    case None =>
      if |e| < MaxClients {
        assert r[..|r| - 1] == e;
      }
  }

  // ---------------------------------------------------------------------------
  // Broadcast targets (src/server.c:35-44).
  // ---------------------------------------------------------------------------

  /** A socket is a target exactly when some row holds it with the broadcast's type and it is not the sender. */
  lemma {:induction false} TargetsMembership(e: seq<ClientInfo>, kind: string, sender: int, t: int)
    ensures t in Targets(e, kind, sender) <==>
      t != sender && exists i :: 0 <= i < |e| && e[i].kind == kind && e[i].socket == t
  {
    if e != [] {
      var p := e[..|e| - 1];
      TargetsMembership(p, kind, sender, t);
      if exists i :: 0 <= i < |e| && e[i].kind == kind && e[i].socket == t {
        var i :| 0 <= i < |e| && e[i].kind == kind && e[i].socket == t;
        if i < |e| - 1 { assert p[i] == e[i]; }
      }
      if exists i :: 0 <= i < |p| && p[i].kind == kind && p[i].socket == t {
        var i :| 0 <= i < |p| && p[i].kind == kind && p[i].socket == t;
        assert e[i] == p[i];
      }
    }
  }

  /** With distinct sockets, every target receives the broadcast exactly once. */
  lemma {:induction false} TargetsDistinct(e: seq<ClientInfo>, kind: string, sender: int)
    requires DistinctSockets(e)
    ensures var r := Targets(e, kind, sender);
      forall i, j :: 0 <= i < j < |r| ==> r[i] != r[j]
  {
    if e != [] {
      var p := e[..|e| - 1];
      var last := e[|e| - 1];
      TargetsDistinct(p, kind, sender);
      TargetsMembership(p, kind, sender, last.socket);
    }
  }

  /** Targets depend on each row's type and socket only. */
  lemma {:induction false} TargetsIgnoreMeasurements(a: seq<ClientInfo>, b: seq<ClientInfo>, kind: string, sender: int)
    requires |a| == |b|
    requires forall i :: 0 <= i < |a| ==> a[i].kind == b[i].kind && a[i].socket == b[i].socket
    ensures Targets(a, kind, sender) == Targets(b, kind, sender)
  {
    if a != [] {
      TargetsIgnoreMeasurements(a[..|a| - 1], b[..|b| - 1], kind, sender);
    }
  }

  /**
   * Broadcasting after the table update reaches the same sockets as broadcasting
   * before it: the row the update touches or adds is the sender's own.
   */
  lemma UpsertKeepsTargets(e: seq<ClientInfo>, socket: int, msg: SensorMessage, kind: string)
    ensures Targets(Upserted(e, socket, msg), kind, socket) == Targets(e, kind, socket)
  {
    var r := Upserted(e, socket, msg);
    match Find(e, socket)
    case Some(i) =>
      TargetsIgnoreMeasurements(r, e, kind, socket);
    case None =>
      if |e| < MaxClients {
        assert r[..|r| - 1] == e;
      }
  }

  /** A socket without a row in the table is not reached by a broadcast over that table. */
  lemma UnregisteredNeverTarget(e: seq<ClientInfo>, socket: int, kind: string, sender: int)
    requires !Registered(e, socket)
    ensures socket !in Targets(e, kind, sender)
  {
    TargetsMembership(e, kind, sender, socket);
  }

  /**
   * A socket turned away by a full table is not stuck there: once a disconnect
   * frees a row, a reading of it that arrives while the row is still free
   * appends a row for it, and later same-type broadcasts from another socket
   * reach it.
   */
  lemma RegistersOnceRowFrees(e: seq<ClientInfo>, leaving: int, socket: int, msg: SensorMessage, sender: int)
    requires DistinctSockets(e) && |e| == MaxClients
    requires Registered(e, leaving)
    requires !Registered(e, socket) && sender != socket
    ensures Upserted(e, socket, msg) == e
    ensures var later := Upserted(Disconnected(e, leaving), socket, msg);
      Registered(later, socket) && socket in Targets(later, msg.kind, sender)
  {
    var r := Disconnected(e, leaving);
    DisconnectView(e, leaving);
    ViewCharacterized(e);
    ViewCharacterized(r);
    assert !Registered(r, socket);
    UpsertAppends(r, socket, msg);
    var later := Upserted(r, socket, msg);
    assert later[|r|].socket == socket && later[|r|].kind == msg.kind;
    TargetsMembership(later, msg.kind, sender, socket);
  }

  /**
   * The freed row goes to whichever new socket reports first: if another
   * unregistered socket takes it, the table is full again and this socket's
   * reading is still ignored.
   */
  lemma FreedRowGoesToFirstComer(e: seq<ClientInfo>, leaving: int, other: int, otherMsg: SensorMessage,
                                 socket: int, msg: SensorMessage)
    requires DistinctSockets(e) && |e| == MaxClients
    requires Registered(e, leaving)
    requires !Registered(e, other) && !Registered(e, socket) && other != socket
    ensures var taken := Upserted(Disconnected(e, leaving), other, otherMsg);
      |taken| == MaxClients && Upserted(taken, socket, msg) == taken && !Registered(taken, socket)
  {
    var r := Disconnected(e, leaving);
    DisconnectView(e, leaving);
    ViewCharacterized(e);
    ViewCharacterized(r);
    assert !Registered(r, other) && !Registered(r, socket);
    UpsertAppends(r, other, otherMsg);
    var taken := Upserted(r, other, otherMsg);
    UpsertView(r, other, otherMsg);
    ViewCharacterized(taken);
    assert !Registered(taken, socket);
    UpsertIgnoredWhenFull(taken, socket, msg);
  }

  // ---------------------------------------------------------------------------
  // Disconnect (src/server.c:95-117).
  // ---------------------------------------------------------------------------

  /** Swap-removal takes out exactly the removed row and keeps every other one. */
  lemma RemovedAtMultiset(e: seq<ClientInfo>, i: nat)
    requires i < |e|
    ensures |RemovedAt(e, i)| == |e| - 1
    ensures multiset(RemovedAt(e, i)) == multiset(e) - multiset{e[i]}
  {
    var n := |e| - 1;
    var p := e[..n];
    assert e == p + [e[n]];
    if i < n {
      assert RemovedAt(e, i) == p[i := e[n]];
      calc {
        multiset(p[i := e[n]]);
        multiset(p) - multiset{p[i]} + multiset{e[n]};
        multiset(p) + multiset{e[n]} - multiset{e[i]};
        multiset(e) - multiset{e[i]};
      }
    } else {
      assert RemovedAt(e, i) == p;
    }
  }

  /** After a disconnect the leaving socket is gone and every other client keeps its row. */
  lemma DisconnectView(e: seq<ClientInfo>, socket: int)
    requires DistinctSockets(e) && |e| <= MaxClients
    ensures var r := Disconnected(e, socket);
      DistinctSockets(r) && |r| <= MaxClients &&
      View(r) == View(e) - {socket} &&
      |r| == if Registered(e, socket) then |e| - 1 else |e|
  {
    ViewCharacterized(e);
    match Find(e, socket)
    case None =>
      assert View(e) - {socket} == View(e);
    case Some(i) =>
      var r := RemovedAt(e, i);
      var n := |e| - 1;
      assert forall k :: 0 <= k < n ==> r[k] == if k == i then e[n] else e[k];
      assert DistinctSockets(r);
      var m := View(e) - {socket};
      forall s ensures Registered(r, s) <==> s in m {
        if s in m {
          var k :| 0 <= k < |e| && e[k].socket == s;
          if k == n { assert r[i].socket == s; } else { assert r[k].socket == s; }
        }
        if Registered(r, s) {
          var k :| 0 <= k < |r| && r[k].socket == s;
          if k == i { assert e[n].socket == s; } else { assert e[k].socket == s; }
        }
      }
      forall k | 0 <= k < |r| ensures r[k].socket in m && m[r[k].socket] == r[k] {
        if k == i { assert r[k] == e[n]; } else { assert r[k] == e[k]; }
      }
      ViewEquals(r, m);
  }

  /** A disconnect of a socket without a row changes nothing and broadcasts nothing. */
  lemma DisconnectUnknown(e: seq<ClientInfo>, socket: int)
    requires !Registered(e, socket)
    ensures Disconnected(e, socket) == e && Notice(e, socket) == None
  {
  }

  /**
   * The removal notice carries the leaving row's type and place with measurement
   * -1, and goes exactly to the same-type clients that remain.
   */
  lemma NoticeReachesRemainingPeers(e: seq<ClientInfo>, socket: int, i: nat, t: int)
    requires DistinctSockets(e) && |e| <= MaxClients
    requires i < |e| && e[i].socket == socket
    ensures Notice(e, socket).Some?
    ensures Notice(e, socket).value.msg == SensorMessage(e[i].kind, e[i].coords, -1.0)
    ensures t in Notice(e, socket).value.targets <==>
      t in View(Disconnected(e, socket)) && View(Disconnected(e, socket))[t].kind == e[i].kind
  {
    DisconnectView(e, socket);
    ViewCharacterized(e);
    TargetsMembership(e, e[i].kind, socket, t);
    if t in View(e) && t != socket && View(e)[t].kind == e[i].kind {
      var k :| 0 <= k < |e| && e[k].socket == t;
    }
  }

  /** The scan's first match at `i` fixes both the removal and its notice. */
  lemma DisconnectFoundAt(e: seq<ClientInfo>, socket: int, i: nat)
    requires DistinctSockets(e) && |e| <= MaxClients
    requires i < |e| && e[i].socket == socket
    requires forall j :: 0 <= j < i ==> e[j].socket != socket
    ensures Disconnected(e, socket) == RemovedAt(e, i)
    ensures DistinctSockets(RemovedAt(e, i))
    ensures Notice(e, socket) == Some(Delivery(Targets(e, e[i].kind, socket), RemovalNotice(e[i])))
  {
    assert Find(e, socket) == Some(i);
    DisconnectView(e, socket);
  }

  // ---------------------------------------------------------------------------
  // The table itself: arrayClients and contagemCliente.
  // ---------------------------------------------------------------------------

  class Registry {
    var clients: array<ClientInfo>
    var count: nat

    ghost predicate Valid()
      reads this, clients
    {
      clients.Length == MaxClients && count <= MaxClients && DistinctSockets(clients[..count])
    }

    /** The occupied rows, in slot order. */
    function Entries(): seq<ClientInfo>
      reads this, clients
      requires count <= clients.Length
    {
      clients[..count]
    }

    /** The zero-initialised global table. */
    constructor ()
      ensures Valid() && fresh(clients) && Entries() == []
    {
      clients := new ClientInfo[MaxClients];
      count := 0;
    }

    /** menssagemBroadCast: the rows of type `kind` other than `sender`, visited in slot order. */
    method Broadcast(msg: SensorMessage, kind: string, sender: int) returns (d: Delivery)
      requires Valid()
      ensures d == Delivery(Targets(Entries(), kind, sender), msg)
    {
      var targets: seq<int> := [];
      var i := 0;
      while i < count
        invariant 0 <= i <= count
        invariant targets == Targets(clients[..i], kind, sender)
      {
        if clients[i].kind == kind && clients[i].socket != sender {
          targets := targets + [clients[i].socket];
        }
        assert clients[..i + 1][..i] == clients[..i];
        i := i + 1;
      }
      d := Delivery(targets, msg);
    }

    /** One received reading, under the lock: update or append the sender's row, then broadcast. */
    method HandleMessage(socket: int, msg: SensorMessage) returns (d: Delivery)
      requires Valid()
      modifies this, clients
      ensures Valid() && clients == old(clients)
      ensures Entries() == Upserted(old(Entries()), socket, msg)
      ensures d == Delivery(Targets(Entries(), msg.kind, socket), msg)
    {
      ghost var before := Entries();
      var found := false;
      var i := 0;
      while i < count && !found
        invariant 0 <= i <= count && count == old(count) && clients == old(clients)
        invariant !found ==> clients[..count] == before && forall j :: 0 <= j < i ==> before[j].socket != socket
        invariant found ==> i < count && Find(before, socket) == Some(i) &&
                            clients[..count] == before[i := before[i].(measurement := msg.measurement)]
        decreases count - i, !found
      {
        if clients[i].socket == socket {
          clients[i] := clients[i].(measurement := msg.measurement);
          found := true;
        } else {
          i := i + 1;
        }
      }
      if !found && count < MaxClients {
        clients[count] := ClientInfo(socket, msg.kind, msg.coords, msg.measurement);
        count := count + 1;
        assert clients[..count] == before + [ClientInfo(socket, msg.kind, msg.coords, msg.measurement)];
      }
      UpsertKeepsInvariant(before, socket, msg);
      d := Broadcast(msg, msg.kind, socket);
    }

    /**
     * The connection closed, under the lock: if it had a row, tell its same-type
     * peers with a removal notice, then move the last row into its slot.
     */
    method HandleDisconnect(socket: int) returns (notice: Option<Delivery>)
      requires Valid()
      modifies this, clients
      ensures Valid() && clients == old(clients)
      ensures Entries() == Disconnected(old(Entries()), socket)
      ensures notice == Notice(old(Entries()), socket)
    {
      ghost var before := Entries();
      notice := None;
      var i := 0;
      while i < count
        invariant 0 <= i <= count && count == old(count) && clients == old(clients)
        invariant clients[..count] == before
        invariant forall j :: 0 <= j < i ==> before[j].socket != socket
      {
        if clients[i].socket == socket {
          DisconnectFoundAt(before, socket, i);
          var removal := SensorMessage(clients[i].kind, clients[i].coords, RemovedMeasurement);
          var d := Broadcast(removal, clients[i].kind, socket);
          notice := Some(d);
          clients[i] := clients[count - 1];
          count := count - 1;
          assert clients[..count] == RemovedAt(before, i);
          return;
        }
        i := i + 1;
      }
    }
  }
}
