/** The probes that follow TCP connections of watched processes, each an atomic step on two shared
    tables, and the events they send. */
module TcpEvents {

  const RECV: nat := 1
  const SEND: nat := 2
  const CONNECT: nat := 3
  const DISCONNECT: nat := 4

  datatype Conn = Conn(peerAddr: nat, myAddr: nat, peerPort: nat, myPort: nat)

  datatype ConnState = ConnState(kind: nat, prevTime: nat)

  datatype Event = Event(curTs: nat, kind: nat, pid: nat, conn: Conn)

  /** The events of one connection. */
  function Of(es: seq<Event>, c: Conn): (r: seq<Event>)
    ensures forall k :: 0 <= k < |r| ==> r[k].conn == c
    ensures |r| <= |es|
  {
    if es == [] then []
    else Of(es[..|es| - 1], c) + if es[|es| - 1].conn == c then [es[|es| - 1]] else []
  }

  lemma OfSnoc(es: seq<Event>, e: Event, c: Conn)
    ensures Of(es + [e], c) == Of(es, c) + if e.conn == c then [e] else []
  {
    assert (es + [e])[..|es|] == es;
  }

  /** A connection's events: it starts with an accept, and what is not an accept is not the same as
      the event before, which is not a close. */
  predicate LegalTrace(t: seq<Event>) {
    forall k :: 0 <= k < |t| ==>
      RECV <= t[k].kind <= DISCONNECT &&
      (t[k].kind != CONNECT ==> k > 0 && t[k - 1].kind != t[k].kind && t[k - 1].kind != DISCONNECT)
  }

  predicate Ordered(es: seq<Event>, now: nat) {
    (forall i, j :: 0 <= i < j < |es| ==> es[i].curTs <= es[j].curTs) &&
    forall i :: 0 <= i < |es| ==> es[i].curTs <= now
  }

  /** What a probe sends: an event if the process is watched at more than some level, and the
      connection is known and in another state. */
  function Sent(control: map<nat, nat>, m: map<Conn, ConnState>, pid: nat, conn: Conn, kind: nat, level: int, now: nat): seq<Event> {
    if pid in control && control[pid] > level && conn in m && m[conn].kind != kind then [Event(now, kind, pid, conn)] else []
  }

  /** What a process or user space does next; the connection is what the socket holds then. */
  datatype Step =
    | SetControl(pid: nat, verbose: nat)
    | ClearControl(pid: nat)
    | AcceptEnter(pid: nat, sock: nat)
    | AcceptReturn(pid: nat, conn: Conn)
    | Send(pid: nat, conn: Conn)
    | CleanupRbuf(pid: nat, copied: int, conn: Conn)
    | Close(pid: nat, conn: Conn)

  class Probes {
    var controlMap: map<nat, nat>
    var ptrMap: map<nat, nat>
    var connMap: map<Conn, ConnState>
    var events: seq<Event>
    var clock: nat

    constructor ()
      ensures Valid() && events == [] && connMap == map[]
    {
      controlMap, ptrMap, connMap, events, clock := map[], map[], map[], [], 0;
    }

    ghost predicate Valid()
      reads this
    {
      Good(events, clock, connMap)
    }

    method Ktime() returns (t: nat)
      modifies this`clock
      ensures t == clock >= old(clock)
    {
      var passed: nat :| true;
      clock := clock + passed;
      return clock;
    }

    method EmitEvent(pid: nat, conn: Conn, kind: nat)
      modifies this`events, this`clock
      ensures clock >= old(clock) && events == old(events) + [Event(clock, kind, pid, conn)]
    {
      var now := Ktime();
      events := events + [Event(now, kind, pid, conn)];
    }

    method CheckState(pid: nat, conn: Conn, kind: nat)
      modifies this`connMap, this`events, this`clock
      ensures clock >= old(clock)
      ensures conn in old(connMap) ==> conn in connMap && connMap == old(connMap)[conn := connMap[conn]] && connMap[conn].kind == kind
      ensures conn !in old(connMap) ==> connMap == old(connMap)
      ensures events == old(events) + if conn in old(connMap) && old(connMap)[conn].kind != kind then [Event(clock, kind, pid, conn)] else []
    {
      if conn in connMap {
        var now := Ktime();
        var state := connMap[conn].(prevTime := now);
        connMap := connMap[conn := state];
        if state.kind != kind {
          connMap := connMap[conn := state.(kind := kind)];
          EmitEvent(pid, conn, kind);
        }
      }
    }

    /** Remembers the socket of a watched process, if there is room. */
    method KprobeAccept(pid: nat, sock: nat)
      modifies this`ptrMap
      ensures pid !in controlMap ==> ptrMap == old(ptrMap)
      ensures pid in controlMap ==> ptrMap == old(ptrMap)[pid := sock] || (pid !in old(ptrMap) && ptrMap == old(ptrMap))
    {
      if pid !in controlMap { return; }
      var full: bool := *;
      if pid in ptrMap || !full { ptrMap := ptrMap[pid := sock]; }
    }

    method KretprobeMoveAddrToUser(pid: nat, conn: Conn)
      requires Valid()
      modifies this
      ensures Valid() && controlMap == old(controlMap) && ptrMap == old(ptrMap) - {pid}
      ensures events == old(events) + if pid in old(ptrMap) then [Event(clock, CONNECT, pid, conn)] else []
      ensures pid !in old(ptrMap) ==> connMap == old(connMap)
      ensures pid in old(ptrMap) ==> connMap - {conn} == old(connMap) - {conn} && (conn in old(connMap) ==> conn in connMap)
    {
      hide Good;
      if pid !in ptrMap { return; }
      ptrMap := ptrMap - {pid};
      var now := Ktime();
      var full: bool := *;
      if conn in connMap || !full { connMap := connMap[conn := ConnState(CONNECT, now)]; }
      EmitEvent(pid, conn, CONNECT);
      Emitted(old(events), old(clock), old(connMap), events[|events| - 1], connMap);
    }

    method KprobeTcpSendmsg(pid: nat, conn: Conn)
      requires Valid()
      modifies this`connMap, this`events, this`clock
      ensures Valid()
      ensures events == old(events) + Sent(controlMap, old(connMap), pid, conn, SEND, 1, clock)
      ensures connMap.Keys == old(connMap.Keys) && connMap - {conn} == old(connMap) - {conn}
    {
      hide Good;
      if pid !in controlMap || controlMap[pid] <= 1 { return; }
      CheckState(pid, conn, SEND);
      Checked(old(events), old(clock), old(connMap), events, clock, connMap, conn);
    }

    method KprobeTcpCleanupRbuf(pid: nat, copied: int, conn: Conn)
      requires Valid()
      modifies this`connMap, this`events, this`clock
      ensures Valid()
      ensures events == old(events) + if copied > 0 then Sent(controlMap, old(connMap), pid, conn, RECV, 1, clock) else []
      ensures connMap.Keys == old(connMap.Keys) && connMap - {conn} == old(connMap) - {conn}
    {
      hide Good;
      if copied <= 0 { return; }
      if pid !in controlMap || controlMap[pid] <= 1 { return; }
      CheckState(pid, conn, RECV);
      Checked(old(events), old(clock), old(connMap), events, clock, connMap, conn);
    }

    method KprobeTcpClose(pid: nat, conn: Conn)
      requires Valid()
      modifies this`connMap, this`events, this`clock
      ensures Valid()
      ensures events == old(events) + Sent(controlMap, old(connMap), pid, conn, DISCONNECT, -1, clock)
      ensures connMap == if pid in controlMap then old(connMap) - {conn} else old(connMap)
    {
      hide Good;
      if pid !in controlMap { return; }
      CheckState(pid, conn, DISCONNECT);
      connMap := connMap - {conn};
      Checked(old(events), old(clock), old(connMap), events, clock, connMap, conn);
    }

    /** Any steps in any order: the events of every connection form a legal trace. */
    method Run(steps: seq<Step>)
      requires Valid()
      modifies this
      ensures Valid() && old(events) <= events
      ensures Ordered(events, clock) && forall c :: LegalTrace(Of(events, c))
    {
      for i := 0 to |steps|
        invariant Valid() && old(events) <= events
      {
        match steps[i]
        case SetControl(pid, verbose) => controlMap := controlMap[pid := verbose];
        case ClearControl(pid) => controlMap := controlMap - {pid};
        case AcceptEnter(pid, sock) => KprobeAccept(pid, sock);
        case AcceptReturn(pid, conn) => KretprobeMoveAddrToUser(pid, conn);
        case Send(pid, conn) => KprobeTcpSendmsg(pid, conn);
        case CleanupRbuf(pid, copied, conn) => KprobeTcpCleanupRbuf(pid, copied, conn);
        case Close(pid, conn) => KprobeTcpClose(pid, conn);
      }
      GoodMeans(events, clock, connMap);
    }
  }

  /** The state of a connection: legal so far; and if it is known, it is open, and its state is the
      kind of its last event. */
  ghost predicate GoodFor(es: seq<Event>, m: map<Conn, ConnState>, c: Conn) {
    var t := Of(es, c);
    LegalTrace(t) && (c in m ==> t != [] && t[|t| - 1].kind == m[c].kind && m[c].kind != DISCONNECT)
  }

  ghost predicate Good(es: seq<Event>, now: nat, m: map<Conn, ConnState>) {
    Ordered(es, now) && forall c :: GoodFor(es, m, c)
  }

  lemma GoodMeans(es: seq<Event>, now: nat, m: map<Conn, ConnState>)
    ensures Good(es, now, m) ==> Ordered(es, now) && forall c :: LegalTrace(Of(es, c))
  {
    if Good(es, now, m) {
      forall c ensures LegalTrace(Of(es, c)) { assert GoodFor(es, m, c); }
    }
  }

  /** An event that may come next, with a table that differs only for its connection. */
  lemma Emitted(es: seq<Event>, was: nat, m: map<Conn, ConnState>, e: Event, m': map<Conn, ConnState>)
    requires Good(es, was, m) && was <= e.curTs && RECV <= e.kind <= DISCONNECT
    requires e.kind != CONNECT ==> e.conn in m && m[e.conn].kind != e.kind
    requires m' - {e.conn} == m - {e.conn}
    requires e.conn in m' ==> m'[e.conn].kind == e.kind != DISCONNECT
    ensures Good(es + [e], e.curTs, m')
  {
    forall c ensures GoodFor(es + [e], m', c) {
      OfSnoc(es, e, c);
      assert GoodFor(es, m, c);
      assert c != e.conn && c in m' ==> c in m' - {e.conn};
      if c == e.conn { LegalSnoc(Of(es, c), e); } else { assert Of(es + [e], c) == Of(es, c); }
    }
  }

  lemma LegalSnoc(t: seq<Event>, e: Event)
    requires LegalTrace(t) && RECV <= e.kind <= DISCONNECT
    requires e.kind != CONNECT ==> t != [] && t[|t| - 1].kind != e.kind && t[|t| - 1].kind != DISCONNECT
    ensures LegalTrace(t + [e])
  {
  }

  lemma Checked(es: seq<Event>, was: nat, m: map<Conn, ConnState>, es': seq<Event>, now: nat, m': map<Conn, ConnState>, conn: Conn)
    requires Good(es, was, m) && was <= now && m' - {conn} == m - {conn} && (conn in m' ==> conn in m)
    requires
      (es' == es && (conn in m' ==> m'[conn].kind == m[conn].kind)) ||
      (conn in m && |es'| == |es| + 1 && es'[..|es|] == es &&
       (var e := es'[|es|];
        e.conn == conn && e.curTs == now && RECV <= e.kind <= DISCONNECT && m[conn].kind != e.kind && (conn in m' ==> m'[conn].kind == e.kind != DISCONNECT)))
    ensures Good(es', now, m')
  {
    if es' == es {
      forall c ensures GoodFor(es, m', c) {
        assert GoodFor(es, m, c);
        assert c != conn && c in m' ==> c in m' - {conn};
      }
    } else {
      assert es' == es + [es'[|es|]];
      Emitted(es, was, m, es'[|es|], m');
    }
  }
}
