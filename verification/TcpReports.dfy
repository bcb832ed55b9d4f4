/** The user-space half: each event is reported with the kind of the connection's event before, and
    the time since. */
module TcpReports {
  import opened Words
  import opened Options
  import opened TcpEvents

  datatype Report = Report(pid: nat, conn: Conn, eventType: string, prevType: Option<string>, duration: Option<int>)

  function TypeName(kind: nat): string {
    match kind
    case 1 => "recv"
    case 2 => "send"
    case 3 => "accept"
    case 4 => "close"
    case _ => "unknown"
  }

  /** The difference of two unsigned 64-bit times as a signed number. */
  function Int64Diff(a: nat, b: nat): (d: int)
    ensures 0 <= a - b < WORD64 / 2 ==> d == a - b
    ensures (d - (a - b)) % WORD64 == 0
  {
    var x := (a - b) % WORD64;
    if x < WORD64 / 2 then x else x - WORD64
  }

  /** The reports of one connection. */
  function ReportsOf(rs: seq<Report>, c: Conn): (r: seq<Report>) {
    if rs == [] then []
    else ReportsOf(rs[..|rs| - 1], c) + if rs[|rs| - 1].conn == c then [rs[|rs| - 1]] else []
  }

  lemma ReportsSnoc(rs: seq<Report>, r: Report, c: Conn)
    ensures ReportsOf(rs + [r], c) == ReportsOf(rs, c) + if r.conn == c then [r] else []
  {
    assert (rs + [r])[..|rs|] == rs;
  }

  /** Report k says what event k is and what was before it. */
  predicate TellsAt(t: seq<Event>, rs: seq<Report>, k: nat)
    requires k < |t| && k < |rs|
  {
    rs[k].eventType == TypeName(t[k].kind) && rs[k].pid == t[k].pid &&
    rs[k].prevType == (if k == 0 then None else Some(TypeName(t[k - 1].kind))) &&
    rs[k].duration == (if k == 0 then None else Some(Int64Diff(t[k].curTs, t[k - 1].curTs)))
  }

  predicate Tells(t: seq<Event>, rs: seq<Report>) {
    |rs| == |t| && forall k :: 0 <= k < |t| ==> TellsAt(t, rs, k)
  }

  /** The words of a report are those of the event it was made for and of the one before: 1 is a receive,
      2 a send, 3 an accept, 4 a close, and nothing else has a name. */
  lemma ReportsNameEvents(t: seq<Event>, rs: seq<Report>, k: nat, kind: nat, name: string)
    requires Tells(t, rs) && k < |rs|
    requires (kind, name) in {(1, "recv"), (2, "send"), (3, "accept"), (4, "close")}
    ensures rs[k].eventType == name <==> t[k].kind == kind
    ensures k > 0 ==> rs[k].prevType.Some? && (rs[k].prevType.value == name <==> t[k - 1].kind == kind)
    ensures !(1 <= t[k].kind <= 4) ==> rs[k].eventType == "unknown"
  {
    assert TellsAt(t, rs, k);
    NamesDiffer(t[k].kind, kind);
    if k > 0 { NamesDiffer(t[k - 1].kind, kind); }
  }

  lemma NamesDiffer(a: nat, b: nat)
    requires 1 <= b <= 4
    ensures TypeName(a) == TypeName(b) <==> a == b
  {
    assert TypeName(1)[0] == 'r' && TypeName(2)[0] == 's' && TypeName(3)[0] == 'a' && TypeName(4)[0] == 'c';
    assert "unknown"[0] == 'u';
  }

  lemma TellsInit(t: seq<Event>, rs: seq<Report>)
    requires Tells(t, rs) && t != []
    ensures Tells(t[..|t| - 1], rs[..|rs| - 1]) && TellsAt(t, rs, |t| - 1)
  {
    hide TypeName, Int64Diff;
    var t', rs' := t[..|t| - 1], rs[..|rs| - 1];
    forall k | 0 <= k < |t'| ensures TellsAt(t', rs', k) { assert TellsAt(t, rs, k); }
  }

  lemma TellsSnoc(t: seq<Event>, rs: seq<Report>, e: Event, r: Report)
    requires Tells(t, rs)
    requires r.eventType == TypeName(e.kind) && r.pid == e.pid
    requires r.prevType == if t == [] then None else Some(TypeName(t[|t| - 1].kind))
    requires r.duration == if t == [] then None else Some(Int64Diff(e.curTs, t[|t| - 1].curTs))
    ensures Tells(t + [e], rs + [r])
  {
    hide TypeName, Int64Diff;
    forall k | 0 <= k < |t| ensures TellsAt(t + [e], rs + [r], k) { assert TellsAt(t, rs, k); }
  }

  function TotalDuration(rs: seq<Report>): int {
    if rs == [] then 0
    else TotalDuration(rs[..|rs| - 1]) + if rs[|rs| - 1].duration.Some? then rs[|rs| - 1].duration.value else 0
  }

  /** The durations of a connection add up to the time between its first and last event. */
  lemma {:induction false} DurationsAddUp(t: seq<Event>, rs: seq<Report>)
    requires Tells(t, rs) && t != []
    requires forall k :: 0 < k < |t| ==> 0 <= t[k].curTs - t[k - 1].curTs < WORD64 / 2
    ensures TotalDuration(rs) == t[|t| - 1].curTs - t[0].curTs
  {
    var n := |t| - 1;
    if n > 0 {
      TellsInit(t, rs);
      DurationsAddUp(t[..n], rs[..n]);
    } else {
      assert TellsAt(t, rs, 0);
      assert rs[..0] == [];
    }
  }

  /** With times in any order they still do, up to wrap-around. */
  lemma {:induction false} DurationsAddUpWrapped(t: seq<Event>, rs: seq<Report>)
    requires Tells(t, rs) && t != []
    ensures (TotalDuration(rs) - (t[|t| - 1].curTs - t[0].curTs)) % WORD64 == 0
  {
    var n := |t| - 1;
    if n > 0 {
      TellsInit(t, rs);
      DurationsAddUpWrapped(t[..n], rs[..n]);
    } else {
      assert TellsAt(t, rs, 0);
      assert rs[..0] == [];
    }
  }

  /** Reports of legal traces: only an accept comes first or after a close, and nothing but an accept
      comes twice in a row. */
  lemma LegalReports(t: seq<Event>, rs: seq<Report>, k: nat)
    requires LegalTrace(t) && Tells(t, rs) && k < |rs| && rs[k].eventType != "accept"
    ensures rs[k].prevType.Some? && rs[k].prevType.value != rs[k].eventType && rs[k].prevType.value != "close"
  {
    assert TellsAt(t, rs, k);
    assert t[k].kind != CONNECT;
    assert RECV <= t[k - 1].kind <= DISCONNECT;
  }

  // The buffer -------------------------------------------------------------------------------

  /** What is made for one event; it never changes. */
  class Data {
    const report: Report

    constructor (report: Report)
      ensures this.report == report
    {
      this.report := report;
    }
  }

  /** A slice handed out: the first n slots of an array that may still be written to. */
  datatype Batch = Batch(slots: array<Data?>, n: nat)

  /** Data made in order: no object twice, and each with its report. */
  ghost predicate Made(made: seq<Data>, rs: seq<Report>) {
    |made| == |rs| && (forall i :: 0 <= i < |made| ==> made[i].report == rs[i]) &&
    forall i, j :: 0 <= i < j < |made| ==> made[i] != made[j]
  }

  /** x was made at or after position `from`. */
  ghost predicate MadeSince(made: seq<Data>, from: nat, x: Data?) {
    exists j :: from <= j < |made| && made[j] == x
  }

  /** A batch of what was made up to `end`: it is whole as long as nothing more has been made, and
      from then on its first slot has something newer. */
  ghost predicate Held(b: Batch, end: nat, made: seq<Data>)
    reads b.slots
  {
    0 < b.n <= b.slots.Length && b.n <= end <= |made| &&
    if end == |made| then b.slots[..b.n] == made[end - b.n..end] else MadeSince(made, end, b.slots[0])
  }

  lemma HeldNow(b: Batch, made: seq<Data>)
    requires 0 < b.n <= b.slots.Length && b.n <= |made| && b.slots[..b.n] == made[|made| - b.n..]
    ensures Held(b, |made|, made)
  {
  }

  lemma HeldUntouched(b: Batch, end: nat, made: seq<Data>, d: Data)
    requires 0 < b.n <= b.slots.Length && b.n <= end < |made| && MadeSince(made, end, b.slots[0])
    ensures Held(b, end, made + [d])
  {
    var j :| end <= j < |made| && made[j] == b.slots[0];
    assert (made + [d])[j] == b.slots[0];
  }

  lemma HeldOverwritten(b: Batch, end: nat, made: seq<Data>, d: Data)
    requires 0 < b.n <= b.slots.Length && b.n <= end <= |made| && b.slots[0] == d
    ensures Held(b, end, made + [d])
  {
    assert (made + [d])[|made|] == d;
  }

  /** A batch is whole exactly as long as nothing has been made since it was handed out. */
  lemma WholeExactly(b: Batch, end: nat, made: seq<Data>, rs: seq<Report>)
    requires Held(b, end, made) && Made(made, rs)
    ensures b.slots[..b.n] == made[end - b.n..end] <==> end == |made|
  {
    if end < |made| {
      var j :| end <= j < |made| && made[j] == b.slots[0];
      assert b.slots[..b.n][0] == made[j] && made[end - b.n..end][0] == made[end - b.n];
    }
  }

  /** The batches lie end to end, and the buffer begins where the last one ends. */
  ghost predicate Lined(sent: seq<Batch>, ends: seq<nat>, total: nat, waiting: nat) {
    |ends| == |sent| && EndOf(ends, |ends|) + waiting == total &&
    forall i {:trigger sent[i]} :: 0 <= i < |sent| ==> EndOf(ends, i) + sent[i].n == ends[i] <= total
  }

  /** Where the first n batches end. */
  ghost function EndOf(ends: seq<nat>, n: nat): nat {
    if 0 < n <= |ends| then ends[n - 1] else 0
  }

  /** Only the batch handed out last can still be whole; it has the buffer's array, and nothing waits. */
  ghost predicate Latest(sent: seq<Batch>, ends: seq<nat>, total: nat, slots: array<Data?>, waiting: nat) {
    |ends| == |sent| && forall i {:trigger sent[i]} :: 0 <= i < |sent| && ends[i] == total ==> sent[i].slots == slots && waiting == 0
  }

  lemma LinedHandOut(sent: seq<Batch>, ends: seq<nat>, total: nat, slots: array<Data?>, waiting: nat)
    requires Lined(sent, ends, total, waiting) && Latest(sent, ends, total, slots, waiting) && waiting > 0
    ensures Lined(sent + [Batch(slots, waiting)], ends + [total], total, 0)
    ensures Latest(sent + [Batch(slots, waiting)], ends + [total], total, slots, 0)
  {
    var sent', ends' := sent + [Batch(slots, waiting)], ends + [total];
    forall i {:trigger sent'[i]} | 0 <= i < |sent'| ensures EndOf(ends', i) + sent'[i].n == ends'[i] <= total {
      assert i < |sent| ==> sent'[i] == sent[i] && EndOf(ends', i) == EndOf(ends, i);
    }
    assert forall i {:trigger sent'[i]} :: 0 <= i < |sent'| && ends'[i] == total ==> sent'[i].slots == slots by {
      assert forall i {:trigger sent'[i]} :: 0 <= i < |sent| ==> sent'[i] == sent[i] && ends'[i] == ends[i];
    }
  }

  lemma LinedMore(sent: seq<Batch>, ends: seq<nat>, total: nat, slots: array<Data?>, waiting: nat)
    requires Lined(sent, ends, total, waiting)
    ensures Lined(sent, ends, total + 1, waiting + 1) && Latest(sent, ends, total + 1, slots, waiting + 1)
  {
  }

  lemma OneMoreMade(made: seq<Data>, rs: seq<Report>, d: Data)
    requires Made(made, rs) && d !in made
    ensures Made(made + [d], rs + [d.report])
  {
  }

  /** A batch read when `moment` events had been received. */
  datatype Reading = Reading(batch: nat, moment: nat, data: seq<Data?>)

  /** What the collector and an exporter do next. */
  datatype Act = Receive(e: Event) | Export | Read(batch: nat)

  function EventsOf(acts: seq<Act>): (es: seq<Event>) {
    if acts == [] then []
    else EventsOf(acts[..|acts| - 1]) + if acts[|acts| - 1].Receive? then [acts[|acts| - 1].e] else []
  }

  class Collector {
    var machine: map<Conn, Event>
    /** The buffer, a slice: the first len slots of an array. */
    var slots: array<Data?>
    var len: nat
    /** The batches handed out. */
    var sent: seq<Batch>
    /** All events received, and the data and reports made of them. */
    ghost var received: seq<Event>
    ghost var made: seq<Data>
    ghost var reported: seq<Report>
    /** How much had been made when each batch was handed out. */
    ghost var ends: seq<nat>

    constructor ()
      ensures Valid() && received == [] && len == 0 && sent == [] && ends == [] && fresh(slots)
    {
      machine, received, made, reported := map[], [], [], [];
      slots := new Data?[0];
      len, sent, ends := 0, [], [];
    }

    ghost predicate Buffered()
      reads this`slots, this`len, this`made, slots
    {
      len <= slots.Length && len <= |made| && slots[..len] == made[|made| - len..]
    }

    ghost predicate Sent()
      reads this`sent, this`ends, this`made, this`len, this`slots
      reads set i | 0 <= i < |sent| :: sent[i].slots
    {
      |ends| == |sent| && Lined(sent, ends, |made|, len) && Latest(sent, ends, |made|, slots, len) &&
      forall i {:trigger sent[i]} {:trigger ends[i]} :: 0 <= i < |sent| ==> Held(sent[i], ends[i], made)
    }

    ghost predicate Valid()
      reads this, slots
      reads set i | 0 <= i < |sent| :: sent[i].slots
    {
      Made(made, reported) && |received| == |made| && Buffered() && Sent() &&
      forall c :: Follows(received, reported, machine, c)
    }

    /** Puts one more pointer behind the others, in the same array as long as there is room. */
    method Append(d: Data)
      requires Buffered() && Sent() && d !in made
      modifies this`slots, this`len, this`made, slots
      ensures Buffered() && Sent() && made == old(made) + [d] && len == old(len) + 1
      ensures slots == old(slots) || fresh(slots)
    {
      hide Held, Lined, Latest;
      if len == slots.Length { Enlarge(); }
      WriteNext(d);
    }

    /** Writes behind the buffer; batches of which nothing is left to lose keep a newer first slot. */
    method PutAtEnd(d: Data)
      requires Sent() && len < slots.Length
      modifies slots
      ensures slots[..len] == old(slots[..len]) && slots[len] == d
      ensures forall i :: 0 <= i < |sent| && !(len == 0 && sent[i].slots == slots) ==>
        ends[i] < |made| && MadeSince(made, ends[i], sent[i].slots[0])
    {
      hide MadeSince;
      assert forall i :: 0 <= i < |sent| && ends[i] < |made| ==> MadeSince(made, ends[i], sent[i].slots[0]);
      slots[len] := d;
    }

    lemma AllHeldNext(was: seq<Data>, d: Data)
      requires made == was + [d] && len < slots.Length && slots[len] == d && |sent| == |ends|
      requires forall i {:trigger sent[i]} :: 0 <= i < |sent| ==> 0 < sent[i].n <= sent[i].slots.Length && sent[i].n <= ends[i] <= |was|
      requires forall i :: 0 <= i < |sent| && !(len == 0 && sent[i].slots == slots) ==> ends[i] < |was| && MadeSince(was, ends[i], sent[i].slots[0])
      ensures forall i {:trigger sent[i]} :: 0 <= i < |sent| ==> Held(sent[i], ends[i], made)
    {
      hide MadeSince, Held;
      forall i {:trigger sent[i]} | 0 <= i < |sent| ensures Held(sent[i], ends[i], made) {
        if len == 0 && sent[i].slots == slots {
          HeldOverwritten(sent[i], ends[i], was, d);
        } else {
          HeldUntouched(sent[i], ends[i], was, d);
        }
      }
    }

    method WriteNext(d: Data)
      requires Buffered() && Sent() && len < slots.Length
      modifies this`len, this`made, slots
      ensures Buffered() && Sent() && made == old(made) + [d] && len == old(len) + 1
    {
      hide MadeSince, Lined, Latest;
      LinedMore(sent, ends, |made|, slots, len);
      PutAtEnd(d);
      ghost var was := made;
      made := made + [d];
      assert slots[..len + 1] == slots[..len] + [d];
      AllHeldNext(was, d);
      len := len + 1;
    }

    /** No batch of a full array that nothing waits in. */
    lemma NoneWholeWhenFull(larger: array<Data?>)
      requires Sent() && len == slots.Length
      ensures Latest(sent, ends, |made|, larger, len)
    {
    }

    /** A larger array with the same pointers. */
    method Enlarge()
      requires Buffered() && Sent() && len == slots.Length
      modifies this`slots
      ensures Buffered() && Sent() && fresh(slots) && len < slots.Length
    {
      hide MadeSince, Lined, Latest;
      var more: nat :| true;
      var was, n := slots, len;
      var larger := new Data?[n + 1 + more](_ => null);
      for i := 0 to n
        invariant slots == was && len == n && larger[..i] == was[..i]
      {
        larger[i] := was[i];
      }
      NoneWholeWhenFull(larger);
      slots := larger;
    }

    method BufferEvent(e: Event)
      requires Valid()
      modifies this, slots
      ensures Valid() && received == old(received) + [e] && (slots == old(slots) || fresh(slots))
      ensures len == old(len) + 1 && sent == old(sent) && ends == old(ends)
      ensures |made| == |old(made)| + 1 && made[..|old(made)|] == old(made)
      ensures fresh(made[|old(made)|]) && ReportFor(old(machine), e, made[|old(made)|].report)
      ensures |reported| == |old(reported)| + 1 && reported[..|old(reported)|] == old(reported)
    {
      hide Follows, Held, Made, TypeName, Int64Diff;
      ghost var m := machine;
      var data := Report(e.pid, e.conn, TypeName(e.kind), None, None);
      if e.conn in machine {
        var pre := machine[e.conn];
        data := data.(prevType := Some(TypeName(pre.kind)));
        data := data.(duration := Some(Int64Diff(e.curTs, pre.curTs)));
      }
      var d := new Data(data);
      OneMoreMade(made, reported, d);
      Append(d);
      Note(e, m, data);
    }

    /** Hands out the buffer and starts again at the front of the same array. */
    method ExportData()
      requires Valid()
      modifies this`sent, this`ends, this`len
      ensures Valid() && len == 0 && |ends| == |sent|
      ensures sent == old(sent) + if old(len) > 0 then [Batch(slots, old(len))] else []
      ensures ends == old(ends) + if old(len) > 0 then [|received|] else []
    {
      hide Follows, Held, Made;
      if len > 0 { HandOut(); }
    }

    method HandOut()
      requires Buffered() && Sent() && len > 0
      modifies this`sent, this`ends, this`len
      ensures Buffered() && Sent() && len == 0 && sent == old(sent) + [Batch(slots, old(len))] && ends == old(ends) + [|made|]
    {
      hide MadeSince, Lined, Latest;
      ghost var n, m := |sent|, |ends|;
      LinedHandOut(sent, ends, |made|, slots, len);
      HeldNow(Batch(slots, len), made);
      sent, ends := sent + [Batch(slots, len)], ends + [|made|];
      len := 0;
      assert sent[n].n > 0 && ends[n] == |made|;
    }

    /** What an exporter finds in a batch when it gets to reading it. */
    function Contents(i: nat): seq<Data?>
      requires Valid() && i < |sent|
      reads this, slots
      reads set i | 0 <= i < |sent| :: sent[i].slots
    {
      sent[i].slots[..sent[i].n]
    }

    /** It is what the batch held when it was handed out exactly if no event has been received since. */
    lemma ContentsRight(i: nat)
      requires Valid() && i < |sent|
      ensures i < |ends| && |Contents(i)| == sent[i].n > 0
      ensures EndOf(ends, i) + |Contents(i)| == ends[i] <= |received| == |made|
      ensures Contents(i) == made[ends[i] - |Contents(i)|..ends[i]] <==> ends[i] == |received|
      ensures ends[i] < |received| ==> MadeSince(made, ends[i], Contents(i)[0])
    {
      hide Follows;
      WholeExactly(sent[i], ends[i], made, reported);
    }

    lemma SizeOne(i: nat)
      requires Valid() && i < |sent| && i < |ends| && ends[i] == EndOf(ends, i) + 1
      ensures |Contents(i)| == 1
    {
      hide Valid, Contents;
      ContentsRight(i);
    }

    lemma FirstLate()
      requires Valid() && |sent| == 2 && ends == [1, 2] && |made| == 2
      ensures Contents(0) == [made[1]]
    {
      hide Valid, Contents, MadeSince;
      SizeOne(0);
      ContentsRight(0);
      OnlyNewer(made, Contents(0)[0]);
    }

    lemma SecondPrompt()
      requires Valid() && |sent| == 2 && ends == [1, 2] && |made| == 2
      ensures Contents(1) == [made[1]]
    {
      hide Valid, Contents, MadeSince;
      SizeOne(1);
      ContentsRight(1);
    }

    /** Two batches of one report each, read when both have been handed out. */
    lemma ReadTwice()
      requires Valid() && |sent| == 2 && ends == [1, 2] && |made| == 2
      ensures Contents(0) == Contents(1) == [made[1]]
    {
      hide Valid, Contents;
      FirstLate();
      SecondPrompt();
    }

    lemma AllTold()
      requires Valid()
      ensures forall conn :: Tells(Of(received, conn), ReportsOf(reported, conn))
    {
      hide Held, Tells;
      forall conn ensures Tells(Of(received, conn), ReportsOf(reported, conn)) {
        assert Follows(received, reported, machine, conn);
      }
    }

    /** Remembers the event as the last of its connection. */
    method Note(e: Event, ghost m: map<Conn, Event>, ghost data: Report)
      requires m == machine && ReportFor(m, e, data) && forall c :: Follows(received, reported, m, c)
      modifies this`machine, this`received, this`reported
      ensures received == old(received) + [e] && reported == old(reported) + [data]
      ensures forall c :: Follows(received, reported, machine, c)
    {
      hide Follows, ReportFor;
      machine := machine[e.conn := e];
      forall c ensures Follows(received + [e], reported + [data], machine, c) { OneMore(received, reported, m, e, data, c); }
      received, reported := received + [e], reported + [data];
    }
  }

  lemma {:induction false} EventsSnoc(acts: seq<Act>, act: Act)
    ensures EventsOf(acts + [act]) == EventsOf(acts) + if act.Receive? then [act.e] else []
  {
    assert (acts + [act])[..|acts|] == acts;
  }

  /** A reading gave what the batch held when it was handed out exactly if nothing had come since. */
  ghost predicate ReadRight(r: Reading, made: seq<Data>, ends: seq<nat>) {
    r.batch < |ends| && |r.data| <= ends[r.batch] <= |made| &&
    (r.data == made[ends[r.batch] - |r.data|..ends[r.batch]] <==> ends[r.batch] == r.moment)
  }

  lemma SameSlice<T>(s: seq<T>, s': seq<T>, lo: nat, hi: nat)
    requires lo <= hi <= |s| <= |s'| && s'[..|s|] == s
    ensures s'[lo..hi] == s[lo..hi]
  {
    assert forall i :: 0 <= i < |s| ==> s'[i] == s[i];
  }

  lemma StaysReadRight(r: Reading, made: seq<Data>, ends: seq<nat>, made': seq<Data>, ends': seq<nat>)
    requires ReadRight(r, made, ends) && |made| <= |made'| && made'[..|made|] == made && |ends| <= |ends'| && ends'[..|ends|] == ends
    ensures ReadRight(r, made', ends')
  {
    var end := ends[r.batch];
    assert end == ends'[..|ends|][r.batch];
    SameSlice(made, made', end - |r.data|, end);
  }

  /** One step of collector and exporter. */
  method Step(c: Collector, act: Act, moment: nat) returns (readings: seq<Reading>)
    requires c.Valid() && moment == |c.received|
    modifies c, c.slots
    ensures c.Valid() && c.received == old(c.received) + if act.Receive? then [act.e] else []
    ensures c.slots == old(c.slots) || fresh(c.slots)
    ensures |old(c.made)| <= |c.made| && c.made[..|old(c.made)|] == old(c.made)
    ensures |old(c.ends)| <= |c.ends| && c.ends[..|old(c.ends)|] == old(c.ends)
    ensures forall k :: 0 <= k < |readings| ==> ReadRight(readings[k], c.made, c.ends)
  {
    hide Collector.Valid;
    readings := [];
    match act
    case Receive(e) => c.BufferEvent(e);
    case Export => c.ExportData();
    case Read(b) =>
      if b < |c.sent| {
        c.ContentsRight(b);
        var data := c.Contents(b);
        readings := [Reading(b, moment, data)];
      }
  }

  /** Events, exports and readings in any order. */
  method Run(acts: seq<Act>) returns (c: Collector, readings: seq<Reading>)
    ensures c.Valid() && c.received == EventsOf(acts)
    ensures forall k :: 0 <= k < |readings| ==> ReadRight(readings[k], c.made, c.ends)
    ensures forall conn :: Tells(Of(c.received, conn), ReportsOf(c.reported, conn))
  {
    hide Collector.Valid, ReadRight, EventsOf;
    c := new Collector();
    readings := [];
    var moment := 0;
    EventsNone();
    for i := 0 to |acts|
      invariant c.Valid() && fresh(c) && fresh(c.slots) && c.received == EventsOf(acts[..i]) && moment == |c.received|
      invariant forall k :: 0 <= k < |readings| ==> ReadRight(readings[k], c.made, c.ends)
    {
      ghost var made, ends := c.made, c.ends;
      EventsSnoc(acts[..i], acts[i]);
      assert acts[..i + 1] == acts[..i] + [acts[i]];
      var more := Step(c, acts[i], moment);
      if acts[i].Receive? { moment := moment + 1; }
      forall k | 0 <= k < |readings| ensures ReadRight(readings[k], c.made, c.ends) {
        StaysReadRight(readings[k], made, ends, c.made, c.ends);
      }
      readings := readings + more;
    }
    assert acts[..|acts|] == acts;
    c.AllTold();
  }

  /** One export whose batch is read at once. */
  method HandOver(c: Collector) returns (data: seq<Data?>)
    requires c.Valid() && c.len > 0
    modifies c`sent, c`ends, c`len
    ensures c.Valid() && c.len == 0
    ensures old(c.len) <= |c.made| && data == c.made[|c.made| - old(c.len)..]
  {
    hide Collector.Valid, Collector.Contents;
    var n := |c.sent|;
    c.ExportData();
    c.ContentsRight(n);
    data := c.Contents(n);
  }

  /** Each batch read before the next event comes: what was read and what still waits is everything
      made, once and in order, and each connection's reports tell its events. */
  method DeliverPromptly(es: seq<Event>) returns (c: Collector, delivered: seq<Data?>)
    ensures c.Valid() && c.received == es && c.len <= |c.made| && delivered == c.made[..|c.made| - c.len]
    ensures forall conn :: Tells(Of(es, conn), ReportsOf(c.reported, conn))
  {
    hide Collector.Valid, Collector.Contents, Made, Follows, ReportFor;
    c := new Collector();
    delivered := [];
    for i := 0 to |es|
      invariant c.Valid() && fresh(c) && fresh(c.slots) && c.received == es[..i]
      invariant c.len <= |c.made| && delivered == c.made[..|c.made| - c.len]
    {
      c.BufferEvent(es[i]);
      assert delivered == c.made[..|c.made| - c.len];
      var exporting: bool := *;
      if exporting {
        var data := HandOver(c);
        delivered := delivered + data;
      }
    }
    assert es[..|es|] == es;
    c.AllTold();
  }

  /** Two events, each handed out by itself. */
  method HandOutTwice(a: Event, b: Event) returns (c: Collector)
    ensures c.Valid() && c.received == [a, b] && |c.made| == 2 && |c.sent| == 2 && c.ends == [1, 2]
    ensures c.made[0] != c.made[1] && c.made[0].report.pid == a.pid && c.made[1].report.pid == b.pid
  {
    hide Collector.Valid, TypeName, Int64Diff;
    c := new Collector();
    c.BufferEvent(a);
    ghost var first := c.made;
    assert first[0].report.pid == a.pid;
    c.ExportData();
    c.BufferEvent(b);
    assert c.made[0] == c.made[..1][0] == first[0];
    c.ExportData();
  }

  /** Both batches are read late: the report of the first event is lost and that of the second is
      delivered twice. */
  method ReadLate(a: Event, b: Event) returns (c: Collector, first: seq<Data?>, second: seq<Data?>)
    ensures c.received == [a, b] && |c.made| == 2
    ensures c.made[0] != c.made[1] && c.made[0].report.pid == a.pid && c.made[1].report.pid == b.pid
    ensures first == second == [c.made[1]]
  {
    hide *;
    c := HandOutTwice(a, b);
    c.ReadTwice();
    first, second := c.Contents(0), c.Contents(1);
  }

  lemma OnlyNewer(made: seq<Data>, x: Data?)
    requires |made| == 2 && MadeSince(made, 1, x)
    ensures x == made[1]
  {
  }

  lemma EventsNone()
    ensures EventsOf([]) == []
  {
  }

  /** The machine knows the last event of each connection, and its reports tell its events. */
  ghost predicate Follows(es: seq<Event>, rs: seq<Report>, m: map<Conn, Event>, c: Conn) {
    var t := Of(es, c);
    Tells(t, ReportsOf(rs, c)) && (c in m <==> t != []) && (c in m ==> m[c] == t[|t| - 1])
  }

  /** The report that is made for an event. */
  ghost predicate ReportFor(m: map<Conn, Event>, e: Event, r: Report) {
    r.pid == e.pid && r.conn == e.conn && r.eventType == TypeName(e.kind) &&
    r.prevType == (if e.conn in m then Some(TypeName(m[e.conn].kind)) else None) &&
    r.duration == if e.conn in m then Some(Int64Diff(e.curTs, m[e.conn].curTs)) else None
  }

  lemma OneMore(es: seq<Event>, rs: seq<Report>, m: map<Conn, Event>, e: Event, r: Report, c: Conn)
    requires Follows(es, rs, m, c) && ReportFor(m, e, r)
    ensures Follows(es + [e], rs + [r], m[e.conn := e], c)
  {
    hide Of, ReportsOf, Tells, TypeName, Int64Diff;
    OfSnoc(es, e, c);
    ReportsSnoc(rs, r, c);
    if c == e.conn {
      OneMoreHere(Of(es, c), ReportsOf(rs, c), m, e, r);
    } else {
      Unchanged(Of(es, c), ReportsOf(rs, c));
    }
  }

  lemma OneMoreHere(t: seq<Event>, rs: seq<Report>, m: map<Conn, Event>, e: Event, r: Report)
    requires Tells(t, rs) && (e.conn in m <==> t != []) && (t != [] ==> m[e.conn] == t[|t| - 1]) && ReportFor(m, e, r)
    ensures Tells(t + [e], rs + [r])
  {
    hide TypeName, Int64Diff, Tells;
    TellsSnoc(t, rs, e, r);
  }

  lemma Unchanged(t: seq<Event>, rs: seq<Report>)
    ensures t + [] == t && rs + [] == rs
  {
  }
}
