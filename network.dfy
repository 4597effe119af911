/** The five servers together, each message handled to completion before the
    next: the flood of one client record spreads through the adjacency table
    until every server has either taken the record or already held that client
    at a timestamp at least as late. Every server is the same Protocol.Step;
    the histories are values, one per server. */
module Network {
  import opened Codec
  import opened Numbers
  import opened StringOrder
  import opened Topology
  import opened Protocol

  /** Each server's history, by server name. */
  type Histories = map<string, History>

  predicate NetInv(hs: Histories) {
    hs.Keys == NETWORK_FLOW.Keys && forall s :: s in hs ==> HistoryInv(hs[s])
  }

  /** `h` holds client `c` at timestamp `t` or at a later one, compared as text. */
  predicate Holds(h: History, c: string, t: string) {
    c in h && |h[c]| > 5 && LexLe(t, h[c][5])
  }

  predicate HoldsAt(hs: Histories, s: string, c: string, t: string) {
    s in hs && Holds(hs[s], c, t)
  }

  /** The servers the flood of client `c` at time `t` can still change. */
  function Pending(hs: Histories, c: string, t: string): set<string> {
    set s | s in hs && !Holds(hs[s], c, t)
  }

  /** A message of the flood of `base`: the six-field record with the name of
      the server that relayed it in field 6. */
  predicate IsCopy(m: Send, base: seq<string>) {
    var ml := MessageToList(m.text);
    && m.dest in NETWORK_FLOW
    && |ml| == 7
    && ml[..6] == base
    && ml[6] in PORT_MAP
  }

  /** The record passes the AT validator once a relaying server is named. */
  predicate Acceptable(base: seq<string>) {
    |base| == 6 && Validate(base + [base[1]], map[])
  }

  /** A server takes a copy when it validates and the server does not already
      hold the client at that timestamp or a later one. */
  predicate Accepts(h: History, m: Send, base: seq<string>)
    requires |base| == 6
  {
    Validate(MessageToList(m.text), h) && !Holds(h, base[3], base[5])
  }

  /** Validity of a copy depends neither on who relayed it nor on the
      history: a copy validates at any server exactly when its record is
      acceptable. */
  lemma CopyValid(h: History, m: Send, base: seq<string>)
    requires |base| == 6 && IsCopy(m, base)
    ensures Validate(MessageToList(m.text), h) <==> Acceptable(base)
  {
    var ml := MessageToList(m.text);
    var first := base + [base[1]];
    forall i | 0 <= i < 6
      ensures ml[i] == first[i]
    {
      assert ml[i] == ml[..6][i];
    }
    assert |first| == 7 && first[6] == ml[1];
  }

  /** What delivering copy `m` to a server holding `h` does: the server
      either takes it, storing it under the client and relaying one copy to
      each neighbour in order, or changes nothing and sends nothing. */
  predicate Delivered(h: History, m: Send, base: seq<string>, after: History, floods: seq<Send>)
    requires |base| == 6 && m.dest in NETWORK_FLOW
  {
    && (Accepts(h, m, base) ==>
      && after == h[base[3] := MessageToList(m.text)]
      && |floods| == |NETWORK_FLOW[m.dest]|
      && forall i :: 0 <= i < |floods| ==>
        floods[i].dest == NETWORK_FLOW[m.dest][i] && IsCopy(floods[i], base))
    && (!Accepts(h, m, base) ==> after == h && floods == [])
  }

  /** Protocol.Step on a copy of the record does what Delivered says. */
  lemma Deliver(h: History, m: Send, base: seq<string>, received: real, render: real -> string,
                reply: SearchReply, dumps: SearchReply -> string)
    requires HistoryInv(h) && WellFormedRender(render)
    requires |base| == 6 && IsCopy(m, base)
    ensures var o := Step(m.dest, h, m.text, received, render, reply, dumps);
      HistoryInv(o.history) && Delivered(h, m, base, o.history, o.floods)
  {
    var ml := MessageToList(m.text);
    StepKeepsInv(m.dest, h, m.text, received, render, reply, dumps);
    if Validate(ml, h) {
      assert ml[0] == "AT";
      assert Step(m.dest, h, m.text, received, render, reply, dumps) == AtOutcome(m.dest, h, ml);
      AtDelivered(h, m, base);
    }
  }

  /** The AT handler on a copy of the record: a server that does not hold the
      client at that time stores the copy and relays one copy per neighbour;
      one that does changes nothing. */
  lemma AtDelivered(h: History, m: Send, base: seq<string>)
    requires HistoryInv(h) && |base| == 6 && IsCopy(m, base)
    ensures var ml := MessageToList(m.text);
      var o := AtOutcome(m.dest, h, ml);
      && (!Holds(h, base[3], base[5]) ==>
        && o.history == h[base[3] := ml]
        && |o.floods| == |NETWORK_FLOW[m.dest]|
        && forall i :: 0 <= i < |o.floods| ==>
          o.floods[i].dest == NETWORK_FLOW[m.dest][i] && IsCopy(o.floods[i], base))
      && (Holds(h, base[3], base[5]) ==> o.history == h && o.floods == [])
  {
    var d := m.dest;
    var ml := MessageToList(m.text);
    assert ml[3] == base[3] && ml[5] == base[5] by {
      assert ml[3] == ml[..6][3] && ml[5] == ml[..6][5];
    }
    if !Holds(h, base[3], base[5]) {
      TopologyWellFormed();
      FloodShape(d, ml);
      var o := AtOutcome(d, h, ml);
      forall i | 0 <= i < |o.floods|
        ensures IsCopy(o.floods[i], base)
      {
        var relayed := ml[..6] + [d];
        assert MessageToList(o.floods[i].text) == relayed;
        assert relayed[..6] == base;
      }
    }
  }

  /** After a server takes a copy it holds the client at that timestamp. */
  lemma TakenHolds(h: History, ml: seq<string>, base: seq<string>)
    requires |base| == 6 && |ml| == 7 && ml[..6] == base
    ensures Holds(h[base[3] := ml], base[3], base[5])
  {
    assert ml[5] == ml[..6][5];
    LexLeReflexive(base[5]);
  }

  /** Every server `b` the flood still owes the record either holds it or has
      a copy on its way. */
  predicate Covered(cur: Histories, queue: seq<Send>, b: string, c: string, t: string) {
    HoldsAt(cur, b, c, t) || exists k :: 0 <= k < |queue| && queue[k].dest == b
  }

  /** Only the client's entry has changed, only on servers that did not hold
      it, and only to a copy of the record. */
  predicate ChangedOnlyBy(hs: Histories, cur: Histories, base: seq<string>)
    requires |base| == 6
  {
    forall s :: s in hs ==>
      && s in cur
      && (|| cur[s] == hs[s]
          || (&& !Holds(hs[s], base[3], base[5])
              && Holds(cur[s], base[3], base[5])
              && cur[s] == hs[s][base[3] := cur[s][base[3]]]
              && |cur[s][base[3]]| == 7 && cur[s][base[3]][..6] == base))
  }

  /** What the flood owes: the destinations of `work`, and the neighbours of
      every server that took the record, are covered. */
  predicate Owed(hs: Histories, work: seq<Send>, cur: Histories, queue: seq<Send>, base: seq<string>)
    requires |base| == 6
  {
    && (forall j :: 0 <= j < |work| ==> Covered(cur, queue, work[j].dest, base[3], base[5]))
    && (forall s, i :: s in hs && s in cur && s in NETWORK_FLOW && cur[s] != hs[s] && 0 <= i < |NETWORK_FLOW[s]| ==>
          Covered(cur, queue, NETWORK_FLOW[s][i], base[3], base[5]))
  }

  /** The invariant of the delivery loop, from histories `hs` and messages
      `work` to histories `cur` and messages `queue` still to deliver. */
  predicate FloodInv(hs: Histories, work: seq<Send>, base: seq<string>, cur: Histories, queue: seq<Send>) {
    && |base| == 6
    && NetInv(cur)
    && (forall j :: 0 <= j < |queue| ==> IsCopy(queue[j], base))
    && ChangedOnlyBy(hs, cur, base)
    && (Acceptable(base) ==> Owed(hs, work, cur, queue, base))
  }

  /** Delivering the first message keeps the invariant. */
  lemma AdvanceKeeps(hs: Histories, work: seq<Send>, base: seq<string>, cur: Histories, queue: seq<Send>,
                     received: real, render: real -> string, reply: SearchReply, dumps: SearchReply -> string)
    requires FloodInv(hs, work, base, cur, queue) && queue != [] && WellFormedRender(render)
    ensures var m := queue[0];
      var o := Step(m.dest, cur[m.dest], m.text, received, render, reply, dumps);
      FloodInv(hs, work, base, cur[m.dest := o.history], queue[1..] + o.floods)
  {
    var m := queue[0];
    var o := Step(m.dest, cur[m.dest], m.text, received, render, reply, dumps);
    Deliver(cur[m.dest], m, base, received, render, reply, dumps);
    KeepsNetInv(cur, m.dest, o.history);
    KeepsCopies(queue, o.floods, base);
    KeepsChanged(hs, cur, base, m, o.history, o.floods);
    if Acceptable(base) {
      KeepsOwed(hs, work, base, cur, queue, o.history, o.floods);
    }
  }

  /** Delivering the first message either makes one more server take the
      record, so one fewer is pending, or changes nothing and sends nothing. */
  lemma AdvanceShrinks(cur: Histories, queue: seq<Send>, base: seq<string>,
                       received: real, render: real -> string, reply: SearchReply, dumps: SearchReply -> string)
    requires NetInv(cur) && WellFormedRender(render) && |base| == 6
    requires queue != [] && IsCopy(queue[0], base)
    ensures var m := queue[0];
      var o := Step(m.dest, cur[m.dest], m.text, received, render, reply, dumps);
      var next := cur[m.dest := o.history];
      || |Pending(next, base[3], base[5])| < |Pending(cur, base[3], base[5])|
      || (next == cur && o.floods == [])
  {
    var m := queue[0];
    var o := Step(m.dest, cur[m.dest], m.text, received, render, reply, dumps);
    Deliver(cur[m.dest], m, base, received, render, reply, dumps);
    Shrinks(cur, m, base, o.history, o.floods);
  }

  /** AdvanceShrinks, stated over what Delivered says a delivery does. */
  lemma Shrinks(cur: Histories, m: Send, base: seq<string>, after: History, floods: seq<Send>)
    requires |base| == 6 && IsCopy(m, base) && m.dest in cur
    requires Delivered(cur[m.dest], m, base, after, floods)
    ensures var next := cur[m.dest := after];
      || |Pending(next, base[3], base[5])| < |Pending(cur, base[3], base[5])|
      || (next == cur && floods == [])
  {
    var d := m.dest;
    if Accepts(cur[d], m, base) {
      TakenHolds(cur[d], MessageToList(m.text), base);
      assert Pending(cur[d := after], base[3], base[5]) == Pending(cur, base[3], base[5]) - {d};
    } else {
      assert cur[d := after] == cur;
    }
  }

  /** Replacing one server's history by a well-formed one keeps NetInv. */
  lemma KeepsNetInv(cur: Histories, d: string, after: History)
    requires NetInv(cur) && d in cur && HistoryInv(after)
    ensures NetInv(cur[d := after])
  {
  }

  /** The queue after a delivery holds only copies of the record. */
  lemma KeepsCopies(queue: seq<Send>, floods: seq<Send>, base: seq<string>)
    requires queue != []
    requires forall j :: 0 <= j < |queue| ==> IsCopy(queue[j], base)
    requires forall i :: 0 <= i < |floods| ==> IsCopy(floods[i], base)
    ensures forall j :: 0 <= j < |queue[1..] + floods| ==> IsCopy((queue[1..] + floods)[j], base)
  {
    var rest := queue[1..] + floods;
    forall j | 0 <= j < |rest|
      ensures IsCopy(rest[j], base)
    {
      if j < |queue| - 1 {
        assert rest[j] == queue[j + 1];
      } else {
        assert rest[j] == floods[j - |queue| + 1];
      }
    }
  }

  /** A server that takes the record did not hold it, and afterwards holds a
      copy under the client and nothing else new. */
  lemma KeepsChanged(hs: Histories, cur: Histories, base: seq<string>, m: Send, after: History, floods: seq<Send>)
    requires |base| == 6 && ChangedOnlyBy(hs, cur, base)
    requires IsCopy(m, base) && m.dest in cur && Delivered(cur[m.dest], m, base, after, floods)
    ensures ChangedOnlyBy(hs, cur[m.dest := after], base)
  {
    if Accepts(cur[m.dest], m, base) {
      TakenHolds(cur[m.dest], MessageToList(m.text), base);
    } else {
      assert cur[m.dest := after] == cur;
    }
  }

  /** A delivery of a valid copy leaves its destination holding the record,
      and every server that held it still holds it. */
  lemma HoldsAfter(cur: Histories, m: Send, base: seq<string>, after: History, floods: seq<Send>)
    requires Acceptable(base) && IsCopy(m, base) && m.dest in cur
    requires Delivered(cur[m.dest], m, base, after, floods)
    ensures forall s :: HoldsAt(cur, s, base[3], base[5]) ==> HoldsAt(cur[m.dest := after], s, base[3], base[5])
    ensures HoldsAt(cur[m.dest := after], m.dest, base[3], base[5])
  {
    CopyValid(cur[m.dest], m, base);
    if Accepts(cur[m.dest], m, base) {
      TakenHolds(cur[m.dest], MessageToList(m.text), base);
    }
  }

  /** A delivery keeps everything the flood owes covered, and a server that
      takes the record puts a copy for each of its neighbours in the queue. */
  lemma KeepsOwed(hs: Histories, work: seq<Send>, base: seq<string>, cur: Histories, queue: seq<Send>,
                  after: History, floods: seq<Send>)
    requires Acceptable(base) && Owed(hs, work, cur, queue, base)
    requires queue != [] && IsCopy(queue[0], base) && queue[0].dest in cur
    requires Delivered(cur[queue[0].dest], queue[0], base, after, floods)
    ensures Owed(hs, work, cur[queue[0].dest := after], queue[1..] + floods, base)
  {
    var c, t := base[3], base[5];
    var m := queue[0];
    var d := m.dest;
    var next := cur[d := after];
    var rest := queue[1..] + floods;
    var taken := Accepts(cur[d], m, base);
    HoldsAfter(cur, m, base, after, floods);
    Progress(cur, queue, next, rest, d, c, t, floods);
    forall j | 0 <= j < |work|
      ensures Covered(next, rest, work[j].dest, c, t)
    {
      assert Covered(cur, queue, work[j].dest, c, t);
    }
    KeepsNeighboursOwed(hs, cur, queue, next, rest, base, floods, Accepts(cur[d], m, base));
  }

  /** The neighbours of every changed server stay covered: a neighbour that is
      the receiver holds, the receiver's own neighbours get the new copies, and
      every other case is as covered as before. */
  lemma KeepsNeighboursOwed(hs: Histories, cur: Histories, queue: seq<Send>, next: Histories, rest: seq<Send>,
                            base: seq<string>, floods: seq<Send>, taken: bool)
    requires |base| == 6 && queue != [] && queue[0].dest in cur && queue[0].dest in NETWORK_FLOW
    requires Owed(hs, [], cur, queue, base)
    requires forall s :: HoldsAt(cur, s, base[3], base[5]) ==> HoldsAt(next, s, base[3], base[5])
    requires forall b :: Covered(cur, queue, b, base[3], base[5]) && b != queue[0].dest ==> Covered(next, rest, b, base[3], base[5])
    requires HoldsAt(next, queue[0].dest, base[3], base[5])
    requires queue[0].dest in next && next == cur[queue[0].dest := next[queue[0].dest]] && rest == queue[1..] + floods
    requires !taken ==> next[queue[0].dest] == cur[queue[0].dest]
    requires taken ==> |floods| == |NETWORK_FLOW[queue[0].dest]|
    requires taken ==> forall i :: 0 <= i < |floods| ==> floods[i].dest == NETWORK_FLOW[queue[0].dest][i]
    ensures Owed(hs, [], next, rest, base)
  {
    var c, t, d := base[3], base[5], queue[0].dest;
    forall s, i | s in hs && s in next && s in NETWORK_FLOW && next[s] != hs[s] && 0 <= i < |NETWORK_FLOW[s]|
      ensures Covered(next, rest, NETWORK_FLOW[s][i], c, t)
    {
      var b := NETWORK_FLOW[s][i];
      if b == d {
      } else if s == d && taken {
        assert rest[|queue| - 1 + i] == floods[i];
      } else {
        assert next[s] == cur[s];
        assert Covered(cur, queue, b, c, t);
      }
    }
  }

  /** One delivery keeps every server covered that was covered before: a
      holder keeps holding, and a copy still waiting stays in the queue. */
  lemma Progress(before: Histories, waiting: seq<Send>, cur: Histories, queue: seq<Send>, d: string,
                 c: string, t: string, floods: seq<Send>)
    requires |waiting| > 0 && d == waiting[0].dest && queue == waiting[1..] + floods
    requires forall s :: HoldsAt(before, s, c, t) ==> HoldsAt(cur, s, c, t)
    ensures forall b :: Covered(before, waiting, b, c, t) && b != d ==> Covered(cur, queue, b, c, t)
  {
    forall b | Covered(before, waiting, b, c, t) && b != d
      ensures Covered(cur, queue, b, c, t)
    {
      if !HoldsAt(before, b, c, t) {
        var k :| 0 <= k < |waiting| && waiting[k].dest == b;
        assert queue[k - 1] == waiting[k];
      }
    }
  }

  /** Deliver the messages of `work`, and every message they cause, one at a
      time in arrival order, until none is left. The flood ends: each server
      takes the record at most once, since after taking it the server holds
      the timestamp and refuses every later copy. Only the client's entry
      changes, only on servers that did not hold it, and only to a copy of the
      record; when the record is valid, every destination of `work` and every
      neighbour of every server that took it end up holding it. */
  method Settle(hs: Histories, work: seq<Send>, base: seq<string>, received: real, render: real -> string,
                reply: SearchReply, dumps: SearchReply -> string) returns (final: Histories)
    requires NetInv(hs) && WellFormedRender(render) && |base| == 6
    requires forall j :: 0 <= j < |work| ==> IsCopy(work[j], base)
    ensures NetInv(final)
    ensures ChangedOnlyBy(hs, final, base)
    ensures Acceptable(base) ==> forall j :: 0 <= j < |work| ==> HoldsAt(final, work[j].dest, base[3], base[5])
    ensures Acceptable(base) ==> forall s, i :: s in hs && final[s] != hs[s] && 0 <= i < |NETWORK_FLOW[s]| ==>
      HoldsAt(final, NETWORK_FLOW[s][i], base[3], base[5])
  {
    var cur := hs;
    var queue := work;
    forall j | 0 <= j < |work|
      ensures Covered(cur, queue, work[j].dest, base[3], base[5])
    {
      assert queue[j].dest == work[j].dest;
    }
    while queue != []
      invariant FloodInv(hs, work, base, cur, queue)
      decreases |Pending(cur, base[3], base[5])|, |queue|
    {
      var m := queue[0];
      var o := Step(m.dest, cur[m.dest], m.text, received, render, reply, dumps);
      AdvanceKeeps(hs, work, base, cur, queue, received, render, reply, dumps);
      AdvanceShrinks(cur, queue, base, received, render, reply, dumps);
      cur := cur[m.dest := o.history];
      queue := queue[1..] + o.floods;
    }
    final := cur;
  }

  /** A client's IAMAT at server `origin`, handled there by the IAMAT handler
      (where Protocol.Step sends a valid IAMAT), then the whole flood it starts.
      When no other server holds that client at the reported time or a later
      one, differences render as decimals, and the receive time differs from
      the client's time, every server ends up storing the record the origin
      built. At a zero difference the record carries no sign and the flood
      stops at the first hop (Protocol.IamatFloodValid). */
  method Broadcast(hs: Histories, origin: string, message: string, received: real, render: real -> string,
                   reply: SearchReply, dumps: SearchReply -> string) returns (final: Histories)
    requires NetInv(hs) && origin in hs && DecimalRender(render)
    requires var ml := MessageToList(message); Validate(ml, hs[origin]) && ml[0] == "IAMAT"
    requires var ml := MessageToList(message); received != FloatValue(ml[3])
    requires var ml := MessageToList(message);
      forall s :: s in hs && s != origin ==> !Holds(hs[s], ml[1], ml[3])
    ensures NetInv(final)
    ensures var ml := MessageToList(message);
      var rec := IamatRecord(origin, ml, received, render);
      forall s :: s in final ==> ml[1] in final[s] && final[s][ml[1]][..6] == rec
  {
    var ml := MessageToList(message);
    assert AllTokens(ml) && ValidIamat(ml);
    var o := IamatOutcome(origin, hs[origin], ml, received, render);
    var rec := IamatRecord(origin, ml, received, render);
    Origin(hs, origin, ml, received, render);
    var cur := hs[origin := o.history];
    final := Settle(cur, o.floods, rec, received, render, reply, dumps);
    Others(hs, origin, o.history);
    AllHold(hs, cur, final, origin, rec, o.floods);
    Stored(cur, final, origin, rec);
  }

  /** The IAMAT handler at the origin: it stores the record, which holds the
      client at its own time, is valid, and is flooded as one copy per
      neighbour. */
  lemma Origin(hs: Histories, origin: string, ml: seq<string>, received: real, render: real -> string)
    requires NetInv(hs) && origin in hs && DecimalRender(render)
    requires AllTokens(ml) && ValidIamat(ml) && received != FloatValue(ml[3])
    ensures var o := IamatOutcome(origin, hs[origin], ml, received, render);
      var rec := IamatRecord(origin, ml, received, render);
      var cur := hs[origin := o.history];
      && rec[3] == ml[1] && rec[5] == ml[3]
      && NetInv(cur) && Acceptable(rec)
      && rec[3] in cur[origin] && cur[origin][rec[3]] == rec
      && Holds(cur[origin], rec[3], rec[5])
      && |o.floods| == |NETWORK_FLOW[origin]|
      && (forall i :: 0 <= i < |o.floods| ==> o.floods[i].dest == NETWORK_FLOW[origin][i])
      && (forall i :: 0 <= i < |o.floods| ==> IsCopy(o.floods[i], rec))
  {
    var o := IamatOutcome(origin, hs[origin], ml, received, render);
    var rec := IamatRecord(origin, ml, received, render);
    IamatOverwrites(origin, hs[origin], ml, received, render);
    IamatKeepsInv(origin, hs[origin], ml, received, render);
    KeepsNetInv(hs, origin, o.history);
    LexLeReflexive(rec[5]);
    TopologyWellFormed();
    forall i | 0 <= i < |o.floods|
      ensures IsCopy(o.floods[i], rec)
    {
      assert (rec + [origin])[..6] == rec;
    }
    TimeDiffAsWrittenSigned(received, FloatValue(ml[3]), render);
    assert Validate(rec + [rec[1]], map[]);
  }

  /** Replacing one server's history leaves every other server's alone. */
  lemma Others(hs: Histories, origin: string, h: History)
    ensures forall s :: s in hs && s != origin ==> s in hs[origin := h] && hs[origin := h][s] == hs[s]
    ensures (hs[origin := h]).Keys == hs.Keys + {origin}
  {
  }

  /** Where every server holds the record and only the origin held it
      before the flood, every server stores it. */
  lemma Stored(cur: Histories, final: Histories, origin: string, rec: seq<string>)
    requires |rec| == 6 && origin in cur && rec[3] in cur[origin] && cur[origin][rec[3]] == rec
    requires Holds(cur[origin], rec[3], rec[5])
    requires forall s :: s in cur && s != origin ==> !Holds(cur[s], rec[3], rec[5])
    requires ChangedOnlyBy(cur, final, rec)
    requires final.Keys == cur.Keys
    requires forall s :: s in final ==> Holds(final[s], rec[3], rec[5])
    ensures forall s :: s in final ==> rec[3] in final[s] && final[s][rec[3]][..6] == rec
  {
    forall s | s in final
      ensures rec[3] in final[s] && final[s][rec[3]][..6] == rec
    {
      if s == origin {
        assert final[s] == cur[s];
      }
    }
  }

  /** At the end every server holds the record: those that do hold the
      origin and are closed under "talks with", and the table is connected. */
  lemma AllHold(hs: Histories, cur: Histories, final: Histories, origin: string, rec: seq<string>, floods: seq<Send>)
    requires |rec| == 6 && NetInv(cur) && NetInv(final) && origin in cur
    requires Holds(cur[origin], rec[3], rec[5])
    requires forall s :: s in hs && s != origin ==> s in cur && cur[s] == hs[s] && !Holds(hs[s], rec[3], rec[5])
    requires hs.Keys == cur.Keys
    requires ChangedOnlyBy(cur, final, rec)
    requires |floods| == |NETWORK_FLOW[origin]|
    requires forall i :: 0 <= i < |floods| ==> floods[i].dest == NETWORK_FLOW[origin][i]
    requires forall j :: 0 <= j < |floods| ==> HoldsAt(final, floods[j].dest, rec[3], rec[5])
    requires forall s, i :: s in cur && final[s] != cur[s] && 0 <= i < |NETWORK_FLOW[s]| ==>
      HoldsAt(final, NETWORK_FLOW[s][i], rec[3], rec[5])
    ensures forall s :: s in final ==> Holds(final[s], rec[3], rec[5])
  {
    var c, t := rec[3], rec[5];
    var a := set s | s in final && Holds(final[s], c, t);
    forall x, i | x in a && 0 <= i < |NETWORK_FLOW[x]|
      ensures NETWORK_FLOW[x][i] in a
    {
      if x == origin {
        assert HoldsAt(final, floods[i].dest, c, t);
      } else {
        assert final[x] != cur[x];
      }
    }
    assert final[origin] == cur[origin];
    Connected(a, origin);
  }
}
