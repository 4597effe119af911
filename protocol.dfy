/** The protocol engine of one location server, as pure functions: the message
    validator, what each command handler does to the client history and what it
    sends, and the dispatch of one received message. The class in server.dfy
    carries out these steps imperatively and is proved to agree with them. */
module Protocol {
  import opened Codec
  import opened Numbers
  import opened Formats
  import opened StringOrder
  import opened Topology

  datatype Option<T> = None | Some(value: T)

  /** Client id to the fields of the latest `AT` record the server holds for it. */
  type History = map<string, seq<string>>

  /** One connection a flood opens: the destination server and the text written to it. */
  datatype Send = Send(dest: string, text: string)

  /** The nearby-search request WHATSAT makes: a "lat,lon" text and a radius in metres. */
  datatype Query = Query(location: string, radiusMeters: real)

  /** The search service's decoded reply: its result list and, opaque, its other
      top-level entries. */
  datatype SearchReply = SearchReply(results: seq<string>, others: seq<(string, string)>)

  /** What handling one message produced: the text written back to the sender
      (if any), the new history, the flood messages, and the search request (if any). */
  datatype Outcome = Outcome(response: Option<string>, history: History, floods: seq<Send>, query: Option<Query>)

  // ---------------------------------------------------------------------
  // Validation (validate_message_list)
  // ---------------------------------------------------------------------

  predicate StartsWithSign(f: string) {
    |f| > 0 && (f[0] == '+' || f[0] == '-')
  }

  /** The grammar of the three commands; WHATSAT also needs the client to be known. */
  predicate Validate(ml: seq<string>, h: History) {
    if |ml| == 0 then false
    else if ml[0] == "AT" then ValidAt(ml)
    else if ml[0] == "IAMAT" then ValidIamat(ml)
    else if ml[0] == "WHATSAT" then ValidWhatsat(ml, h)
    else false
  }

  /** `AT server diff client position time from`: known servers, a signed
      number, a position and a time. */
  predicate ValidAt(ml: seq<string>) {
    && |ml| == 7
    && ml[1] in PORT_MAP
    && StartsWithSign(ml[2])
    && IsFloat(ml[2][1..])
    && IsIso6709(ml[4])
    && IsPosixTime(ml[5])
    && ml[6] in PORT_MAP
  }

  /** `IAMAT client position time`. */
  predicate ValidIamat(ml: seq<string>) {
    && |ml| == 4
    && IsIso6709(ml[2])
    && IsPosixTime(ml[3])
  }

  /** `WHATSAT client radius bound`: a known client, a radius of at most 50
      kilometres and at most 20 results. */
  predicate ValidWhatsat(ml: seq<string>, h: History) {
    && |ml| == 4
    && ml[1] in h
    && IsFloat(ml[2])
    && 0.0 <= FloatValue(ml[2]) <= 50.0
    && IsInt(ml[3])
    && 0 <= IntValue(ml[3]) <= 20
  }

  /** The rejections of the validator: no fields, an unknown command, a wrong
      field count, and for AT an unknown server in field 1 or 6 or a time
      difference that is not a sign followed by a number. */
  lemma ValidateRejects(ml: seq<string>, h: History)
    ensures |ml| == 0 ==> !Validate(ml, h)
    ensures |ml| > 0 && ml[0] != "AT" && ml[0] != "IAMAT" && ml[0] != "WHATSAT" ==> !Validate(ml, h)
    ensures |ml| > 0 && ml[0] == "AT" && |ml| != 7 ==> !Validate(ml, h)
    ensures |ml| > 0 && (ml[0] == "IAMAT" || ml[0] == "WHATSAT") && |ml| != 4 ==> !Validate(ml, h)
    ensures |ml| == 7 && ml[0] == "AT" && (ml[1] !in PORT_MAP || ml[6] !in PORT_MAP) ==> !Validate(ml, h)
    ensures |ml| == 7 && ml[0] == "AT" && !(StartsWithSign(ml[2]) && IsFloat(ml[2][1..])) ==> !Validate(ml, h)
  {
  }

  /** WHATSAT is accepted exactly for a known client, a radius in [0, 50] and a
      bound in [0, 20]; only WHATSAT depends on the history. */
  lemma WhatsatValidity(client: string, radius: string, bound: string, h: History)
    ensures Validate(["WHATSAT", client, radius, bound], h) <==>
      && client in h
      && IsFloat(radius) && 0.0 <= FloatValue(radius) <= 50.0
      && IsInt(bound) && 0 <= IntValue(bound) <= 20
  {
  }

  /** The accepted boundaries: radius 0 and 50, bound 0 and 20. */
  lemma WhatsatBoundariesAccepted(client: string, h: History)
    requires client in h
    ensures Validate(["WHATSAT", client, "0", "0"], h)
    ensures Validate(["WHATSAT", client, "50", "20"], h)
  {
    assert Validate(["WHATSAT", client, "0", "0"], h) by {
      WhatsatValidity(client, "0", "0", h);
      Zero();
    }
    assert Validate(["WHATSAT", client, "50", "20"], h) by {
      WhatsatValidity(client, "50", "20", h);
      Fifty();
      Twenty();
    }
  }

  /** The rejected boundaries: a radius just above 50 or just below 0, and a
      bound of 21. */
  lemma WhatsatBoundariesRejected(client: string, h: History)
    ensures !Validate(["WHATSAT", client, "50.5", "3"], h)
    ensures !Validate(["WHATSAT", client, "-0.5", "3"], h)
    ensures !Validate(["WHATSAT", client, "5", "21"], h)
  {
    assert !Validate(["WHATSAT", client, "50.5", "3"], h) by {
      WhatsatValidity(client, "50.5", "3", h);
      RadiusAboveFifty();
    }
    assert !Validate(["WHATSAT", client, "-0.5", "3"], h) by {
      WhatsatValidity(client, "-0.5", "3", h);
      RadiusBelowZero();
    }
    assert !Validate(["WHATSAT", client, "5", "21"], h) by {
      WhatsatValidity(client, "5", "21", h);
      assert DigitsValue("21") == 21 by {
        assert "21"[..1] == "2";
      }
    }
  }

  lemma Zero()
    ensures IsFloat("0") && FloatValue("0") == 0.0
    ensures IsInt("0") && IntValue("0") == 0
  {
    assert Magnitude("0") == "0";
    assert DotIndex("0") == 1 by {
      assert "0"[1..] == "";
    }
    assert "0"[..1] == "0";
    assert DigitsValue("0") == 0 by {
      assert "0"[..0] == "";
    }
  }

  lemma Twenty()
    ensures IsInt("20") && IntValue("20") == 20
  {
    assert Magnitude("20") == "20";
    assert DigitsValue("20") == 20 by {
      assert "20"[..1] == "2";
    }
  }

  lemma Fifty()
    ensures IsFloat("50") && FloatValue("50") == 50.0
  {
    assert DotIndex("50") == 2 by {
      assert "50"[1..] == "0";
    }
    assert "50"[..2] == "50";
    assert DigitsValue("50") == 50 by {
      assert "50"[..1] == "5";
    }
  }

  lemma RadiusAboveFifty()
    ensures IsFloat("50.5") && FloatValue("50.5") > 50.0
  {
    var m := "50.5";
    assert DotIndex(m) == 2 by {
      assert m[1..] == "0.5" && m[1..][1..] == ".5";
    }
    assert m[..2] == "50" && m[3..] == "5";
    assert DigitsValue("50") == 50 by {
      assert "50"[..1] == "5";
    }
  }

  lemma RadiusBelowZero()
    ensures IsFloat("-0.5") && FloatValue("-0.5") < 0.0
  {
    var m := Magnitude("-0.5");
    assert m == "0.5";
    assert DotIndex(m) == 1 by {
      assert m[1..] == ".5";
    }
    assert m[..1] == "0" && m[2..] == "5";
  }

  // ---------------------------------------------------------------------
  // The stored records and the invariant the history keeps
  // ---------------------------------------------------------------------

  /** A stored record: six or seven fields, an `AT` record from a known server,
      keyed by its own client id, with a valid position and timestamp. */
  predicate RecordInv(client: string, rec: seq<string>) {
    && (|rec| == 6 || |rec| == 7)
    && AllTokens(rec)
    && rec[0] == "AT"
    && rec[1] in PORT_MAP
    && rec[3] == client
    && IsIso6709(rec[4])
    && IsPosixTime(rec[5])
  }

  predicate HistoryInv(h: History) {
    forall client :: client in h ==> RecordInv(client, h[client])
  }

  // ---------------------------------------------------------------------
  // IAMAT (handle_iamat_command, calculate_time_diff)
  // ---------------------------------------------------------------------

  /** `str()` of a float is not modelled; the server is given it as `render`.
      Of it we only need that it yields one field and never a leading '+'. */
  ghost predicate WellFormedRender(render: real -> string) {
    forall x :: IsToken(render(x)) && render(x)[0] != '+'
  }

  /** A render that writes every value as a plain decimal number carrying a
      '-' exactly when the value is negative, as `str()` does for floats of
      ordinary magnitude. */
  ghost predicate DecimalRender(render: real -> string) {
    && WellFormedRender(render)
    && forall x :: IsFloat(render(x)) && (IsNegative(render(x)) <==> x < 0.0)
  }

  /** `calculate_time_diff` as written: a '+' is put in front only of a
      positive difference, so a zero difference is rendered with no sign. */
  function TimeDiffAsWritten(received: real, sent: real, render: real -> string): string {
    var diff := received - sent;
    if diff > 0.0 then "+" + render(diff) else render(diff)
  }

  /** `calculate_time_diff` as corrected: every difference that is not
      negative gets the '+', so the field always carries a sign, as the AT
      validator demands of it. The handlers keep the code as written; the two
      differ only at a zero difference (TimeDiffAgrees). */
  function TimeDiff(received: real, sent: real, render: real -> string): string {
    var diff := received - sent;
    if diff >= 0.0 then "+" + render(diff) else render(diff)
  }

  /** The time difference is one field, and it starts with '+' exactly when the
      server received the message no earlier than the client's timestamp. */
  lemma TimeDiffSign(received: real, sent: real, render: real -> string)
    requires WellFormedRender(render)
    ensures IsToken(TimeDiff(received, sent, render))
    ensures TimeDiff(received, sent, render)[0] == '+' <==> received - sent >= 0.0
  {
    var r := render(received - sent);
    assert IsToken(r) && r[0] != '+';
  }

  /** As written, the '+' appears exactly when the difference is positive. */
  lemma TimeDiffAsWrittenSign(received: real, sent: real, render: real -> string)
    requires WellFormedRender(render)
    ensures IsToken(TimeDiffAsWritten(received, sent, render))
    ensures TimeDiffAsWritten(received, sent, render)[0] == '+' <==> received - sent > 0.0
  {
    var r := render(received - sent);
    assert IsToken(r) && r[0] != '+';
  }

  /** With a decimal render the corrected difference passes the AT validator's
      test on field 2: a sign, then a number. */
  lemma TimeDiffSigned(received: real, sent: real, render: real -> string)
    requires DecimalRender(render)
    ensures StartsWithSign(TimeDiff(received, sent, render))
    ensures IsFloat(TimeDiff(received, sent, render)[1..])
  {
    var r := render(received - sent);
    assert IsFloat(r) && (IsNegative(r) <==> received - sent < 0.0);
    if received - sent >= 0.0 {
      assert ("+" + r)[1..] == r;
    } else {
      assert Magnitude(r) == r[1..];
      assert Magnitude(r[1..]) == r[1..];
    }
  }

  /** Away from a zero difference the code as written and the corrected rule
      give the same field. */
  lemma TimeDiffAgrees(received: real, sent: real, render: real -> string)
    requires received != sent
    ensures TimeDiffAsWritten(received, sent, render) == TimeDiff(received, sent, render)
  {
  }

  /** So, with a decimal render, the difference as written passes the AT
      validator's test on field 2 exactly when it is not zero. */
  lemma TimeDiffAsWrittenSigned(received: real, sent: real, render: real -> string)
    requires DecimalRender(render)
    ensures StartsWithSign(TimeDiffAsWritten(received, sent, render))
              && IsFloat(TimeDiffAsWritten(received, sent, render)[1..])
            <==> received != sent
  {
    var r := render(received - sent);
    assert IsFloat(r) && (IsNegative(r) <==> received - sent < 0.0) && r[0] != '+';
    if received != sent {
      TimeDiffAgrees(received, sent, render);
      TimeDiffSigned(received, sent, render);
    } else {
      assert TimeDiffAsWritten(received, sent, render) == r;
    }
  }

  /** The discrepancy in the code as written: when the server receives an
      IAMAT at exactly the client's time, `str(0.0)` is "0.0", and the AT
      record built from it is refused by every validator, whatever its
      history, so the position is never propagated. */
  lemma ZeroDelayRejected(self: string, ml: seq<string>, from: string, h: History, render: real -> string)
    requires |ml| == 4 && IsPosixTime(ml[3])
    requires render(0.0) == "0.0"
    ensures var sent := FloatValue(ml[3]);
      var diff := TimeDiffAsWritten(sent, sent, render);
      && diff == "0.0"
      && !Validate(["AT", self, diff, ml[1], ml[2], ml[3], from], h)
  {
  }

  /** The record IAMAT stores and answers with. */
  function IamatRecord(self: string, ml: seq<string>, received: real, render: real -> string): seq<string>
    requires |ml| == 4 && IsPosixTime(ml[3])
  {
    ["AT", self, TimeDiffAsWritten(received, FloatValue(ml[3]), render), ml[1], ml[2], ml[3]]
  }

  function IamatOutcome(self: string, h: History, ml: seq<string>, received: real, render: real -> string): Outcome
    requires self in NETWORK_FLOW
    requires |ml| == 4 && IsPosixTime(ml[3])
  {
    var rec := IamatRecord(self, ml, received, render);
    var text := Join(rec, " ");
    Outcome(Some(text), h[ml[1] := rec], FloodSends(self, text), None)
  }

  // ---------------------------------------------------------------------
  // AT (handle_at_command)
  // ---------------------------------------------------------------------

  /** "Already propagated or old propagation": the client is known and the
      incoming timestamp is not after the stored one, compared as text. */
  predicate IsStale(h: History, ml: seq<string>)
    requires |ml| >= 6 && HistoryInv(h)
  {
    ml[3] in h && LexLe(ml[5], h[ml[3]][5])
  }

  function AtOutcome(self: string, h: History, ml: seq<string>): Outcome
    requires self in NETWORK_FLOW
    requires |ml| >= 6 && HistoryInv(h)
  {
    if IsStale(h, ml) then Outcome(None, h, [], None)
    else Outcome(None, h[ml[3] := ml], FloodSends(self, Join(ml, " ")), None)
  }

  // ---------------------------------------------------------------------
  // Flooding (flood_to_all, flood_to_one)
  // ---------------------------------------------------------------------

  /** The fields sent on: field 6 appended, or overwritten, with this server's
      name; None when the message has too few fields (the IndexError branch). */
  function Relay(fields: seq<string>, self: string): Option<seq<string>> {
    if |fields| == 6 then Some(fields + [self])
    else if |fields| >= 7 then Some(fields[6 := self])
    else None
  }

  /** One message per neighbour, in the order of the adjacency list. */
  function FloodSends(self: string, message: string): seq<Send>
    requires self in NETWORK_FLOW
  {
    var peers := NETWORK_FLOW[self];
    match Relay(MessageToList(message), self)
    case None => []
    case Some(fields) => seq(|peers|, i requires 0 <= i < |peers| => Send(peers[i], Join(fields, " ")))
  }

  /** Flooding a six- or seven-field record sends exactly one message to each
      neighbour, in list order, never to the sender itself; each message reads
      back as seven fields: the record's first six and this server's name. */
  lemma FloodShape(self: string, fields: seq<string>)
    requires self in NETWORK_FLOW
    requires AllTokens(fields) && (|fields| == 6 || |fields| == 7)
    ensures var sends := FloodSends(self, Join(fields, " "));
      && |sends| == |NETWORK_FLOW[self]|
      && forall i :: 0 <= i < |sends| ==>
        && sends[i].dest == NETWORK_FLOW[self][i]
        && sends[i].dest != self
        && sends[i].dest in NETWORK_FLOW
        && MessageToList(sends[i].text) == fields[..6] + [self]
  {
    TopologyWellFormed();
    SplitJoin(fields);
    var relayed := fields[..6] + [self];
    if |fields| == 6 {
      assert fields[..6] == fields;
    } else {
      assert fields[6 := self] == relayed;
    }
    assert AllTokens(relayed);
    SplitJoin(relayed);
  }

  // ---------------------------------------------------------------------
  // WHATSAT (handle_whatsat_command)
  // ---------------------------------------------------------------------

  /** The "lat,lon" text the search is asked about. */
  function LatLon(position: string): string
    requires IsIso6709(position)
  {
    var parts := LocationToList(position);
    parts[0] + parts[1] + "," + parts[2] + parts[3]
  }

  /** For a stored position the rendering is the position itself with a comma
      put between latitude and longitude, each of which keeps its sign. */
  lemma LatLonInsertsComma(position: string)
    requires NoSpace(position) && IsIso6709(position)
    ensures exists k :: (0 < k < |position|
      && LatLon(position) == position[..k] + "," + position[k..]
      && IsSign(position[0]) && IsSign(position[k]))
  {
    IsoShape(position);
    var p := LocationToList(position);
    Splice(p[0], p[1], p[2], p[3]);
    assert IsSign(position[0]) && IsSign(position[|p[0]| + |p[1]|]);
  }

  /** Putting a comma between `a + b` and `c + d` is cutting their
      concatenation at `|a| + |b|`. */
  lemma Splice(a: string, b: string, c: string, d: string)
    requires |a| > 0 && |c| > 0
    ensures var w, k := a + b + c + d, |a| + |b|;
      && 0 < k < |w|
      && a + b + "," + c + d == w[..k] + "," + w[k..]
      && w[0] == a[0] && w[k] == c[0]
  {
    var w, k := a + b + c + d, |a| + |b|;
    assert w == (a + b) + (c + d);
    assert w[..k] == a + b && w[k..] == c + d;
  }

  /** `lst[:k]` for a non-negative `k`. */
  function Take<T>(s: seq<T>, k: nat): seq<T> {
    if k <= |s| then s[..k] else s
  }

  function WhatsatOutcome(h: History, ml: seq<string>, reply: SearchReply, dumps: SearchReply -> string): Outcome
    requires HistoryInv(h) && ValidWhatsat(ml, h)
  {
    var rec := h[ml[1]][..6];
    var query := Query(LatLon(rec[4]), FloatValue(ml[2]) * 1000.0);
    var trimmed := reply.(results := Take(reply.results, IntValue(ml[3])));
    var text := Join(rec, " ") + "\n" + dumps(trimmed) + "\n\n";
    Outcome(Some(text), h, [], Some(query))
  }

  // ---------------------------------------------------------------------
  // Invalid messages and the dispatch (handle_invalid_command, handle_echo)
  // ---------------------------------------------------------------------

  function InvalidResponse(ml: seq<string>): string {
    "? " + Join(ml, " ")
  }

  /** Handling one received message at server `self`: tokenise, validate, and
      run the handler for its command. */
  function Step(self: string, h: History, message: string, received: real, render: real -> string,
                reply: SearchReply, dumps: SearchReply -> string): Outcome
    requires self in NETWORK_FLOW && HistoryInv(h)
  {
    var ml := MessageToList(message);
    if !Validate(ml, h) then Outcome(Some(InvalidResponse(ml)), h, [], None)
    else if ml[0] == "AT" then AtOutcome(self, h, ml)
    else if ml[0] == "IAMAT" then IamatOutcome(self, h, ml, received, render)
    else WhatsatOutcome(h, ml, reply, dumps)
  }

  // ---------------------------------------------------------------------
  // Properties of a step
  // ---------------------------------------------------------------------

  /** An invalid message leaves the history alone, floods nothing, searches
      nothing, and is answered with "? " and its normalised fields, which read
      back as the same fields. */
  lemma InvalidEchoes(self: string, h: History, message: string, received: real, render: real -> string,
                      reply: SearchReply, dumps: SearchReply -> string)
    requires self in NETWORK_FLOW && HistoryInv(h)
    requires !Validate(MessageToList(message), h)
    ensures var o := Step(self, h, message, received, render, reply, dumps);
      && o.history == h && o.floods == [] && o.query == None
      && o.response.Some?
      && o.response.value[..2] == "? "
      && MessageToList(o.response.value[2..]) == MessageToList(message)
  {
    var ml := MessageToList(message);
    var text := InvalidResponse(ml);
    assert text[2..] == Join(ml, " ");
    SplitJoin(ml);
  }

  /** WHATSAT about a client the server has no record of is invalid: it is
      answered with "? " and the message itself (for instance
      `? WHATSAT unknownClient 5 3`), and nothing changes. */
  lemma UnknownClientRejected(self: string, h: History, client: string, radius: string, bound: string,
                              received: real, render: real -> string, reply: SearchReply, dumps: SearchReply -> string)
    requires self in NETWORK_FLOW && HistoryInv(h)
    requires IsToken(client) && IsToken(radius) && IsToken(bound)
    requires client !in h
    ensures var message := "WHATSAT " + client + " " + radius + " " + bound;
      Step(self, h, message, received, render, reply, dumps) == Outcome(Some("? " + message), h, [], None)
  {
    var fields := ["WHATSAT", client, radius, bound];
    var message := "WHATSAT " + client + " " + radius + " " + bound;
    assert Join(fields, " ") == message by {
      assert Join(fields[3..], " ") == bound;
      assert Join(fields[2..], " ") == radius + " " + bound;
      assert Join(fields[1..], " ") == client + " " + radius + " " + bound;
    }
    assert AllTokens(fields) by {
      assert IsToken("WHATSAT");
    }
    SplitJoin(fields);
    assert !Validate(fields, h);
  }

  /** The staleness rule of AT: a known client whose incoming timestamp is not
      after the stored one changes nothing and sends nothing; otherwise the whole
      incoming record replaces the client's entry, every other entry stays, and
      one copy goes to each neighbour. This needs only the record's shape, so it
      holds for every validated AT message in particular. */
  lemma AtStaleness(self: string, h: History, ml: seq<string>)
    requires self in NETWORK_FLOW && HistoryInv(h)
    requires AllTokens(ml) && |ml| == 7
    ensures var o := AtOutcome(self, h, ml);
      && o.response == None && o.query == None
      && (ml[3] in h && LexLe(ml[5], h[ml[3]][5]) ==> o.history == h && o.floods == [])
      && (!(ml[3] in h && LexLe(ml[5], h[ml[3]][5])) ==>
            && o.history.Keys == h.Keys + {ml[3]}
            && o.history[ml[3]] == ml
            && (forall c :: c in h && c != ml[3] ==> o.history[c] == h[c])
            && |o.floods| == |NETWORK_FLOW[self]|
            && (forall i :: 0 <= i < |o.floods| ==>
                  o.floods[i].dest == NETWORK_FLOW[self][i]
                  && MessageToList(o.floods[i].text) == ml[..6] + [self]))
  {
    if !(ml[3] in h && LexLe(ml[5], h[ml[3]][5])) {
      FloodShape(self, ml);
    }
  }

  /** Delivering the same AT record twice changes the server at most once: the
      second delivery leaves the history as the first left it and sends nothing. */
  lemma AtIdempotent(self: string, h: History, ml: seq<string>)
    requires self in NETWORK_FLOW && HistoryInv(h)
    requires AllTokens(ml) && ValidAt(ml) && ml[0] == "AT"
    ensures var o1 := AtOutcome(self, h, ml);
      HistoryInv(o1.history) &&
      var o2 := AtOutcome(self, o1.history, ml);
      o2.history == o1.history && o2.floods == [] && o2.response == None
  {
    AtKeepsInv(self, h, ml);
    LexLeReflexive(ml[5]);
  }

  /** For every client, the stored timestamp never goes back (in the text
      order the server uses) across an AT step, whatever the record. */
  lemma AtMonotone(self: string, h: History, ml: seq<string>, client: string)
    requires self in NETWORK_FLOW && HistoryInv(h)
    requires |ml| >= 6 && client in h
    ensures var o := AtOutcome(self, h, ml);
      client in o.history && |o.history[client]| > 5 && LexLe(h[client][5], o.history[client][5])
  {
    LexLeReflexive(h[client][5]);
    LexLeTotal(ml[5], h[client][5]);
  }

  /** IAMAT stores `[AT, self, diff, client, position, time]` without any
      staleness check, answers with its single-space join and floods that same
      text; every other entry stays; the flood messages go to the neighbours in
      order and read back as the record plus this server's name; and diff
      carries a '+' exactly when the receive time is after the client's time. */
  lemma IamatOverwrites(self: string, h: History, ml: seq<string>, received: real, render: real -> string)
    requires self in NETWORK_FLOW && WellFormedRender(render)
    requires AllTokens(ml) && ValidIamat(ml)
    ensures var o := IamatOutcome(self, h, ml, received, render);
      var diff := TimeDiffAsWritten(received, FloatValue(ml[3]), render);
      var rec := ["AT", self, diff, ml[1], ml[2], ml[3]];
      && o.history == h[ml[1] := rec]
      && o.response == Some(Join(rec, " "))
      && MessageToList(o.response.value) == rec
      && |o.floods| == |NETWORK_FLOW[self]|
      && (forall i :: 0 <= i < |o.floods| ==>
            o.floods[i].dest == NETWORK_FLOW[self][i] && MessageToList(o.floods[i].text) == rec + [self])
      && (diff[0] == '+' <==> received - FloatValue(ml[3]) > 0.0)
      && o.query == None
  {
    var rec := IamatRecord(self, ml, received, render);
    TimeDiffAsWrittenSign(received, FloatValue(ml[3]), render);
    TopologyWellFormed();
    assert AllTokens(rec);
    SplitJoin(rec);
    FloodShape(self, rec);
    assert rec[..6] == rec;
  }

  /** With a decimal render, a message an IAMAT floods is a valid AT record
      at its destination, whatever that server holds, exactly when the receive
      time differs from the client's time: at a zero difference the field
      carries no sign and every neighbour refuses the record. */
  lemma IamatFloodValid(self: string, h: History, ml: seq<string>, received: real, render: real -> string, peer: History)
    requires self in NETWORK_FLOW && DecimalRender(render)
    requires AllTokens(ml) && ValidIamat(ml)
    ensures var o := IamatOutcome(self, h, ml, received, render);
      forall i :: 0 <= i < |o.floods| ==>
        (Validate(MessageToList(o.floods[i].text), peer) <==> received != FloatValue(ml[3]))
  {
    var rec := IamatRecord(self, ml, received, render);
    TopologyWellFormed();
    TimeDiffAsWrittenSign(received, FloatValue(ml[3]), render);
    TimeDiffAsWrittenSigned(received, FloatValue(ml[3]), render);
    assert AllTokens(rec);
    FloodShape(self, rec);
    assert rec[..6] == rec;
    assert (rec + [self])[0] == "AT";
    assert ValidAt(rec + [self]) <==> received != FloatValue(ml[3]);
  }

  /** WHATSAT changes nothing and floods nothing; it asks the search service
      about the stored position rendered "lat,lon" and the radius in metres, and
      answers with the stored record's first six fields (which read back as
      such), then the reply with at most `bound` and at most 20 results. */
  lemma WhatsatAnswers(h: History, ml: seq<string>, reply: SearchReply, dumps: SearchReply -> string)
    requires HistoryInv(h) && ValidWhatsat(ml, h)
    ensures var o := WhatsatOutcome(h, ml, reply, dumps);
      var rec := h[ml[1]];
      && o.history == h && o.floods == []
      && o.query == Some(Query(LatLon(rec[4]), FloatValue(ml[2]) * 1000.0))
      && MessageToList(Join(rec[..6], " ")) == rec[..6] && rec[..6][3] == ml[1]
      && exists k :: (0 <= k <= 20 && k <= |reply.results| && k <= IntValue(ml[3])
        && (k == IntValue(ml[3]) || k == |reply.results|)
        && o.response == Some(Join(rec[..6], " ") + "\n" + dumps(reply.(results := reply.results[..k])) + "\n\n"))
  {
    var rec := h[ml[1]];
    assert RecordInv(ml[1], rec);
    var head := rec[..6];
    assert AllTokens(head);
    SplitJoin(head);
    var k := TakeBounded(reply.results, IntValue(ml[3]));
    var o := WhatsatOutcome(h, ml, reply, dumps);
    assert head[4] == rec[4];
    assert o.query == Some(Query(LatLon(head[4]), FloatValue(ml[2]) * 1000.0));
    assert o.response == Some(Join(head, " ") + "\n" + dumps(reply.(results := reply.results[..k])) + "\n\n");
  }

  /** `lst[:bound]` is the first `k` elements, where `k` is the bound or,
      for a shorter list, its length. */
  lemma TakeBounded<T>(s: seq<T>, bound: nat) returns (k: nat)
    ensures k <= bound && k <= |s| && (k == bound || k == |s|)
    ensures Take(s, bound) == s[..k]
  {
    k := if bound <= |s| then bound else |s|;
  }

  // ---------------------------------------------------------------------
  // The history invariant is kept by every step
  // ---------------------------------------------------------------------

  lemma AtKeepsInv(self: string, h: History, ml: seq<string>)
    requires self in NETWORK_FLOW && HistoryInv(h)
    requires AllTokens(ml) && ValidAt(ml) && ml[0] == "AT"
    ensures HistoryInv(AtOutcome(self, h, ml).history)
  {
    assert RecordInv(ml[3], ml);
  }

  lemma IamatKeepsInv(self: string, h: History, ml: seq<string>, received: real, render: real -> string)
    requires self in NETWORK_FLOW && HistoryInv(h) && WellFormedRender(render)
    requires AllTokens(ml) && ValidIamat(ml)
    ensures HistoryInv(IamatOutcome(self, h, ml, received, render).history)
  {
    TopologyWellFormed();
    TimeDiffAsWrittenSign(received, FloatValue(ml[3]), render);
    var rec := IamatRecord(self, ml, received, render);
    assert AllTokens(rec);
    assert RecordInv(ml[1], rec);
  }

  /** Every record the server stores has six or seven fields, is keyed by its
      own client id and holds a valid position, so the slice and the indexing
      WHATSAT does on it cannot fail. */
  lemma StepKeepsInv(self: string, h: History, message: string, received: real, render: real -> string,
                     reply: SearchReply, dumps: SearchReply -> string)
    requires self in NETWORK_FLOW && HistoryInv(h) && WellFormedRender(render)
    ensures HistoryInv(Step(self, h, message, received, render, reply, dumps).history)
  {
    var ml := MessageToList(message);
    if Validate(ml, h) && ml[0] == "AT" {
      AtKeepsInv(self, h, ml);
    } else if Validate(ml, h) && ml[0] == "IAMAT" {
      IamatKeepsInv(self, h, ml, received, render);
    }
  }
}
