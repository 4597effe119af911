/** One location server: its name, the client history it updates in place, and
    the handlers `handle_echo` dispatches to. Each handler is proved to do what
    the matching function of module Protocol says. */
module LocationServer {
  import opened Codec
  import opened Numbers
  import opened Formats
  import opened StringOrder
  import opened Topology
  import opened Protocol

  class Server {
    const name: string
    var history: History

    /** The server is one of the configured five, and every stored record is
        well formed (see Protocol.HistoryInv). */
    ghost predicate Valid()
      reads this
    {
      name in NETWORK_FLOW && HistoryInv(history)
    }

    /** The source exits when the name is not configured. */
    constructor (name: string)
      requires name in PORT_MAP
      ensures Valid() && this.name == name && history == map[]
    {
      TopologyWellFormed();
      this.name := name;
      history := map[];
    }

    /** `flood_to_all`: for each neighbour in turn, re-read the message, put this
        server's name in field 6, and send the fields joined again. */
    method FloodToAll(message: string) returns (sends: seq<Send>)
      requires name in NETWORK_FLOW
      ensures sends == FloodSends(name, message)
    {
      var peers := NETWORK_FLOW[name];
      ghost var expected := FloodSends(name, message);
      ghost var relayed := Relay(MessageToList(message), name);
      sends := [];
      for i := 0 to |peers|
        invariant relayed.None? ==> sends == []
        invariant relayed.Some? ==> sends == expected[..i]
      {
        var fields := MessageToList(message);
        if |fields| == 6 {
          fields := fields + [name];
        } else if |fields| >= 7 {
          fields := fields[6 := name];
        } else {
          // the index assignment raises IndexError: logged, nothing sent
          continue;
        }
        sends := sends + [Send(peers[i], Join(fields, " "))];
      }
    }

    /** `handle_at_command`: drop a stale record; otherwise store the whole
        record and flood it. */
    method HandleAt(ml: seq<string>) returns (floods: seq<Send>)
      requires Valid() && AllTokens(ml) && ValidAt(ml) && ml[0] == "AT"
      modifies this
      ensures Valid()
      ensures AtOutcome(name, old(history), ml) == Outcome(None, history, floods, None)
    {
      AtKeepsInv(name, history, ml);
      floods := [];
      if ml[3] in history && LexLe(ml[5], history[ml[3]][5]) {
        return;
      }
      history := history[ml[3] := ml];
      var message := Join(ml, " ");
      floods := FloodToAll(message);
    }

    /** `handle_iamat_command`: build the `AT` record field by field, store it
        unconditionally, answer with it and flood it. */
    method HandleIamat(ml: seq<string>, received: real, render: real -> string) returns (response: string, floods: seq<Send>)
      requires Valid() && WellFormedRender(render)
      requires AllTokens(ml) && ValidIamat(ml)
      modifies this
      ensures Valid()
      ensures IamatOutcome(name, old(history), ml, received, render) == Outcome(Some(response), history, floods, None)
    {
      assert |ml| == 4 && IsPosixTime(ml[3]);
      ghost var expected := IamatOutcome(name, history, ml, received, render);
      IamatKeepsInv(name, history, ml, received, render);
      var record: seq<string> := [];
      record := record + ["AT"];
      record := record + [name];
      record := record + [TimeDiffAsWritten(received, FloatValue(ml[3]), render)];
      record := record + [ml[1]];
      record := record + [ml[2]];
      record := record + [ml[3]];
      assert record == IamatRecord(name, ml, received, render);
      history := history[ml[1] := record];
      response := Join(record, " ");
      floods := FloodToAll(response);
      assert expected.history == history;
      assert expected.response == Some(response);
      assert expected.floods == floods;
    }

    /** `handle_whatsat_command`, with the search service's reply as an input:
        render the stored position "lat,lon", convert the radius to metres,
        keep the first `bound` results, and answer. */
    method HandleWhatsat(ml: seq<string>, reply: SearchReply, dumps: SearchReply -> string) returns (query: Query, response: string)
      requires Valid() && ValidWhatsat(ml, history)
      ensures WhatsatOutcome(history, ml, reply, dumps) == Outcome(Some(response), history, [], Some(query))
    {
      ghost var expected := WhatsatOutcome(history, ml, reply, dumps);
      var stored := history[ml[1]];
      assert RecordInv(ml[1], stored);
      var record := stored[..6];
      assert record[4] == stored[4];
      var parts := LocationToList(record[4]);
      var location := parts[0] + parts[1] + "," + parts[2] + parts[3];
      var radius := FloatValue(ml[2]) * 1000.0;
      query := Query(location, radius);
      var bound: nat := IntValue(ml[3]);
      var results := reply.results;
      if bound < |results| {
        results := results[..bound];
      }
      assert location == LatLon(record[4]);
      assert query == Query(LatLon(record[4]), FloatValue(ml[2]) * 1000.0);
      assert results == Take(reply.results, bound);
      var trimmed := reply.(results := results);
      response := Join(record, " ") + "\n" + dumps(trimmed) + "\n\n";
      assert expected.query == Some(query);
      assert expected.response == Some(response);
    }

    /** `handle_invalid_command`: "? " and the fields joined; the fields read
        back from the answer are the ones received. */
    method HandleInvalid(ml: seq<string>) returns (response: string)
      ensures response == InvalidResponse(ml)
      ensures AllTokens(ml) ==> response[..2] == "? " && MessageToList(response[2..]) == ml
    {
      response := "? " + Join(ml, " ");
      if AllTokens(ml) {
        assert response[2..] == Join(ml, " ");
        SplitJoin(ml);
      }
    }

    /** `handle_echo`: tokenise the received text, validate it, and run the
        handler of its command. */
    method HandleEcho(message: string, received: real, render: real -> string, reply: SearchReply, dumps: SearchReply -> string)
      returns (response: Option<string>, floods: seq<Send>, query: Option<Query>)
      requires Valid() && WellFormedRender(render)
      modifies this
      ensures Valid()
      ensures Step(name, old(history), message, received, render, reply, dumps) == Outcome(response, history, floods, query)
    {
      var ml := MessageToList(message);
      floods, query := [], None;
      if !Validate(ml, history) {
        var text := HandleInvalid(ml);
        response := Some(text);
      } else if ml[0] == "AT" {
        floods := HandleAt(ml);
        response := None;
      } else if ml[0] == "IAMAT" {
        var text;
        text, floods := HandleIamat(ml, received, render);
        response := Some(text);
      } else {
        var q, text := HandleWhatsat(ml, reply, dumps);
        response, query := Some(text), Some(q);
      }
    }
  }
}
