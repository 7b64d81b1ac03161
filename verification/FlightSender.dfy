/** The sender of DTLS flights: mbedtls_ssl_flight_transmit with its record layer. */
module FlightSenders {
  import opened Bytes
  import opened DatagramBudget
  import opened OutCounters
  import opened Flight
  import opened FlightProgress
  import opened FlightRun

  class FlightSender {
    const flight: seq<Item>
    const out: OutCounter
    var sending: bool
    var item: nat
    var pos: nat
    var outLeft: nat
    var log: seq<Entry>
    // What was put into datagrams: the records and their counters.
    var records: seq<Entry>
    var counters: seq<bytes>

    ghost var output: Output

    ghost function State(): Flow
      reads this, out
    {
      Flow(item, pos, out.transform, out.altTransform, outLeft, log)
    }

    ghost predicate Valid()
      reads this, out, out.cur, out.alt
    {
      && FlightOk(flight) && out.Valid() && InFlight(flight, State())
      && output.records == records && output.counters == counters && CountersOk(output.c)
      && (!output.wrapped ==> out.View() == output.c || out.View() == Swapped(output.c))
    }

    constructor (flight: seq<Item>, out: OutCounter)
      requires FlightOk(flight) && out.Valid()
      ensures Valid() && this.flight == flight && this.out == out && !sending
      ensures State() == Flow(0, 0, out.transform, out.altTransform, 0, [])
      ensures output == Output(out.View(), [], [], false)
    {
      this.flight, this.out := flight, out;
      sending, item, pos, outLeft, log, records, counters := false, 0, 0, 0, [], [], [];
      output := Output(out.View(), [], [], false);
    }

    /** mbedtls_ssl_flush_output */
    method FlushOutput(send: Send) returns (o: Outcome)
      modifies this`outLeft
      ensures (State(), o) == Flush(old(State()), send) && (o == Running || o == WouldBlock)
    {
      o := Running;
      if outLeft > 0 {
        match send
        case Sent =>
          outLeft := 0;
        case Blocked(left) =>
          if 0 < left < outLeft {
            outLeft := left;
          }
          o := WouldBlock;
      }
    }

    method SwapEpochs()
      requires Valid()
      modifies out, out.cur, out.alt
      ensures Valid() && State() == Swap(old(State()))
    {
      out.SwapEpochs();
    }

    /** mbedtls_ssl_write_record for the record at the end of the log */
    method WriteRecord(net: Net, mtu: nat, send: Send, payload: bytes) returns (o: Outcome)
      requires Valid() && !output.wrapped && log != [] && log[|log| - 1].transform == out.transform
      modifies this`outLeft, this`records, this`counters, this`output, out.cur
      ensures Valid() && (o == CounterWrapping <==> output.wrapped)
      ensures var (g, o') := Flight.WriteRecord(net, mtu, send, old(State()), payload);
        && output == (if o' == InternalError then old(output) else Emit(old(output), log[|log| - 1]))
        && (o != CounterWrapping ==> (State(), o) == (g, o'))
    {
      hide Flight.Flush, FlightOk, Emit, Swapped;
      RefusedIff(net, mtu, send, State(), payload);
      var size := net.size(out.transform, payload);
      if mtu < outLeft || size > mtu - outLeft {
        return InternalError;
      }
      outLeft := outLeft + size;
      var wrapped := NumberRecord();
      if wrapped {
        return CounterWrapping;
      }
      var rest := RemainingPayload(outLeft, mtu, net.maxLen, net.expansion(out.transform));
      o := Running;
      if !net.pack || rest == Some(0) {
        o := FlushOutput(send);
      } else if rest == None {
        o := InternalError;
      }
    }

    /** The record gets its counter. */
    method NumberRecord() returns (wrapped: bool)
      requires Valid() && !output.wrapped && log != [] && log[|log| - 1].transform == out.transform
      modifies this`records, this`counters, this`output, out.cur
      ensures Valid() && wrapped == output.wrapped
      ensures output == Emit(old(output), log[|log| - 1])
    {
      hide Following, IsLast, FlightOk, InFlight;
      var ctr;
      ctr, wrapped := out.Next();
      records, counters := records + [log[|log| - 1]], counters + [ctr];
      output := Emit(output, log[|log| - 1]);
    }

    lemma RefusedIff(net: Net, mtu: nat, send: Send, f: Flow, payload: bytes)
      ensures Flight.WriteRecord(net, mtu, send, f, payload).1 == InternalError
        <==> mtu < f.outLeft || net.size(f.transform, payload) > mtu - f.outLeft
    {
    }

    /** Copy what fits of the current message and move on. */
    method NextPayload(budget: nat) returns (payload: bytes)
      requires Valid() && item < |flight| && !NoRoom(flight[item], budget)
      modifies this`item, this`pos, this`log
      ensures Valid() && |log| > 0 && payload == log[|log| - 1].payload
      ensures State() == Advanced(flight[old(item)], old(State()), budget)
      ensures log == old(log) + [log[|log| - 1]] && log[|log| - 1].transform == out.transform
    {
      var it := flight[item];
      ghost var r := State();
      if it.ccs {
        log := log + [Entry(item, 0, |it.raw|, out.transform, it.raw)];
        item, pos := item + 1, 0;
      } else {
        var hsLen := |it.raw| - HDR;
        var len := Min(hsLen - pos, budget - HDR);
        log := log + [Entry(item, pos, len, out.transform, Fragment(it.raw, pos, len))];
        pos := pos + len;
        if pos >= hsLen {
          item, pos := item + 1, 0;
        }
      }
      payload := log[|log| - 1].payload;
      assert log[|log| - 1] == NextEntry(it, r, budget);
      AdvancedMakesProgress(flight, r, budget);
    }

    /** Write the next record of the flight. */
    method WriteMessage(net: Net, mtu: nat, send: Send, budget: nat) returns (o: Outcome)
      requires Valid() && !output.wrapped && item < |flight| && !NoRoom(flight[item], budget)
      modifies this`item, this`pos, this`log, this`outLeft, this`records, this`counters, this`output, out.cur
      ensures Valid() && (o == CounterWrapping <==> output.wrapped)
      ensures var (g, o') := Write(flight[old(item)], net, mtu, send, old(State()), budget);
        && |g.log| == old(|log|) + 1
        && output == (if o' == InternalError then old(output) else Emit(old(output), g.log[old(|log|)]))
        && (o != CounterWrapping ==> (State(), o) == (g, o'))
    {
      hide Emit, Fragment;
      ghost var e := NextEntry(flight[item], State(), budget);
      var payload := NextPayload(budget);
      assert log[|log| - 1] == e;
      WriteRecordKeeps(net, mtu, send, State(), payload);
      o := WriteRecord(net, mtu, send, payload);
    }

    /** One turn of the sending loop. */
    method TakeTurn(net: Net, mtu: nat, send: Send) returns (o: Outcome)
      requires Valid() && !output.wrapped && item < |flight|
      modifies this`item, this`pos, this`log, this`outLeft, this`records, this`counters, this`output,
        out, out.cur, out.alt
      ensures Valid() && (o == CounterWrapping <==> output.wrapped)
      ensures var (g, o') := Turn(flight, net, mtu, send, old(State()));
        && old(log) <= g.log
        && output == (if o' == InternalError then old(output) else EmitAll(old(output), g.log[old(|log|)..]))
        && (o != CounterWrapping ==> (State(), o) == (g, o'))
    {
      hide Emit, Write, Flight.Flush, Budget, RemainingPayload;
      TurnGrows(flight, net, mtu, send, State());
      var it := flight[item];
      var isFinished := !it.ccs && it.raw[0] == FINISHED;
      if isFinished && pos == 0 {
        SwapEpochs();
      }
      var budget := RemainingPayload(outLeft, mtu, net.maxLen, net.expansion(out.transform));
      if budget == None {
        o := InternalError;
      } else if NoRoom(it, budget.value) {
        if isFinished {
          SwapEpochs();
        }
        o := FlushOutput(send);
      } else {
        ghost var g := Write(it, net, mtu, send, State(), budget.value).0;
        ghost var n, was := |log|, output;
        o := WriteMessage(net, mtu, send, budget.value);
        assert g.log[n..] == [g.log[n]];
        EmitOne(was, g.log[n]);
      }
    }

    lemma EmitOne(o: Output, e: Entry)
      requires CountersOk(o.c)
      ensures EmitAll(o, [e]) == Emit(o, e)
    {
      assert [e][1..] == [];
    }

    ghost function Entrance(): Flow
      reads this, out
    {
      if sending then State() else Begin(State())
    }

    /** mbedtls_ssl_flight_transmit: start or resume, and run for as many turns as
        there are answers of the transport. */
    method SendFlight(net: Net, mtu: nat, sends: seq<Send>) returns (o: Outcome)
      requires Valid() && !output.wrapped && InFlight(flight, Entrance())
      modifies this, out, out.cur, out.alt
      ensures Valid() && (o == CounterWrapping <==> output.wrapped)
      ensures output == EmitAll(old(output), Records(flight, net, mtu, sends, old(Entrance())))
      ensures o != CounterWrapping ==> (State(), o) == Transmit(flight, net, mtu, sends, old(Entrance()))
      ensures sending <==> o != Done
    {
      hide Turn, Flight.Flush, Emit, FlightOk;
      if !sending {
        item, pos, log, sending := 0, 0, [], true;
        SwapEpochs();
      }
      var i := 0;
      ghost var start := State();
      ghost var was := output;
      o := Running;
      while o == Running && i < |sends|
        invariant i <= |sends| && Valid() && sending && (o == CounterWrapping <==> output.wrapped)
        invariant o == Running ==>
          Transmit(flight, net, mtu, sends[i..], State()) == Transmit(flight, net, mtu, sends, start)
          && EmitAll(output, Records(flight, net, mtu, sends[i..], State()))
            == EmitAll(was, Records(flight, net, mtu, sends, start))
        invariant o != Running ==> output == EmitAll(was, Records(flight, net, mtu, sends, start))
        invariant o != Running && o != CounterWrapping ==> (State(), o) == Transmit(flight, net, mtu, sends, start)
      {
        ghost var f, rest := State(), sends[i..];
        assert rest[0] == sends[i] && rest[1..] == sends[i + 1..];
        if item == |flight| {
          o := FlushOutput(sends[i]);
          o := if o == Running then Done else o;
        } else {
          RecordsOnce(net, mtu, rest, f, output);
          o := TakeTurn(net, mtu, sends[i]);
        }
        i := i + 1;
      }
      sending := o != Done;
    }

    /** A turn, and what comes after it. */
    lemma RecordsOnce(net: Net, mtu: nat, sends: seq<Send>, f: Flow, o: Output)
      requires FlightOk(flight) && InFlight(flight, f) && f.item < |flight| && sends != [] && CountersOk(o.c)
      ensures var (g, r) := Turn(flight, net, mtu, sends[0], f);
        && InFlight(flight, g) && f.log <= g.log && r != Done
        && var now := if r == InternalError then o else EmitAll(o, g.log[|f.log|..]);
           EmitAll(o, Records(flight, net, mtu, sends, f))
             == if now.wrapped || r != Running then now
                else EmitAll(now, Records(flight, net, mtu, sends[1..], g))
    {
      hide Turn, Emit, FlightOk;
      TurnInFlight(flight, net, mtu, sends[0], f);
      TurnGrows(flight, net, mtu, sends[0], f);
      TurnOutcome(flight, net, mtu, sends[0], f);
      var (g, r) := Turn(flight, net, mtu, sends[0], f);
      var es := g.log[|f.log|..];
      if r == Running {
        EmitAllAppend(o, es, Records(flight, net, mtu, sends[1..], g));
        if EmitAll(o, es).wrapped {
          EmitNoMore(EmitAll(o, es), Records(flight, net, mtu, sends[1..], g));
        }
      } else {
        assert es + [] == es;
      }
    }
  }

  /** The flight is sent, resumed after blocked writes and sent again: what is complete,
      all that goes out with its counters, and how it ends are as on values, up to the
      first record that takes the last counter of an epoch. So each time the flight goes
      out completely, every fragment once; no two records ever carry the same counter; and
      the records of each call go out with the two transforms in their places or exchanged,
      by the parity of the calls so far that exchange them. */
  method Session(flight: seq<Item>, net: Net, c: Counters, calls: seq<Call>)
    returns (logs: seq<seq<Entry>>, records: seq<Entry>, counters: seq<bytes>, last: Outcome)
    requires FlightOk(flight) && CountersOk(c)
    ensures var s := Ran(flight, net, c, calls);
      && logs == s.logs && records == s.output.records && counters == s.output.counters && last == s.last
      && ByTransform(c, s.output)
    ensures forall log :: log in logs ==> Complete(flight, log)
    ensures Apart(c) ==> Distinct(counters) && EndsAtLast(counters, last == CounterWrapping)
    ensures NetOk(net) && (HasFinished(flight) || c.transform == c.alt) ==>
      EpochsByParity(flight, net, c, calls)
    ensures NetOk(net) && HasFinished(flight) && c.transform != c.alt ==>
      (LogEpochs(flight, records, c.alt, c.transform) <==> NeverWritesSwapped(flight, net, c, calls))
  {
    hide Distinct, EndsAtLast, Complete, LogEpochs, Transmit, Records, EmitAll, FlightOk, InEpochs,
      NeverWritesExchanged, Apart, Placed, NetOk, ByTransform, StillCounts, Between;
    StartIsSound(flight, c);
    var out := new OutCounter(c);
    var s := new FlightSender(flight, out);
    logs, last := [], Done;
    ghost var v := Start(c);
    for n := 0 to |calls|
      invariant s.Valid() && s.flight == flight
      invariant fresh(s) && fresh(s.out) && fresh(s.out.cur) && fresh(s.out.alt)
      invariant StateOk(flight, v) && v == AfterCalls(flight, net, Start(c), calls, n)
      invariant logs == v.logs && last == v.last && s.output == v.output
      invariant !Stopped(v) ==> v.flow == s.State() && v.sending == s.sending && !v.output.wrapped
    {
      if last == Done || last == WouldBlock {
        last := s.SendFlight(net, calls[n].mtu, calls[n].sends);
        if last == Done {
          logs := logs + [s.log];
        }
      }
      v := AfterCall(flight, net, v, calls[n]);
    }
    records, counters := s.records, s.counters;
    CallsComplete(flight, net, Start(c), calls, |calls|);
    CallsByTransform(flight, net, c, calls, |calls|);
    if Apart(c) {
      CallsNumbered(flight, net, Start(c), calls, |calls|);
    }
    if NetOk(net) && (HasFinished(flight) || c.transform == c.alt) {
      RunEpochs(flight, net, Start(c), calls, |calls|, c.alt, c.transform);
      if HasFinished(flight) && c.transform != c.alt {
        NothingInEpochs(flight, c.alt, c.transform);
        AllInEpochsIff(flight, net, Start(c), calls, |calls|, c.alt, c.transform);
      }
    }
  }
}
