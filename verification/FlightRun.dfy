/** Runs of the sender of DTLS flights, on values: a flight is sent, resumed after blocked
    writes, and sent again. */
module FlightRun {
  import opened Bytes
  import opened OutCounters
  import opened Flight
  import opened FlightProgress

  // ---------- What goes out: the records with their counters

  /** The two transforms with their counters, the records written and the counters they
      were given, and whether the last one was the last of its epoch. */
  datatype Output = Output(c: Counters, records: seq<Entry>, counters: seq<bytes>, wrapped: bool)

  /** The counters as they are when t is the current transform. */
  function Under(c: Counters, t: nat): (r: Counters)
    requires CountersOk(c)
    ensures CountersOk(r)
  {
    if c.transform == t then c else Swapped(c)
  }

  /** The next record takes the counter of its transform; after the last one of an epoch
      there is no other. */
  function Emit(o: Output, e: Entry): (r: Output)
    requires CountersOk(o.c)
    ensures CountersOk(r.c)
  {
    if o.wrapped then o
    else
      var c := Under(o.c, e.transform);
      Output(Counted(c), o.records + [e], o.counters + [c.ctr], IsLast(c.ctr))
  }

  function EmitAll(o: Output, es: seq<Entry>): (r: Output)
    requires CountersOk(o.c)
    ensures CountersOk(r.c)
    decreases |es|
  {
    if es == [] then o else EmitAll(Emit(o, es[0]), es[1..])
  }

  lemma {:induction false} EmitAllAppend(o: Output, a: seq<Entry>, b: seq<Entry>)
    requires CountersOk(o.c)
    ensures EmitAll(o, a + b) == EmitAll(EmitAll(o, a), b)
    decreases |a|
  {
    hide Emit;
    if a == [] {
      assert a + b == b;
    } else {
      assert (a + b)[1..] == a[1..] + b;
      EmitAllAppend(Emit(o, a[0]), a[1..], b);
    }
  }

  lemma {:induction false} EmitNoMore(o: Output, es: seq<Entry>)
    requires CountersOk(o.c) && o.wrapped
    ensures EmitAll(o, es) == o
    decreases |es|
  {
    if es != [] {
      EmitNoMore(o, es[1..]);
    }
  }

  /** All records are written, or those up to the one with the last counter. */
  lemma {:induction false} EmitAllRecords(o: Output, es: seq<Entry>)
    requires CountersOk(o.c)
    ensures var r := EmitAll(o, es);
      && o.records <= r.records <= o.records + es
      && (!r.wrapped ==> r.records == o.records + es)
    decreases |es|
  {
    if es != [] {
      EmitAllRecords(Emit(o, es[0]), es[1..]);
      assert o.records + es == (o.records + [es[0]]) + es[1..];
      if o.wrapped {
        EmitNoMore(o, es);
      }
    }
  }

  predicate OutputOk(o: Output)
  {
    && CountersOk(o.c) && |o.records| == |o.counters|
    && Distinct(o.counters) && EndsAtLast(o.counters, o.wrapped) && (!o.wrapped ==> Behind(o.counters, o.c))
  }

  lemma EmitOk(o: Output, e: Entry)
    requires OutputOk(o)
    ensures OutputOk(Emit(o, e))
  {
    hide Distinct, EndsAtLast, Behind, IsLast;
    if !o.wrapped {
      var c := Under(o.c, e.transform);
      SwappedBehind(o.counters, o.c);
      CountedBehind(o.counters, c);
      EndsAppend(o.counters, c.ctr);
    }
  }

  lemma {:induction false} EmitAllOk(o: Output, es: seq<Entry>)
    requires OutputOk(o)
    ensures OutputOk(EmitAll(o, es))
    decreases |es|
  {
    hide Emit, OutputOk;
    CountersAreOk(o);
    if es != [] {
      EmitOk(o, es[0]);
      EmitAllOk(Emit(o, es[0]), es[1..]);
    }
  }

  lemma CountersAreOk(o: Output)
    requires OutputOk(o)
    ensures CountersOk(o.c)
  {
  }

  /** The counter of transform t. */
  function CtrOf(c: Counters, t: nat): (ctr: bytes)
    requires CountersOk(c)
    ensures |ctr| == CTR_LEN
  {
    if t == c.transform then c.ctr else c.altCtr
  }

  function CountUnder(records: seq<Entry>, t: nat): nat
  {
    if records == [] then 0
    else CountUnder(records[..|records| - 1], t) + if records[|records| - 1].transform == t then 1 else 0
  }

  predicate Transforms(c: Counters, t: nat, u: nat)
  {
    (c.transform == t && c.alt == u) || (c.transform == u && c.alt == t)
  }

  predicate AllUnder(records: seq<Entry>, t: nat, u: nat)
  {
    forall i :: 0 <= i < |records| ==> records[i].transform == t || records[i].transform == u
  }

  /** The counter in the epoch of `start`, n numbers on. */
  predicate CountedFrom(start: bytes, ctr: bytes, n: nat)
    requires |start| == |ctr| == CTR_LEN
  {
    Epoch(ctr) == Epoch(start) && Number(ctr) == Number(start) + n
  }

  /** Record i has the counter its transform started with, counted on by the number of
      records before it under the same transform. */
  predicate ByTransform(c: Counters, o: Output)
    requires CountersOk(c)
  {
    && |o.records| == |o.counters|
    && forall i :: 0 <= i < |o.records| ==>
      |o.counters[i]| == CTR_LEN
      && CountedFrom(CtrOf(c, o.records[i].transform), o.counters[i],
                     CountUnder(o.records[..i], o.records[i].transform))
  }

  predicate StillCounts(c: Counters, o: Output)
    requires CountersOk(c) && CountersOk(o.c)
  {
    && Transforms(o.c, c.transform, c.alt)
    && (!o.wrapped ==>
          && CountedFrom(CtrOf(c, c.transform), CtrOf(o.c, c.transform), CountUnder(o.records, c.transform))
          && CountedFrom(CtrOf(c, c.alt), CtrOf(o.c, c.alt), CountUnder(o.records, c.alt)))
  }

  lemma UnderIs(c: Counters, t: nat)
    requires CountersOk(c) && (t == c.transform || t == c.alt)
    ensures Under(c, t).ctr == CtrOf(c, t) && Under(c, t).transform == t
    ensures Transforms(Under(c, t), c.transform, c.alt)
    ensures forall u: nat :: u == c.transform || u == c.alt ==> CtrOf(Under(c, t), u) == CtrOf(c, u)
  {
  }

  lemma CountUnderOnce(records: seq<Entry>, e: Entry, t: nat)
    ensures CountUnder(records + [e], t) == CountUnder(records, t) + if e.transform == t then 1 else 0
  {
    assert (records + [e])[..|records|] == records;
  }

  lemma EmitStillCounts(c: Counters, o: Output, e: Entry)
    requires CountersOk(c) && CountersOk(o.c) && StillCounts(c, o)
    requires e.transform == c.transform || e.transform == c.alt
    ensures StillCounts(c, Emit(o, e))
  {
    hide Number, Following, CountUnder, IsLast, Under;
    UnderIs(o.c, e.transform);
    var u := Under(o.c, e.transform);
    FollowingNumber(u.ctr);
    CountUnderOnce(o.records, e, c.transform);
    CountUnderOnce(o.records, e, c.alt);
  }

  lemma EmitByTransform(c: Counters, o: Output, e: Entry)
    requires CountersOk(c) && CountersOk(o.c) && ByTransform(c, o) && StillCounts(c, o)
    requires e.transform == c.transform || e.transform == c.alt
    ensures ByTransform(c, Emit(o, e)) && StillCounts(c, Emit(o, e))
  {
    EmitStillCounts(c, o, e);
    if !o.wrapped {
      UnderIs(o.c, e.transform);
      hide Number, Following, CountUnder, IsLast, Under;
      var r := Emit(o, e);
      assert r.records[..|o.records|] == o.records;
      forall i | 0 <= i < |r.records|
        ensures |r.counters[i]| == CTR_LEN
        ensures CountedFrom(CtrOf(c, r.records[i].transform), r.counters[i],
                            CountUnder(r.records[..i], r.records[i].transform))
      {
        if i < |o.records| {
          assert r.records[..i] == o.records[..i];
        }
      }
    }
  }

  lemma {:induction false} EmitAllByTransform(c: Counters, o: Output, es: seq<Entry>)
    requires CountersOk(c) && CountersOk(o.c) && ByTransform(c, o) && StillCounts(c, o)
    requires AllUnder(es, c.transform, c.alt)
    ensures ByTransform(c, EmitAll(o, es)) && StillCounts(c, EmitAll(o, es))
    decreases |es|
  {
    if es != [] {
      hide ByTransform, StillCounts, Emit;
      EmitByTransform(c, o, es[0]);
      EmitAllByTransform(c, Emit(o, es[0]), es[1..]);
    }
  }

  // ---------- Calls

  /** A call of the sending function: the maximal size of a datagram, and the answers
      of the transport. */
  datatype Call = Call(mtu: nat, sends: seq<Send>)

  /** The sender between two calls: whether a transmission is under way, the records of
      those that are complete, all that went out, and how the last call ended. Where it
      ended with COUNTER_WRAPPING, `flow` is the sender before that call. */
  datatype State = State(flow: Flow, sending: bool, logs: seq<seq<Entry>>, output: Output, last: Outcome)

  function Start(c: Counters): State
  {
    State(Flow(0, 0, c.transform, c.alt, 0, []), false, [], Output(c, [], [], false), Done)
  }

  /** Where the next call goes on. */
  function Entering(s: State): Flow
  {
    if s.sending then s.flow else Begin(s.flow)
  }

  /** A call goes on where the last one stopped; or it begins a transmission, from the
      first message and with the transforms exchanged, behind what is still waiting. */
  lemma EnteringIs(s: State)
    ensures var f := Entering(s);
      && f.outLeft == s.flow.outLeft && (s.sending ==> f == s.flow)
      && (!s.sending ==>
            f.item == f.pos == 0 && f.log == [] && f.transform == s.flow.alt && f.alt == s.flow.transform)
  {
  }

  predicate StateOk(flight: seq<Item>, s: State)
    requires FlightOk(flight)
  {
    InFlight(flight, Entering(s)) && (s.sending <==> s.last != Done) && CountersOk(s.output.c)
  }

  /** Only after the end of a transmission or a blocked write there is a next call. */
  predicate Stopped(s: State)
  {
    s.last != Done && s.last != WouldBlock
  }

  function AfterCall(flight: seq<Item>, net: Net, s: State, call: Call): (r: State)
    requires FlightOk(flight) && StateOk(flight, s)
    ensures StateOk(flight, r) && s.output.records <= r.output.records
  {
    if Stopped(s) then s
    else
      var f := Entering(s);
      RecordsAreLogged(flight, net, call.mtu, call.sends, f);
      var out := EmitAll(s.output, Records(flight, net, call.mtu, call.sends, f));
      EmitAllRecords(s.output, Records(flight, net, call.mtu, call.sends, f));
      var (g, o) := Transmit(flight, net, call.mtu, call.sends, f);
      if out.wrapped then State(f, true, s.logs, out, CounterWrapping)
      else State(g, o != Done, if o == Done then s.logs + [g.log] else s.logs, out, o)
  }

  /** The sender after n calls. */
  function AfterCalls(flight: seq<Item>, net: Net, s: State, calls: seq<Call>, n: nat): (r: State)
    requires FlightOk(flight) && StateOk(flight, s) && n <= |calls|
    ensures StateOk(flight, r)
  {
    if n == 0 then s else AfterCall(flight, net, AfterCalls(flight, net, s, calls, n - 1), calls[n - 1])
  }

  predicate Complete(flight: seq<Item>, log: seq<Entry>)
    requires FlightOk(flight)
  {
    Position(flight, log) == Some((|flight|, 0))
  }

  predicate AllComplete(flight: seq<Item>, s: State)
    requires FlightOk(flight)
  {
    && Position(flight, Entering(s).log) == Some((Entering(s).item, Entering(s).pos))
    && forall log :: log in s.logs ==> Complete(flight, log)
  }

  /** Every transmission that ends is complete, every byte sent once. */
  lemma {:induction false} CallsComplete(flight: seq<Item>, net: Net, s: State, calls: seq<Call>, n: nat)
    requires FlightOk(flight) && StateOk(flight, s) && n <= |calls| && AllComplete(flight, s)
    ensures AllComplete(flight, AfterCalls(flight, net, s, calls, n))
  {
    hide AllComplete, AfterCall, FlightOk, InFlight, StateOk;
    if n > 0 {
      CallsComplete(flight, net, s, calls, n - 1);
      CallComplete(flight, net, AfterCalls(flight, net, s, calls, n - 1), calls[n - 1]);
    }
  }

  lemma CallComplete(flight: seq<Item>, net: Net, s: State, call: Call)
    requires FlightOk(flight) && StateOk(flight, s) && AllComplete(flight, s)
    ensures AllComplete(flight, AfterCall(flight, net, s, call))
  {
    hide Transmit, Records, EmitAll, FlightOk;
    if !Stopped(s) {
      TransmitTiles(flight, net, call.mtu, call.sends, Entering(s));
      assert Position(flight, []) == Some((0, 0));
    }
  }

  predicate WellNumbered(s: State)
  {
    OutputOk(s.output) && (s.output.wrapped <==> s.last == CounterWrapping)
  }

  /** No counter is used twice, and the sender stops with the last one of an epoch. */
  lemma {:induction false} CallsNumbered(flight: seq<Item>, net: Net, s: State, calls: seq<Call>, n: nat)
    requires FlightOk(flight) && StateOk(flight, s) && n <= |calls|
    requires WellNumbered(s)
    ensures WellNumbered(AfterCalls(flight, net, s, calls, n))
  {
    hide WellNumbered, AfterCall, FlightOk, InFlight, StateOk;
    if n > 0 {
      CallsNumbered(flight, net, s, calls, n - 1);
      CallNumbered(flight, net, AfterCalls(flight, net, s, calls, n - 1), calls[n - 1]);
    }
  }

  lemma CallNumbered(flight: seq<Item>, net: Net, s: State, call: Call)
    requires FlightOk(flight) && StateOk(flight, s)
    requires WellNumbered(s)
    ensures WellNumbered(AfterCall(flight, net, s, call))
  {
    hide OutputOk, Transmit, Records, EmitAll, FlightOk, InFlight;
    if !Stopped(s) {
      EmitAllOk(s.output, Records(flight, net, call.mtu, call.sends, Entering(s)));
      NotWrapping(flight, net, call.mtu, call.sends, Entering(s));
    }
  }

  lemma {:induction false} NotWrapping(flight: seq<Item>, net: Net, mtu: nat, sends: seq<Send>, f: Flow)
    requires FlightOk(flight) && InFlight(flight, f)
    ensures Transmit(flight, net, mtu, sends, f).1 != CounterWrapping
    decreases |sends|
  {
    hide Turn;
    if sends != [] && f.item < |flight| {
      TurnInFlight(flight, net, mtu, sends[0], f);
      TurnOutcome(flight, net, mtu, sends[0], f);
      NotWrapping(flight, net, mtu, sends[1..], Turn(flight, net, mtu, sends[0], f).0);
    }
  }

  lemma StartIsSound(flight: seq<Item>, c: Counters)
    requires FlightOk(flight) && CountersOk(c)
    ensures var s := Start(c);
      StateOk(flight, s) && AllComplete(flight, s) && Placed(flight, Entering(s), c.alt, c.transform)
    ensures Apart(c) ==> WellNumbered(Start(c))
  {
    if Apart(c) {
      NothingEmitted(c);
    }
  }

  /** The two transforms of the sender are t and u. */
  predicate Between(f: Flow, t: nat, u: nat)
  {
    (f.transform == t && f.alt == u) || (f.transform == u && f.alt == t)
  }

  lemma TurnBetween(flight: seq<Item>, net: Net, mtu: nat, send: Send, f: Flow, t: nat, u: nat)
    requires FlightOk(flight) && InFlight(flight, f) && f.item < |flight| && Between(f, t, u)
    ensures var g := Turn(flight, net, mtu, send, f).0;
      Between(g, t, u) && f.log <= g.log && AllUnder(g.log[|f.log|..], t, u)
  {
    hide Fragment, After;
  }

  lemma {:induction false} TransmitBetween(
      flight: seq<Item>, net: Net, mtu: nat, sends: seq<Send>, f: Flow, t: nat, u: nat)
    requires FlightOk(flight) && InFlight(flight, f) && Between(f, t, u)
    ensures Between(Transmit(flight, net, mtu, sends, f).0, t, u)
    ensures AllUnder(Records(flight, net, mtu, sends, f), t, u)
    decreases |sends|
  {
    hide Turn;
    if sends != [] && f.item < |flight| {
      TurnInFlight(flight, net, mtu, sends[0], f);
      TurnBetween(flight, net, mtu, sends[0], f, t, u);
      TransmitBetween(flight, net, mtu, sends[1..], Turn(flight, net, mtu, sends[0], f).0, t, u);
    }
  }

  /** Over any calls, each record carries the epoch of its transform, and the records under
      one transform are numbered one after the other from where its counter started. */
  lemma {:induction false} CallsByTransform(flight: seq<Item>, net: Net, c: Counters, calls: seq<Call>, n: nat)
    requires FlightOk(flight) && CountersOk(c) && StateOk(flight, Start(c)) && n <= |calls|
    ensures var s := AfterCalls(flight, net, Start(c), calls, n);
      ByTransform(c, s.output) && StillCounts(c, s.output) && Between(Entering(s), c.transform, c.alt)
  {
    hide FlightOk, InFlight, AfterCall, ByTransform, StillCounts, Between;
    if n == 0 {
      NothingByTransform(c);
    } else {
      CallsByTransform(flight, net, c, calls, n - 1);
      CallByTransform(flight, net, c, AfterCalls(flight, net, Start(c), calls, n - 1), calls[n - 1]);
    }
  }

  lemma NothingByTransform(c: Counters)
    requires CountersOk(c)
    ensures var s := Start(c);
      ByTransform(c, s.output) && StillCounts(c, s.output) && Between(Entering(s), c.transform, c.alt)
  {
  }

  lemma CallByTransform(flight: seq<Item>, net: Net, c: Counters, s: State, call: Call)
    requires FlightOk(flight) && StateOk(flight, s) && CountersOk(c)
    requires ByTransform(c, s.output) && StillCounts(c, s.output) && Between(Entering(s), c.transform, c.alt)
    ensures var t := AfterCall(flight, net, s, call);
      ByTransform(c, t.output) && StillCounts(c, t.output) && Between(Entering(t), c.transform, c.alt)
  {
    hide FlightOk, InFlight, Transmit, Records, EmitAll, ByTransform, StillCounts, AllUnder;
    if !Stopped(s) {
      var f := Entering(s);
      TransmitBetween(flight, net, call.mtu, call.sends, f, c.transform, c.alt);
      EmitAllByTransform(c, s.output, Records(flight, net, call.mtu, call.sends, f));
    }
  }

  // ---------- The epochs over a run

  /** The records that call k writes. */
  function Written(flight: seq<Item>, net: Net, s: State, calls: seq<Call>, k: nat): seq<Entry>
    requires FlightOk(flight) && StateOk(flight, s) && k < |calls|
  {
    var t := AfterCalls(flight, net, s, calls, k);
    AfterCall(flight, net, t, calls[k]).output.records[|t.output.records|..]
  }

  predicate CallExchanges(flight: seq<Item>, net: Net, s: State, call: Call)
    requires FlightOk(flight) && StateOk(flight, s)
  {
    !Stopped(s) && Exchanges(flight, net, call.mtu, call.sends, Entering(s))
  }

  /** An odd number of the first n calls exchange the transforms. */
  predicate Exchanged(flight: seq<Item>, net: Net, s: State, calls: seq<Call>, n: nat)
    requires FlightOk(flight) && StateOk(flight, s) && n <= |calls|
  {
    n > 0 &&
      Exchanged(flight, net, s, calls, n - 1)
        != CallExchanges(flight, net, AfterCalls(flight, net, s, calls, n - 1), calls[n - 1])
  }

  lemma PrefixInEpochs(flight: seq<Item>, a: seq<Entry>, b: seq<Entry>, x: bool, before: nat, after: nat)
    requires FlightOk(flight) && a <= b && InEpochs(flight, b, x, before, after)
    ensures InEpochs(flight, a, x, before, after)
  {
  }

  lemma {:induction false} CallInEpochs(
      flight: seq<Item>, net: Net, s: State, call: Call, x: bool, before: nat, after: nat)
    requires FlightOk(flight) && StateOk(flight, s) && NetOk(net) && (HasFinished(flight) || before == after)
    requires !Stopped(s) ==> PlacedIn(flight, Entering(s), x, before, after)
    ensures var t := AfterCall(flight, net, s, call);
      var y := x != CallExchanges(flight, net, s, call);
      && (!Stopped(t) ==> PlacedIn(flight, Entering(t), y, before, after))
      && InEpochs(flight, t.output.records[|s.output.records|..], y, before, after)
  {
    var t := AfterCall(flight, net, s, call);
    var y := x != CallExchanges(flight, net, s, call);
    if Stopped(s) {
      assert t.output.records[|s.output.records|..] == [];
    } else {
      hide Transmit, Records, EmitAll, Placed, LogEpochs, Exchanges, NetOk, FlightOk;
      var f := Entering(s);
      var es := Records(flight, net, call.mtu, call.sends, f);
      if x {
        CallEpochs(flight, net, call.mtu, call.sends, f, after, before);
      } else {
        CallEpochs(flight, net, call.mtu, call.sends, f, before, after);
      }
      EmitAllRecords(s.output, es);
      assert t.output.records[|s.output.records|..] <= es;
      PrefixInEpochs(flight, t.output.records[|s.output.records|..], es, y, before, after);
      RecordsAreLogged(flight, net, call.mtu, call.sends, f);
      if t.last == Done {
        if y {
          BeginPlaced(flight, t.flow, after, before);
        } else {
          BeginPlaced(flight, t.flow, before, after);
        }
      }
    }
  }

  /** Over any run, across the ends of transmissions: what a call writes goes out with the
      transforms in their places or exchanged, by the parity of the calls so far that
      exchange them. */
  lemma {:induction false} RunEpochs(
      flight: seq<Item>, net: Net, s: State, calls: seq<Call>, n: nat, before: nat, after: nat)
    requires FlightOk(flight) && StateOk(flight, s) && n <= |calls| && NetOk(net)
    requires (HasFinished(flight) || before == after) && Placed(flight, Entering(s), before, after)
    ensures var t := AfterCalls(flight, net, s, calls, n);
      !Stopped(t) ==> PlacedIn(flight, Entering(t), Exchanged(flight, net, s, calls, n), before, after)
    ensures forall k :: 0 <= k < n ==>
      InEpochs(flight, Written(flight, net, s, calls, k), Exchanged(flight, net, s, calls, k + 1), before, after)
  {
    hide NetOk, FlightOk, Placed, CallExchanges, InEpochs, AfterCall, StateOk;
    if n > 0 {
      RunEpochs(flight, net, s, calls, n - 1, before, after);
      var x := Exchanged(flight, net, s, calls, n - 1);
      CallInEpochs(flight, net, AfterCalls(flight, net, s, calls, n - 1), calls[n - 1], x, before, after);
    }
  }

  /** No call writes while the transforms are exchanged. */
  predicate NeverWritesExchanged(flight: seq<Item>, net: Net, s: State, calls: seq<Call>, n: nat)
    requires FlightOk(flight) && StateOk(flight, s) && n <= |calls|
  {
    forall k :: 0 <= k < n && Written(flight, net, s, calls, k) != [] ==> !Exchanged(flight, net, s, calls, k + 1)
  }

  lemma NotBothOrders(flight: seq<Item>, log: seq<Entry>, before: nat, after: nat)
    requires FlightOk(flight) && log != [] && before != after && LogEpochs(flight, log, after, before)
    ensures !LogEpochs(flight, log, before, after)
  {
    assert log[0].item < |flight|;
  }

  /** So every record of the run goes out in its epoch if and only if no call writes while
      an odd number of calls have exchanged the transforms. */
  lemma {:induction false} AllInEpochsIff(
      flight: seq<Item>, net: Net, s: State, calls: seq<Call>, n: nat, before: nat, after: nat)
    requires FlightOk(flight) && StateOk(flight, s) && n <= |calls| && NetOk(net) && before != after
    requires HasFinished(flight) && Placed(flight, Entering(s), before, after)
    requires LogEpochs(flight, s.output.records, before, after)
    ensures LogEpochs(flight, AfterCalls(flight, net, s, calls, n).output.records, before, after)
      <==> NeverWritesExchanged(flight, net, s, calls, n)
  {
    hide NetOk, FlightOk, Placed, CallExchanges, AfterCall, LogEpochs, Exchanged, StateOk;
    if n > 0 {
      AllInEpochsIff(flight, net, s, calls, n - 1, before, after);
      RunEpochs(flight, net, s, calls, n, before, after);
      var t := AfterCalls(flight, net, s, calls, n - 1);
      var written := Written(flight, net, s, calls, n - 1);
      assert AfterCalls(flight, net, s, calls, n).output.records == t.output.records + written;
      LogEpochsAppend(flight, t.output.records, written, before, after);
      if written == [] {
        NothingInEpochs(flight, before, after);
      } else if Exchanged(flight, net, s, calls, n) {
        NotBothOrders(flight, written, before, after);
      }
    }
  }

  // ---------- A run from the start

  /** The sender after all calls. */
  function Ran(flight: seq<Item>, net: Net, c: Counters, calls: seq<Call>): State
    requires FlightOk(flight) && CountersOk(c)
  {
    StartIsSound(flight, c);
    AfterCalls(flight, net, Start(c), calls, |calls|)
  }

  /** The records of each call are in their epochs or in the exchanged ones, by parity. */
  predicate EpochsByParity(flight: seq<Item>, net: Net, c: Counters, calls: seq<Call>)
    requires FlightOk(flight) && CountersOk(c)
  {
    StartIsSound(flight, c);
    forall k :: 0 <= k < |calls| ==>
      InEpochs(flight, Written(flight, net, Start(c), calls, k), Exchanged(flight, net, Start(c), calls, k + 1),
               c.alt, c.transform)
  }

  predicate NeverWritesSwapped(flight: seq<Item>, net: Net, c: Counters, calls: seq<Call>)
    requires FlightOk(flight) && CountersOk(c)
  {
    StartIsSound(flight, c);
    NeverWritesExchanged(flight, net, Start(c), calls, |calls|)
  }
}
