/** When the sending loop ends, and under which epoch each record of a flight goes out. */
module FlightProgress {
  import opened Bytes
  import opened DatagramBudget
  import opened Flight
  import RecordFormat

  ghost predicate Usable(c: RecordFormat.Primitives, t: Option<RecordFormat.Transform>, iv: bytes)
  {
    t.Some? ==>
      && RecordFormat.CipherOk(t.value.cipher, c) && RecordFormat.Ideal(c, t.value.cipher)
      && !t.value.cipher.tls13 && |iv| == t.value.cipher.ivLen
  }

  /** The records of DTLS 1.2 are such a network: whatever the transforms are, the
      estimated expansion bounds the true one. */
  lemma DtlsRecordsFit(
      net: Net, c: RecordFormat.Primitives, transforms: nat -> Option<RecordFormat.Transform>,
      r: RecordFormat.Rec, iv: nat -> bytes)
    requires |r.ctr| == 8
    requires forall t :: net.expansion(t) == RecordExpansion(transforms(t))
    requires forall t, p ::
      Usable(c, transforms(t), iv(t)) && net.size(t, p) == RecordSize(c, transforms(t), r.(data := p), iv(t))
    ensures NetOk(net)
  {
    forall t, p
      ensures |p| + DTLS_HDR <= net.size(t, p) <= |p| + net.expansion(t)
    {
      ExpansionBounds(c, transforms(t), r.(data := p), iv(t));
    }
  }

  /** The record for a payload within the budget always fits, so the size check in
      mbedtls_ssl_write_record is never the one that fails; using up the budget
      empties the datagram or blocks. */
  lemma WriteFits(net: Net, mtu: nat, send: Send, f: Flow, payload: bytes)
    requires NetOk(net) && f.outLeft <= mtu
    requires 0 < Budget(net, mtu, f.outLeft, f.transform) && |payload| <= Budget(net, mtu, f.outLeft, f.transform)
    ensures var (g, o) := WriteRecord(net, mtu, send, f, payload);
      && (o == Running || o == WouldBlock) && g == f.(outLeft := g.outLeft) && g.outLeft <= mtu
      && (send == Sent ==> o == Running)
      && (o == Running && |payload| == Budget(net, mtu, f.outLeft, f.transform) ==> g.outLeft == 0)
  {
    var size := net.size(f.transform, payload);
    assert |payload| + DTLS_HDR <= size <= |payload| + net.expansion(f.transform);
  }

  /** The bytes and messages still to be sent. */
  function Rest(flight: seq<Item>, item: nat): nat
    requires FlightOk(flight) && item <= |flight|
    decreases |flight| - item
  {
    if item == |flight| then 0 else HsLen(flight[item]) + 1 + Rest(flight, item + 1)
  }

  function Measure(flight: seq<Item>, f: Flow): int
    requires FlightOk(flight) && InFlight(flight, f)
  {
    2 * (Rest(flight, f.item) - f.pos) + if f.outLeft > 0 then 1 else 0
  }

  lemma MeasureBounded(flight: seq<Item>, f: Flow)
    requires FlightOk(flight) && InFlight(flight, f)
    ensures Measure(flight, f) >= 0 && (f.item < |flight| ==> Measure(flight, f) > 0)
  {
  }

  /** The sender as the turn finds it after the swap before Finished. */
  function Ready(flight: seq<Item>, f: Flow): Flow
    requires FlightOk(flight) && InFlight(flight, f) && f.item < |flight|
  {
    if Finished(flight[f.item]) && f.pos == 0 then Swap(f) else f
  }

  predicate Short(flight: seq<Item>, net: Net, mtu: nat, f: Flow)
    requires FlightOk(flight) && InFlight(flight, f) && f.item < |flight|
  {
    var g := Ready(flight, f);
    NoRoom(flight[f.item], Budget(net, mtu, g.outLeft, g.transform))
  }

  lemma {:induction false} ShortTurn(flight: seq<Item>, net: Net, mtu: nat, send: Send, f: Flow)
    requires FlightOk(flight) && InFlight(flight, f) && f.item < |flight| && !Overfull(net, mtu, f.outLeft)
    requires Short(flight, net, mtu, f)
    ensures Turn(flight, net, mtu, send, f) == Flush(if MidFinished(flight, f) then Swap(f) else f, send)
  {
  }

  /** There is no way on with a datagram that is too long for a smaller MTU. */
  lemma OverfullTurn(flight: seq<Item>, net: Net, mtu: nat, send: Send, f: Flow)
    requires FlightOk(flight) && InFlight(flight, f) && f.item < |flight| && Overfull(net, mtu, f.outLeft)
    ensures Turn(flight, net, mtu, send, f) == (Ready(flight, f), InternalError)
  {
  }

  lemma RoomIsWithin(flight: seq<Item>, net: Net, mtu: nat, f: Flow)
    requires FlightOk(flight) && InFlight(flight, f) && f.item < |flight| && !Short(flight, net, mtu, f)
    ensures f.outLeft < mtu
  {
  }

  /** The sender after the record is put together and before it is written. */
  function Advanced(it: Item, r: Flow, budget: nat): Flow
    requires ItemOk(it) && !NoRoom(it, budget) && (it.ccs || r.pos <= HsLen(it))
  {
    var e := NextEntry(it, r, budget);
    var (item, pos) := After(it, r.item, r.pos + e.len);
    r.(item := item, pos := pos, log := r.log + [e])
  }

  lemma {:induction false} AdvancedMakesProgress(flight: seq<Item>, r: Flow, budget: nat)
    requires FlightOk(flight) && InFlight(flight, r) && r.item < |flight|
    requires !NoRoom(flight[r.item], budget)
    ensures var g := Advanced(flight[r.item], r, budget);
      && InFlight(flight, g) && Rest(flight, g.item) - g.pos < Rest(flight, r.item) - r.pos
      && (if r.item < g.item then g.item == r.item + 1 && g.pos == 0 else r.item == g.item && r.pos < g.pos)
  {
    hide Fragment;
  }

  lemma {:induction false} AdvancedPayload(it: Item, r: Flow, budget: nat)
    requires ItemOk(it) && !NoRoom(it, budget) && (it.ccs || r.pos <= HsLen(it))
    ensures var g := Advanced(it, r, budget);
      && |g.log| == |r.log| + 1 && g.log[..|r.log|] == r.log
      && g.log[|r.log|].item == r.item && g.log[|r.log|].transform == r.transform
      && |g.log[|r.log|].payload| <= budget
      && (g.pos > 0 ==> |g.log[|r.log|].payload| == budget)
  {
  }

  /** The sender after the next record is put together, if there is room for it. */
  function Writing(flight: seq<Item>, net: Net, mtu: nat, f: Flow): Flow
    requires FlightOk(flight) && InFlight(flight, f) && f.item < |flight| && !Short(flight, net, mtu, f)
  {
    var r := Ready(flight, f);
    Advanced(flight[f.item], r, Budget(net, mtu, r.outLeft, r.transform))
  }

  /** A turn with room is to write what comes next. */
  lemma TurnIsWrite(flight: seq<Item>, net: Net, mtu: nat, send: Send, f: Flow)
    requires FlightOk(flight) && InFlight(flight, f) && f.item < |flight| && !Short(flight, net, mtu, f)
    ensures var g := Writing(flight, net, mtu, f);
      |g.log| == |f.log| + 1
      && Turn(flight, net, mtu, send, f) == WriteRecord(net, mtu, send, g, g.log[|f.log|].payload)
  {
    hide WriteRecord, Rest, Fragment;
    RoomIsWithin(flight, net, mtu, f);
  }

  /** A turn with room writes a record and makes progress; nothing fails. */
  lemma {:induction false} WritingTurn(flight: seq<Item>, net: Net, mtu: nat, send: Send, f: Flow)
    requires FlightOk(flight) && InFlight(flight, f) && f.item < |flight| && NetOk(net)
    requires !Short(flight, net, mtu, f)
    ensures var (g, o) := Turn(flight, net, mtu, send, f);
      && InFlight(flight, g) && (o == Running || o == WouldBlock) && g.outLeft <= mtu
      && (send == Sent ==> o == Running)
      && Rest(flight, g.item) - g.pos < Rest(flight, f.item) - f.pos
      && (MidFinished(flight, g) && o == Running ==> g.outLeft == 0)
      && g.transform == Ready(flight, f).transform && g.alt == Ready(flight, f).alt
      && (if f.item < g.item then g.item == f.item + 1 && g.pos == 0 else f.item == g.item && f.pos < g.pos)
      && |g.log| == |f.log| + 1 && g.log[..|f.log|] == f.log
      && g.log[|f.log|].item == f.item && g.log[|f.log|].transform == g.transform
  {
    hide RemainingPayload, WriteRecord, Rest, NetOk, Fragment, Turn;
    RoomIsWithin(flight, net, mtu, f);
    TurnIsWrite(flight, net, mtu, send, f);
    var it, r := flight[f.item], Ready(flight, f);
    var b := Budget(net, mtu, r.outLeft, r.transform);
    var g := Advanced(it, r, b);
    AdvancedMakesProgress(flight, r, b);
    AdvancedPayload(it, r, b);
    WriteFits(net, mtu, send, g, g.log[|r.log|].payload);
  }

  lemma RemainingSome(outLeft: nat, mtu: nat, maxLen: nat, expansion: nat)
    requires outLeft <= mtu
    ensures RemainingPayload(outLeft, mtu, maxLen, expansion).Some?
  {
  }

  lemma BudgetGrows(net: Net, mtu: nat, less: nat, more: nat, t: nat)
    requires less <= more <= mtu
    ensures Budget(net, mtu, more, t) <= Budget(net, mtu, less, t)
  {
  }

  /** Any turn, unless the datagram is overfull: it never fails, stays in the flight, and if
      the transport takes what it is given it gets nearer to the end, unless even an empty
      datagram has no room. */
  lemma {:induction false} OneTurn(flight: seq<Item>, net: Net, mtu: nat, send: Send, f: Flow)
    requires FlightOk(flight) && InFlight(flight, f) && f.item < |flight| && NetOk(net)
    requires !Overfull(net, mtu, f.outLeft)
    ensures var (g, o) := Turn(flight, net, mtu, send, f);
      && InFlight(flight, g) && (o == Running || o == WouldBlock) && (send == Sent ==> o == Running)
      && (o == Running ==> g.outLeft <= mtu)
      && (send == Sent && !(Short(flight, net, mtu, f) && f.outLeft == 0) ==> Measure(flight, g) < Measure(flight, f))
  {
    hide Turn, Short, Rest, Budget;
    if Short(flight, net, mtu, f) {
      ShortTurn(flight, net, mtu, send, f);
    } else {
      WritingTurn(flight, net, mtu, send, f);
    }
  }

  // ---------- Epochs

  predicate PastSwap(flight: seq<Item>, f: Flow)
    requires FlightOk(flight)
  {
    MidFinished(flight, f) || (f.item >= |flight| && HasFinished(flight))
  }

  /** Finished goes out under the transform `after`, all before it under `before`. */
  predicate LogEpochs(flight: seq<Item>, log: seq<Entry>, before: nat, after: nat)
    requires FlightOk(flight)
  {
    forall k :: 0 <= k < |log| ==>
      log[k].item < |flight| && log[k].transform == if Finished(flight[log[k].item]) then after else before
  }

  /** The sender is where it should be between the transforms `before` and `after`. */
  predicate Placed(flight: seq<Item>, f: Flow, before: nat, after: nat)
    requires FlightOk(flight)
  {
    if PastSwap(flight, f) then f.transform == after && f.alt == before else f.transform == before && f.alt == after
  }

  /** Starting over keeps the two transforms in their places. */
  lemma BeginPlaced(flight: seq<Item>, f: Flow, before: nat, after: nat)
    requires FlightOk(flight) && f.item == |flight| && Placed(flight, f, before, after)
    requires HasFinished(flight) || before == after
    ensures InFlight(flight, Begin(f)) && Placed(flight, Begin(f), before, after)
  {
  }

  /** The caller comes back in the middle of Finished while the datagram in progress
      has no room for more of it. */
  predicate BadResume(flight: seq<Item>, net: Net, mtu: nat, f: Flow)
    requires FlightOk(flight) && InFlight(flight, f)
  {
    MidFinished(flight, f) && Short(flight, net, mtu, f)
  }

  /** The least payload that carries some of the item: a ChangeCipherSpec, a header, or a
      header and one byte. */
  function Least(it: Item): nat
    requires ItemOk(it)
  {
    if it.ccs then 1 else if |it.raw| == 12 then 12 else 13
  }

  /** An empty datagram has room for some of the item. */
  predicate RoomFor(it: Item, net: Net, mtu: nat, t: nat)
    requires ItemOk(it)
  {
    Least(it) <= net.maxLen && Least(it) + net.expansion(t) <= mtu
  }

  lemma RoomForIff(it: Item, net: Net, mtu: nat, t: nat)
    requires ItemOk(it)
    ensures RoomFor(it, net, mtu, t) <==> !NoRoom(it, Budget(net, mtu, 0, t))
  {
  }

  lemma RoomWhenEmpty(flight: seq<Item>, net: Net, mtu: nat, f: Flow)
    requires FlightOk(flight) && InFlight(flight, f) && f.item < |flight|
    ensures var room := RoomFor(flight[f.item], net, mtu, Ready(flight, f).transform);
      && (!Short(flight, net, mtu, f) ==> room)
      && (f.outLeft == 0 && room ==> !Short(flight, net, mtu, f))
  {
    RoomForIff(flight[f.item], net, mtu, Ready(flight, f).transform);
    hide RoomFor;
    if !Short(flight, net, mtu, f) {
      RoomIsWithin(flight, net, mtu, f);
      BudgetGrows(net, mtu, 0, f.outLeft, Ready(flight, f).transform);
    }
  }

  lemma {:induction false} TurnPlaced(
      flight: seq<Item>, net: Net, mtu: nat, send: Send, f: Flow, before: nat, after: nat)
    requires FlightOk(flight) && InFlight(flight, f) && f.item < |flight| && !Overfull(net, mtu, f.outLeft)
    requires NetOk(net) && !BadResume(flight, net, mtu, f) && Placed(flight, f, before, after)
    ensures var (g, o) := Turn(flight, net, mtu, send, f);
      && InFlight(flight, g) && Placed(flight, g, before, after)
      && (o == Running ==> !BadResume(flight, net, mtu, g))
      && f.log <= g.log && LogEpochs(flight, g.log[|f.log|..], before, after)
  {
    hide Turn, Short, Rest, Budget, NetOk, RoomFor;
    var (g, o) := Turn(flight, net, mtu, send, f);
    if Short(flight, net, mtu, f) {
      ShortTurn(flight, net, mtu, send, f);
    } else {
      WritingTurn(flight, net, mtu, send, f);
      assert g.log[|f.log|..] == [g.log[|f.log|]];
      if o == Running && MidFinished(flight, g) {
        RoomWhenEmpty(flight, net, mtu, f);
        RoomWhenEmpty(flight, net, mtu, g);
      }
    }
  }

  lemma LogEpochsAppend(flight: seq<Item>, a: seq<Entry>, b: seq<Entry>, before: nat, after: nat)
    requires FlightOk(flight)
    ensures LogEpochs(flight, a + b, before, after)
      <==> LogEpochs(flight, a, before, after) && LogEpochs(flight, b, before, after)
  {
    if LogEpochs(flight, a + b, before, after) {
      assert forall k :: 0 <= k < |a| ==> (a + b)[k] == a[k];
      assert forall k :: 0 <= k < |b| ==> (a + b)[|a| + k] == b[k];
    }
  }

  /** Unless a call starts with a bad resume, every record goes out in its epoch, and the
      sender stays in its place. */
  lemma {:induction false} TransmitEpochs(
      flight: seq<Item>, net: Net, mtu: nat, sends: seq<Send>, f: Flow, before: nat, after: nat)
    requires FlightOk(flight) && InFlight(flight, f)
    requires NetOk(net) && !BadResume(flight, net, mtu, f) && Placed(flight, f, before, after)
    ensures LogEpochs(flight, Records(flight, net, mtu, sends, f), before, after)
    ensures var (g, o) := Transmit(flight, net, mtu, sends, f);
      InFlight(flight, g) && (o != InternalError ==> Placed(flight, g, before, after))
    decreases |sends|
  {
    hide Turn, BadResume, LogEpochs, NetOk;
    NothingInEpochs(flight, before, after);
    RecordsAreLogged(flight, net, mtu, sends, f);
    if sends != [] && f.item < |flight| {
      if Overfull(net, mtu, f.outLeft) {
        OverfullTurn(flight, net, mtu, sends[0], f);
      } else {
        TurnPlaced(flight, net, mtu, sends[0], f, before, after);
        OneTurn(flight, net, mtu, sends[0], f);
        var (g, o) := Turn(flight, net, mtu, sends[0], f);
        if o == Running {
          TransmitEpochs(flight, net, mtu, sends[1..], g, before, after);
          LogEpochsAppend(flight, g.log[|f.log|..], Records(flight, net, mtu, sends[1..], g), before, after);
        }
      }
    }
  }

  lemma NothingInEpochs(flight: seq<Item>, before: nat, after: nat)
    requires FlightOk(flight)
    ensures LogEpochs(flight, [], before, after)
  {
  }

  // ---------- A bad resume

  /** The call exchanges the transforms: it comes back in the middle of Finished with no
      room in the datagram in progress, and then the flush blocks, or an empty datagram
      has room under the other transform. */
  predicate Exchanges(flight: seq<Item>, net: Net, mtu: nat, sends: seq<Send>, f: Flow)
    requires FlightOk(flight) && InFlight(flight, f)
  {
    && BadResume(flight, net, mtu, f) && sends != []
    && ((f.outLeft > 0 && sends[0] != Sent) || RoomFor(flight[f.item], net, mtu, f.alt))
  }

  predicate InEpochs(flight: seq<Item>, log: seq<Entry>, exchanged: bool, before: nat, after: nat)
    requires FlightOk(flight)
  {
    if exchanged then LogEpochs(flight, log, after, before) else LogEpochs(flight, log, before, after)
  }

  predicate PlacedIn(flight: seq<Item>, f: Flow, exchanged: bool, before: nat, after: nat)
    requires FlightOk(flight)
  {
    if exchanged then Placed(flight, f, after, before) else Placed(flight, f, before, after)
  }

  /** The sender in the middle of Finished, with the transforms exchanged and the datagram
      flushed. */
  function Flushed(f: Flow): Flow
  {
    Swap(f).(outLeft := 0)
  }

  lemma FlushedPlaced(flight: seq<Item>, f: Flow, before: nat, after: nat)
    requires FlightOk(flight) && InFlight(flight, f) && MidFinished(flight, f) && Placed(flight, f, before, after)
    ensures var h := Flushed(f);
      InFlight(flight, h) && MidFinished(flight, h) && Placed(flight, h, after, before) && Ready(flight, h) == h
  {
  }

  /** A bad resume with a flush that succeeds goes on with an empty datagram under the
      other transform. */
  lemma BadResumeTurn(flight: seq<Item>, net: Net, mtu: nat, sends: seq<Send>, f: Flow)
    requires FlightOk(flight) && InFlight(flight, f) && BadResume(flight, net, mtu, f)
    requires !Overfull(net, mtu, f.outLeft) && sends != [] && (f.outLeft == 0 || sends[0] == Sent)
    ensures var h := Flushed(f);
      && InFlight(flight, h)
      && Turn(flight, net, mtu, sends[0], f) == (h, Running)
      && Transmit(flight, net, mtu, sends, f) == Transmit(flight, net, mtu, sends[1..], h)
      && Records(flight, net, mtu, sends, f) == Records(flight, net, mtu, sends[1..], h)
  {
    hide Turn, Short;
    ShortTurn(flight, net, mtu, sends[0], f);
    assert Flushed(f).log[|f.log|..] == [];
  }

  /** Without room under either transform it never comes to anything. */
  lemma {:induction false} SpinsInFinished(flight: seq<Item>, net: Net, mtu: nat, sends: seq<Send>, f: Flow)
    requires FlightOk(flight) && InFlight(flight, f) && MidFinished(flight, f) && f.outLeft == 0
    requires !RoomFor(flight[f.item], net, mtu, f.transform) && !RoomFor(flight[f.item], net, mtu, f.alt)
    ensures Transmit(flight, net, mtu, sends, f).1 == Running && Records(flight, net, mtu, sends, f) == []
    decreases |sends|
  {
    hide RoomFor, Short;
    if sends != [] {
      RoomWhenEmpty(flight, net, mtu, f);
      BadResumeTurn(flight, net, mtu, sends, f);
      SpinsInFinished(flight, net, mtu, sends[1..], Flushed(f));
    }
  }

  lemma {:induction false} BadResumeEpochs(
      flight: seq<Item>, net: Net, mtu: nat, sends: seq<Send>, f: Flow, before: nat, after: nat)
    requires FlightOk(flight) && InFlight(flight, f) && NetOk(net) && Placed(flight, f, before, after)
    requires BadResume(flight, net, mtu, f) && !Overfull(net, mtu, f.outLeft)
    requires sends != [] && (f.outLeft == 0 || sends[0] == Sent)
    ensures var (g, o) := Transmit(flight, net, mtu, sends, f);
      var x := RoomFor(flight[f.item], net, mtu, f.alt);
      && InEpochs(flight, Records(flight, net, mtu, sends, f), x, before, after)
      && InFlight(flight, g) && (o == WouldBlock || o == Done ==> PlacedIn(flight, g, x, before, after))
  {
    hide RoomFor, Short, Turn, Placed, LogEpochs, NetOk, Transmit, Records;
    var h := Flushed(f);
    BadResumeTurn(flight, net, mtu, sends, f);
    FlushedPlaced(flight, f, before, after);
    RoomWhenEmpty(flight, net, mtu, h);
    if RoomFor(flight[f.item], net, mtu, f.alt) {
      TransmitEpochs(flight, net, mtu, sends[1..], h, after, before);
    } else {
      AgainEpochs(flight, net, mtu, sends[1..], h, after, before);
    }
  }

  lemma {:induction false} AgainEpochs(
      flight: seq<Item>, net: Net, mtu: nat, sends: seq<Send>, f: Flow, before: nat, after: nat)
    requires FlightOk(flight) && InFlight(flight, f) && NetOk(net) && Placed(flight, f, before, after)
    requires BadResume(flight, net, mtu, f) && f.outLeft == 0
    requires !RoomFor(flight[f.item], net, mtu, f.transform)
    ensures var (g, o) := Transmit(flight, net, mtu, sends, f);
      && LogEpochs(flight, Records(flight, net, mtu, sends, f), after, before)
      && InFlight(flight, g) && (o == WouldBlock || o == Done ==> Placed(flight, g, after, before))
  {
    hide RoomFor, Short, Turn, Placed, LogEpochs, NetOk;
    NothingInEpochs(flight, after, before);
    if sends != [] {
      hide Transmit, Records;
      var h := Flushed(f);
      BadResumeTurn(flight, net, mtu, sends, f);
      FlushedPlaced(flight, f, before, after);
      RoomWhenEmpty(flight, net, mtu, h);
      if RoomFor(flight[f.item], net, mtu, f.alt) {
        TransmitEpochs(flight, net, mtu, sends[1..], h, after, before);
      } else {
        SpinsInFinished(flight, net, mtu, sends[1..], h);
        RecordsAreLogged(flight, net, mtu, sends[1..], h);
      }
    }
  }

  /** What any call does to the epochs, whatever the transport says: its records go out as
      the sender was placed, or with the two transforms exchanged if the call exchanges
      them; and so it leaves the sender. */
  lemma {:induction false} CallEpochs(
      flight: seq<Item>, net: Net, mtu: nat, sends: seq<Send>, f: Flow, before: nat, after: nat)
    requires FlightOk(flight) && InFlight(flight, f) && NetOk(net) && Placed(flight, f, before, after)
    ensures var (g, o) := Transmit(flight, net, mtu, sends, f);
      var x := Exchanges(flight, net, mtu, sends, f);
      && InEpochs(flight, Records(flight, net, mtu, sends, f), x, before, after)
      && InFlight(flight, g) && (o == WouldBlock || o == Done ==> PlacedIn(flight, g, x, before, after))
  {
    hide RoomFor, Short, Turn, Placed, LogEpochs, NetOk;
    RecordsAreLogged(flight, net, mtu, sends, f);
    NothingInEpochs(flight, before, after);
    NothingInEpochs(flight, after, before);
    if !BadResume(flight, net, mtu, f) {
      TransmitEpochs(flight, net, mtu, sends, f, before, after);
    } else if sends != [] {
      if Overfull(net, mtu, f.outLeft) {
        OverfullTurn(flight, net, mtu, sends[0], f);
      } else if f.outLeft > 0 && sends[0] != Sent {
        ShortTurn(flight, net, mtu, sends[0], f);
        BlockedPlaced(flight, f, sends[0], before, after);
      } else {
        BadResumeEpochs(flight, net, mtu, sends, f, before, after);
      }
    }
  }

  lemma BlockedPlaced(flight: seq<Item>, f: Flow, send: Send, before: nat, after: nat)
    requires FlightOk(flight) && InFlight(flight, f) && MidFinished(flight, f) && Placed(flight, f, before, after)
    requires f.outLeft > 0 && send != Sent
    ensures var (g, o) := Flush(Swap(f), send);
      o == WouldBlock && InFlight(flight, g) && Placed(flight, g, after, before) && g.log[|f.log|..] == []
  {
  }

  // ---------- Termination

  /** The item can be sent, if in pieces, when the datagram is empty. */
  predicate Fits(flight: seq<Item>, net: Net, mtu: nat, i: nat, before: nat, after: nat)
    requires FlightOk(flight) && i < |flight|
  {
    RoomFor(flight[i], net, mtu, if Finished(flight[i]) then after else before)
  }

  predicate AllFit(flight: seq<Item>, net: Net, mtu: nat, from: nat, before: nat, after: nat)
    requires FlightOk(flight)
  {
    forall i :: from <= i < |flight| ==> Fits(flight, net, mtu, i, before, after)
  }

  /** Room for an item at any time means room for it when the datagram is empty, and
      that is room whenever the datagram is empty. */
  lemma FitsWhenEmpty(flight: seq<Item>, net: Net, mtu: nat, f: Flow, before: nat, after: nat)
    requires FlightOk(flight) && InFlight(flight, f) && f.item < |flight| && Placed(flight, f, before, after)
    ensures !Short(flight, net, mtu, f) ==> Fits(flight, net, mtu, f.item, before, after)
    ensures f.outLeft == 0 && Fits(flight, net, mtu, f.item, before, after) ==> !Short(flight, net, mtu, f)
  {
    RoomWhenEmpty(flight, net, mtu, f);
  }

  /** If every item fits, a call is done after at most Measure turns and a last flush. */
  lemma {:induction false} TransmitTerminates(
      flight: seq<Item>, net: Net, mtu: nat, sends: seq<Send>, f: Flow, before: nat, after: nat)
    requires FlightOk(flight) && InFlight(flight, f) && NetOk(net) && AllSent(sends)
    requires f.item < |flight| ==> !Overfull(net, mtu, f.outLeft)
    requires Placed(flight, f, before, after) && !BadResume(flight, net, mtu, f)
    requires AllFit(flight, net, mtu, f.item, before, after)
    ensures var o := Transmit(flight, net, mtu, sends, f).1;
      (o == Done || o == Running) && (|sends| > Measure(flight, f) ==> o == Done)
    decreases |sends|
  {
    MeasureBounded(flight, f);
    if sends != [] && f.item < |flight| {
      hide Turn, Short, Rest, RoomFor, NetOk;
      assert Fits(flight, net, mtu, f.item, before, after);
      FitsWhenEmpty(flight, net, mtu, f, before, after);
      OneTurn(flight, net, mtu, sends[0], f);
      TurnPlaced(flight, net, mtu, sends[0], f, before, after);
      TurnItem(flight, net, mtu, sends[0], f);
      TransmitTerminates(flight, net, mtu, sends[1..], Turn(flight, net, mtu, sends[0], f).0, before, after);
    }
  }

  lemma {:induction false} TurnItem(flight: seq<Item>, net: Net, mtu: nat, send: Send, f: Flow)
    requires FlightOk(flight) && InFlight(flight, f) && f.item < |flight| && !Overfull(net, mtu, f.outLeft) &&
      NetOk(net)
    ensures var g := Turn(flight, net, mtu, send, f).0;
      && f.item <= g.item && (g.item != f.item ==> g.item == f.item + 1 && !Short(flight, net, mtu, f))
  {
    hide Turn, Short, Rest, Budget, NetOk;
    if Short(flight, net, mtu, f) {
      ShortTurn(flight, net, mtu, send, f);
    } else {
      WritingTurn(flight, net, mtu, send, f);
    }
  }

  lemma AllFitFrom(flight: seq<Item>, net: Net, mtu: nat, from: nat, before: nat, after: nat)
    requires FlightOk(flight)
    ensures AllFit(flight, net, mtu, from, before, after) <==>
      (from < |flight| ==>
        Fits(flight, net, mtu, from, before, after) && AllFit(flight, net, mtu, from + 1, before, after))
  {
    hide Fits;
  }

  /** If one does not, it is never done, whatever the transport says. */
  lemma {:induction false} TransmitSpins(
      flight: seq<Item>, net: Net, mtu: nat, sends: seq<Send>, f: Flow, before: nat, after: nat)
    requires FlightOk(flight) && InFlight(flight, f) && NetOk(net)
    requires Placed(flight, f, before, after) && !BadResume(flight, net, mtu, f)
    requires !AllFit(flight, net, mtu, f.item, before, after)
    ensures Transmit(flight, net, mtu, sends, f).1 != Done
    decreases |sends|
  {
    hide Turn, Short, Rest, RoomFor, NetOk, AllFit, Fits, Placed, BadResume;
    AllFitFrom(flight, net, mtu, f.item, before, after);
    if sends != [] {
      if Overfull(net, mtu, f.outLeft) {
        OverfullTurn(flight, net, mtu, sends[0], f);
      } else {
        FitsWhenEmpty(flight, net, mtu, f, before, after);
        OneTurn(flight, net, mtu, sends[0], f);
        TurnPlaced(flight, net, mtu, sends[0], f, before, after);
        TurnItem(flight, net, mtu, sends[0], f);
        var (g, o) := Turn(flight, net, mtu, sends[0], f);
        if o == Running {
          TransmitSpins(flight, net, mtu, sends[1..], g, before, after);
        }
      }
    }
  }

  /** A transport that takes all it is given, for n turns. */
  function Sents(n: nat): (s: seq<Send>)
    ensures |s| == n && AllSent(s)
  {
    seq(n, _ => Sent)
  }

  ghost predicate Ends(flight: seq<Item>, net: Net, mtu: nat, f: Flow)
    requires FlightOk(flight) && InFlight(flight, f)
  {
    exists n: nat :: Transmit(flight, net, mtu, Sents(n), f).1 == Done
  }

  /** An empty datagram has room for some of every item that is left, under the transform
      the item goes out with; in the middle of Finished, under one of the two. */
  predicate CanBeSent(flight: seq<Item>, net: Net, mtu: nat, f: Flow)
    requires FlightOk(flight) && InFlight(flight, f)
  {
    if MidFinished(flight, f) then
      RoomFor(flight[f.item], net, mtu, f.transform) || RoomFor(flight[f.item], net, mtu, f.alt)
    else AllFit(flight, net, mtu, f.item, f.transform, f.alt)
  }

  /** With a transport that takes what it is given, the sending loop comes to its end if
      and only if nothing is left to be written, or the datagram in progress is not too
      long and all that is left can be sent. This is for any state of the sender. */
  lemma {:induction false} EndsIffCanBeSent(flight: seq<Item>, net: Net, mtu: nat, f: Flow)
    requires FlightOk(flight) && InFlight(flight, f) && NetOk(net)
    ensures Ends(flight, net, mtu, f)
      <==> f.item == |flight| || (!Overfull(net, mtu, f.outLeft) && CanBeSent(flight, net, mtu, f))
  {
    if f.item == |flight| {
      assert Transmit(flight, net, mtu, Sents(1), f).1 == Done;
    } else if Overfull(net, mtu, f.outLeft) {
      forall n: nat
        ensures Transmit(flight, net, mtu, Sents(n), f).1 != Done
      {
        if n > 0 {
          OverfullTurn(flight, net, mtu, Sents(n)[0], f);
        }
      }
    } else if BadResume(flight, net, mtu, f) {
      BadResumeEnds(flight, net, mtu, f);
    } else {
      hide RoomFor;
      PlainEnds(flight, net, mtu, f);
    }
  }

  lemma {:induction false} PlainEnds(flight: seq<Item>, net: Net, mtu: nat, f: Flow)
    requires FlightOk(flight) && InFlight(flight, f) && NetOk(net) && f.item < |flight|
    requires !Overfull(net, mtu, f.outLeft) && !BadResume(flight, net, mtu, f)
    ensures Ends(flight, net, mtu, f) <==> CanBeSent(flight, net, mtu, f)
  {
    hide Transmit, Short, RoomFor, Rest;
    var (before, after) := if MidFinished(flight, f) then (f.alt, f.transform) else (f.transform, f.alt);
    FitsWhenEmpty(flight, net, mtu, f, before, after);
    if AllFit(flight, net, mtu, f.item, before, after) {
      MeasureBounded(flight, f);
      var n: nat := Measure(flight, f) + 1;
      TransmitTerminates(flight, net, mtu, Sents(n), f, before, after);
    } else {
      forall n: nat
        ensures Transmit(flight, net, mtu, Sents(n), f).1 != Done
      {
        TransmitSpins(flight, net, mtu, Sents(n), f, before, after);
      }
    }
  }

  /** Whether it ends is the same before and after a bad resume. */
  lemma EndsOneLater(flight: seq<Item>, net: Net, mtu: nat, f: Flow)
    requires FlightOk(flight) && InFlight(flight, f) && BadResume(flight, net, mtu, f)
    requires !Overfull(net, mtu, f.outLeft)
    ensures InFlight(flight, Flushed(f)) && (Ends(flight, net, mtu, f) <==> Ends(flight, net, mtu, Flushed(f)))
  {
    hide BadResume;
    var h := Flushed(f);
    forall n: nat
      ensures Transmit(flight, net, mtu, Sents(n + 1), f) == Transmit(flight, net, mtu, Sents(n), h)
    {
      assert Sents(n + 1)[1..] == Sents(n);
      BadResumeTurn(flight, net, mtu, Sents(n + 1), f);
    }
    hide Transmit;
    if Ends(flight, net, mtu, f) {
      var n: nat :| Transmit(flight, net, mtu, Sents(n), f).1 == Done;
      NothingDoneAtOnce(flight, net, mtu, f);
      var m: nat := n - 1;
      assert Transmit(flight, net, mtu, Sents(m), h).1 == Done;
    }
    if Ends(flight, net, mtu, h) {
      var n: nat :| Transmit(flight, net, mtu, Sents(n), h).1 == Done;
      assert Transmit(flight, net, mtu, Sents(n + 1), f).1 == Done;
    }
  }

  lemma NothingDoneAtOnce(flight: seq<Item>, net: Net, mtu: nat, f: Flow)
    requires FlightOk(flight) && InFlight(flight, f)
    ensures Transmit(flight, net, mtu, Sents(0), f).1 != Done
  {
  }

  lemma {:induction false} BadResumeEnds(flight: seq<Item>, net: Net, mtu: nat, f: Flow)
    requires FlightOk(flight) && InFlight(flight, f) && NetOk(net)
    requires !Overfull(net, mtu, f.outLeft) && BadResume(flight, net, mtu, f)
    ensures Ends(flight, net, mtu, f) <==> CanBeSent(flight, net, mtu, f)
  {
    hide RoomFor, Short, Ends;
    var h := Flushed(f);
    EndsOneLater(flight, net, mtu, f);
    RoomWhenEmpty(flight, net, mtu, h);
    if RoomFor(flight[f.item], net, mtu, f.alt) {
      PlainEnds(flight, net, mtu, h);
    } else {
      EndsOneLater(flight, net, mtu, h);
      var h' := Flushed(h);
      RoomWhenEmpty(flight, net, mtu, h');
      if RoomFor(flight[f.item], net, mtu, f.transform) {
        PlainEnds(flight, net, mtu, h');
      } else {
        NeverEnds(flight, net, mtu, h');
      }
    }
  }

  lemma NeverEnds(flight: seq<Item>, net: Net, mtu: nat, f: Flow)
    requires FlightOk(flight) && InFlight(flight, f) && MidFinished(flight, f) && f.outLeft == 0
    requires !RoomFor(flight[f.item], net, mtu, f.transform) && !RoomFor(flight[f.item], net, mtu, f.alt)
    ensures !Ends(flight, net, mtu, f)
  {
    hide RoomFor;
    forall n: nat
      ensures Transmit(flight, net, mtu, Sents(n), f).1 != Done
    {
      SpinsInFinished(flight, net, mtu, Sents(n), f);
    }
  }

  /** In particular a flight that is started, with nothing in the datagram. */
  lemma {:induction false} FlightEndsIffAllFit(flight: seq<Item>, net: Net, mtu: nat, f: Flow)
    requires FlightOk(flight) && f.outLeft == 0 && NetOk(net)
    ensures InFlight(flight, Begin(f))
    ensures Ends(flight, net, mtu, Begin(f)) <==> AllFit(flight, net, mtu, 0, f.alt, f.transform)
  {
    hide AllFit, Ends;
    EndsIffCanBeSent(flight, net, mtu, Begin(f));
  }

  /** Where it does not end, it spins with no change at all from some turn on: as soon as
      the datagram is empty. */
  lemma {:induction false} Livelock(flight: seq<Item>, net: Net, mtu: nat, sends: seq<Send>, f: Flow)
    requires FlightOk(flight) && InFlight(flight, f) && f.item < |flight|
    requires f.outLeft == 0 && !MidFinished(flight, f) && Short(flight, net, mtu, f)
    ensures Transmit(flight, net, mtu, sends, f) == (f, Running)
    decreases |sends|
  {
    if sends != [] {
      ShortTurn(flight, net, mtu, sends[0], f);
      Livelock(flight, net, mtu, sends[1..], f);
    }
  }

  // ---------- An example

  const SplitRaw: bytes := [20, 0, 0, 12, 0, 3, 0, 0, 0, 0, 0, 12, 1, 2, 3, 4, 5, 6, 7, 8, 9, 10, 11, 12]
  const SplitFlight: seq<Item> := [Item(false, SplitRaw)]
  const SplitNet: Net := Net(16384, true, t => DTLS_HDR, (t, p: bytes) => |p| + DTLS_HDR)

  /** Such a case: half of Finished goes out under the new transform 1 and the flush
      blocks; the next call, in which nothing blocks, sends the other half under the
      old transform 0. */
  lemma {:induction false} FinishedSplitOverEpochs()
    ensures FlightOk(SplitFlight) && NetOk(SplitNet) && AllFit(SplitFlight, SplitNet, 31, 0, 0, 1)
    ensures var f := Begin(Flow(0, 0, 1, 0, 0, []));
      && InFlight(SplitFlight, f)
      && var (g, o) := Transmit(SplitFlight, SplitNet, 31, [Blocked(31)], f);
         o == WouldBlock && InFlight(SplitFlight, g)
         && var (h, o') := Transmit(SplitFlight, SplitNet, 31, [Sent, Sent, Sent], g);
            && o' == Done
            && h.log == [Entry(0, 0, 6, 1, Fragment(SplitRaw, 0, 6)), Entry(0, 6, 6, 0, Fragment(SplitRaw, 6, 6))]
  {
    hide Fragment;
    var first, second := Entry(0, 0, 6, 1, Fragment(SplitRaw, 0, 6)), Entry(0, 6, 6, 0, Fragment(SplitRaw, 6, 6));
    FragmentSize(SplitRaw, 0, 6);
    FragmentSize(SplitRaw, 6, 6);
    var f := Flow(0, 0, 0, 1, 0, []);
    var g := Flow(0, 6, 1, 0, 31, [first]);
    var it := SplitFlight[0];
    assert NextEntry(it, Swap(f), 18) == first;
    assert [] + [first] == [first] && After(it, 0, 6) == (0, 6);
    assert Write(it, SplitNet, 31, Blocked(31), Swap(f), 18) == (g, WouldBlock);
    assert Turn(SplitFlight, SplitNet, 31, Blocked(31), f) == (g, WouldBlock);
    assert Transmit(SplitFlight, SplitNet, 31, [Blocked(31)], f) == (g, WouldBlock);
    var g' := Flow(0, 6, 0, 1, 0, [first]);
    assert Turn(SplitFlight, SplitNet, 31, Sent, g) == (g', Running);
    var h := Flow(1, 0, 0, 1, 0, [first, second]);
    assert NextEntry(it, g', 18) == second;
    assert [first] + [second] == [first, second];
    assert Write(it, SplitNet, 31, Sent, g', 18) == (h, Running);
    assert Turn(SplitFlight, SplitNet, 31, Sent, g') == (h, Running);
    assert Transmit(SplitFlight, SplitNet, 31, [Sent], h) == (h, Done);
    assert [Sent, Sent, Sent][1..] == [Sent, Sent] && [Sent, Sent][1..] == [Sent];
    assert Transmit(SplitFlight, SplitNet, 31, [Sent, Sent], g') == (h, Done);
  }

  /** And when the flight is sent again after that, all of Finished goes out under the old
      transform 0, although nothing blocks. */
  lemma {:induction false} NextFlightInverted(log: seq<Entry>)
    ensures FlightOk(SplitFlight)
    ensures var f := Begin(Flow(1, 0, 0, 1, 0, log));
      && InFlight(SplitFlight, f)
      && var (g, o) := Transmit(SplitFlight, SplitNet, 31, [Sent, Sent, Sent], f);
         && o == Done
         && g.log == [Entry(0, 0, 6, 0, Fragment(SplitRaw, 0, 6)), Entry(0, 6, 6, 0, Fragment(SplitRaw, 6, 6))]
  {
    hide Fragment;
    var first, second := Entry(0, 0, 6, 0, Fragment(SplitRaw, 0, 6)), Entry(0, 6, 6, 0, Fragment(SplitRaw, 6, 6));
    FragmentSize(SplitRaw, 0, 6);
    FragmentSize(SplitRaw, 6, 6);
    var it := SplitFlight[0];
    var f := Flow(0, 0, 1, 0, 0, []);
    var g := Flow(0, 6, 0, 1, 0, [first]);
    var h := Flow(1, 0, 0, 1, 0, [first, second]);
    assert NextEntry(it, Swap(f), 18) == first && [] + [first] == [first];
    assert Write(it, SplitNet, 31, Sent, Swap(f), 18) == (g, Running);
    assert Turn(SplitFlight, SplitNet, 31, Sent, f) == (g, Running);
    assert NextEntry(it, g, 18) == second && [first] + [second] == [first, second];
    assert Write(it, SplitNet, 31, Sent, g, 18) == (h, Running);
    assert Turn(SplitFlight, SplitNet, 31, Sent, g) == (h, Running);
    assert Transmit(SplitFlight, SplitNet, 31, [Sent], h) == (h, Done);
    assert [Sent, Sent, Sent][1..] == [Sent, Sent] && [Sent, Sent][1..] == [Sent];
    assert Transmit(SplitFlight, SplitNet, 31, [Sent, Sent], g) == (h, Done);
  }

  lemma FragmentSize(raw: bytes, off: nat, len: nat)
    requires HDR + off + len <= |raw|
    ensures |Fragment(raw, off, len)| == HDR + len
  {
  }
}
