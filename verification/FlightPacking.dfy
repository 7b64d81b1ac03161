/** How records are put into datagrams, and when a datagram is sent. */
module FlightPacking {
  import opened Bytes
  import opened DatagramBudget
  import opened Flight
  import opened FlightProgress

  /** The datagram of `waiting` bytes is handed to the transport: all of it goes, or what
      is not taken stays and the caller is told. */
  predicate HandsOver(waiting: nat, send: Send, left: nat, o: Outcome)
  {
    match send
    case Sent => left == 0 && o == Running
    case Blocked(rest) =>
      if waiting == 0 then left == 0 && o == Running
      else o == WouldBlock && left == if 0 < rest < waiting then rest else waiting
  }

  /** What a turn does to the datagram in progress. A record goes behind what is waiting;
      the datagram is handed over if and only if records are not packed, or the budget is
      used up, or there was no room for a record in the first place. */
  predicate TurnPacks(flight: seq<Item>, net: Net, mtu: nat, send: Send, f: Flow, g: Flow, o: Outcome)
    requires FlightOk(flight) && InFlight(flight, f) && f.item < |flight|
  {
    if |g.log| > |f.log| then
      var e := g.log[|f.log|];
      var waiting := f.outLeft + net.size(e.transform, e.payload);
      && !Short(flight, net, mtu, f) && |g.log| == |f.log| + 1
      && if net.pack && Budget(net, mtu, waiting, e.transform) > 0 then g.outLeft == waiting && o == Running
         else HandsOver(waiting, send, g.outLeft, o)
    else Short(flight, net, mtu, f) && HandsOver(f.outLeft, send, g.outLeft, o)
  }

  lemma WriteRecordPacks(net: Net, mtu: nat, send: Send, f: Flow, payload: bytes)
    requires NetOk(net) && f.outLeft <= mtu
    requires 0 < Budget(net, mtu, f.outLeft, f.transform) && |payload| <= Budget(net, mtu, f.outLeft, f.transform)
    ensures var (g, o) := WriteRecord(net, mtu, send, f, payload);
      var waiting := f.outLeft + net.size(f.transform, payload);
      if net.pack && Budget(net, mtu, waiting, f.transform) > 0 then g.outLeft == waiting && o == Running
      else HandsOver(waiting, send, g.outLeft, o)
  {
    var size := net.size(f.transform, payload);
    assert |payload| + DTLS_HDR <= size <= |payload| + net.expansion(f.transform);
  }

  lemma {:induction false} OneTurnPacks(flight: seq<Item>, net: Net, mtu: nat, send: Send, f: Flow)
    requires FlightOk(flight) && InFlight(flight, f) && f.item < |flight| && NetOk(net)
    requires !Overfull(net, mtu, f.outLeft)
    ensures var (g, o) := Turn(flight, net, mtu, send, f); TurnPacks(flight, net, mtu, send, f, g, o)
  {
    hide Turn, WriteRecord, NetOk, HandsOver, TurnPacks;
    if Short(flight, net, mtu, f) {
      ShortPacks(flight, net, mtu, send, f);
    } else {
      WritingPacks(flight, net, mtu, send, f);
    }
  }

  lemma ShortPacks(flight: seq<Item>, net: Net, mtu: nat, send: Send, f: Flow)
    requires FlightOk(flight) && InFlight(flight, f) && f.item < |flight|
    requires !Overfull(net, mtu, f.outLeft) && Short(flight, net, mtu, f)
    ensures var (g, o) := Turn(flight, net, mtu, send, f); TurnPacks(flight, net, mtu, send, f, g, o)
  {
    hide Turn, Short;
    ShortTurn(flight, net, mtu, send, f);
  }

  lemma WritingPacks(flight: seq<Item>, net: Net, mtu: nat, send: Send, f: Flow)
    requires FlightOk(flight) && InFlight(flight, f) && f.item < |flight| && NetOk(net)
    requires !Short(flight, net, mtu, f)
    ensures var (g, o) := Turn(flight, net, mtu, send, f); TurnPacks(flight, net, mtu, send, f, g, o)
  {
    hide Turn, Budget, WriteRecord, NetOk, HandsOver, Writing, Short, Ready, InFlight, FlightOk;
    RoomIsWithin(flight, net, mtu, f);
    TurnIsWrite(flight, net, mtu, send, f);
    WritingIs(flight, net, mtu, f);
    var g := Writing(flight, net, mtu, f);
    var payload := g.log[|f.log|].payload;
    WriteRecordPacks(net, mtu, send, g, payload);
    WriteRecordKeeps(net, mtu, send, g, payload);
  }

  lemma WritingIs(flight: seq<Item>, net: Net, mtu: nat, f: Flow)
    requires FlightOk(flight) && InFlight(flight, f) && f.item < |flight| && !Short(flight, net, mtu, f)
    ensures var g := Writing(flight, net, mtu, f);
      && |g.log| == |f.log| + 1 && g.outLeft == f.outLeft && g.log[|f.log|].transform == g.transform
      && var b := Budget(net, mtu, g.outLeft, g.transform);
         b > 0 && |g.log[|f.log|].payload| <= b
  {
    hide Budget, Fragment;
    var r := Ready(flight, f);
    AdvancedPayload(flight[f.item], r, Budget(net, mtu, r.outLeft, r.transform));
  }

  /** All turns of a call do so, and at the end of the flight what is waiting is handed
      over. */
  predicate Packs(flight: seq<Item>, net: Net, mtu: nat, sends: seq<Send>, f: Flow)
    requires FlightOk(flight) && InFlight(flight, f)
  {
    sends == [] ||
    if f.item == |flight| then
      var (g, o) := Transmit(flight, net, mtu, sends, f);
      HandsOver(f.outLeft, sends[0], g.outLeft, if o == Done then Running else o)
    else
      var (g, o) := Turn(flight, net, mtu, sends[0], f);
      TurnInFlight(flight, net, mtu, sends[0], f);
      TurnPacks(flight, net, mtu, sends[0], f, g, o) && (o == Running ==> Packs(flight, net, mtu, sends[1..], g))
  }

  /** Any call packs well, whatever the transport says, unless it finds the datagram too
      long for a smaller MTU. */
  lemma {:induction false} TransmitPacks(flight: seq<Item>, net: Net, mtu: nat, sends: seq<Send>, f: Flow)
    requires FlightOk(flight) && InFlight(flight, f) && NetOk(net)
    requires f.item < |flight| ==> !Overfull(net, mtu, f.outLeft)
    ensures Packs(flight, net, mtu, sends, f)
    decreases |sends|
  {
    hide Turn, TurnPacks, NetOk;
    if sends != [] {
      if f.item == |flight| {
        EndHandsOver(flight, net, mtu, sends, f);
      } else {
        OneTurn(flight, net, mtu, sends[0], f);
        OneTurnPacks(flight, net, mtu, sends[0], f);
        var (g, o) := Turn(flight, net, mtu, sends[0], f);
        if o == Running {
          TransmitPacks(flight, net, mtu, sends[1..], g);
        }
      }
    }
  }

  lemma EndHandsOver(flight: seq<Item>, net: Net, mtu: nat, sends: seq<Send>, f: Flow)
    requires FlightOk(flight) && InFlight(flight, f) && sends != [] && f.item == |flight|
    ensures var (g, o) := Transmit(flight, net, mtu, sends, f);
      HandsOver(f.outLeft, sends[0], g.outLeft, if o == Done then Running else o)
  {
  }

  /** So with packing two records that fit one behind the other, with room left between
      them, go out in one datagram: nothing is sent before the second one is put in. */
  lemma {:induction false} SharesDatagram(
      flight: seq<Item>, net: Net, mtu: nat, first: Send, second: Send, f: Flow)
    requires FlightOk(flight) && InFlight(flight, f) && f.item < |flight| && NetOk(net) && net.pack
    requires !Short(flight, net, mtu, f)
    ensures var (g, o) := Turn(flight, net, mtu, first, f);
      var e := g.log[|g.log| - 1];
      var waiting := f.outLeft + net.size(e.transform, e.payload);
      && InFlight(flight, g) && |g.log| == |f.log| + 1
      && (Budget(net, mtu, waiting, e.transform) > 0 ==>
            && o == Running && g.outLeft == waiting
            && (g.item < |flight| && !Short(flight, net, mtu, g) ==>
                  var (h, o') := Turn(flight, net, mtu, second, g);
                  && |h.log| == |f.log| + 2
                  && var waiting' := waiting + net.size(h.log[|h.log| - 1].transform, h.log[|h.log| - 1].payload);
                     g.outLeft < waiting' && (o' == Running ==> h.outLeft == 0 || h.outLeft == waiting')))
  {
    hide Turn, Short, Budget;
    RoomIsWithin(flight, net, mtu, f);
    WritingTurn(flight, net, mtu, first, f);
    OneTurnPacks(flight, net, mtu, first, f);
    var (g, o) := Turn(flight, net, mtu, first, f);
    if g.item < |flight| && !Short(flight, net, mtu, g) {
      RoomIsWithin(flight, net, mtu, g);
      WritingTurn(flight, net, mtu, second, g);
      OneTurnPacks(flight, net, mtu, second, g);
      var h := Turn(flight, net, mtu, second, g).0;
      var e := h.log[|h.log| - 1];
      assert e == h.log[|g.log|];
      assert net.size(e.transform, e.payload) >= DTLS_HDR;
    }
  }
}
