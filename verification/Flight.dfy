/** One transmission of a DTLS flight, on values: every turn of the sending loop, why
    the fragments tile each message, under which epoch they go out, and when the loop
    ends. Sections 4.2.3 and 4.2.4 of RFC 6347. */
module Flight {
  import opened Bytes
  import opened DatagramBudget

  const HDR: nat := 12
  const FINISHED: nat := 20

  /** A queued message: a ChangeCipherSpec, or a handshake message with the header of
      an unfragmented one. */
  datatype Item = Item(ccs: bool, raw: bytes)

  predicate ItemOk(it: Item)
  {
    if it.ccs then |it.raw| == 1 else HDR <= |it.raw| < HDR + 0x100_0000
  }

  function HsLen(it: Item): nat
    requires ItemOk(it)
  {
    if it.ccs then 0 else |it.raw| - HDR
  }

  predicate Finished(it: Item)
    requires ItemOk(it)
  {
    !it.ccs && it.raw[0] == FINISHED
  }

  /** A Finished message is the last of its flight. */
  predicate FlightOk(flight: seq<Item>)
  {
    && flight != []
    && (forall i :: 0 <= i < |flight| ==> ItemOk(flight[i]))
    && forall i :: 0 <= i < |flight| - 1 ==> !Finished(flight[i])
  }

  predicate HasFinished(flight: seq<Item>)
    requires FlightOk(flight)
  {
    Finished(flight[|flight| - 1])
  }

  /** The record layer below: the content limit, whether records are packed, the
      estimated expansion and the true size of a record under each transform. */
  datatype Net = Net(maxLen: nat, pack: bool, expansion: nat -> nat, size: (nat, bytes) -> nat)

  ghost predicate NetOk(net: Net)
  {
    forall t, p :: |p| + DTLS_HDR <= net.size(t, p) <= |p| + net.expansion(t)
  }

  function Budget(net: Net, mtu: nat, outLeft: nat, t: nat): nat
  {
    var b := RemainingPayload(outLeft, mtu, net.maxLen, net.expansion(t));
    if b.Some? then b.value else 0
  }

  /** The datagram in progress is longer than a datagram may be, and shorter than a record. */
  predicate Overfull(net: Net, mtu: nat, outLeft: nat)
  {
    mtu < outLeft < net.maxLen
  }

  /** What the transport says when the datagram is flushed. */
  datatype Send = Sent | Blocked(left: nat)

  predicate AllSent(sends: seq<Send>)
  {
    forall i :: 0 <= i < |sends| ==> sends[i] == Sent
  }

  datatype Outcome = Running | Done | WouldBlock | InternalError | CounterWrapping

  /** A record that was written: `len` bytes of message `item` from `off` on. */
  datatype Entry = Entry(item: nat, off: nat, len: nat, transform: nat, payload: bytes)

  /** The sender: current message and position behind its header, the two transforms,
      the bytes waiting in the datagram and the records written so far. */
  datatype Flow = Flow(item: nat, pos: nat, transform: nat, alt: nat, outLeft: nat, log: seq<Entry>)

  predicate InFlight(flight: seq<Item>, f: Flow)
    requires FlightOk(flight)
  {
    && f.item <= |flight|
    && (f.pos == 0 || (f.item < |flight| && f.pos < HsLen(flight[f.item])))
  }

  predicate MidFinished(flight: seq<Item>, f: Flow)
    requires FlightOk(flight)
  {
    f.item < |flight| && Finished(flight[f.item]) && f.pos > 0
  }

  function Swap(f: Flow): Flow
  {
    f.(transform := f.alt, alt := f.transform)
  }

  function Begin(f: Flow): Flow
  {
    Swap(f.(item := 0, pos := 0, log := []))
  }

  function Flush(f: Flow, send: Send): (Flow, Outcome)
  {
    if f.outLeft == 0 || send == Sent then (f.(outLeft := 0), Running)
    else (f.(outLeft := if 0 < send.left < f.outLeft then send.left else f.outLeft), WouldBlock)
  }

  predicate NoRoom(it: Item, budget: nat)
    requires ItemOk(it)
  {
    if it.ccs then budget == 0 else budget < HDR || (budget == HDR && HsLen(it) != 0)
  }

  function Fragment(raw: bytes, off: nat, len: nat): bytes
    requires HDR + off + len <= |raw|
  {
    raw[..6] + PutU24(off) + PutU24(len) + raw[HDR + off..HDR + off + len]
  }

  function NextEntry(it: Item, f: Flow, budget: nat): Entry
    requires ItemOk(it) && !NoRoom(it, budget) && (it.ccs || f.pos <= HsLen(it))
  {
    if it.ccs then Entry(f.item, 0, |it.raw|, f.transform, it.raw)
    else
      var len := Min(HsLen(it) - f.pos, budget - HDR);
      Entry(f.item, f.pos, len, f.transform, Fragment(it.raw, f.pos, len))
  }

  /** Where the sender is once the bytes before `to` of the message are written. */
  function After(it: Item, item: nat, to: nat): (nat, nat)
    requires ItemOk(it)
  {
    if it.ccs || to >= HsLen(it) then (item + 1, 0) else (item, to)
  }

  /** mbedtls_ssl_write_record, once the position has been updated. */
  function WriteRecord(net: Net, mtu: nat, send: Send, f: Flow, payload: bytes): (Flow, Outcome)
  {
    var size := net.size(f.transform, payload);
    if mtu < f.outLeft || size > mtu - f.outLeft then (f, InternalError)
    else
      var g := f.(outLeft := f.outLeft + size);
      var rest := RemainingPayload(g.outLeft, mtu, net.maxLen, net.expansion(f.transform));
      if !net.pack || rest == Some(0) then Flush(g, send)
      else if rest == None then (g, InternalError)
      else (g, Running)
  }

  function Write(it: Item, net: Net, mtu: nat, send: Send, f: Flow, budget: nat): (Flow, Outcome)
    requires ItemOk(it) && !NoRoom(it, budget) && (it.ccs || f.pos <= HsLen(it))
  {
    var e := NextEntry(it, f, budget);
    var (item, pos) := After(it, f.item, f.pos + e.len);
    WriteRecord(net, mtu, send, f.(item := item, pos := pos, log := f.log + [e]), e.payload)
  }

  /** One turn of the loop in mbedtls_ssl_flight_transmit. */
  function Turn(flight: seq<Item>, net: Net, mtu: nat, send: Send, f: Flow): (Flow, Outcome)
    requires FlightOk(flight) && InFlight(flight, f) && f.item < |flight|
  {
    var it := flight[f.item];
    var g := if Finished(it) && f.pos == 0 then Swap(f) else f;
    var b := RemainingPayload(g.outLeft, mtu, net.maxLen, net.expansion(g.transform));
    if b == None then (g, InternalError)
    else if NoRoom(it, b.value) then Flush(if Finished(it) then Swap(g) else g, send)
    else Write(it, net, mtu, send, g, b.value)
  }

  lemma TurnInFlight(flight: seq<Item>, net: Net, mtu: nat, send: Send, f: Flow)
    requires FlightOk(flight) && InFlight(flight, f) && f.item < |flight|
    ensures InFlight(flight, Turn(flight, net, mtu, send, f).0)
  {
  }

  /** One call, watched for as many turns as there are answers of the transport. */
  function Transmit(flight: seq<Item>, net: Net, mtu: nat, sends: seq<Send>, f: Flow): (Flow, Outcome)
    requires FlightOk(flight) && InFlight(flight, f)
  {
    if sends == [] then (f, Running)
    else if f.item == |flight| then
      var (g, o) := Flush(f, sends[0]);
      (g, if o == Running then Done else o)
    else
      TurnInFlight(flight, net, mtu, sends[0], f);
      var (g, o) := Turn(flight, net, mtu, sends[0], f);
      if o == Running then Transmit(flight, net, mtu, sends[1..], g) else (g, o)
  }

  lemma TurnGrows(flight: seq<Item>, net: Net, mtu: nat, send: Send, f: Flow)
    requires FlightOk(flight) && InFlight(flight, f) && f.item < |flight|
    ensures f.log <= Turn(flight, net, mtu, send, f).0.log
  {
    hide RemainingPayload, Fragment, NextEntry, After;
  }

  /** The records that the call puts into datagrams; a record that is refused with an
      internal error is not among them. */
  function Records(flight: seq<Item>, net: Net, mtu: nat, sends: seq<Send>, f: Flow): seq<Entry>
    requires FlightOk(flight) && InFlight(flight, f)
  {
    if sends == [] || f.item == |flight| then []
    else
      TurnInFlight(flight, net, mtu, sends[0], f);
      TurnGrows(flight, net, mtu, sends[0], f);
      var (g, o) := Turn(flight, net, mtu, sends[0], f);
      if o == InternalError then []
      else g.log[|f.log|..] + if o == Running then Records(flight, net, mtu, sends[1..], g) else []
  }

  /** They are what the log gains. */
  lemma {:induction false} RecordsAreLogged(flight: seq<Item>, net: Net, mtu: nat, sends: seq<Send>, f: Flow)
    requires FlightOk(flight) && InFlight(flight, f)
    ensures var (g, o) := Transmit(flight, net, mtu, sends, f);
      && InFlight(flight, g)
      && (if o == InternalError then f.log + Records(flight, net, mtu, sends, f) <= g.log
          else g.log == f.log + Records(flight, net, mtu, sends, f))
      && (o == Done ==> g.item == |flight|)
    decreases |sends|
  {
    hide Turn;
    if sends != [] && f.item < |flight| {
      TurnInFlight(flight, net, mtu, sends[0], f);
      TurnGrows(flight, net, mtu, sends[0], f);
      var (g, o) := Turn(flight, net, mtu, sends[0], f);
      TurnOutcome(flight, net, mtu, sends[0], f);
      if o == Running {
        RecordsAreLogged(flight, net, mtu, sends[1..], g);
      }
    }
  }

  lemma TurnOutcome(flight: seq<Item>, net: Net, mtu: nat, send: Send, f: Flow)
    requires FlightOk(flight) && InFlight(flight, f) && f.item < |flight|
    ensures var o := Turn(flight, net, mtu, send, f).1; o == Running || o == WouldBlock || o == InternalError
  {
    hide RemainingPayload, Fragment, NextEntry, After;
  }

  // ---------- The fragments tile the messages

  predicate IsEntry(it: Item, e: Entry, item: nat, pos: nat)
    requires ItemOk(it)
  {
    && e.item == item && e.off == pos
    && if it.ccs then pos == 0 && e.len == |it.raw| && e.payload == it.raw
       else pos + e.len <= HsLen(it) && (e.len > 0 || HsLen(it) == 0) && e.payload == Fragment(it.raw, pos, e.len)
  }

  /** The position up to which the records in `log` carry the flight, each starting
      where the one before it ended. */
  function Position(flight: seq<Item>, log: seq<Entry>): Option<(nat, nat)>
    requires FlightOk(flight)
  {
    if log == [] then Some((0, 0))
    else
      var at, e := Position(flight, log[..|log| - 1]), log[|log| - 1];
      if at.Some? && at.value.0 < |flight| && IsEntry(flight[at.value.0], e, at.value.0, at.value.1)
      then Some(After(flight[at.value.0], at.value.0, at.value.1 + e.len))
      else None
  }

  lemma {:induction false} PositionAppend(flight: seq<Item>, log: seq<Entry>, e: Entry, m: nat, p: nat)
    requires FlightOk(flight) && Position(flight, log) == Some((m, p))
    requires m < |flight| && IsEntry(flight[m], e, m, p)
    ensures Position(flight, log + [e]) == Some(After(flight[m], m, p + e.len))
  {
    assert (log + [e])[..|log|] == log;
  }

  lemma NextIsEntry(it: Item, f: Flow, budget: nat)
    requires ItemOk(it) && !NoRoom(it, budget) && (f.pos == 0 || (!it.ccs && f.pos < HsLen(it)))
    ensures IsEntry(it, NextEntry(it, f, budget), f.item, f.pos)
  {
  }

  lemma WriteRecordKeeps(net: Net, mtu: nat, send: Send, f: Flow, payload: bytes)
    ensures WriteRecord(net, mtu, send, f, payload).0.(outLeft := f.outLeft) == f
  {
  }

  lemma {:induction false} TurnTiles(flight: seq<Item>, net: Net, mtu: nat, send: Send, f: Flow)
    requires FlightOk(flight) && InFlight(flight, f) && f.item < |flight|
    requires Position(flight, f.log) == Some((f.item, f.pos))
    ensures var g := Turn(flight, net, mtu, send, f).0; Position(flight, g.log) == Some((g.item, g.pos))
  {
    hide WriteRecord, IsEntry, Position, RemainingPayload, Fragment;
    var it := flight[f.item];
    var g := if Finished(it) && f.pos == 0 then Swap(f) else f;
    var b := RemainingPayload(g.outLeft, mtu, net.maxLen, net.expansion(g.transform));
    if b.Some? && !NoRoom(it, b.value) {
      var e := NextEntry(it, g, b.value);
      NextIsEntry(it, g, b.value);
      PositionAppend(flight, f.log, e, g.item, g.pos);
      var (item, pos) := After(it, g.item, g.pos + e.len);
      WriteRecordKeeps(net, mtu, send, g.(item := item, pos := pos, log := g.log + [e]), e.payload);
    }
  }

  /** Whatever the budgets are and wherever a write blocks, what has been written is
      the flight up to the current position. */
  lemma {:induction false} TransmitTiles(flight: seq<Item>, net: Net, mtu: nat, sends: seq<Send>, f: Flow)
    requires FlightOk(flight) && InFlight(flight, f)
    requires Position(flight, f.log) == Some((f.item, f.pos))
    ensures var (g, o) := Transmit(flight, net, mtu, sends, f);
      && InFlight(flight, g) && Position(flight, g.log) == Some((g.item, g.pos))
      && (o == Done ==> g.item == |flight| && g.outLeft == 0)
    decreases |sends|
  {
    if sends != [] && f.item < |flight| {
      TurnInFlight(flight, net, mtu, sends[0], f);
      TurnTiles(flight, net, mtu, sends[0], f);
      var (g, o) := Turn(flight, net, mtu, sends[0], f);
      if o == Running {
        TransmitTiles(flight, net, mtu, sends[1..], g);
      }
    }
  }

  /** An empty message counts as one byte, so that it is sent once, too. */
  predicate Covers(e: Entry, item: nat, k: nat)
  {
    e.item == item && e.off <= k && (k < e.off + e.len || (e.len == 0 && k == e.off))
  }

  function Extent(it: Item): nat
  {
    if it.ccs || |it.raw| <= HDR then 1 else |it.raw| - HDR
  }

  function Count(log: seq<Entry>, item: nat, k: nat): nat
  {
    if log == [] then 0
    else Count(log[..|log| - 1], item, k) + if Covers(log[|log| - 1], item, k) then 1 else 0
  }

  /** Every byte before the position was sent exactly once, the others not at all. */
  lemma {:induction false} TiledOnce(flight: seq<Item>, log: seq<Entry>, item: nat, k: nat)
    requires FlightOk(flight) && Position(flight, log).Some?
    requires item < |flight| && k < Extent(flight[item])
    ensures var (m, p) := Position(flight, log).value;
      Count(log, item, k) == if item < m || (item == m && k < p) then 1 else 0
    decreases |log|
  {
    if log != [] {
      TiledOnce(flight, log[..|log| - 1], item, k);
    }
  }
}
