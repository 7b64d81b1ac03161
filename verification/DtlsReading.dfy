/** The receiving side of the DTLS handshake messaging layer, on values: what each step
    of the loop that reads records does to the state of the receiver. */
module DtlsReading {
  import opened Bytes
  import opened Reassembly

  datatype Status =
    | Done | Continue | Early | WantRead | ConnEof
    | InvalidRecord | InternalError | BufferTooSmall | FatalAlert | PeerClosed

  const ALERT_FATAL: byte := 2
  const ALERT_WARNING: byte := 1
  const CLOSE_NOTIFY: byte := 0
  const NO_RENEGOTIATION: byte := 100

  /** The record layer has the datagrams still to come, the rest of the one being read,
      and the kind and content of the record at hand, of which the first hsLen bytes are
      the current message. The handshake layer waits for message `next`, or, in one of
      the ChangeCipherSpec states, for a ChangeCipherSpec. */
  datatype Receiver = Receiver(
    wire: seq<seq<Record>>, datagram: seq<Record>, epoch: nat,
    kind: Kind, content: bytes, hsLen: nat,
    expectCcs: bool, seenCcs: bool, next: nat, b: Buffers, transcript: seq<bytes>)

  /** The input buffer holds any content, and a ChangeCipherSpec at least. */
  function Capacity(l: Limits): nat
  {
    if l.content == 0 then 1 else l.content
  }

  predicate ReceiverOk(r: Receiver)
  {
    Ok(r.b) && Numbered(r.b, r.next) && |r.content| <= Capacity(r.b.limits)
  }

  const NoSlots: seq<Slot> := [Empty, Empty, Empty, Empty]

  function Start(limits: Limits, next: nat, epoch: nat): Receiver
  {
    Receiver([], [], epoch, Handshake, [], 0, false, false, next, Buffers(NoSlots, None, limits), [])
  }

  lemma StartOk(limits: Limits, next: nat, epoch: nat)
    ensures ReceiverOk(Start(limits, next, epoch))
  {
    SlotsSizeZero(NoSlots);
  }

  /** What is left of a record when a message of hsLen bytes is taken off its front. */
  function Rest(s: bytes, hsLen: nat): bytes
  {
    if 0 < hsLen < |s| then s[hsLen..] else []
  }

  /** ssl_consume_current_message */
  function Consume(r: Receiver): Receiver
  {
    r.(content := Rest(r.content, r.hsLen), hsLen := 0)
  }

  /** ssl_load_buffered_message */
  function LoadMessage(r: Receiver): (Receiver, bool)
    requires |r.b.slots| == SLOTS
  {
    if r.expectCcs then
      if r.seenCcs then (r.(kind := ChangeCipherSpec, content := [1], seenCcs := false), true) else (r, false)
    else
      match Loadable(r.b)
      case None => (r, false)
      case Some(m) => (r.(kind := Handshake, content := m, hsLen := |m|), true)
  }

  /** ssl_load_buffered_record */
  function LoadRecord(r: Receiver): Receiver
  {
    if r.b.future.Some? && r.datagram == [] && r.b.future.value.epoch == r.epoch
    then r.(datagram := [r.b.future.value], b := r.b.(future := None))
    else r
  }

  /** mbedtls_ssl_fetch_input: the next datagram, if the last one is used up. */
  function Fetch(r: Receiver): (Receiver, bool)
  {
    var r' := LoadRecord(r);
    if r'.datagram != [] then (r', true)
    else if r'.wire == [] then (r', false)
    else (r'.(datagram := r'.wire[0], wire := r'.wire[1..]), true)
  }

  /** The next record of the datagram. One that is not valid, or does not authenticate,
      takes the rest of its datagram with it; one of the next epoch is put aside. */
  function TakeRecord(r: Receiver): (Receiver, Status)
    requires r.datagram != []
  {
    var rec, r' := r.datagram[0], r.(datagram := r.datagram[1..]);
    if rec.header != WellFormed then (r'.(datagram := []), Continue)
    else if rec.epoch != r.epoch then
      (if rec.epoch == r.epoch + 1 then r'.(b := KeepFuture(r.b, rec)) else r', Continue)
    else if !rec.authentic then (r'.(datagram := []), Continue)
    else if (rec.content == [] && rec.kind != ApplicationData) || |rec.content| > r.b.limits.content
    then (r', InvalidRecord)
    else (r'.(kind := rec.kind, content := rec.content), Done)
  }

  /** The rest of the datagram is shorter than a record header. */
  predicate CutOff(r: Receiver)
  {
    r.datagram != [] && r.datagram[0].header == Cut
  }

  /** ssl_get_next_record */
  function GetNext(r: Receiver): (Receiver, Status)
  {
    if CutOff(r) then (r, InternalError)
    else
      var (r', ok) := Fetch(r);
      if !ok then (r', WantRead) else if r'.datagram == [] then (r', ConnEof) else TakeRecord(r')
  }

  /** mbedtls_ssl_prepare_handshake_record for message `next`. */
  function Judge(s: bytes, next: nat): Status
  {
    if |s| < HDR || !HeaderOk(s) then InvalidRecord
    else if MsgSeq(s) > next then Early
    else if MsgSeq(s) < next then Continue
    else if IsFragment(s) then Early
    else Done
  }

  function JudgeAlert(s: bytes): Status
  {
    if |s| != 2 then InvalidRecord
    else if s[0] == ALERT_FATAL then FatalAlert
    else if s[0] == ALERT_WARNING && s[1] == CLOSE_NOTIFY then PeerClosed
    else if s[0] == ALERT_WARNING && s[1] == NO_RENEGOTIATION then Done
    else Continue
  }

  /** mbedtls_ssl_handle_message_type, during a handshake */
  function HandleType(r: Receiver): (Receiver, Status)
  {
    match r.kind
    case Handshake =>
      (if |r.content| < HDR then r else r.(hsLen := HDR + TotalLen(r.content)), Judge(r.content, r.next))
    case ChangeCipherSpec =>
      (r, if r.content != [1] then InvalidRecord else if r.expectCcs then Done else Early)
    case Alert => (r, JudgeAlert(r.content))
    case ApplicationData => (r, Continue)
  }

  /** ssl_buffer_message */
  function BufferMessage(r: Receiver): (Receiver, Ret)
    requires Ok(r.b) && (r.kind == Handshake ==> |r.content| >= HDR && HeaderOk(r.content))
  {
    if r.kind != Handshake then (r.(seenCcs := true), RetOk)
    else
      var (b, ret) := BufferFragment(r.b, r.next, r.content);
      (r.(b := b), ret)
  }

  function Handle(r: Receiver): (Receiver, Status)
    requires Ok(r.b)
  {
    var (r', st) := HandleType(r);
    if st != Early then (r', st)
    else
      match BufferMessage(r')
      case (r'', RetOk) => (r'', Continue)
      case (r'', RetInternalError) => (r'', InternalError)
      case (r'', RetTooSmall) => (r'', BufferTooSmall)
  }

  /** The rest of the current record, a buffered message, or a new record. */
  function Obtain(r: Receiver): (Receiver, Status)
    requires |r.b.slots| == SLOTS
  {
    var r' := Consume(r);
    if r'.content != [] then (r', Done)
    else if r'.datagram == [] && LoadMessage(r').1 then (LoadMessage(r').0, Done)
    else GetNext(r')
  }

  /** One turn of the loop in mbedtls_ssl_read_record. */
  function Turn(r: Receiver): (Receiver, Status)
    requires ReceiverOk(r)
  {
    var (r', st) := Obtain(r);
    ObtainOk(r);
    if st == Done then Handle(r') else (r', st)
  }

  /** mbedtls_ssl_update_handshake_status */
  function Update(r: Receiver): Receiver
    requires |r.b.slots| == SLOTS && r.hsLen <= |r.content|
  {
    r.(transcript := r.transcript + [r.content[..r.hsLen]], next := r.next + 1, b := Advance(r.b))
  }

  function Backlog(r: Receiver): nat
  {
    2 * |r.datagram| + if r.b.future.Some? then 1 else 0
  }

  /** The bytes of the record at hand behind the current message. */
  function Left(r: Receiver): nat
  {
    |Rest(r.content, r.hsLen)|
  }

  /** mbedtls_ssl_read_record, updating the handshake checksum */
  function Read(r: Receiver): (Receiver, Status)
    requires ReceiverOk(r)
    decreases |r.wire|, Backlog(r), Left(r)
  {
    var (r', st) := Turn(r);
    TurnOk(r);
    if st == Continue then TurnGoesOn(r); Read(r')
    else if st == Done && r'.kind == Handshake then (Update(r'), Done)
    else (r', st)
  }

  // ---------- What the steps keep

  /** The parts of the state that only the handshake layer changes. */
  predicate SameTask(r: Receiver, r': Receiver)
  {
    && r'.next == r.next && r'.transcript == r.transcript
    && r'.expectCcs == r.expectCcs && r'.epoch == r.epoch && r'.b.limits == r.b.limits
  }

  lemma KeepFutureOk(b: Buffers, rec: Record)
    requires Ok(b)
    ensures Ok(KeepFuture(b, rec)) && KeepFuture(b, rec).slots == b.slots && KeepFuture(b, rec).limits == b.limits
  {
  }

  lemma DropFutureOk(b: Buffers)
    requires Ok(b)
    ensures Ok(b.(future := None))
  {
  }

  lemma FetchOk(r: Receiver)
    requires ReceiverOk(r)
    ensures var (r', ok) := Fetch(r);
      && ReceiverOk(r') && r' == r.(wire := r'.wire, datagram := r'.datagram, b := r.b.(future := r'.b.future))
      && (ok ==>
            || |r'.wire| < |r.wire|
            || (|r'.wire| == |r.wire| && r'.datagram != []
                && (Backlog(r') <= Backlog(r) || (Backlog(r') == Backlog(r) + 1 && r'.datagram[0].epoch == r.epoch))))
      && (!ok ==> r'.wire == [] && r'.datagram == [] && r.wire == [])
  {
    DropFutureOk(r.b);
    hide Ok;
  }

  lemma TakeRecordOk(r: Receiver)
    requires ReceiverOk(r) && r.datagram != []
    ensures var (r', st) := TakeRecord(r);
      && ReceiverOk(r') && SameTask(r, r') && r'.b.slots == r.b.slots && r'.hsLen == r.hsLen && r'.wire == r.wire
      && (st == Done || st == Continue || st == InvalidRecord)
      && Backlog(r') + (if r.datagram[0].epoch == r.epoch then 2 else 1) <= Backlog(r)
  {
    KeepFutureOk(r.b, r.datagram[0]);
    hide Ok;
    assert |r.datagram[1..]| == |r.datagram| - 1;
  }

  lemma GetNextOk(r: Receiver)
    requires ReceiverOk(r)
    ensures var (r', st) := GetNext(r);
      && ReceiverOk(r') && SameTask(r, r') && r'.b.slots == r.b.slots && r'.hsLen == r.hsLen
      && (st == Done || st == Continue || st == WantRead || st == InvalidRecord || st == ConnEof || st == InternalError)
      && (st == InternalError <==> CutOff(r))
      && (st == Done || st == Continue ==>
            |r'.wire| < |r.wire| || (|r'.wire| == |r.wire| && Backlog(r') < Backlog(r)))
      && (st == WantRead ==> r'.wire == [] && r'.datagram == [] && r.wire == [])
  {
    hide Fetch, TakeRecord, ReceiverOk;
    FetchOk(r);
    var (r1, ok) := Fetch(r);
    if ok && r1.datagram != [] {
      TakeRecordOk(r1);
    }
  }

  lemma LoadedIsDone(r: Receiver)
    requires ReceiverOk(r) && Loadable(r.b).Some?
    ensures var m := Loadable(r.b).value;
      |m| >= HDR && Judge(m, r.next) == Done && HDR + TotalLen(m) == |m| <= Capacity(r.b.limits)
  {
    var h, m := r.b.slots[0].header, Loadable(r.b).value;
    assert forall i :: 0 <= i < HDR ==> m[i] == h[i];
    assert m[6..9] == h[6..9] && m[9..12] == h[9..12] && m[1..4] == h[1..4];
    assert m[6] == m[6..9][0] && m[7] == m[6..9][1] && m[8] == m[6..9][2];
    assert FragOff(m) == 0;
    assert U24At(m, 9) == U24At(m[9..12], 0) && U24At(m, 1) == U24At(m[1..4], 0);
  }

  lemma ObtainOk(r: Receiver)
    requires ReceiverOk(r)
    ensures var (r', st) := Obtain(r);
      && ReceiverOk(r') && SameTask(r, r') && r'.b.slots == r.b.slots
      && st != Early && (st == WantRead ==> r'.wire == [] && r'.datagram == [])
  {
    var c := Consume(r);
    GetNextOk(c);
    if Loadable(c.b).Some? {
      LoadedIsDone(c);
    }
  }

  lemma BufferMessageOk(r: Receiver)
    requires ReceiverOk(r) && (r.kind == Handshake ==> |r.content| >= HDR && HeaderOk(r.content))
    ensures var r' := BufferMessage(r).0;
      && ReceiverOk(r') && SameTask(r, r') && r' == r.(seenCcs := r'.seenCcs, b := r'.b)
      && (r'.b.future.Some? ==> r'.b.future == r.b.future)
  {
    if r.kind == Handshake {
      BufferFragmentOk(r.b, r.next, r.content);
      BufferFragmentNumbered(r.b, r.next, r.content);
      BufferFragmentErrors(r.b, r.next, r.content);
    }
  }

  lemma HandleOk(r: Receiver)
    requires ReceiverOk(r)
    ensures var (r', st) := Handle(r);
      && ReceiverOk(r') && SameTask(r, r')
      && r' == r.(hsLen := r'.hsLen, seenCcs := r'.seenCcs, b := r'.b)
      && (r'.b.future.Some? ==> r'.b.future == r.b.future)
      && st != Early && st != WantRead
      && (st == Done && r.kind == Handshake ==> r'.hsLen == HDR + TotalLen(r.content) <= |r.content|)
      && (r.kind != Handshake ==> r'.hsLen == r.hsLen)
      && (r.kind == Handshake && st == Continue ==> r'.hsLen == HDR + TotalLen(r.content))
  {
    hide Ok, Numbered, BufferMessage;
    var (r1, st) := HandleType(r);
    if st == Early {
      BufferMessageOk(r1);
    }
  }

  lemma TurnOk(r: Receiver)
    requires ReceiverOk(r)
    ensures var (r', st) := Turn(r);
      && ReceiverOk(r') && SameTask(r, r') && st != Early
      && (st == Done && r'.kind == Handshake ==> 0 < r'.hsLen <= |r'.content|)
      && (st == WantRead ==> r'.wire == [] && r'.datagram == [])
  {
    ObtainOk(r);
    var (r1, st) := Obtain(r);
    if st == Done {
      HandleOk(r1);
    }
  }

  lemma HandleUsesContent(r: Receiver)
    requires ReceiverOk(r) && Handle(r).1 == Continue
    ensures r.kind == Handshake ==> |r.content| >= HDR && Left(Handle(r).0) < |r.content|
    ensures r.kind != Handshake && r.hsLen == 0 ==> Left(Handle(r).0) == 0
  {
    HandleOk(r);
  }

  /** Each turn that does not come to an end uses something up. */
  lemma TurnGoesOn(r: Receiver)
    requires ReceiverOk(r) && Turn(r).1 == Continue
    ensures var r' := Turn(r).0;
      || |r'.wire| < |r.wire|
      || (|r'.wire| == |r.wire| && Backlog(r') < Backlog(r))
      || (|r'.wire| == |r.wire| && Backlog(r') == Backlog(r) && Left(r') < Left(r))
  {
    var c := Consume(r);
    ObtainOk(r);
    var (r1, st) := Obtain(r);
    if st == Done {
      HandleOk(r1);
      HandleUsesContent(r1);
    }
    if c.content == [] {
      if c.datagram == [] && LoadMessage(c).1 {
        if !c.expectCcs {
          LoadedIsDone(c);
        }
      } else {
        GetNextOk(c);
      }
    }
  }

  lemma UpdateOk(r: Receiver)
    requires ReceiverOk(r) && r.hsLen <= |r.content|
    ensures ReceiverOk(Update(r))
  {
    AdvanceOk(r.b);
    AdvanceNumbered(r.b, r.next);
  }

  lemma {:induction false} ReadOk(r: Receiver)
    requires ReceiverOk(r)
    ensures var (r', st) := Read(r);
      && ReceiverOk(r') && st != Continue && st != Early && r'.b.limits == r.b.limits
      && r'.expectCcs == r.expectCcs && r'.epoch == r.epoch
    decreases |r.wire|, Backlog(r), Left(r)
  {
    TurnOk(r);
    var (r', st) := Turn(r);
    if st == Continue {
      TurnGoesOn(r);
      ReadOk(r');
    } else if st == Done && r'.kind == Handshake {
      UpdateOk(r');
    }
  }
}
