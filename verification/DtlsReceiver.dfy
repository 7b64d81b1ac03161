/** The receiving side of the DTLS handshake messaging layer: the loop that reads
    records, and the state it keeps in `ssl` and `ssl->handshake`. */
module DtlsReceivers {
  import opened Bytes
  import opened Reassembly
  import opened HsBuffers
  import opened Bitmask
  import opened DtlsReading
  import opened DtlsDelivery

  class DtlsReceiver {
    const limits: Limits
    // The record layer. `datagram` holds the rest of the datagram being read and
    // `wire` the datagrams still to come.
    var datagram: seq<Record>
    var wire: seq<seq<Record>>
    var inEpoch: nat
    const inMsg: array<byte>
    var inMsgLen: nat
    var inHsLen: nat
    var inMsgType: Kind
    // The handshake layer. `expectCcs` says that the state machine is in one of the
    // ChangeCipherSpec states.
    var expectCcs: bool
    var seenCcs: bool
    var inMsgSeq: nat
    var hs: seq<HsBuffer>
    var future: Option<Record>
    var totalBytesBuffered: nat
    // The messages that entered the handshake checksum.
    var transcript: seq<bytes>

    ghost var Repr: set<object>

    ghost var view: Buffers

    ghost predicate Valid()
      reads this, Repr
      ensures Valid() ==> this in Repr && inMsgLen <= inMsg.Length
    {
      Wired() && Ok(view) && totalBytesBuffered == Total(view)
    }

    /** The heap is shaped as expected and holds the slots and the record of `view`. */
    ghost predicate Wired()
      reads this, Repr
    {
      && this in Repr && inMsg in Repr && inMsg.Length == Capacity(limits) && inMsgLen <= inMsg.Length
      && |hs| == SLOTS == |view.slots| && view.future == future && view.limits == limits
      && (forall i :: 0 <= i < SLOTS && hs[i].data != null ==> hs[i].data in Repr && hs[i].data != inMsg)
      && (forall i, j :: 0 <= i < j < SLOTS && hs[i].data != null ==> hs[i].data != hs[j].data)
      && (forall i :: 0 <= i < SLOTS ==> Holds(hs[i], view.slots[i]))
    }

    ghost function Content(): bytes
      requires inMsgLen <= inMsg.Length
      reads this, inMsg
    {
      inMsg[..inMsgLen]
    }

    /** What the fields stand for. */
    ghost function State(): Receiver
      requires inMsgLen <= inMsg.Length
      reads this, inMsg
    {
      Receiver(
        wire, datagram, inEpoch, inMsgType, Content(), inHsLen, expectCcs, seenCcs, inMsgSeq, view, transcript)
    }

    constructor (limits: Limits, start: nat, epoch: nat)
      ensures Valid() && fresh(Repr) && this.limits == limits && State() == Start(limits, start, epoch)
    {
      this.limits := limits;
      datagram, wire, inEpoch, inMsgType := [], [], epoch, Handshake;
      var buf := new byte[Capacity(limits)](_ => 0);
      inMsg, inMsgLen, inHsLen := buf, 0, 0;
      expectCcs, seenCcs, inMsgSeq, transcript := false, false, start, [];
      hs, future, totalBytesBuffered := [ZERO_BUFFER, ZERO_BUFFER, ZERO_BUFFER, ZERO_BUFFER], None, 0;
      view := Buffers(NoSlots, None, limits);
      SlotsSizeZero(NoSlots);
      Repr := {this, buf};
    }

    // ---------- The slots and the record that is kept

    /** ssl_buffering_free_slot */
    method FreeSlot(k: nat)
      requires Valid() && k < SLOTS
      modifies this`totalBytesBuffered, this`view, this`hs
      ensures Valid() && view == Store(old(view), k, Empty)
      ensures forall i :: 0 <= i < SLOTS && !old(hs)[i].isValid ==> hs[i] == old(hs)[i]
    {
      FreeOk(view, k);
      if hs[k].isValid {
        totalBytesBuffered := totalBytesBuffered - hs[k].dataLen;
        hs := hs[k := ZERO_BUFFER];
      }
      view := Store(view, k, Empty);
    }

    /** ssl_free_buffered_record */
    method FreeFuture()
      requires Valid()
      modifies this`totalBytesBuffered, this`view, this`future
      ensures Valid() && view == old(view).(future := None)
    {
      if future.Some? {
        totalBytesBuffered := totalBytesBuffered - future.value.size;
        future := None;
      }
      view := view.(future := None);
    }

    /** ssl_buffer_make_space */
    method MakeRoom(desired: nat) returns (ok: bool)
      requires Valid()
      modifies this`totalBytesBuffered, this`view, this`future, this`hs
      ensures Valid() && (view, ok) == MakeSpace(old(view), desired)
      ensures forall i :: 0 <= i < SLOTS && !old(hs)[i].isValid ==> hs[i] == old(hs)[i]
    {
      FreeFuture();
      ghost var b := view;
      if desired <= limits.buffering - totalBytesBuffered {
        return true;
      }
      var offset := SLOTS;
      while offset > 0
        invariant 0 <= offset <= SLOTS && Valid()
        invariant forall i :: 0 <= i < SLOTS && !old(hs)[i].isValid ==> hs[i] == old(hs)[i]
        invariant EvictSlots(b, SLOTS, desired) == EvictSlots(view, offset, desired)
        invariant offset == 0 ==> EvictSlots(b, SLOTS, desired) == (view, false)
      {
        offset := offset - 1;
        ghost var before := view;
        FreeSlot(offset);
        if desired <= limits.buffering - totalBytesBuffered {
          return true;
        }
      }
      return false;
    }

    /** ssl_buffer_future_record */
    method BufferFuture(rec: Record)
      requires Valid()
      modifies this`totalBytesBuffered, this`view, this`future
      ensures Valid() && view == KeepFuture(old(view), rec)
    {
      if rec.kind == Handshake && future.None? && rec.size <= limits.buffering - totalBytesBuffered {
        future := Some(rec);
        totalBytesBuffered := totalBytesBuffered + rec.size;
        view := view.(future := Some(rec));
      }
    }

    /** Set up the empty slot k for the message at hand. */
    method OpenSlot(k: nat, msgLen: nat)
      requires Wired() && k < SLOTS && !hs[k].isValid
      requires HDR <= inMsgLen && msgLen == TotalLen(Content()) && hs[k].isFragmented == IsFragment(Content())
      modifies this`totalBytesBuffered, this`view, this`Repr, this`hs
      ensures Wired() && fresh(Repr - old(Repr))
      ensures view == Store(old(view), k, FreshSlot(Content()))
      ensures totalBytesBuffered == old(totalBytesBuffered) + BufferSize(msgLen, IsFragment(Content()))
      ensures hs[k].isValid && !hs[k].isComplete && hs[k].isFragmented == IsFragment(Content())
      ensures fresh(hs[k].data) && Content() == old(Content())
    {
      ghost var s := Content();
      var size := HDR + msgLen + if hs[k].isFragmented then MaskBytes(msgLen) else 0;
      var data := FreshBuffer(inMsg, inMsgLen, msgLen, size);
      FreshBytes(data[..], s);
      hs := hs[k := hs[k].(isValid := true, data := data, dataLen := size)];
      totalBytesBuffered := totalBytesBuffered + size;
      Repr := Repr + {data};
      view := Store(view, k, FreshSlot(s));
    }

    /** Add the fragment at hand to slot k. */
    method AddFragment(k: nat, msgLen: nat)
      requires Wired() && k < SLOTS && hs[k].isValid && !hs[k].isComplete
      requires HDR <= inMsgLen && HeaderOk(Content()) && msgLen == TotalLen(Content()) == |view.slots[k].body|
      requires hs[k].isFragmented || !IsFragment(Content())
      modifies this`view, this`hs, hs[k].data
      ensures Wired() && Content() == old(Content())
      ensures view == Store(old(view), k, Accept(old(view).slots[k], Content()))
    {
      ghost var s := Content();
      var fragOff := inMsg[6] as int * 0x1_0000 + inMsg[7] as int * 0x100 + inMsg[8] as int;
      var fragLen := inMsg[9] as int * 0x1_0000 + inMsg[10] as int * 0x100 + inMsg[11] as int;
      var complete := Fill(hs[k].data, hs[k].isFragmented, inMsg, inMsgLen, msgLen, fragOff, fragLen);
      hs := hs[k := hs[k].(isComplete := complete)];
      view := Store(view, k, Accept(view.slots[k], s));
    }

    /** ssl_buffer_message, for a handshake message or fragment */
    method BufferHandshake() returns (ret: Ret)
      requires Valid() && HDR <= inMsgLen && HeaderOk(Content()) && inHsLen == HDR + TotalLen(Content())
      modifies this`totalBytesBuffered, this`view, this`Repr, this`hs, this`future, Repr - {this, inMsg}
      ensures Valid() && fresh(Repr - old(Repr)) && Content() == old(Content())
      ensures (view, ret) == BufferFragment(old(view), inMsgSeq, Content())
    {
      hide StartSlot, ContinueSlot, Total, SlotOk;
      var recvMsgSeq := inMsg[4] as int * 0x100 + inMsg[5] as int;
      var msgLen := inHsLen - HDR;
      ret := RetOk;
      if recvMsgSeq < inMsgSeq {
        ret := RetInternalError;
      } else if recvMsgSeq - inMsgSeq < SLOTS {
        var k := recvMsgSeq - inMsgSeq;
        if !hs[k].isValid {
          ret := StartBuffering(k, msgLen);
        } else {
          ContinueBuffering(k, msgLen);
        }
      }
    }

    method StartBuffering(k: nat, msgLen: nat) returns (ret: Ret)
      requires Valid() && HDR <= inMsgLen && HeaderOk(Content()) && inHsLen == HDR + msgLen &&
        msgLen == TotalLen(Content())
      requires k < SLOTS && !hs[k].isValid
      modifies this`totalBytesBuffered, this`view, this`Repr, this`hs, this`future, Repr - {this, inMsg}
      ensures Valid() && fresh(Repr - old(Repr)) && Content() == old(Content())
      ensures (view, ret) == StartSlot(old(view), k, Content())
    {
      hide Ok, Total, Accept, FreshSlot, Reserve, Store;
      ret := RetOk;
      MarkFragmented(k);
      if msgLen + HDR <= limits.content {
        var size := HDR + msgLen + if hs[k].isFragmented then MaskBytes(msgLen) else 0;
        var stop := ReserveSpace(k, size);
        if stop.Some? {
          ret := stop.value;
        } else {
          FirstFragment(k, msgLen);
        }
      }
    }

    method MarkFragmented(k: nat)
      requires Valid() && HDR <= inMsgLen && HeaderOk(Content()) && inHsLen == HDR + TotalLen(Content())
      requires k < SLOTS && !hs[k].isValid
      modifies this`hs
      ensures Valid() && hs[k].isFragmented == IsFragment(Content()) && !hs[k].isValid
    {
      ghost var s := Content();
      var fragmented := inMsgLen < inHsLen || inMsg[6..9] != [0, 0, 0] || inMsg[9..12] != inMsg[1..4];
      assert s[6..9] == inMsg[6..9] && s[9..12] == inMsg[9..12] && s[1..4] == inMsg[1..4];
      hs := hs[k := hs[k].(isFragmented := fragmented)];
    }

    method ReserveSpace(k: nat, size: nat) returns (stop: Option<Ret>)
      requires Valid() && k < SLOTS && !hs[k].isValid
      modifies this`totalBytesBuffered, this`view, this`future, this`hs
      ensures Valid() && hs[k] == old(hs)[k]
      ensures (view, stop) == Reserve(old(view), k, size)
      ensures stop == None ==> Fits(view, size)
    {
      ReserveOk(view, k, size);
      if size > limits.buffering - totalBytesBuffered {
        if k > 0 {
          return Some(RetOk);
        }
        var ok := MakeRoom(size);
        return if ok then None else Some(RetTooSmall);
      }
      return None;
    }

    method FirstFragment(k: nat, msgLen: nat)
      requires Valid() && HDR <= inMsgLen && HeaderOk(Content()) && msgLen == TotalLen(Content())
      requires k < SLOTS && !hs[k].isValid && hs[k].isFragmented == IsFragment(Content())
      requires HDR + msgLen <= limits.content && Fits(view, BufferSize(msgLen, IsFragment(Content())))
      modifies this`totalBytesBuffered, this`view, this`Repr, this`hs
      ensures Valid() && fresh(Repr - old(Repr)) && Content() == old(Content())
      ensures view == Store(old(view), k, Accept(FreshSlot(Content()), Content()))
    {
      hide Ok, Total;
      ghost var s, b := Content(), view;
      NewSlotOk(view, k, s);
      StoreFits(view, k, Accept(FreshSlot(s), s));
      OpenSlot(k, msgLen);
      AddFragment(k, msgLen);
      assert view.slots == b.slots[k := Accept(FreshSlot(s), s)];
    }

    method ContinueBuffering(k: nat, msgLen: nat)
      requires Valid() && HDR <= inMsgLen && HeaderOk(Content()) && msgLen == TotalLen(Content())
      requires k < SLOTS && hs[k].isValid && MsgSeq(Content()) == inMsgSeq + k
      modifies this`view, this`hs, hs[k].data
      ensures Valid() && Content() == old(Content())
      ensures (view, RetOk) == ContinueSlot(old(view), k, Content())
    {
      ghost var s := Content();
      BufferFragmentOk(view, inMsgSeq, s);
      assert hs[k].data[..4] == view.slots[k].header[..4] && inMsg[..4] == s[..4];
      if hs[k].data[..4] != inMsg[..4] {
        return;
      }
      if !hs[k].isComplete {
        SameLength(view.slots[k].header, s);
        StoreFits(view, k, Accept(view.slots[k], s));
        AddFragment(k, msgLen);
      }
    }

    // ---------- One message or record after the other

    /** mbedtls_ssl_prepare_handshake_record, the datagram branch during a handshake.
        (The retransmission it may trigger does not touch the receiving side.) */
    method PrepareHandshake() returns (st: Status)
      requires Valid()
      modifies this`inHsLen
      ensures Valid() && st == Judge(Content(), inMsgSeq)
      ensures inHsLen == if inMsgLen < HDR then old(inHsLen) else HDR + TotalLen(Content())
    {
      ghost var s := Content();
      if inMsgLen < HDR {
        return InvalidRecord;
      }
      var msgLen := inMsg[1] as int * 0x1_0000 + inMsg[2] as int * 0x100 + inMsg[3] as int;
      inHsLen := HDR + msgLen;
      var recvMsgSeq := inMsg[4] as int * 0x100 + inMsg[5] as int;
      var fragOff := inMsg[6] as int * 0x1_0000 + inMsg[7] as int * 0x100 + inMsg[8] as int;
      var fragLen := inMsg[9] as int * 0x1_0000 + inMsg[10] as int * 0x100 + inMsg[11] as int;
      if fragOff > msgLen || fragLen > msgLen - fragOff || fragLen + HDR > inMsgLen {
        return InvalidRecord;
      }
      if recvMsgSeq != inMsgSeq {
        return if recvMsgSeq > inMsgSeq then Early else Continue;
      }
      assert s[6..9] == inMsg[6..9] && s[9..12] == inMsg[9..12] && s[1..4] == inMsg[1..4];
      if inMsgLen < inHsLen || inMsg[6..9] != [0, 0, 0] || inMsg[9..12] != inMsg[1..4] {
        return Early;
      }
      return Done;
    }

    /** ssl_consume_current_message */
    method ConsumeCurrentMessage()
      requires Valid()
      modifies this`inMsgLen, this`inHsLen, inMsg
      ensures Valid() && State() == Consume(old(State()))
    {
      hide Ok, Total, Holds;
      if inHsLen != 0 && inHsLen < inMsgLen {
        ghost var s := Content();
        inMsgLen := inMsgLen - inHsLen;
        Copy(inMsg, inHsLen, inMsg, 0, inMsgLen);
        assert Content() == s[inHsLen..];
      } else {
        inMsgLen := 0;
        assert Content() == [];
      }
      inHsLen := 0;
    }

    /** ssl_load_buffered_message */
    method LoadBufferedMessage() returns (ok: bool)
      requires Valid()
      modifies this`inMsgType, this`inMsgLen, this`inHsLen, this`seenCcs, inMsg
      ensures Valid() && (State(), ok) == LoadMessage(old(State()))
    {
      if expectCcs {
        ok := seenCcs;
        if ok {
          inMsgType, inMsgLen, seenCcs := ChangeCipherSpec, 1, false;
          inMsg[0] := 1;
          assert Content() == [1];
        }
      } else {
        ok := hs[0].isValid && hs[0].isComplete;
        if ok {
          LoadSlot();
        }
      }
    }

    method LoadSlot()
      requires Valid() && hs[0].isValid && hs[0].isComplete
      modifies this`inMsgType, this`inMsgLen, this`inHsLen, inMsg
      ensures Valid() && Loadable(view).Some?
      ensures inMsgType == Handshake && Content() == Loadable(view).value && inHsLen == inMsgLen
    {
      ghost var slot := view.slots[0];
      var msgLen := hs[0].data[1] as int * 0x1_0000 + hs[0].data[2] as int * 0x100 + hs[0].data[3] as int;
      assert hs[0].data[..HDR] == slot.header && msgLen == U24At(slot.header, 1);
      // The slot was checked to fit when it was opened.
      assert msgLen + HDR <= limits.content;
      inMsgType, inHsLen, inMsgLen := Handshake, msgLen + HDR, msgLen + HDR;
      Copy(hs[0].data, 0, inMsg, 0, inHsLen);
      assert Content() == slot.header + slot.body;
    }

    /** mbedtls_ssl_update_handshake_status */
    method UpdateHandshakeStatus()
      requires Valid() && inHsLen <= inMsgLen
      modifies this`transcript, this`inMsgSeq, this`totalBytesBuffered, this`view, this`hs
      ensures Valid() && State() == Update(old(State()))
    {
      hide Holds, Ok, Total, Advance;
      transcript := transcript + [inMsg[..inHsLen]];
      inMsgSeq := inMsgSeq + 1;
      assert inMsg[..inHsLen] == Content()[..inHsLen];
      DropFirst();
    }

    method DropFirst()
      requires Valid()
      modifies this`totalBytesBuffered, this`view, this`hs
      ensures Valid() && view == Advance(old(view))
    {
      hide Holds, Ok, Total;
      ghost var b := view;
      FreeSlot(0);
      ShiftSlots();
      assert view == Advance(b);
    }

    method ShiftSlots()
      requires Valid() && view.slots[0].Empty?
      modifies this`view, this`hs
      ensures Valid() && view == Advance(old(view))
    {
      AdvanceOk(view);
      hs := ShiftDown(hs);
      view := Advance(view);
    }

    /** ssl_load_buffered_record */
    method LoadBufferedRecord()
      requires Valid()
      modifies this`datagram, this`future, this`view, this`totalBytesBuffered
      ensures Valid() && State() == LoadRecord(old(State()))
    {
      if future.Some? && datagram == [] && future.value.epoch == inEpoch {
        datagram := [future.value];
        FreeFuture();
      }
    }

    method TakeContent(rec: Record)
      requires Valid() && |rec.content| <= inMsg.Length
      modifies this`inMsgType, this`inMsgLen, inMsg
      ensures Valid() && inMsgType == rec.kind && Content() == rec.content
    {
      inMsgType, inMsgLen := rec.kind, |rec.content|;
      forall i | 0 <= i < |rec.content| {
        inMsg[i] := rec.content[i];
      }
    }

    /** The start of ssl_get_next_record: a record kept for this epoch, or else the
        next datagram from the transport. */
    method FetchInput() returns (ok: bool)
      requires Valid()
      modifies this`datagram, this`wire, this`future, this`view, this`totalBytesBuffered
      ensures Valid() && (State(), ok) == Fetch(old(State()))
    {
      hide Ok, Total, Holds;
      ok := true;
      LoadBufferedRecord();
      if datagram == [] {
        ok := wire != [];
        if ok {
          datagram, wire := wire[0], wire[1..];
        }
      }
    }

    /** Take the next record out of the datagram. */
    method TakeRecord() returns (st: Status)
      requires Valid() && datagram != []
      modifies this`datagram, this`inMsgType, this`inMsgLen, this`future, this`view, this`totalBytesBuffered, inMsg
      ensures Valid() && (State(), st) == DtlsReading.TakeRecord(old(State()))
    {
      hide Ok, Total, Holds;
      var rec := datagram[0];
      datagram := datagram[1..];
      st := Continue;
      if rec.header != WellFormed {
        datagram := [];
      } else if rec.epoch != inEpoch {
        if rec.epoch == inEpoch + 1 {
          BufferFuture(rec);
        }
      } else if !rec.authentic {
        datagram := [];
      } else if (|rec.content| == 0 && rec.kind != ApplicationData) || |rec.content| > limits.content {
        st := InvalidRecord;
      } else {
        TakeContent(rec);
        st := Done;
      }
    }

    /** ssl_get_next_record, from a transport that delivers `datagram` and `wire`. */
    method GetNextRecord() returns (st: Status)
      requires Valid()
      modifies this`datagram, this`wire, this`inMsgType, this`inMsgLen, this`future, this`view,
        this`totalBytesBuffered, inMsg
      ensures Valid() && (State(), st) == GetNext(old(State()))
    {
      hide Ok, Total, Holds, Fetch, DtlsReading.TakeRecord;
      if datagram != [] && datagram[0].header == Cut {
        return InternalError;
      }
      var ok := FetchInput();
      if !ok {
        st := WantRead;
      } else if datagram == [] {
        st := ConnEof;
      } else {
        st := TakeRecord();
      }
    }

    /** mbedtls_ssl_handle_message_type, during a handshake */
    method HandleMessageType() returns (st: Status)
      requires Valid()
      modifies this`inHsLen
      ensures Valid() && (State(), st) == HandleType(old(State()))
    {
      if inMsgType == Handshake {
        st := PrepareHandshake();
      } else if inMsgType == ChangeCipherSpec {
        if inMsgLen != 1 || inMsg[0] != 1 {
          st := InvalidRecord;
        } else {
          st := if expectCcs then Done else Early;
        }
      } else if inMsgType == Alert {
        if inMsgLen != 2 {
          st := InvalidRecord;
        } else if inMsg[0] == ALERT_FATAL {
          st := FatalAlert;
        } else if inMsg[0] == ALERT_WARNING && inMsg[1] == CLOSE_NOTIFY {
          st := PeerClosed;
        } else {
          st := if inMsg[0] == ALERT_WARNING && inMsg[1] == NO_RENEGOTIATION then Done else Continue;
        }
      } else {
        st := Continue;
      }
    }

    /** ssl_buffer_message */
    method BufferMessage() returns (ret: Ret)
      requires Valid()
      requires inMsgType == Handshake ==>
        HDR <= inMsgLen && HeaderOk(Content()) && inHsLen == HDR + TotalLen(Content())
      modifies this`seenCcs, this`totalBytesBuffered, this`view, this`Repr, this`hs, this`future, Repr - {this, inMsg}
      ensures Valid() && fresh(Repr - old(Repr)) && (State(), ret) == DtlsReading.BufferMessage(old(State()))
    {
      hide Holds, BufferFragment, Total;
      if inMsgType == Handshake {
        ret := BufferHandshake();
      } else {
        seenCcs := true;
        ret := RetOk;
      }
    }

    /** The rest of the current record, a buffered message, or a new record. */
    method ObtainRecord() returns (st: Status)
      requires Valid()
      modifies this`datagram, this`wire, this`inMsgType, this`inMsgLen, this`inHsLen, this`seenCcs,
        this`future, this`view, this`totalBytesBuffered, inMsg
      ensures Valid() && (State(), st) == Obtain(old(State()))
    {
      hide Ok, Total, Holds, Consume, Loadable, GetNext;
      ConsumeCurrentMessage();
      var have := inMsgLen > 0;
      if !have && datagram == [] {
        have := LoadBufferedMessage();
      }
      st := Done;
      if !have {
        st := GetNextRecord();
      }
    }

    method HandleRecord() returns (st: Status)
      requires Valid()
      modifies this`inHsLen, this`seenCcs, this`totalBytesBuffered, this`view, this`Repr, this`hs, this`future,
        Repr - {this, inMsg}
      ensures Valid() && fresh(Repr - old(Repr)) && (State(), st) == Handle(old(State()))
    {
      hide Holds, Total, DtlsReading.BufferMessage;
      st := HandleMessageType();
      if st == Early {
        var ret := BufferMessage();
        match ret {
          case RetOk => st := Continue;
          case RetInternalError => st := InternalError;
          case RetTooSmall => st := BufferTooSmall;
        }
      }
    }

    /** One turn of the loop in mbedtls_ssl_read_record. */
    method ReadStep() returns (st: Status)
      requires Valid() && ReceiverOk(State())
      modifies Repr
      ensures Valid() && fresh(Repr - old(Repr)) && (State(), st) == Turn(old(State()))
    {
      hide Ok, Total, Holds, Obtain, Handle;
      ObtainOk(State());
      st := ObtainRecord();
      if st == Done {
        st := HandleRecord();
      }
    }

    /** mbedtls_ssl_read_record, updating the handshake checksum */
    method ReadRecord() returns (st: Status)
      requires Valid() && ReceiverOk(State())
      modifies Repr
      ensures Valid() && fresh(Repr - old(Repr)) && ReceiverOk(State()) && (State(), st) == Read(old(State()))
    {
      hide Ok, Total, Holds, Turn, ReceiverOk, Wired;
      ghost var r := State();
      TurnOk(r);
      ReadOk(r);
      st := ReadStep();
      while st == Continue
        invariant Valid() && fresh(Repr - old(Repr)) && ReceiverOk(State())
        invariant st == Done && inMsgType == Handshake ==> inHsLen <= inMsgLen
        invariant Read(r) == Ended(State(), st)
        decreases st == Continue, |wire|, Backlog(State()), Left(State())
      {
        ghost var before := State();
        TurnOk(before);
        st := ReadStep();
        if st == Continue {
          TurnGoesOn(before);
        }
      }
      if st == Done && inMsgType == Handshake {
        UpdateHandshakeStatus();
      }
    }

    /** mbedtls_ssl_recv_flight_completed: nothing is kept across flights. */
    method FlightCompleted()
      requires Valid()
      modifies this`seenCcs, this`totalBytesBuffered, this`view, this`future, this`hs
      ensures Valid() && State() == Clear(old(State()))
    {
      hide Ok, Total, Holds;
      seenCcs := false;
      FreeFuture();
      var offset := 0;
      while offset < SLOTS
        invariant 0 <= offset <= SLOTS && Valid() && view.future == None && !seenCcs
        invariant forall i :: 0 <= i < offset ==> view.slots[i] == Empty
      {
        FreeSlot(offset);
        offset := offset + 1;
      }
      assert view.slots == NoSlots;
    }

    method Perform(a: Action) returns (sts: seq<Status>)
      requires Valid() && ReceiverOk(State())
      modifies Repr
      ensures Valid() && fresh(Repr - old(Repr)) && (State(), sts) == Act(old(State()), a)
    {
      hide Ok, Total, Holds, Read, ReceiverOk;
      sts := [];
      match a {
        case Arrive(datagram) =>
          wire := wire + [datagram];
        case ReadMessage =>
          var st := ReadRecord();
          sts := [st];
        case ExpectCcs(on) =>
          expectCcs := on;
        case SwitchEpoch =>
          inEpoch := inEpoch + 1;
        case FlightDone =>
          FlightCompleted();
      }
    }
  }

  /** How a call of read comes back when its last turn ended with st. */
  function Ended(r: Receiver, st: Status): (Receiver, Status)
    requires ReceiverOk(r) && (st == Done && r.kind == Handshake ==> r.hsLen <= |r.content|)
  {
    if st == Continue then Read(r) else if st == Done && r.kind == Handshake then (Update(r), Done) else (r, st)
  }

  /** Any run of the receiver: the transcript and the ends of all calls of read are those of
      the run on values; so the messages of a sender are handed up in order. */
  method Session(limits: Limits, start: nat, epoch: nat, actions: seq<Action>)
    returns (transcript: seq<bytes>, statuses: seq<Status>)
    ensures var (r, sts) := Ran(limits, start, epoch, actions); transcript == r.transcript && statuses == sts
    ensures forall M :: Sendable(M) && start <= |M| && ActionsOk(actions, M) ==>
      start + |transcript| <= |M| && transcript == Canons(M, start, |transcript|)
  {
    hide Ok, Total, Holds, Act, Canon, Sendable, ReceiverOk;
    StartOk(limits, start, epoch);
    var rcv := new DtlsReceiver(limits, start, epoch);
    statuses := [];
    for a := 0 to |actions|
      invariant fresh(rcv.Repr) && rcv.Valid() && ReceiverOk(rcv.State())
      invariant (rcv.State(), statuses) == Run(Start(limits, start, epoch), actions, a)
    {
      ActOk(rcv.State(), actions[a]);
      var more := rcv.Perform(actions[a]);
      statuses := statuses + more;
    }
    transcript := rcv.transcript;
    forall M | Sendable(M) && start <= |M| && ActionsOk(actions, M)
      ensures start + |transcript| <= |M| && transcript == Canons(M, start, |transcript|)
    {
      OrderedDelivery(limits, start, epoch, actions, |actions|, M);
    }
  }
}
