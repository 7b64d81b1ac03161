/** The TLS side of mbedtls_ssl_read_record: handshake messages are put together and
    taken apart in the input buffer. */
module TlsReaders {
  import opened Bytes
  import opened HsStream

  datatype Outcome =
    | Message | Other | Again | WantRead
    | BadInput | InvalidRecord | InvalidMac | UnexpectedMessage | Corruption

  predicate Failed(o: Outcome)
  {
    o == BadInput || o == InvalidRecord || o == InvalidMac || o == UnexpectedMessage || o == Corruption
  }

  class TlsReader {
    const buf: array<byte>
    var hdr: nat
    var msg: nat
    var handshake: bool
    var msglen: nat
    var hslen: nat
    var hsfraglen: nat
    var nbZero: nat

    /** Offsets are within the buffer; a partial message is at its start, and the next
        record goes right behind it. */
    ghost predicate Valid()
      reads this, buf
    {
      && buf.Length >= PAYLOAD
      && (hsfraglen == 0 ==> hdr == START)
      && (hsfraglen > 0 ==>
            && hdr == PAYLOAD + hsfraglen <= buf.Length
            && HS_HDR <= hsfraglen < hslen == MsgLen(buf[PAYLOAD..PAYLOAD + hsfraglen]))
      && hdr + RECORD_HDR <= msg && (msglen > 0 ==> msg + msglen <= buf.Length)
      && (hsfraglen == 0 && hslen > 0 ==>
            handshake && msg == PAYLOAD && HS_HDR <= hslen <= msglen && hslen == MsgLen(buf[PAYLOAD..PAYLOAD + msglen]))
    }

    /** Nothing has to be consumed before the next message. */
    ghost predicate Settled()
      reads this, buf
    {
      Valid() && (hsfraglen > 0 || hslen == 0)
    }

    /** The handshake bytes in the buffer behind the current message. */
    ghost function Pending(): bytes
      reads this, buf
      requires Valid()
    {
      if hsfraglen > 0 then buf[PAYLOAD..PAYLOAD + hsfraglen]
      else if hslen > 0 then buf[PAYLOAD + hslen..PAYLOAD + msglen]
      else []
    }

    constructor (bufLen: nat)
      requires bufLen >= PAYLOAD
      ensures AtRest() && fresh(buf) && buf.Length == bufLen && Pending() == [] && nbZero == 0
    {
      buf := new byte[bufLen](_ => 0);
      hdr, msg, handshake, msglen, hslen, hsfraglen, nbZero := START, PAYLOAD, false, 0, 0, 0, 0;
    }

    ghost function InMsg(): bytes
      reads this, buf
      requires msg + msglen <= buf.Length
    {
      buf[msg..msg + msglen]
    }

    method ShiftContent()
      requires hslen < msglen && msg + msglen <= buf.Length
      modifies this`msglen, buf
      ensures msglen == old(msglen) - hslen && InMsg() == old(buf[msg + hslen..msg + msglen])
    {
      msglen := msglen - hslen;
      MoveDown(buf, msg + hslen, msg, msglen);
    }

    /** ssl_consume_current_message */
    method ConsumeCurrentMessage()
      requires AtRest()
      modifies this`msglen, this`hslen, buf
      ensures Settled() && (hsfraglen > 0 ==> msglen == 0)
      ensures msglen > 0 ==> handshake && msg + msglen <= buf.Length && msglen <= 0xffff && InMsg() == old(Pending())
      ensures msglen == 0 ==> Pending() == old(Pending()) && Begun(Pending())
    {
      hide MsgLen;
      if hslen != 0 {
        if hsfraglen == 0 {
          if hslen < msglen {
            ShiftContent();
          } else {
            msglen := 0;
          }
          hslen := 0;
        }
      } else {
        msglen := 0;
      }
    }

    method StoreRecord(raw: bytes)
      requires hdr + |raw| <= buf.Length
      modifies buf
      ensures forall i :: 0 <= i < hdr ==> buf[i] == old(buf[i])
      ensures forall i :: 0 <= i < |raw| ==> buf[hdr + i] == raw[i]
    {
      forall i | 0 <= i < |raw| {
        buf[hdr + i] := raw[i];
      }
    }

    /** mbedtls_ssl_fetch_input and decryption in place, behind what is kept. */
    method FetchRecord(rec: Rec)
      requires Settled() && RecOk(rec) && hdr + |rec.raw| <= buf.Length && msglen == 0
      modifies buf
      ensures Settled() && Pending() == old(Pending())
      ensures buf[hdr + RECORD_HDR + rec.off..hdr + RECORD_HDR + rec.off + rec.len] == Content(rec)
    {
      hide MsgLen;
      ghost var p, c, at := Pending(), Content(rec), hdr + RECORD_HDR + rec.off;
      StoreRecord(rec.raw);
      if hsfraglen > 0 {
        SliceIs(buf, PAYLOAD, p);
      }
      assert forall k :: 0 <= k < |c| ==> buf[at + k] == buf[hdr + (RECORD_HDR + rec.off + k)] == c[k];
      SliceIs(buf, at, c);
    }

    /** ssl_get_next_record: the record is read and decrypted behind what is kept. */
    method GetNextRecord(rec: Rec) returns (o: Outcome)
      requires Settled() && msglen == 0 && RecOk(rec)
      modifies this`msg, this`msglen, this`handshake, this`nbZero, buf
      ensures Settled() && Pending() == old(Pending())
      ensures o == Message || o == BadInput || o == InvalidRecord || o == InvalidMac
      ensures o == BadInput <==> hdr + |rec.raw| > buf.Length
      ensures o == InvalidRecord <==> o != BadInput && (rec.len > IN_CONTENT_LEN || (rec.len == 0 && !rec.emptyOk))
      ensures o == InvalidMac <==> o != BadInput && rec.len == 0 && rec.emptyOk && old(nbZero) >= MAX_ZEROS
      ensures o == Message ==> nbZero == ZerosAfter(rec, old(nbZero))
      ensures o == Message ==> handshake == rec.handshake && msg + msglen <= buf.Length && InMsg() == Content(rec)
    {
      hide MsgLen, Content;
      if |rec.raw| > buf.Length - hdr {
        return BadInput;
      }
      FetchRecord(rec);
      if rec.len == 0 && !rec.emptyOk {
        return InvalidRecord;
      }
      nbZero := if rec.len == 0 then nbZero + 1 else 0;
      if nbZero > MAX_ZEROS {
        return InvalidMac;
      }
      if rec.len > IN_CONTENT_LEN {
        return InvalidRecord;
      }
      handshake, msg, msglen := rec.handshake, hdr + RECORD_HDR + rec.off, rec.len;
      return Message;
    }

    /** Move the fragment behind what is there. The source has an error for no room to do
        so; there is always room. */
    method MoveFragment()
      requires buf.Length >= PAYLOAD && PAYLOAD + hsfraglen + msglen <= msg + msglen <= buf.Length
      modifies this`hsfraglen, buf
      ensures hsfraglen == old(hsfraglen) + msglen
      ensures buf[PAYLOAD..PAYLOAD + hsfraglen] == old(buf[PAYLOAD..PAYLOAD + hsfraglen] + InMsg())
    {
      var end := PAYLOAD + hsfraglen;
      ghost var head, was := buf[PAYLOAD..end], InMsg();
      ghost var s := head + was;
      Copy(buf, msg, buf, end, msglen);
      forall k | 0 <= k < |s|
        ensures buf[PAYLOAD + k] == s[k]
      {
        if k < |head| {
          assert buf[PAYLOAD + k] == head[k];
        } else {
          assert buf[end + (k - |head|)] == was[k - |head|];
        }
      }
      hsfraglen := hsfraglen + msglen;
      SliceIs(buf, PAYLOAD, s);
    }

    /** The message is complete: make one record of what was put together. */
    method CloseRecord(ghost s: bytes) returns (o: Outcome)
      requires HS_HDR <= hslen <= hsfraglen && PAYLOAD + hsfraglen <= buf.Length && handshake
      requires buf[PAYLOAD..PAYLOAD + hsfraglen] == s && hslen == MsgLen(s)
      modifies this, buf
      ensures nbZero == old(nbZero)
      ensures o == if |s| > 0xffff then Corruption else Message
      ensures o == Message ==> Valid() && hsfraglen == 0 && hslen == old(hslen)
      ensures o == Message ==> InMsg() == s && Pending() == s[MsgLen(s)..]
    {
      msglen := hsfraglen;
      hsfraglen := 0;
      hdr := START;
      msg := PAYLOAD;
      if msglen > 0xffff {
        return Corruption;
      }
      buf[START + 3], buf[START + 4] := msglen / 0x100, msglen % 0x100;
      assert InMsg() == s;
      return Message;
    }

    /** The first fragment must have the header, and with it the length of the message. */
    method StartMessage() returns (ok: bool)
      requires Settled() && handshake && msg + msglen <= buf.Length
      modifies this`hslen
      ensures ok <==> hsfraglen > 0 || msglen >= HS_HDR
      ensures ok ==> PAYLOAD + hsfraglen <= buf.Length
      ensures var s := old(Pending() + InMsg());
        ok ==> |s| >= HS_HDR && hslen == MsgLen(s) && s == buf[PAYLOAD..PAYLOAD + hsfraglen] + InMsg()
    {
      ghost var s := Pending() + InMsg();
      ok := true;
      if hsfraglen == 0 {
        ok := msglen >= HS_HDR;
        if ok {
          hslen := HS_HDR + U24(msg + 1);
          assert s == InMsg();
        }
      } else {
        assert forall k :: 0 <= k < HS_HDR ==> s[k] == Pending()[k];
      }
    }

    /** mbedtls_ssl_prepare_handshake_record */
    method PrepareHandshakeRecord() returns (o: Outcome)
      requires Settled() && handshake && msg + msglen <= buf.Length
      modifies this, buf
      ensures nbZero == old(nbZero)
      ensures o == Message || o == Again || o == InvalidRecord || o == Corruption
      ensures o == InvalidRecord <==> old(hsfraglen == 0 && msglen < HS_HDR)
      ensures var s := old(Pending() + InMsg());
        && (o == Again <==> |s| >= HS_HDR && MsgLen(s) > |s|)
        && (o == Corruption <==> StartsWithMessage(s) && |s| > 0xffff)
        && (o == Again ==> Settled() && Pending() == s && msglen == 0 && hsfraglen > 0)
        && (o == Message ==> StartsWithMessage(s) && Valid() && hsfraglen == 0 && hslen == MsgLen(s))
        && (o == Message ==> InMsg() == s && Pending() == s[MsgLen(s)..])
    {
      ghost var s := Pending() + InMsg();
      var ok := StartMessage();
      if !ok {
        return InvalidRecord;
      }
      MoveFragment();
      assert buf[PAYLOAD..PAYLOAD + hsfraglen] == s;
      if hsfraglen < hslen {
        hdr := PAYLOAD + hsfraglen;
        msglen := 0;
        msg := hdr + RECORD_HDR;
        return Again;
      }
      o := CloseRecord(s);
    }

    function U24(at: nat): nat
      reads buf
      requires at + 3 <= buf.Length
    {
      buf[at] as int * 0x1_0000 + buf[at + 1] as int * 0x100 + buf[at + 2] as int
    }

    /** mbedtls_ssl_handle_message_type; what else a record may be is not looked into. */
    method HandleMessageType() returns (o: Outcome)
      requires Settled() && msg + msglen <= buf.Length
      modifies this, buf
      ensures nbZero == old(nbZero)
      ensures o == UnexpectedMessage <==> old(hsfraglen > 0 && !handshake)
      ensures o == Other <==> old(hsfraglen == 0 && !handshake)
      ensures o == Other ==> Settled() && Pending() == [] && hsfraglen == 0 && hslen == 0
      ensures o == InvalidRecord <==> old(handshake && hsfraglen == 0 && msglen < HS_HDR)
      ensures var s := old(Pending() + InMsg());
        old(handshake) ==>
          && (o == Again <==> |s| >= HS_HDR && MsgLen(s) > |s|)
          && (o == Corruption <==> StartsWithMessage(s) && |s| > 0xffff)
          && (o == Again ==> Settled() && Pending() == s && msglen == 0 && hsfraglen > 0)
          && (o == Message ==> StartsWithMessage(s) && Valid() && hsfraglen == 0 && hslen == MsgLen(s))
          && (o == Message ==> InMsg() == s && Pending() == s[MsgLen(s)..])
      ensures o == Message || o == Again || o == Other || Failed(o)
      ensures o == Message ==> old(handshake)
      ensures o != BadInput && o != WantRead && o != InvalidMac
    {
      if hsfraglen != 0 && !handshake {
        return UnexpectedMessage;
      }
      if !handshake {
        return Other;
      }
      o := PrepareHandshakeRecord();
    }

    /** Between two calls: no more than a record is kept, and none in the middle of a message. */
    ghost predicate AtRest()
      reads this, buf
    {
      Valid() && (hsfraglen > 0 ==> msglen == 0) && (hsfraglen == 0 && hslen > 0 ==> msglen <= 0xffff)
    }

    ghost predicate Delivers(s: bytes)
      reads this, buf
    {
      && AtRest() && hsfraglen == 0 && hslen > 0
      && StartsWithMessage(s) && CurrentMessage() == s[..MsgLen(s)] && Pending() == s[MsgLen(s)..]
    }

    /** What the handshake layer is given. */
    function CurrentMessage(): bytes
      reads this, buf
      requires msg + hslen <= buf.Length
    {
      buf[msg..msg + hslen]
    }

    /** More messages, or the beginning of one, in the record of the last message. */
    method NextInRecord(ghost p: bytes) returns (o: Outcome)
      requires Settled() && handshake && hsfraglen == 0 && 0 < msglen <= 0xffff && msg + msglen <= buf.Length
      requires InMsg() == p
      modifies this, buf
      ensures nbZero == old(nbZero)
      ensures o == Message || o == Again || o == InvalidRecord
      ensures o == InvalidRecord ==> 0 < |p| < HS_HDR
      ensures o == Again ==> AtRest() && hsfraglen > 0 && Pending() == p
      ensures o == Message ==> Delivers(p)
    {
      assert Pending() + InMsg() == p;
      o := HandleMessageType();
    }

    /** What has been fetched belongs to t, the beginning of a message, or starts a message. */
    method HandleFetched(ghost t: bytes, ghost c: bytes) returns (o: Outcome)
      requires Settled() && msg + msglen <= buf.Length && Pending() == t && InMsg() == c
      requires hsfraglen == 0 ==> msglen <= 0xffff
      modifies this, buf
      ensures nbZero == old(nbZero)
      ensures o == Message || o == Again || o == Other || Failed(o)
      ensures !old(handshake) ==> o == if t == [] then Other else UnexpectedMessage
      ensures o == Other ==> AtRest() && hsfraglen == 0 && Pending() == []
      ensures Failed(o) && old(handshake) ==> !Joins(t + c) || (t == [] && |c| < HS_HDR)
      ensures !Failed(o) && old(handshake) ==> o != Other && Joins(t + c) && (t == [] ==> |c| >= HS_HDR)
      ensures o == Again ==> AtRest() && hsfraglen > 0 && Pending() == t + c
      ensures o == Message ==> Delivers(t + c)
    {
      hide MsgLen, StartsWithMessage;
      assert t == [] <==> hsfraglen == 0;
      assert t == [] ==> t + c == c;
      o := HandleMessageType();
      if o == Message {
        FrontOfMsg(t + c);
      }
    }

    lemma FrontOfMsg(s: bytes)
      requires msg + msglen <= buf.Length && hslen <= msglen && InMsg() == s
      ensures CurrentMessage() == s[..hslen]
    {
    }

    /** The next record from the transport, behind the beginning of a message. */
    method NextRecord(rec: Rec) returns (o: Outcome)
      requires Settled() && msglen == 0 && RecOk(rec)
      modifies this, buf
      ensures o == Message || o == Again || o == Other || Failed(o)
      ensures Failed(o) && rec.handshake ==>
        || !Taken(old(Pending()), rec, buf.Length, old(nbZero))
        || !Joins(old(Pending()) + Content(rec)) || (old(Pending()) == [] && rec.len < HS_HDR)
      ensures Failed(o) && !rec.handshake ==> !Taken(old(Pending()), rec, buf.Length, old(nbZero))
      ensures !Failed(o) ==> Taken(old(Pending()), rec, buf.Length, old(nbZero)) && (o == Other <==> !rec.handshake)
      ensures !Failed(o) ==> nbZero == ZerosAfter(rec, old(nbZero))
      ensures !Failed(o) && rec.handshake ==>
        Joins(old(Pending()) + Content(rec)) && (old(Pending()) == [] ==> rec.len >= HS_HDR)
      ensures o == Other ==> old(Pending()) == [] && AtRest() && hsfraglen == 0 && Pending() == []
      ensures o == Again ==> AtRest() && hsfraglen > 0 && Pending() == old(Pending()) + Content(rec)
      ensures o == Message ==> Delivers(old(Pending()) + Content(rec))
    {
      hide Joins, MsgLen;
      ghost var t := Pending();
      assert hdr == if t == [] then START else PAYLOAD + |t|;
      o := GetNextRecord(rec);
      if o == Message {
        o := HandleFetched(t, Content(rec));
      }
    }

    /** What is in the buffer comes first. */
    method TurnInRecord(ghost p: bytes, ghost rest: seq<Rec>) returns (o: Outcome)
      requires Settled() && handshake && hsfraglen == 0 && 0 < msglen <= 0xffff && msg + msglen <= buf.Length
      requires InMsg() == p && AllOk(rest)
      modifies this, buf
      ensures nbZero == old(nbZero)
      ensures o == Message || o == Again || o == InvalidRecord
      ensures o == InvalidRecord ==> Refuses(p, rest, buf.Length, nbZero)
      ensures o == Again ==> AtRest() && hsfraglen > 0 && Pending() == p && Begun(p)
      ensures o == Message ==> AtRest() && Delivers(p)
      ensures o == Message ==> Reaches(p, rest, buf.Length, nbZero) == Reaches(Pending(), rest, buf.Length, nbZero)
    {
      hide Reaches, MsgLen, Messages;
      o := NextInRecord(p);
      if o == InvalidRecord {
        ShortIsRefused(p, rest, buf.Length, nbZero);
      } else if o == Message {
        BehindMessage(p, rest, buf.Length, nbZero);
      }
    }

    /** Else a record is read. */
    method TurnWithRecord(rec: Rec, ghost rest: seq<Rec>) returns (o: Outcome)
      requires Settled() && msglen == 0 && RecOk(rec) && AllOk(rest) && rest != [] && rest[0] == rec && Begun(Pending())
      modifies this, buf
      ensures o == Message || o == Again || o == Other || Failed(o)
      ensures Failed(o) ==> Refuses(old(Pending()), rest, buf.Length, old(nbZero))
      ensures !Failed(o) ==> AtRest() && (o == Other <==> !rec.handshake)
      ensures !Failed(o) ==>
        Reaches(old(Pending()), rest, buf.Length, old(nbZero))
          == Later(1, Reaches(Pending(), rest[1..], buf.Length, nbZero))
      ensures o == Other ==> old(Pending()) == [] && Pending() == []
      ensures o == Again ==> hsfraglen > 0 && Pending() == old(Pending()) + Content(rec)
      ensures o == Message ==> Delivers(old(Pending()) + Content(rec))
    {
      hide Reaches, MsgLen, Messages, Taken, Joins;
      ghost var p, zeros := Pending(), nbZero;
      ReachesOnce(p, rest, buf.Length, zeros);
      o := NextRecord(rec);
      if o == Message {
        BehindMessage(p + Content(rec), rest[1..], buf.Length, nbZero);
      }
    }

    /** One turn of the loop in mbedtls_ssl_read_record. */
    method Turn(records: seq<Rec>, next: nat) returns (o: Outcome, next': nat)
      requires AtRest() && AllOk(records) && next <= |records|
      modifies this, buf
      ensures next <= next' <= |records|
      ensures Failed(o) ==> next' == next && Refuses(old(Pending()), records[next..], buf.Length, old(nbZero))
      ensures o == WantRead ==> next' == |records|
      ensures !Failed(o) ==> AtRest()
      ensures !Failed(o) ==>
        Reaches(old(Pending()), records[next..], buf.Length, old(nbZero))
          == Later(next' - next, Reaches(Pending(), records[next'..], buf.Length, nbZero))
      ensures o == Again || o == WantRead || o == Other ==> Pending() == old(Pending()) + Payload(records[next..next'])
      ensures o == WantRead ==> Begun(Pending())
      ensures o == Other ==> next' > next && Pending() == []
      ensures o == Message ==> Delivers(old(Pending()) + Payload(records[next..next']))
      ensures o == Again ==> hsfraglen > 0 && (next' == next ==> old(hsfraglen) == 0)
    {
      hide Reaches, MsgLen, Messages, Content, Valid, Payload, Begun, Delivers;
      ghost var p := Pending();
      ConsumeCurrentMessage();
      next' := next;
      ghost var rest := records[next..];
      assert records[next..next] == [] && p + [] == p;
      PayloadNone();
      if msglen > 0 {
        o := TurnInRecord(p, rest);
      } else if next == |records| {
        o := WantRead;
      } else {
        var rec := records[next];
        assert rest[0] == rec && rest[1..] == records[next + 1..] && records[next..next + 1] == [rec];
        PayloadOne(rec);
        o := TurnWithRecord(rec, rest);
        if !Failed(o) {
          next' := next + 1;
        }
      }
    }

    /** mbedtls_ssl_read_record, with the records the transport still has. */
    method ReadRecord(records: seq<Rec>, next: nat) returns (o: Outcome, next': nat)
      requires AtRest() && AllOk(records) && next <= |records|
      modifies this, buf
      ensures next <= next' <= |records| && o != Again
      ensures Failed(o) ==>
        Reaches(old(Pending()), records[next..], buf.Length, old(nbZero)) == Reach(next' - next, false)
      ensures Failed(o) ==> Messages(old(Pending()) + Payload(records[next..next'])) == []
      ensures !Failed(o) ==> AtRest()
      ensures !Failed(o) ==>
        Reaches(old(Pending()), records[next..], buf.Length, old(nbZero))
          == Later(next' - next, Reaches(Pending(), records[next'..], buf.Length, nbZero))
      ensures o == WantRead || o == Other ==> Pending() == old(Pending()) + Payload(records[next..next'])
      ensures o == WantRead ==> next' == |records| && Begun(Pending())
      ensures o == Other ==> next' > next
      ensures o == Message ==> Delivers(old(Pending()) + Payload(records[next..next']))
    {
      hide Reaches, Messages, Payload, Valid, Begun, Delivers, Pending;
      ghost var p, zeros := Pending(), nbZero;
      o, next' := Again, next;
      assert records[next..next] == [] && p + [] == p;
      PayloadNone();
      while o == Again
        invariant next <= next' <= |records|
        invariant Failed(o) ==>
          && Messages(p + Payload(records[next..next'])) == []
          && Reaches(p, records[next..], buf.Length, zeros) == Reach(next' - next, false)
        invariant !Failed(o) ==> AtRest()
        invariant !Failed(o) ==>
          Reaches(p, records[next..], buf.Length, zeros)
            == Later(next' - next, Reaches(Pending(), records[next'..], buf.Length, nbZero))
        invariant o == Again || o == WantRead || o == Other ==> Pending() == p + Payload(records[next..next'])
        invariant o == WantRead ==> next' == |records| && Begun(Pending())
        invariant o == Other ==> next' > next
        invariant o == Message ==> Delivers(p + Payload(records[next..next']))
        decreases o == Again, |records| - next', hsfraglen == 0
      {
        ghost var q, n := Pending(), next';
        o, next' := Turn(records, next');
        PayloadSlice(records, next, n, next');
        assert p + (Payload(records[next..n]) + Payload(records[n..next'])) == q + Payload(records[n..next']);
      }
    }
  }

  /** The messages handed up and the bytes kept are what the first `used` records carry. */
  ghost predicate Underway(
      delivered: seq<bytes>, kept: bytes, records: seq<Rec>, used: nat, bufLen: nat, zeros: nat)
    requires AllOk(records) && used <= |records|
  {
    && AllWhole(delivered) && Flatten(delivered) + kept == Payload(records[..used])
    && Reaches([], records, bufLen, 0) == Later(used, Reaches(kept, records[used..], bufLen, zeros))
  }

  /** One call of the reader. */
  method HandUp(r: TlsReader, records: seq<Rec>, delivered: seq<bytes>, used: nat)
    returns (delivered': seq<bytes>, end: Outcome, used': nat)
    requires AllOk(records) && used <= |records| && r.AtRest()
    requires Underway(delivered, r.Pending(), records, used, r.buf.Length, r.nbZero)
    modifies r, r.buf
    ensures used <= used' <= |records| && end != Again
    ensures Failed(end) ==>
      && delivered' == Messages(Payload(records[..used']))
      && Reaches([], records, r.buf.Length, 0) == Reach(used', false)
    ensures !Failed(end) ==>
      r.AtRest() && Underway(delivered', r.Pending(), records, used', r.buf.Length, r.nbZero)
    ensures end == WantRead ==> used' == |records| && Begun(r.Pending())
    ensures end == Other ==> used' > used
    ensures end == Message && used' == used ==> |r.Pending()| < |old(r.Pending())|
  {
    hide Reaches, Messages, Payload, Begun, MsgLen, StartsWithMessage, AllWhole, Flatten;
    ghost var p := r.Pending();
    delivered' := delivered;
    end, used' := r.ReadRecord(records, used);
    PayloadUpTo(records, used, used');
    ghost var t := p + Payload(records[used..used']);
    assert Flatten(delivered) + t == Payload(records[..used']);
    if Failed(end) {
      MessagesUnique(delivered, t);
      assert Messages(Payload(records[..used'])) == delivered + [];
    } else if end == Message {
      TakeMessage(delivered, t);
      delivered' := delivered + [r.CurrentMessage()];
      assert used' == used ==> records[used..used'] == [];
      PayloadNone();
    }
  }

  /** However records cut the handshake bytes: what is handed up are the messages of the
      stream, in order, up to the last record taken. Records are taken up to the first one
      that is refused or cuts a message header, and all of them if there is none. */
  method Session(bufLen: nat, records: seq<Rec>) returns (delivered: seq<bytes>, end: Outcome, used: nat)
    requires bufLen >= PAYLOAD && AllOk(records)
    ensures used <= |records| && delivered == Messages(Payload(records[..used]))
    ensures delivered <= Messages(Payload(records))
    ensures end == WantRead || Failed(end)
    ensures Reaches([], records, bufLen, 0) == Reach(used, end == WantRead)
    ensures end == WantRead ==> used == |records|
  {
    hide Reaches, Messages, Payload, Begun, MsgLen, StartsWithMessage, AllWhole, Flatten, TlsReader.Valid;
    var r := new TlsReader(bufLen);
    delivered, end, used := [], Other, 0;
    assert records[..0] == [] && records[0..] == records;
    PayloadNone();
    NoneWhole();
    FlattenNone(r.Pending());
    while end == Other || end == Message
      invariant used <= |records| && fresh(r) && fresh(r.buf) && r.buf.Length == bufLen && end != Again
      invariant Failed(end) ==>
        Reaches([], records, bufLen, 0) == Reach(used, false) && delivered == Messages(Payload(records[..used]))
      invariant !Failed(end) ==>
        r.AtRest() && Underway(delivered, r.Pending(), records, used, bufLen, r.nbZero)
      invariant end == WantRead ==> used == |records| && Begun(r.Pending())
      decreases !Failed(end) && end != WantRead, |records| - used, if Failed(end) then 0 else |r.Pending()|
    {
      delivered, end, used := HandUp(r, records, delivered, used);
    }
    if end == WantRead {
      ghost var p := r.Pending();
      assert records[used..] == [];
      BegunIsAtRest(p, bufLen, r.nbZero);
      MessagesUnique(delivered, p);
      assert Messages(Payload(records[..used])) == delivered + [];
    }
    AllMessages(records, used);
  }
}
