/** The TLS handshake layer as a byte stream: what the messages in a stream are,
    however records cut it. */
module HsStream {
  import opened Bytes

  const HS_HDR: nat := 4
  const RECORD_HDR: nat := 5
  /** The first record starts behind room for a sequence number. */
  const START: nat := 8
  const PAYLOAD: nat := 13
  const IN_CONTENT_LEN: nat := 16384
  const MAX_ZEROS: nat := 3

  /** A record as it lies in the buffer once decrypted in place: header, explicit IV,
      content and whatever was behind it. `emptyOk` says that a record of its type may be
      empty in the version at hand: application data in TLS 1.2, all in TLS 1.3. */
  datatype Rec = Rec(handshake: bool, emptyOk: bool, raw: bytes, off: nat, len: nat)

  predicate RecOk(rec: Rec)
  {
    RECORD_HDR + rec.off + rec.len <= |rec.raw|
  }

  predicate AllOk(records: seq<Rec>)
  {
    forall i :: 0 <= i < |records| ==> RecOk(records[i])
  }

  function Content(rec: Rec): (s: bytes)
    requires RecOk(rec)
    ensures |s| == rec.len
  {
    rec.raw[RECORD_HDR + rec.off..RECORD_HDR + rec.off + rec.len]
  }

  /** Length of the message that starts s, with its header. */
  function MsgLen(s: bytes): (n: nat)
    requires |s| >= HS_HDR
    ensures n >= HS_HDR
  {
    HS_HDR + U24At(s, 1)
  }

  predicate StartsWithMessage(s: bytes)
  {
    |s| >= HS_HDR && MsgLen(s) <= |s|
  }

  /** The complete messages at the start of a stream, and what is left. */
  function Messages(s: bytes): seq<bytes>
    decreases |s|
  {
    if StartsWithMessage(s) then [s[..MsgLen(s)]] + Messages(s[MsgLen(s)..]) else []
  }

  function Tail(s: bytes): bytes
    decreases |s|
  {
    if StartsWithMessage(s) then Tail(s[MsgLen(s)..]) else s
  }

  predicate IsMessage(m: bytes)
  {
    |m| >= HS_HDR && |m| == MsgLen(m)
  }

  lemma FirstMessage(m: bytes, rest: bytes)
    requires IsMessage(m)
    ensures Messages(m + rest) == [m] + Messages(rest) && Tail(m + rest) == Tail(rest)
  {
    var s := m + rest;
    assert s[..|m|] == m && s[|m|..] == rest;
    assert forall k :: 0 <= k < |m| ==> s[k] == m[k];
    assert MsgLen(s) == MsgLen(m);
  }

  function Flatten(ms: seq<bytes>): bytes
  {
    if ms == [] then [] else ms[0] + Flatten(ms[1..])
  }

  predicate AllWhole(ms: seq<bytes>)
  {
    forall m :: m in ms ==> IsMessage(m)
  }

  lemma NoneWhole()
    ensures AllWhole([])
  {
  }

  /** Messages and Tail are the only way to read a stream as messages. */
  lemma {:induction false} MessagesUnique(ms: seq<bytes>, rest: bytes)
    requires AllWhole(ms)
    ensures Messages(Flatten(ms) + rest) == ms + Messages(rest) && Tail(Flatten(ms) + rest) == Tail(rest)
  {
    if ms == [] {
      assert Flatten(ms) + rest == rest;
    } else {
      assert Flatten(ms) + rest == ms[0] + (Flatten(ms[1..]) + rest);
      FirstMessage(ms[0], Flatten(ms[1..]) + rest);
      MessagesUnique(ms[1..], rest);
    }
  }

  lemma SplitFirst(s: bytes)
    requires StartsWithMessage(s)
    ensures IsMessage(s[..MsgLen(s)]) && s == s[..MsgLen(s)] + s[MsgLen(s)..]
  {
    var m := s[..MsgLen(s)];
    assert forall k :: 0 <= k < HS_HDR ==> s[k] == m[k];
  }

  lemma {:induction false} MessagesAppend(s: bytes, t: bytes)
    ensures Messages(s + t) == Messages(s) + Messages(Tail(s) + t) && Tail(s + t) == Tail(Tail(s) + t)
    decreases |s|
  {
    hide MsgLen, IsMessage;
    if StartsWithMessage(s) {
      var m, rest := s[..MsgLen(s)], s[MsgLen(s)..];
      SplitFirst(s);
      Assoc(m, rest, t);
      FirstMessage(m, rest + t);
      MessagesAppend(rest, t);
    }
  }

  /** The handshake bytes that records carry. */
  function Payload(records: seq<Rec>): bytes
    requires AllOk(records)
  {
    if records == [] then []
    else (if records[0].handshake then Content(records[0]) else []) + Payload(records[1..])
  }

  lemma PayloadNone()
    ensures Payload([]) == []
  {
  }

  lemma PayloadOne(rec: Rec)
    requires RecOk(rec)
    ensures AllOk([rec]) && Payload([rec]) == if rec.handshake then Content(rec) else []
  {
    assert [rec][1..] == [];
  }

  lemma {:induction false} PayloadAppend(a: seq<Rec>, b: seq<Rec>)
    requires AllOk(a) && AllOk(b)
    ensures AllOk(a + b) && Payload(a + b) == Payload(a) + Payload(b)
  {
    if a == [] {
      assert a + b == b;
    } else {
      hide Content;
      PayloadAppend(a[1..], b);
      assert (a + b)[1..] == a[1..] + b && (a + b)[0] == a[0];
      Assoc(if a[0].handshake then Content(a[0]) else [], Payload(a[1..]), Payload(b));
    }
  }

  /** The next record can be taken, `t` being the beginning of a message that is not
      complete and `zeros` the number of empty records just before: it fits behind t, its
      content is not too long, not empty where it must not be, there are not more than
      three empty ones in a row, and nothing interrupts a message. */
  predicate Taken(t: bytes, rec: Rec, bufLen: nat, zeros: nat)
    requires RecOk(rec)
  {
    && (if t == [] then START else PAYLOAD + |t|) + |rec.raw| <= bufLen
    && rec.len <= IN_CONTENT_LEN
    && (rec.len == 0 ==> rec.emptyOk && zeros < MAX_ZEROS)
    && if rec.handshake then rec.len > 0 || t != [] else t == []
  }

  /** The number of empty records in a row, with this one. */
  function ZerosAfter(rec: Rec, zeros: nat): nat
  {
    if rec.len == 0 then zeros + 1 else 0
  }

  predicate Joins(s: bytes)
  {
    StartsWithMessage(s) ==> |s| <= 0xffff
  }

  /** And it does not cut a message header, or bring more than can be kept. */
  predicate Accepted(t: bytes, rec: Rec, bufLen: nat, zeros: nat)
    requires RecOk(rec)
  {
    && Taken(t, rec, bufLen, zeros)
    && (rec.handshake ==> Joins(t + Content(rec)) && (t == [] ==> rec.len >= HS_HDR))
  }

  /** How many records are taken before the first one that is refused, or before the end of
      one that cuts a header, and whether it is all of them without such an end. */
  datatype Reach = Reach(used: nat, clean: bool)

  function Later(n: nat, r: Reach): Reach
  {
    r.(used := n + r.used)
  }

  function Reaches(s: bytes, records: seq<Rec>, bufLen: nat, zeros: nat): (r: Reach)
    requires AllOk(records)
    ensures r.used <= |records|
    decreases |records|
  {
    var t := Tail(s);
    if 0 < |t| < HS_HDR then Reach(0, false)
    else if records == [] then Reach(0, true)
    else
      var rec := records[0];
      if !Accepted(t, rec, bufLen, zeros) then Reach(0, false)
      else
        var joined := if rec.handshake then t + Content(rec) else [];
        Later(1, Reaches(joined, records[1..], bufLen, ZerosAfter(rec, zeros)))
  }

  lemma BehindMessage(s: bytes, records: seq<Rec>, bufLen: nat, zeros: nat)
    requires AllOk(records) && StartsWithMessage(s)
    ensures Reaches(s, records, bufLen, zeros) == Reaches(s[MsgLen(s)..], records, bufLen, zeros)
    ensures IsMessage(s[..MsgLen(s)])
  {
    var m := s[..MsgLen(s)];
    assert forall k :: 0 <= k < HS_HDR ==> s[k] == m[k];
  }

  /** Nothing, or the beginning of a message with its header. */
  predicate Begun(t: bytes)
  {
    t == [] || (|t| >= HS_HDR && MsgLen(t) > |t|)
  }

  predicate Refuses(p: bytes, records: seq<Rec>, bufLen: nat, zeros: nat)
    requires AllOk(records)
  {
    Messages(p) == [] && Reaches(p, records, bufLen, zeros) == Reach(0, false)
  }

  lemma ReachesOnce(t: bytes, records: seq<Rec>, bufLen: nat, zeros: nat)
    requires AllOk(records) && records != [] && Begun(t)
    ensures var rec := records[0];
      var joined := if rec.handshake then t + Content(rec) else [];
      Reaches(t, records, bufLen, zeros) ==
        if !Accepted(t, rec, bufLen, zeros) then Reach(0, false)
        else Later(1, Reaches(joined, records[1..], bufLen, ZerosAfter(rec, zeros)))
    ensures Messages(t) == []
  {
  }

  lemma ShortIsRefused(s: bytes, records: seq<Rec>, bufLen: nat, zeros: nat)
    requires AllOk(records) && 0 < |s| < HS_HDR
    ensures Refuses(s, records, bufLen, zeros)
  {
  }

  lemma PayloadSlice(records: seq<Rec>, a: nat, b: nat, c: nat)
    requires a <= b <= c <= |records| && AllOk(records)
    ensures Payload(records[a..c]) == Payload(records[a..b]) + Payload(records[b..c])
  {
    assert records[a..c] == records[a..b] + records[b..c];
    PayloadAppend(records[a..b], records[b..c]);
  }

  lemma BegunIsAtRest(t: bytes, bufLen: nat, zeros: nat)
    requires Begun(t)
    ensures Messages(t) == [] && Reaches(t, [], bufLen, zeros) == Reach(0, true)
  {
  }

  lemma FlattenNone(s: bytes)
    ensures Flatten([]) + s == s
  {
  }

  lemma {:induction false} FlattenAppend(ms: seq<bytes>, m: bytes)
    ensures Flatten(ms + [m]) == Flatten(ms) + m
  {
    if ms == [] {
      assert ms + [m] == [m] && Flatten([m]) == m + Flatten([]);
    } else {
      FlattenAppend(ms[1..], m);
      assert (ms + [m])[1..] == ms[1..] + [m];
    }
  }

  lemma PayloadUpTo(records: seq<Rec>, a: nat, b: nat)
    requires a <= b <= |records| && AllOk(records)
    ensures Payload(records[..b]) == Payload(records[..a]) + Payload(records[a..b])
  {
    PayloadSlice(records, 0, a, b);
    assert records[0..b] == records[..b] && records[0..a] == records[..a];
  }

  lemma TakeMessage(ms: seq<bytes>, s: bytes)
    requires StartsWithMessage(s) && AllWhole(ms)
    ensures var m, rest := s[..MsgLen(s)], s[MsgLen(s)..];
      AllWhole(ms + [m]) && Flatten(ms + [m]) + rest == Flatten(ms) + s && |rest| < |s|
  {
    hide IsMessage;
    var m, rest := s[..MsgLen(s)], s[MsgLen(s)..];
    SplitFirst(s);
    FlattenAppend(ms, m);
    Assoc(Flatten(ms), m, rest);
  }

  /** More bytes never change the messages that were complete. */
  lemma AllMessages(records: seq<Rec>, used: nat)
    requires AllOk(records) && used <= |records|
    ensures Messages(Payload(records[..used])) <= Messages(Payload(records))
  {
    PayloadUpTo(records, used, |records|);
    assert records[..|records|] == records;
    MessagesAppend(Payload(records[..used]), Payload(records[used..|records|]));
  }

  // ---------- Which records are taken, without the fold

  /** The beginning of a message that is at hand before record i. */
  function Open(records: seq<Rec>, i: nat): bytes
    requires AllOk(records) && i <= |records|
  {
    Tail(Payload(records[..i]))
  }

  predicate CutsHeader(records: seq<Rec>, i: nat)
    requires AllOk(records) && i <= |records|
  {
    1 <= |Open(records, i)| <= 3
  }

  /** Record i may come where it comes: there is room for it behind what is open; it has
      at most 2^14 bytes; if empty, it may be so, and the three before it are not all
      empty; no record of another type comes while a message is open, which must have its
      header; and what begins a message brings its header. */
  predicate ProperAt(records: seq<Rec>, bufLen: nat, i: nat)
    requires AllOk(records) && i < |records|
  {
    var t, rec := Open(records, i), records[i];
    && !CutsHeader(records, i)
    && |rec.raw| + (if t == [] then 8 else 13 + |t|) <= bufLen && rec.len <= 16384
    && (rec.len == 0 ==> rec.emptyOk && !AllEmpty(records, i))
    && (!rec.handshake ==> t == [])
    && (rec.handshake && t == [] ==> rec.len >= 4)
    && (rec.handshake ==> Joins(t + Content(rec)))
  }

  /** The three records before record i are empty. */
  predicate AllEmpty(records: seq<Rec>, i: nat)
    requires i <= |records|
  {
    i >= 3 && records[i - 1].len == records[i - 2].len == records[i - 3].len == 0
  }

  function EmptyBefore(records: seq<Rec>, i: nat): nat
    requires i <= |records|
  {
    if i == 0 then 0 else ZerosAfter(records[i - 1], EmptyBefore(records, i - 1))
  }

  lemma EmptyBeforeIs(records: seq<Rec>, i: nat)
    requires i <= |records|
    ensures EmptyBefore(records, i) >= MAX_ZEROS <==> AllEmpty(records, i)
  {
    if i > 1 {
      assert EmptyBefore(records, i - 1) == ZerosAfter(records[i - 2], EmptyBefore(records, i - 2));
    }
    if i > 2 {
      assert EmptyBefore(records, i - 2) == ZerosAfter(records[i - 3], EmptyBefore(records, i - 3));
    }
  }

  lemma ReachesByTail(s: bytes, records: seq<Rec>, bufLen: nat, zeros: nat)
    requires AllOk(records)
    ensures Reaches(Tail(s), records, bufLen, zeros) == Reaches(s, records, bufLen, zeros)
    ensures Tail(Tail(s)) == Tail(s)
  {
    MessagesAppend(s, []);
    assert s + [] == s && Tail(s) + [] == Tail(s);
  }

  /** How far the records from k on are taken. */
  function From(records: seq<Rec>, bufLen: nat, k: nat): (r: Reach)
    requires AllOk(records) && k <= |records|
  {
    Reaches(Open(records, k), records[k..], bufLen, EmptyBefore(records, k))
  }

  lemma {:induction false} OpenStep(records: seq<Rec>, k: nat)
    requires AllOk(records) && k < |records|
    ensures Open(records, k + 1) ==
      if records[k].handshake then Tail(Open(records, k) + Content(records[k])) else Open(records, k)
  {
    hide Tail, Content, Messages;
    var p := Payload(records[..k]);
    assert records[..k + 1] == records[..k] + [records[k]];
    PayloadOne(records[k]);
    PayloadAppend(records[..k], [records[k]]);
    MessagesAppend(p, if records[k].handshake then Content(records[k]) else []);
    assert p + [] == p;
  }

  lemma {:induction false} FromStep(records: seq<Rec>, bufLen: nat, k: nat)
    requires AllOk(records) && k < |records|
    ensures From(records, bufLen, k) ==
      if !ProperAt(records, bufLen, k) then Reach(0, false) else Later(1, From(records, bufLen, k + 1))
  {
    hide Tail, Content, Payload, Messages, Joins;
    var t, rec, zeros := Open(records, k), records[k], EmptyBefore(records, k);
    OpenStep(records, k);
    EmptyBeforeIs(records, k);
    ReachesByTail(Payload(records[..k]), records[k..], bufLen, zeros);
    ReachesByTail(if rec.handshake then t + Content(rec) else [], records[k + 1..], bufLen, ZerosAfter(rec, zeros));
    ReachesByTail([], records[k + 1..], bufLen, ZerosAfter(rec, zeros));
    assert records[k..][0] == rec && records[k..][1..] == records[k + 1..];
    NothingOpen();
  }

  lemma NothingOpen()
    ensures Tail([]) == []
  {
  }

  lemma {:induction false} UsedIff(records: seq<Rec>, bufLen: nat, k: nat, n: nat)
    requires AllOk(records) && k + n <= |records|
    ensures n <= From(records, bufLen, k).used <==>
      forall i :: k <= i < k + n ==> ProperAt(records, bufLen, i)
    decreases n
  {
    hide ProperAt, From;
    if n > 0 {
      FromStep(records, bufLen, k);
      UsedIff(records, bufLen, k + 1, n - 1);
    }
  }

  lemma {:induction false} CleanIff(records: seq<Rec>, bufLen: nat, k: nat)
    requires AllOk(records) && k <= |records|
    ensures From(records, bufLen, k).clean <==>
      !CutsHeader(records, |records|) && forall i :: k <= i < |records| ==> ProperAt(records, bufLen, i)
    decreases |records| - k
  {
    hide ProperAt;
    if k < |records| {
      hide From;
      FromStep(records, bufLen, k);
      CleanIff(records, bufLen, k + 1);
    } else {
      ReachesByTail(Payload(records[..k]), records[k..], bufLen, EmptyBefore(records, k));
    }
  }

  /** The first n records are taken if and only if each of them may come where it comes; and
      all are, to a good end, if in the end no message header is cut. */
  lemma {:induction false} ReachesIff(records: seq<Rec>, bufLen: nat, n: nat)
    requires AllOk(records) && n <= |records|
    ensures n <= Reaches([], records, bufLen, 0).used <==> forall i :: 0 <= i < n ==> ProperAt(records, bufLen, i)
    ensures Reaches([], records, bufLen, 0).clean <==>
      !CutsHeader(records, |records|) && forall i :: 0 <= i < |records| ==> ProperAt(records, bufLen, i)
  {
    hide ProperAt;
    UsedIff(records, bufLen, 0, n);
    CleanIff(records, bufLen, 0);
    assert records[..0] == [] && records[0..] == records;
    NothingOpen();
  }
}
