/** Which records are accepted: exactly those that carry the right MAC or tag, the right
    padding and a type, for the content that comes out; and which error the others get. */
module RecordAcceptance {
  import opened Bytes
  import opened Hmac
  import opened RecordFormat

  /** n bytes of padding and its length byte. */
  function Padding(n: byte): bytes
  {
    Repeat(n, n + 1)
  }

  predicate Padded(s: bytes, front: bytes, n: byte)
  {
    s == front + Padding(n)
  }

  /** The HMAC over the header fields of p and the bytes s. */
  function MacFor(c: Primitives, t: Cipher, p: Rec, s: bytes): bytes
    requires |t.macKey| <= c.block
  {
    HmacOf(c.hash, c.block, t.macKey, AddData(p, |s|, t.tls13, t.tagLen) + s)
  }

  predicate AuthenticAead(c: Primitives, t: Cipher, p: Rec, s: bytes)
    requires CipherOk(t, c) && t.mode == Aead && |p.ctr| == 8
  {
    var skip := if ExplicitIv(t) then 8 else 0;
    && |s| == skip + |p.data| + t.tagLen
    && var dynamicIv := if ExplicitIv(t) then s[..8] else p.ctr;
       c.aeadDecrypt(t.key, Nonce(t.fixedIv, dynamicIv), AddData(p, |p.data|, t.tls13, t.tagLen), s[skip..])
         == Some(p.data)
  }

  /** The IV, and blocks that decrypt to the content, its MAC and n bytes of padding. */
  predicate AuthenticCbc(c: Primitives, t: Cipher, p: Rec, s: bytes, n: byte)
    requires CipherOk(t, c) && t.mode == Cbc
  {
    && |s| > t.ivLen && |s| % BLOCK == 0
    && Padded(c.cbcDecrypt(t.key, s[..t.ivLen], s[t.ivLen..]), p.data + MacFor(c, t, p, p.data), n)
  }

  /** The same with the MAC over IV and blocks behind them. */
  predicate AuthenticEtm(c: Primitives, t: Cipher, p: Rec, s: bytes, n: byte)
    requires CipherOk(t, c) && t.mode == CbcEtm
  {
    && |s| > t.ivLen + t.macLen
    && var end := |s| - t.macLen;
       && end % BLOCK == 0 && s[end..] == MacFor(c, t, p, s[..end])
       && Padded(c.cbcDecrypt(t.key, s[..t.ivLen], s[t.ivLen..end]), p.data, n)
  }

  /** The bytes s stand for the record p under the keys. */
  ghost predicate Authentic(c: Primitives, t: Cipher, p: Rec, s: bytes)
    requires CipherOk(t, c) && |p.ctr| == 8
  {
    match t.mode
    case Stream => s == p.data + MacFor(c, t, p, p.data)
    case Aead => AuthenticAead(c, t, p, s)
    case Cbc => exists n: byte :: AuthenticCbc(c, t, p, s, n)
    case CbcEtm => exists n: byte :: AuthenticEtm(c, t, p, s, n)
  }

  predicate SameHeader(p: Rec, r: Rec)
  {
    p == r.(data := p.data)
  }

  lemma MacLength(c: Primitives, t: Cipher, ad: bytes, s: bytes)
    requires CipherOk(t, c) && t.mode != Aead
    ensures |Mac(c, t, ad, s)| == t.macLen
  {
  }

  lemma MacForLength(c: Primitives, t: Cipher, p: Rec)
    requires CipherOk(t, c) && t.mode != Aead
    ensures |MacFor(c, t, p, p.data)| == t.macLen
  {
  }

  lemma MacIsFor(c: Primitives, t: Cipher, p: Rec, s: bytes)
    requires |t.macKey| <= c.block
    ensures Mac(c, t, AddData(p, |s|, t.tls13, t.tagLen), s) == MacFor(c, t, p, s)
  {
  }

  lemma HeaderDecides(c: Primitives, t: Cipher, p: Rec, r: Rec, s: bytes)
    requires SameHeader(p, r) && |t.macKey| <= c.block
    ensures MacFor(c, t, p, s) == MacFor(c, t, r, s)
    ensures forall n: nat :: AddData(p, n, t.tls13, t.tagLen) == AddData(r, n, t.tls13, t.tagLen)
  {
    forall n: nat
      ensures AddData(p, n, t.tls13, t.tagLen) == AddData(r, n, t.tls13, t.tagLen)
    {
      SameAddData(r, p, n, t);
    }
  }

  /** The MAC at the end of s decides, and it is the right one for what is in front. */
  lemma CheckMacIff(c: Primitives, t: Cipher, r: Rec, s: bytes, correct: bool, p: Rec)
    requires CipherOk(t, c) && t.mode != Aead && t.macLen <= |s|
    ensures CheckMac(c, t, r, s, correct) == Ok(p) <==>
      correct && SameHeader(p, r) && s == p.data + MacFor(c, t, p, p.data)
    ensures CheckMac(c, t, r, s, correct).Err? ==> CheckMac(c, t, r, s, correct).error == InvalidMac
  {
    hide AddData, Mac, MacFor;
    var n := |s| - t.macLen;
    MacIsFor(c, t, r, s[..n]);
    MacIsFor(c, t, p, p.data);
    if SameHeader(p, r) {
      HeaderDecides(c, t, p, r, p.data);
      MacLength(c, t, AddData(p, |p.data|, t.tls13, t.tagLen), p.data);
    }
    assert s == s[..n] + s[n..];
  }

  lemma PaddingEnds(front: bytes, n: byte)
    ensures var s := front + Padding(n);
      && |s| == |front| + n + 1 && s[|s| - 1] == n && s[..|front|] == front
      && forall i :: |front| <= i < |s| ==> s[i] == n
  {
  }

  lemma EndIsPadding(s: bytes, n: byte)
    requires n < |s| && forall i :: |s| - 1 - n <= i < |s| ==> s[i] == n
    ensures Padded(s, s[..|s| - 1 - n], n)
  {
    assert s[|s| - 1 - n..] == Padding(n);
  }

  /** Right padding is what is written in front of the end: n bytes n and one more. */
  lemma PaddingIff(s: bytes, extra: nat, front: bytes)
    requires s != []
    ensures PaddingOk(s, extra) && front == s[..|s| - 1 - s[|s| - 1]] <==>
      |front| >= extra && exists n: byte :: Padded(s, front, n)
  {
    hide Padding;
    var n := s[|s| - 1];
    if PaddingOk(s, extra) && front == s[..|s| - 1 - n] {
      EndIsPadding(s, n);
    }
    if |front| >= extra && exists m: byte :: Padded(s, front, m) {
      var m: byte :| Padded(s, front, m);
      PaddingEnds(front, m);
    }
  }

  lemma OpenStreamIff(c: Primitives, t: Cipher, r: Rec, p: Rec)
    requires CipherOk(t, c) && t.mode == Stream && |r.ctr| == 8
    ensures OpenStream(c, t, r) == Ok(p) <==> SameHeader(p, r) && Authentic(c, t, p, r.data)
  {
    hide CheckMac, AddData, Mac;
    if |r.data| >= t.macLen {
      CheckMacIff(c, t, r, r.data, true, p);
    } else {
      MacLength(c, t, AddData(p, |p.data|, t.tls13, t.tagLen), p.data);
    }
  }

  lemma OpenAeadIff(c: Primitives, t: Cipher, r: Rec, p: Rec)
    requires CipherOk(t, c) && t.mode == Aead && |r.ctr| == 8
    ensures OpenAead(c, t, r) == Ok(p) <==> SameHeader(p, r) && Authentic(c, t, p, r.data)
  {
    hide AddData, Nonce;
    if SameHeader(p, r) {
      SameAddData(r, p, |p.data|, t);
    }
  }

  lemma OpenPlainIff(c: Primitives, t: Cipher, r: Rec, s: bytes, p: Rec)
    requires CipherOk(t, c) && (t.mode == Cbc || t.mode == CbcEtm) && s != [] && (t.mode == Cbc ==> |s| > t.macLen)
    ensures OpenCbcPlain(c, t, r, s) == Ok(p) <==>
      && SameHeader(p, r)
      && var front := if t.mode == Cbc then p.data + MacFor(c, t, p, p.data) else p.data;
         exists n: byte :: Padded(s, front, n)
  {
    hide AddData, Mac, CheckMac, PaddingOk;
    var extra := if t.mode == Cbc then t.macLen else 0;
    var front := if t.mode == Cbc then p.data + MacFor(c, t, p, p.data) else p.data;
    PaddingIff(s, extra, front);
    if t.mode == Cbc {
      MacLength(c, t, AddData(p, |p.data|, t.tls13, t.tagLen), p.data);
      var ok := PaddingOk(s, extra);
      if ok {
        PaddedLength(s, extra);
      }
      var s' := if ok then s[..|s| - 1 - s[|s| - 1]] else s;
      CheckMacIff(c, t, r, s', ok, p);
    }
  }

  lemma PaddedLength(s: bytes, extra: nat)
    requires s != [] && PaddingOk(s, extra)
    ensures |s| - 1 - s[|s| - 1] >= extra
  {
  }

  lemma OpenCbcIff(c: Primitives, t: Cipher, r: Rec, p: Rec)
    requires Ideal(c, t) && t.mode == Cbc && |r.ctr| == 8
    ensures OpenCbc(c, t, r) == Ok(p) <==> SameHeader(p, r) && Authentic(c, t, p, r.data)
  {
    hide AddData, Mac, OpenCbcPlain, MacFor;
    var s := r.data;
    MacForLength(c, t, p);
    if |s| >= t.ivLen {
      var plain := c.cbcDecrypt(t.key, s[..t.ivLen], s[t.ivLen..]);
      assert |plain| == |s| - t.ivLen;
      if |s| >= t.ivLen + t.ivLen && |s| >= t.ivLen + t.macLen + 1 && |s| % BLOCK == 0 {
        assert s[t.ivLen..|s|] == s[t.ivLen..];
        OpenPlainIff(c, t, r, plain, p);
        var front := p.data + MacFor(c, t, p, p.data);
        if n: byte :| Padded(plain, front, n) {
          assert AuthenticCbc(c, t, p, s, n);
        }
      }
    }
  }

  lemma OpenEtmIff(c: Primitives, t: Cipher, r: Rec, p: Rec)
    requires Ideal(c, t) && t.mode == CbcEtm && |r.ctr| == 8
    ensures OpenCbc(c, t, r) == Ok(p) <==> SameHeader(p, r) && Authentic(c, t, p, r.data)
  {
    hide AddData, Mac, MacFor, OpenCbcPlain, Padding;
    var s := r.data;
    var end := |s| - t.macLen;
    if end > t.ivLen {
      MacIsFor(c, t, r, s[..end]);
      if SameHeader(p, r) {
        HeaderDecides(c, t, p, r, s[..end]);
      }
      var plain := c.cbcDecrypt(t.key, s[..t.ivLen], s[t.ivLen..end]);
      assert |plain| == end - t.ivLen;
      if |s| >= t.ivLen + t.ivLen && end % BLOCK == 0 {
        OpenPlainIff(c, t, r, plain, p);
        if n: byte :| Padded(plain, p.data, n) && s[end..] == MacFor(c, t, p, s[..end]) {
          assert AuthenticEtm(c, t, p, s, n);
        }
      }
    }
  }

  /** Accepted, with p as the outcome, are exactly the records that stand for p. */
  lemma OpenIff(c: Primitives, t: Cipher, r: Rec, p: Rec)
    requires Ideal(c, t) && |r.ctr| == 8
    ensures Open(c, t, r) == Ok(p) <==> SameHeader(p, r) && Authentic(c, t, p, r.data)
  {
    hide OpenStream, OpenAead, OpenCbc, Authentic;
    match t.mode
    case Stream => OpenStreamIff(c, t, r, p);
    case Aead => OpenAeadIff(c, t, r, p);
    case Cbc => OpenCbcIff(c, t, r, p);
    case CbcEtm => OpenEtmIff(c, t, r, p);
  }

  /** The others are refused as not authentic; the internal error is for an AEAD that does
      not keep the length. */
  lemma OpenErrors(c: Primitives, t: Cipher, r: Rec)
    requires Ideal(c, t) && |r.ctr| == 8 && Open(c, t, r).Err?
    ensures Open(c, t, r).error == InvalidMac || (t.mode == Aead && Open(c, t, r).error == InternalError)
    ensures Open(c, t, r).error == InternalError ==>
      exists n, a, s :: c.aeadDecrypt(t.key, n, a, s).Some? && |c.aeadDecrypt(t.key, n, a, s).value| + t.tagLen != |s|
  {
    hide AddData, Mac, Nonce, PaddingOk;
  }

  // ---------- The type behind the content

  lemma {:induction false} ParseInnerIff(s: bytes, content: bytes, recType: byte)
    ensures ParseInner(s) == Some((content, recType)) <==>
      recType != 0 && exists n: nat :: s == Inner(content, recType, n)
    decreases |s|
  {
    if recType != 0 && exists n: nat :: s == Inner(content, recType, n) {
      var n: nat :| s == Inner(content, recType, n);
      ParseInnerBuilt(content, recType, n);
    }
    if ParseInner(s) == Some((content, recType)) {
      var last := |s| - 1;
      if s[last] != 0 {
        assert s == Inner(content, recType, 0);
      } else {
        ParseInnerIff(s[..last], content, recType);
        var n: nat :| s[..last] == Inner(content, recType, n);
        assert s == Inner(content, recType, n + 1);
      }
    }
  }

  lemma {:induction false} NoTypeIff(s: bytes)
    ensures ParseInner(s) == None <==> s == Zeros(|s|)
    decreases |s|
  {
    if s != [] {
      var last := |s| - 1;
      if s[last] == 0 {
        NoTypeIff(s[..last]);
        assert s == s[..last] + [0];
        assert Zeros(|s|) == Zeros(last) + [0];
      }
    }
  }

  /** q is p behind its content type and any number of zeros, with some outer type. */
  predicate HidesType(p: Rec, q: Rec, n: nat)
  {
    p.recType != 0 && q == p.(data := Inner(p.data, p.recType, n), recType := q.recType)
  }

  lemma UnwrapOnceIff(q: Rec, p: Rec)
    ensures UnwrapOnce(q) == Ok(p) <==> exists n: nat :: HidesType(p, q, n)
    ensures UnwrapOnce(q) == Err(InvalidRecord) <==> q.data == Zeros(|q.data|)
    ensures UnwrapOnce(q).Ok? || UnwrapOnce(q) == Err(InvalidRecord)
  {
    ParseInnerIff(q.data, p.data, p.recType);
    NoTypeIff(q.data);
    if exists n: nat :: HidesType(p, q, n) {
      var n: nat :| HidesType(p, q, n);
      assert q.data == Inner(p.data, p.recType, n);
    }
    if UnwrapOnce(q) == Ok(p) {
      var n: nat :| q.data == Inner(p.data, p.recType, n);
      assert HidesType(p, q, n);
    }
  }

  /** How often the type is hidden: for TLS 1.3, and for a connection ID. */
  ghost predicate Unwraps(t: Transform, q: Rec, p: Rec)
  {
    if t.cipher.tls13 && q.cid != [] then
      exists mid: Rec, n: nat, k: nat :: HidesType(mid, q, n) && HidesType(p, mid, k)
    else if t.cipher.tls13 || q.cid != [] then exists n: nat :: HidesType(p, q, n)
    else p == q
  }

  lemma UnwrapIff(t: Transform, q: Rec, p: Rec)
    ensures Unwrap(t, q) == Ok(p) <==> Unwraps(t, q, p)
    ensures Unwrap(t, q).Ok? || Unwrap(t, q) == Err(InvalidRecord)
  {
    hide UnwrapOnce, HidesType;
    var r1 := UnwrapOnce(q);
    UnwrapOnceIff(q, p);
    if t.cipher.tls13 && q.cid != [] {
      if r1.Ok? {
        UnwrapOnceIff(q, r1.value);
        UnwrapOnceIff(r1.value, p);
        SameCid(q, r1.value);
      }
      if Unwraps(t, q, p) {
        var mid: Rec, n: nat, k: nat :| HidesType(mid, q, n) && HidesType(p, mid, k);
        UnwrapOnceIff(q, mid);
      }
    }
  }

  lemma SameCid(q: Rec, p: Rec)
    requires UnwrapOnce(q) == Ok(p)
    ensures p.cid == q.cid
  {
  }

  /** A protected record is accepted with the outcome p if and only if it has the
      connection ID that is expected and stands for something that hides p. */
  ghost predicate StandsFor(c: Primitives, t: Transform, r: Rec, p: Rec)
    requires CipherOk(t.cipher, c) && |r.ctr| == 8
  {
    && r.cid == t.inCid
    && exists q: Rec :: SameHeader(q, r) && Authentic(c, t.cipher, q, r.data) && Unwraps(t, q, p)
  }

  lemma UnprotectIff(c: Primitives, t: Transform, r: Rec, p: Rec)
    requires Ideal(c, t.cipher) && |r.ctr| == 8
    ensures Unprotect(c, t, r) == Ok(p) <==> StandsFor(c, t, r, p)
  {
    hide Open, Unwrap, Authentic, Unwraps;
    var o := Open(c, t.cipher, r);
    if o.Ok? {
      OpenIff(c, t.cipher, r, o.value);
      UnwrapIff(t, o.value, p);
    }
    if StandsFor(c, t, r, p) {
      var q: Rec :| SameHeader(q, r) && Authentic(c, t.cipher, q, r.data) && Unwraps(t, q, p);
      OpenIff(c, t.cipher, r, q);
    }
  }

  /** Which error another one gets. */
  lemma UnprotectErrors(c: Primitives, t: Transform, r: Rec)
    requires Ideal(c, t.cipher) && |r.ctr| == 8
    ensures Unprotect(c, t, r) == Err(UnexpectedCid) <==> r.cid != t.inCid
    ensures Unprotect(c, t, r) == Err(InvalidRecord) <==>
      && r.cid == t.inCid
      && exists q: Rec :: SameHeader(q, r) && Authentic(c, t.cipher, q, r.data) && forall p: Rec :: !Unwraps(t, q, p)
    ensures Unprotect(c, t, r).Err? ==>
      Unprotect(c, t, r).error in {UnexpectedCid, InvalidMac, InvalidRecord, InternalError}
  {
    hide Open, Unwrap, Authentic, Unwraps;
    var o := Open(c, t.cipher, r);
    if o.Ok? {
      OpenIff(c, t.cipher, r, o.value);
      UnwrapDecides(t, o.value);
    } else {
      OpenErrors(c, t.cipher, r);
    }
    if q: Rec :| SameHeader(q, r) && Authentic(c, t.cipher, q, r.data) && forall p: Rec :: !Unwraps(t, q, p) {
      OpenIff(c, t.cipher, r, q);
    }
  }

  lemma UnwrapDecides(t: Transform, q: Rec)
    ensures Unwrap(t, q) == Err(InvalidRecord) <==> forall p: Rec :: !Unwraps(t, q, p)
    ensures Unwrap(t, q).Ok? || Unwrap(t, q) == Err(InvalidRecord)
  {
    hide Unwrap, Unwraps;
    forall p: Rec
      ensures Unwrap(t, q) == Ok(p) <==> Unwraps(t, q, p)
      ensures Unwrap(t, q).Ok? || Unwrap(t, q) == Err(InvalidRecord)
    {
      UnwrapIff(t, q, p);
    }
    UnwrapIff(t, q, q);
  }
}
