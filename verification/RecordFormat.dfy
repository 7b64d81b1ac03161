/** Record protection on values: what a protected record looks like in each mode, and
    how it is taken apart again. Section 6.2.3 of RFC 5246, section 3 of RFC 7366,
    sections 5.2 to 5.4 of RFC 8446, and RFC 9146 for connection IDs. */
module RecordFormat {
  import opened Bytes
  import opened Hmac

  const APPLICATION_DATA: byte := 23
  const CID_TYPE: byte := 25
  const GRANULARITY: nat := 16
  const OUT_CONTENT_LEN: nat := 16384
  const BLOCK: nat := 16  // of AES, ARIA and Camellia

  datatype Error = InvalidMac | InvalidRecord | UnexpectedCid | InternalError | BadInput | BufferTooSmall

  datatype Result<+T> = Ok(value: T) | Err(error: Error)

  datatype Mode = Stream | Aead | Cbc | CbcEtm

  /** The primitives behind the PSA calls. The MAC is the HMAC over `hash`. */
  datatype Primitives = Primitives(
    hash: bytes -> bytes, block: nat,
    aeadEncrypt: (bytes, bytes, bytes, bytes) -> bytes,
    aeadDecrypt: (bytes, bytes, bytes, bytes) -> Option<bytes>,
    cbcEncrypt: (bytes, bytes, bytes) -> bytes,
    cbcDecrypt: (bytes, bytes, bytes) -> bytes)

  /** The part of a transform that both ends of a direction share. */
  datatype Cipher = Cipher(
    mode: Mode, tls13: bool, ivLen: nat, fixedIvLen: nat, macLen: nat, tagLen: nat,
    fixedIv: bytes, key: bytes, macKey: bytes)

  datatype Transform = Transform(cipher: Cipher, inCid: bytes, outCid: bytes)

  ghost predicate CipherOk(t: Cipher, c: Primitives)
  {
    && (t.mode == Aead ==> t.ivLen == 12 && t.fixedIvLen <= 12 && |t.fixedIv| == t.fixedIvLen)
    && (t.mode == Cbc || t.mode == CbcEtm ==> t.ivLen == BLOCK)
    && (t.mode != Aead ==> |t.macKey| <= c.block && forall s: bytes :: |c.hash(s)| == t.macLen)
  }

  /** Hiding the type for TLS 1.3 and for a connection ID excludes each other. */
  predicate TransformOk(t: Transform)
  {
    |t.inCid| < 256 && |t.outCid| < 256 && !(t.cipher.tls13 && t.outCid != [])
  }

  /** Decryption undoes encryption, and lengths are as PSA promises. */
  ghost predicate Ideal(c: Primitives, t: Cipher)
  {
    && CipherOk(t, c)
    && (forall k: bytes, n: bytes, a: bytes, p: bytes ::
          |c.aeadEncrypt(k, n, a, p)| == |p| + t.tagLen && c.aeadDecrypt(k, n, a, c.aeadEncrypt(k, n, a, p)) == Some(p))
    && (forall k: bytes, iv: bytes, p: bytes ::
          |c.cbcEncrypt(k, iv, p)| == |p| && |c.cbcDecrypt(k, iv, p)| == |p|
          && c.cbcDecrypt(k, iv, c.cbcEncrypt(k, iv, p)) == p)
  }

  /** Primitives with these properties exist for every cipher of the right shape. */
  lemma IdealIsPossible(t: Cipher)
    requires t.mode == Aead ==> t.ivLen == 12 && t.fixedIvLen <= 12 && |t.fixedIv| == t.fixedIvLen
    requires t.mode == Cbc || t.mode == CbcEtm ==> t.ivLen == BLOCK
    ensures exists c :: Ideal(c, t)
  {
    var c := Primitives(
      s => Zeros(t.macLen), |t.macKey|,
      (k, n, a, p: bytes) => p + Zeros(t.tagLen),
      (k, n, a, s: bytes) => if |s| < t.tagLen then None else Some(s[..|s| - t.tagLen]),
      (k, iv, p) => p, (k, iv, p) => p);
    assert Ideal(c, t);
  }

  /** A record in the hands of the record layer: header fields and content. */
  datatype Rec = Rec(ctr: bytes, recType: byte, ver: bytes, cid: bytes, data: bytes)

  // ---------- Inner plaintext: content, real type, zeros

  function PadLen(len: nat, granularity: nat): nat
    requires granularity > 0
  {
    (granularity - (len + 1) % granularity) % granularity
  }

  function Inner(content: bytes, recType: byte, pad: nat): bytes
  {
    content + [recType] + Zeros(pad)
  }

  /** The zeros fill the inner plaintext up to the granularity, and there are no more of
      them than needed. */
  lemma InnerIsPadded(content: bytes, recType: byte)
    ensures PadLen(|content|, GRANULARITY) < GRANULARITY
    ensures |Inner(content, recType, PadLen(|content|, GRANULARITY))| % GRANULARITY == 0
  {
  }

  /** The last byte that is not zero is the type. */
  function ParseInner(s: bytes): Option<(bytes, byte)>
  {
    if s == [] then None
    else if s[|s| - 1] != 0 then Some((s[..|s| - 1], s[|s| - 1]))
    else ParseInner(s[..|s| - 1])
  }

  lemma {:induction false} ParseInnerBuilt(content: bytes, recType: byte, pad: nat)
    ensures ParseInner(Inner(content, recType, pad)) == if recType != 0 then Some((content, recType))
      else ParseInner(content)
  {
    var s := Inner(content, recType, pad);
    if pad > 0 {
      assert s[..|s| - 1] == Inner(content, recType, pad - 1);
      ParseInnerBuilt(content, recType, pad - 1);
    } else {
      assert s[..|s| - 1] == content;
    }
  }

  /** The inner plaintext comes back if and only if its type is not zero. */
  lemma InnerRoundTrip(content: bytes, recType: byte, pad: nat)
    ensures ParseInner(Inner(content, recType, pad)) == Some((content, recType)) <==> recType != 0
  {
    ParseInnerBuilt(content, recType, pad);
    ParseInnerTypeNonZero(content);
  }

  lemma {:induction false} ParseInnerTypeNonZero(s: bytes)
    ensures ParseInner(s).Some? ==> ParseInner(s).value.1 != 0
  {
    if s != [] && s[|s| - 1] == 0 {
      ParseInnerTypeNonZero(s[..|s| - 1]);
    }
  }

  // ---------- Additional data and nonce

  function AddData(r: Rec, len: nat, tls13: bool, tagLen: nat): bytes
  {
    var field := PutU16(if tls13 then len + tagLen else len);
    var prefix :=
      if tls13 then []
      else if r.cid != [] then [0xff, 0xff, 0xff, 0xff, 0xff, 0xff, 0xff, 0xff] + [r.recType, |r.cid| % 256]
      else r.ctr;
    prefix + [r.recType] + r.ver + (if r.cid != [] then r.ctr + r.cid else []) + field
  }

  /** Where the fields are in the additional data. */
  lemma AddDataParts(r: Rec, n: nat, tls13: bool, tagLen: nat)
    requires |r.ctr| == 8 && |r.ver| == 2
    ensures var s := AddData(r, n, tls13, tagLen);
      var i := if tls13 then 0 else if r.cid != [] then 10 else 8;
      && |s| == i + 5 + (if r.cid != [] then 8 + |r.cid| else 0)
      && s[i] == r.recType && s[i + 1..i + 3] == r.ver
      && s[|s| - 2..] == PutU16(if tls13 then n + tagLen else n)
      && (if r.cid != [] then s[i + 3..i + 11] == r.ctr else !tls13 ==> s[..8] == r.ctr)
  {
    hide PutU16;
    var s := AddData(r, n, tls13, tagLen);
    var i := if tls13 then 0 else if r.cid != [] then 10 else 8;
    var field := PutU16(if tls13 then n + tagLen else n);
    var behind := (if r.cid != [] then r.ctr + r.cid else []) + field;
    assert s[i..] == [r.recType] + r.ver + behind;
    assert s[i] == s[i..][0] && s[i + 1..i + 3] == s[i..][1..3];
    assert s[i + 3..] == behind;
    assert s[|s| - 2..] == behind[|behind| - 2..];
    if r.cid != [] {
      assert s[i + 3..i + 11] == behind[..8];
    }
  }

  /** The additional data bind the header: under one transform, two records with the
      same additional data have the same type, version and length, and before TLS 1.3
      the same counter. */
  lemma AddDataBinds(a: Rec, m: nat, b: Rec, n: nat, tls13: bool, tagLen: nat)
    requires |a.ctr| == |b.ctr| == 8 && |a.ver| == |b.ver| == 2 && a.cid == b.cid
    requires m + tagLen < 0x1_0000 && n + tagLen < 0x1_0000
    requires AddData(a, m, tls13, tagLen) == AddData(b, n, tls13, tagLen)
    ensures a.recType == b.recType && a.ver == b.ver && m == n && (!tls13 ==> a.ctr == b.ctr)
  {
    hide AddData, PutU16, U16At;
    var extra := if tls13 then tagLen else 0;
    U16RoundTrip(m + extra);
    U16RoundTrip(n + extra);
    AddDataParts(a, m, tls13, tagLen);
    AddDataParts(b, n, tls13, tagLen);
  }

  const NONCE_LEN: nat := 12

  /** (fixed_iv || 0) XOR (0 || dynamic_iv) */
  function Nonce(fixedIv: bytes, dynamicIv: bytes): (n: bytes)
    requires |fixedIv| <= NONCE_LEN && |dynamicIv| <= NONCE_LEN
    ensures |n| == NONCE_LEN
  {
    var base := fixedIv + Zeros(NONCE_LEN - |fixedIv|);
    var skip := NONCE_LEN - |dynamicIv|;
    seq(NONCE_LEN, i requires 0 <= i < NONCE_LEN => if i < skip then base[i] else XorByte(base[i], dynamicIv[i - skip]))
  }

  lemma {:induction false} XorZero(b: nat, width: nat)
    requires b < Pow2(width)
    ensures XorBits(0, b, width) == b
    decreases width
  {
    if width > 0 {
      XorZero(b / 2, width - 1);
    }
  }

  /** With 4 fixed bytes and 8 explicit ones the nonce is one behind the other, as in
      section 3 of RFC 5288. */
  lemma NonceTls12(fixedIv: bytes, explicitIv: bytes)
    requires |fixedIv| == 4 && |explicitIv| == 8
    ensures Nonce(fixedIv, explicitIv) == fixedIv + explicitIv
  {
    hide XorByte;
    forall i | 0 <= i < 8
      ensures XorByte(0, explicitIv[i]) == explicitIv[i]
    {
      XorByteZero(explicitIv[i]);
    }
  }

  lemma XorByteZero(b: byte)
    ensures XorByte(0, b) == b
  {
    assert Pow2(8) == 256;
    XorZero(b, 8);
  }

  /** With 12 fixed bytes the counter is XORed to the last 8 of them, as in section 5.3 of
      RFC 8446. */
  lemma NonceTls13(fixedIv: bytes, ctr: bytes)
    requires |fixedIv| == 12 && |ctr| == 8
    ensures Nonce(fixedIv, ctr)[..4] == fixedIv[..4]
    ensures forall i :: 0 <= i < 8 ==> Nonce(fixedIv, ctr)[4 + i] == XorByte(ctr[i], fixedIv[4 + i])
  {
    forall i | 0 <= i < 8
      ensures Nonce(fixedIv, ctr)[4 + i] == XorByte(ctr[i], fixedIv[4 + i])
    {
      XorCommutes(fixedIv[4 + i], ctr[i], 8);
    }
  }

  lemma {:induction false} XorCommutes(a: nat, b: nat, width: nat)
    ensures XorBits(a, b, width) == XorBits(b, a, width)
    decreases width
  {
    if width > 0 {
      XorCommutes(a / 2, b / 2, width - 1);
    }
  }

  /** No two counters give the same nonce. */
  lemma NonceInjective(fixedIv: bytes, a: bytes, b: bytes)
    requires |fixedIv| <= NONCE_LEN && |a| == |b| <= NONCE_LEN
    requires Nonce(fixedIv, a) == Nonce(fixedIv, b)
    ensures a == b
  {
    var base := fixedIv + Zeros(NONCE_LEN - |fixedIv|);
    var skip := NONCE_LEN - |a|;
    forall i | 0 <= i < |a|
      ensures a[i] == b[i]
    {
      assert Nonce(fixedIv, a)[skip + i] == Nonce(fixedIv, b)[skip + i];
      XorByteInjective(base[skip + i], a[i], b[i]);
    }
  }

  lemma XorByteInjective(a: byte, b: byte, c: byte)
    requires XorByte(a, b) == XorByte(a, c)
    ensures b == c
  {
    assert Pow2(8) == 256;
    XorInjective(a, b, c, 8);
  }

  predicate ExplicitIv(t: Cipher)
  {
    t.ivLen != t.fixedIvLen
  }

  // ---------- CBC padding

  function PadByte(len: nat): (p: nat)
    ensures p < BLOCK
  {
    var p := BLOCK - (len + 1) % BLOCK;
    if p == BLOCK then 0 else p
  }

  lemma PadByteFills(len: nat)
    ensures (len + PadByte(len) + 1) % BLOCK == 0
  {
  }

  function Repeat(b: byte, n: nat): (s: bytes)
    ensures |s| == n && forall i :: 0 <= i < n ==> s[i] == b
  {
    seq(n, _ => b)
  }

  function CbcPad(data: bytes): bytes
  {
    var p := PadByte(|data|);
    data + Repeat(p, p + 1)
  }

  /** The plain reading of section 6.2.3.2 of RFC 5246: the last byte says how many
      bytes before it repeat it, and they leave room for `extra` bytes. */
  predicate PaddingOk(s: bytes, extra: nat)
    requires s != []
  {
    var p := s[|s| - 1];
    |s| >= extra + p + 1 && forall i :: |s| - 1 - p <= i < |s| ==> s[i] == p
  }

  lemma CbcPadOk(data: bytes, extra: nat)
    requires extra <= |data|
    ensures var s := CbcPad(data);
      |s| % BLOCK == 0 && s != [] && PaddingOk(s, extra) && s[|s| - 1] as int == PadByte(|data|)
      && s[..|s| - 1 - PadByte(|data|)] == data
  {
    PadByteFills(|data|);
  }

  // ---------- Protecting a record

  function Mac(c: Primitives, t: Cipher, ad: bytes, s: bytes): bytes
    requires |t.macKey| <= c.block
  {
    HmacOf(c.hash, c.block, t.macKey, ad + s)
  }

  /** The content wrapped where the protocol hides its type, with the outer header. */
  function Wrap(t: Transform, r: Rec): Rec
  {
    var r1 := if t.cipher.tls13
      then r.(data := Inner(r.data, r.recType, PadLen(|r.data|, GRANULARITY)), recType := APPLICATION_DATA) else r;
    var r2 := r1.(cid := t.outCid);
    if t.outCid != []
      then r2.(data := Inner(r2.data, r2.recType, PadLen(|r2.data|, GRANULARITY)), recType := CID_TYPE) else r2
  }

  function Seal(c: Primitives, t: Cipher, r: Rec, iv: bytes): Rec
    requires CipherOk(t, c) && |r.ctr| == 8 && |iv| == t.ivLen
  {
    var ad := AddData(r, |r.data|, t.tls13, t.tagLen);
    match t.mode
    case Stream =>
      r.(data := r.data + Mac(c, t, ad, r.data))
    case Aead =>
      r.(data := (if ExplicitIv(t) then r.ctr else []) + c.aeadEncrypt(t.key, Nonce(t.fixedIv, r.ctr), ad, r.data))
    case Cbc =>
      r.(data := iv + c.cbcEncrypt(t.key, iv, CbcPad(r.data + Mac(c, t, ad, r.data))))
    case CbcEtm =>
      var s := iv + c.cbcEncrypt(t.key, iv, CbcPad(r.data));
      r.(data := s + Mac(c, t, AddData(r, |s|, t.tls13, t.tagLen), s))
  }

  function Protect(c: Primitives, t: Transform, r: Rec, iv: bytes): Rec
    requires CipherOk(t.cipher, c) && |r.ctr| == 8 && |iv| == t.cipher.ivLen
  {
    Seal(c, t.cipher, Wrap(t, r), iv)
  }

  /** What a cipher puts in front of the content. */
  function FrontLen(t: Cipher): nat
  {
    match t.mode
    case Stream => 0
    case Aead => if ExplicitIv(t) then 8 else 0
    case _ => t.ivLen
  }

  lemma SealLength(c: Primitives, t: Cipher, r: Rec, iv: bytes)
    requires Ideal(c, t) && |r.ctr| == 8 && |iv| == t.ivLen
    ensures |Seal(c, t, r, iv).data| == FrontLen(t) + match t.mode
      case Stream => |r.data| + t.macLen
      case Aead => |r.data| + t.tagLen
      case Cbc => |r.data| + t.macLen + PadByte(|r.data| + t.macLen) + 1
      case CbcEtm => |r.data| + PadByte(|r.data|) + 1 + t.macLen
  {
    hide AddData, Nonce, PadByte, HmacOf;
    if t.mode != Aead {
      MacLen(c, t);
    }
  }

  lemma MacLen(c: Primitives, t: Cipher)
    requires CipherOk(t, c) && t.mode != Aead
    ensures forall ad: bytes, s: bytes :: |Mac(c, t, ad, s)| == t.macLen
  {
  }

  // ---------- And taking it apart

  function OpenStream(c: Primitives, t: Cipher, r: Rec): Result<Rec>
    requires CipherOk(t, c) && t.mode == Stream
  {
    if |r.data| < t.macLen then Err(InvalidMac)
    else CheckMac(c, t, r, r.data, true)
  }

  /** Compare the MAC at the end of s; with `correct` false the answer is no anyway. */
  function CheckMac(c: Primitives, t: Cipher, r: Rec, s: bytes, correct: bool): Result<Rec>
    requires CipherOk(t, c) && t.mode != Aead && t.macLen <= |s|
  {
    var n := |s| - t.macLen;
    if correct && Mac(c, t, AddData(r, n, t.tls13, t.tagLen), s[..n]) == s[n..] then Ok(r.(data := s[..n]))
      else Err(InvalidMac)
  }

  function OpenAead(c: Primitives, t: Cipher, r: Rec): Result<Rec>
    requires CipherOk(t, c) && t.mode == Aead && |r.ctr| == 8
  {
    var skip := if ExplicitIv(t) then 8 else 0;
    if |r.data| < skip || |r.data| - skip < t.tagLen then Err(InvalidMac)
    else
      var dynamicIv := if ExplicitIv(t) then r.data[..8] else r.ctr;
      var n := |r.data| - skip - t.tagLen;
      match c.aeadDecrypt(t.key, Nonce(t.fixedIv, dynamicIv), AddData(r, n, t.tls13, t.tagLen), r.data[skip..])
      case None => Err(InvalidMac)
      case Some(p) => if |p| != n then Err(InternalError) else Ok(r.(data := p))
  }

  function OpenCbc(c: Primitives, t: Cipher, r: Rec): Result<Rec>
    requires Ideal(c, t) && (t.mode == Cbc || t.mode == CbcEtm)
  {
    if |r.data| < t.ivLen + t.ivLen || |r.data| < t.ivLen + t.macLen + 1 then Err(InvalidMac)
    else
      var n := if t.mode == CbcEtm then |r.data| - t.macLen else |r.data|;
      if t.mode == CbcEtm && Mac(c, t, AddData(r, n, t.tls13, t.tagLen), r.data[..n]) != r.data[n..]
      then Err(InvalidMac)
      else if n % BLOCK != 0 then Err(InvalidMac)
      else
        var plain := c.cbcDecrypt(t.key, r.data[..t.ivLen], r.data[t.ivLen..n]);
        assert |plain| == n - t.ivLen;
        OpenCbcPlain(c, t, r, plain)
  }

  /** The decrypted bytes: check the padding, then in Cbc mode the MAC. */
  function OpenCbcPlain(c: Primitives, t: Cipher, r: Rec, s: bytes): Result<Rec>
    requires CipherOk(t, c) && t.mode != Aead && s != [] && (t.mode == Cbc ==> |s| > t.macLen)
  {
    var extra := if t.mode == Cbc then t.macLen else 0;
    var ok := PaddingOk(s, extra);
    var s' := if ok then s[..|s| - 1 - s[|s| - 1]] else s;
    if t.mode == Cbc then CheckMac(c, t, r, s', ok)
    else if ok then Ok(r.(data := s')) else Err(InvalidMac)
  }

  function Open(c: Primitives, t: Cipher, r: Rec): Result<Rec>
    requires Ideal(c, t) && |r.ctr| == 8
  {
    match t.mode
    case Stream => OpenStream(c, t, r)
    case Aead => OpenAead(c, t, r)
    case _ => OpenCbc(c, t, r)
  }

  function UnwrapOnce(r: Rec): Result<Rec>
  {
    match ParseInner(r.data)
    case None => Err(InvalidRecord)
    case Some((content, recType)) => Ok(r.(data := content, recType := recType))
  }

  function Unwrap(t: Transform, r: Rec): Result<Rec>
  {
    var r1 := if t.cipher.tls13 then UnwrapOnce(r) else Ok(r);
    if r1.Ok? && r.cid != [] then UnwrapOnce(r1.value) else r1
  }

  function Unprotect(c: Primitives, t: Transform, r: Rec): Result<Rec>
    requires Ideal(c, t.cipher) && |r.ctr| == 8
  {
    if r.cid != t.inCid then Err(UnexpectedCid)
    else
      match Open(c, t.cipher, r)
      case Err(e) => Err(e)
      case Ok(r') => Unwrap(t, r')
  }

  // ---------- The round trip

  lemma OpenSealed(c: Primitives, t: Cipher, r: Rec, iv: bytes)
    requires Ideal(c, t) && |r.ctr| == 8 && |iv| == t.ivLen
    ensures Open(c, t, Seal(c, t, r, iv)) == Ok(r)
  {
    var s := Seal(c, t, r, iv);
    var ad := AddData(r, |r.data|, t.tls13, t.tagLen);
    match t.mode {
      case Stream =>
        assert s.data[..|r.data|] == r.data;
      case Aead =>
        var skip := if ExplicitIv(t) then 8 else 0;
        assert s.data[skip..] == c.aeadEncrypt(t.key, Nonce(t.fixedIv, r.ctr), ad, r.data);
      case _ =>
        OpenSealedCbc(c, t, r, iv);
    }
  }

  lemma OpenPaddedPlain(c: Primitives, t: Cipher, r: Rec)
    requires CipherOk(t, c) && (t.mode == Cbc || t.mode == CbcEtm)
    ensures var plain := PlainToPad(c, t, r);
      var s := CbcPad(plain);
      |s| % BLOCK == 0 && |s| > 0 && (t.mode == Cbc ==> |s| > t.macLen)
      && OpenCbcPlain(c, t, r, s) == Ok(r)
  {
    var plain := PlainToPad(c, t, r);
    CbcPadOk(plain, if t.mode == Cbc then t.macLen else 0);
    if t.mode == Cbc {
      assert plain[..|r.data|] == r.data &&
        plain[|r.data|..] == Mac(c, t, AddData(r, |r.data|, t.tls13, t.tagLen), r.data);
    }
  }

  /** What is padded and encrypted in the CBC modes. */
  function PlainToPad(c: Primitives, t: Cipher, r: Rec): bytes
    requires CipherOk(t, c) && t.mode != Aead
  {
    if t.mode == Cbc then r.data + Mac(c, t, AddData(r, |r.data|, t.tls13, t.tagLen), r.data) else r.data
  }

  lemma CheckMacSameHeader(c: Primitives, t: Cipher, r: Rec, r': Rec, s: bytes, correct: bool)
    requires CipherOk(t, c) && t.mode != Aead && t.macLen <= |s| && r' == r.(data := r'.data)
    ensures CheckMac(c, t, r', s, correct) == CheckMac(c, t, r, s, correct)
  {
    SameAddData(r, r', |s| - t.macLen, t);
  }

  /** The header fields alone decide the additional data. */
  lemma OpenPlainSameHeader(c: Primitives, t: Cipher, r: Rec, r': Rec, s: bytes)
    requires CipherOk(t, c) && t.mode != Aead && s != [] && (t.mode == Cbc ==> |s| > t.macLen)
    requires r' == r.(data := r'.data)
    ensures OpenCbcPlain(c, t, r', s) == OpenCbcPlain(c, t, r, s)
  {
  }

  lemma OpenSealedCbc(c: Primitives, t: Cipher, r: Rec, iv: bytes)
    requires Ideal(c, t) && (t.mode == Cbc || t.mode == CbcEtm) && |iv| == t.ivLen && |r.ctr| == 8
    ensures OpenCbc(c, t, Seal(c, t, r, iv)) == Ok(r)
  {
    var padded := CbcPad(PlainToPad(c, t, r));
    var sealed := Seal(c, t, r, iv);
    OpenPaddedPlain(c, t, r);
    OpenPlainSameHeader(c, t, r, sealed, padded);
    SealedCbcParts(c, t, r, iv);
    SameAddData(r, sealed, t.ivLen + |padded|, t);
    OpenCbcParts(c, t, sealed, iv, padded);
  }

  /** A record made of these parts is opened down to its plaintext. */
  lemma OpenCbcParts(c: Primitives, t: Cipher, r: Rec, iv: bytes, padded: bytes)
    requires Ideal(c, t) && (t.mode == Cbc || t.mode == CbcEtm)
    requires |padded| % BLOCK == 0 && |padded| > 0 && (t.mode == Cbc ==> |padded| > t.macLen)
    requires var n := t.ivLen + |padded|;
      && |r.data| == n + (if t.mode == CbcEtm then t.macLen else 0)
      && r.data[..t.ivLen] == iv && r.data[t.ivLen..n] == c.cbcEncrypt(t.key, iv, padded)
      && (t.mode == CbcEtm ==> r.data[n..] == Mac(c, t, AddData(r, n, t.tls13, t.tagLen), r.data[..n]))
    ensures OpenCbc(c, t, r) == OpenCbcPlain(c, t, r, padded)
  {
    hide PaddingOk, AddData;
  }

  lemma SameAddData(r: Rec, r': Rec, n: nat, t: Cipher)
    requires r' == r.(data := r'.data)
    ensures AddData(r', n, t.tls13, t.tagLen) == AddData(r, n, t.tls13, t.tagLen)
  {
  }

  lemma SealedCbcParts(c: Primitives, t: Cipher, r: Rec, iv: bytes)
    requires Ideal(c, t) && (t.mode == Cbc || t.mode == CbcEtm) && |iv| == t.ivLen && |r.ctr| == 8
    ensures var padded := CbcPad(PlainToPad(c, t, r));
      var (data, n) := (Seal(c, t, r, iv).data, t.ivLen + |padded|);
      && |data| == n + (if t.mode == CbcEtm then t.macLen else 0)
      && data[..t.ivLen] == iv && data[t.ivLen..n] == c.cbcEncrypt(t.key, iv, padded)
      && (t.mode == CbcEtm ==> data[n..] == Mac(c, t, AddData(r, n, t.tls13, t.tagLen), data[..n]))
  {
    var head := iv + c.cbcEncrypt(t.key, iv, CbcPad(PlainToPad(c, t, r)));
    var data := Seal(c, t, r, iv).data;
    assert data[..|head|] == head && data[|head|..] == data[|head|..];
    assert head[..t.ivLen] == iv;
  }

  lemma UnwrapWrapped(t: Transform, peer: Transform, r: Rec)
    requires peer.cipher.tls13 == t.cipher.tls13 && !(t.cipher.tls13 && t.outCid != [])
    ensures Unwrap(peer, Wrap(t, r)) == Ok(r.(cid := t.outCid)) <==>
      (t.cipher.tls13 || t.outCid != [] ==> r.recType != 0)
  {
    InnerRoundTrip(r.data, r.recType, PadLen(|r.data|, GRANULARITY));
  }

  /** What of a wrapped record shows: the type of a TLS 1.3 record or of one with a
      connection ID instead of its own, the ID, and a length that is a multiple of 16. */
  lemma WrapShows(t: Transform, r: Rec)
    ensures var w := Wrap(t, r);
      && w.ctr == r.ctr && w.ver == r.ver && w.cid == t.outCid
      && w.recType == (if t.outCid != [] then 25 else if t.cipher.tls13 then 23 else r.recType)
      && (t.cipher.tls13 || t.outCid != [] ==> |w.data| % 16 == 0 && |w.data| > |r.data|)
      && (!t.cipher.tls13 && t.outCid == [] ==> w.data == r.data)
      && (t.cipher.tls13 && t.outCid != [] ==> ParseInner(w.data).Some? && ParseInner(w.data).value.1 == 23)
  {
    hide Inner, PadLen, ParseInner;
    var inner := Inner(r.data, r.recType, PadLen(|r.data|, GRANULARITY));
    InnerAdds(r.data, r.recType);
    InnerAdds(inner, APPLICATION_DATA);
    ParseInnerBuilt(inner, APPLICATION_DATA, PadLen(|inner|, GRANULARITY));
  }

  lemma InnerAdds(content: bytes, recType: byte)
    ensures var n := |Inner(content, recType, PadLen(|content|, GRANULARITY))|; n % 16 == 0 && n > |content|
  {
    InnerIsPadded(content, recType);
  }

  /** Whatever the mode, what was protected with one end of a transform comes out at
      the other end unchanged, if and only if its type is not zero where it is hidden. */
  lemma RoundTrip(c: Primitives, t: Transform, peer: Transform, r: Rec, iv: bytes)
    requires Ideal(c, t.cipher) && |r.ctr| == 8 && |iv| == t.cipher.ivLen
    requires TransformOk(t) && peer == t.(inCid := t.outCid, outCid := t.inCid)
    ensures Unprotect(c, peer, Protect(c, t, r, iv)) == Ok(r.(cid := t.outCid))
      <==> (t.cipher.tls13 || t.outCid != [] ==> r.recType != 0)
  {
    OpenSealed(c, t.cipher, Wrap(t, r), iv);
    UnwrapWrapped(t, peer, r);
  }
}
