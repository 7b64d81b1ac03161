/** Encrypting and decrypting a record in place, in a buffer with room around it. */
module RecordProtection {
  import opened Bytes
  import opened Hmac
  import opened RecordFormat
  import opened RecordAcceptance
  import opened CbcPadding

  const SEQ_NUM_PLACEHOLDER: bytes := [0xff, 0xff, 0xff, 0xff, 0xff, 0xff, 0xff, 0xff]

  /** The length of the content once it is wrapped. */
  function WrappedLen(t: Transform, len: nat): nat
  {
    if t.cipher.tls13 || t.outCid != [] then len + 1 + PadLen(len, GRANULARITY) else len
  }

  /** Enough room in front of and behind a content of len bytes at offset off. */
  predicate SealRoom(t: Cipher, len: nat, off: nat, bufLen: nat)
  {
    match t.mode
    case Stream => off + len + t.macLen <= bufLen
    case Aead => off + len + t.tagLen <= bufLen && (ExplicitIv(t) ==> off >= 8)
    case Cbc => off + len + t.macLen + PadByte(len + t.macLen) + 1 <= bufLen && off >= t.ivLen
    case CbcEtm => off + len + PadByte(len) + 1 + t.macLen <= bufLen && off >= t.ivLen
  }

  function EncryptVerdict(t: Transform, cid: bytes, len: nat, off: nat, bufLen: nat): Option<Error>
  {
    if cid != [] then Some(InternalError)
    else if len > OUT_CONTENT_LEN then Some(BadInput)
    else if off + WrappedLen(t, len) <= bufLen && SealRoom(t.cipher, WrappedLen(t, len), off, bufLen) then None
    else Some(BufferTooSmall)
  }

  /** The verdict is no error exactly when there is no connection ID yet, the content is
      not too long, and the protected record fits into the buffer around the content. */
  lemma VerdictIffRoom(c: Primitives, t: Transform, r: Rec, iv: bytes, off: nat, bufLen: nat)
    requires Ideal(c, t.cipher) && TransformOk(t) && |r.ctr| == 8 && |iv| == t.cipher.ivLen
    ensures var size := |Protect(c, t, r, iv).data|;
      EncryptVerdict(t, r.cid, |r.data|, off, bufLen) == None <==>
        && r.cid == [] && |r.data| <= OUT_CONTENT_LEN
        && FrontLen(t.cipher) <= off && off - FrontLen(t.cipher) + size <= bufLen
    ensures EncryptVerdict(t, r.cid, |r.data|, off, bufLen) == Some(InternalError) <==> r.cid != []
    ensures EncryptVerdict(t, r.cid, |r.data|, off, bufLen) == Some(BadInput) <==>
      r.cid == [] && |r.data| > OUT_CONTENT_LEN
  {
    hide Seal, PadLen;
    assert |Wrap(t, r).data| == WrappedLen(t, |r.data|);
    SealLength(c, t.cipher, Wrap(t, r), iv);
  }

  class RecordBuf {
    var buf: array<byte>
    var dataOffset: nat
    var dataLen: nat
    var recType: byte
    var cid: bytes
    const ctr: bytes
    const ver: bytes

    ghost predicate Valid()
      reads this
    {
      dataOffset + dataLen <= buf.Length && |ctr| == 8 && |ver| == 2
    }

    ghost function Data(): bytes
      requires Valid()
      reads this, buf
    {
      buf[dataOffset..dataOffset + dataLen]
    }

    ghost function View(): Rec
      requires Valid()
      reads this, buf
    {
      Rec(ctr, recType, ver, cid, Data())
    }

    constructor (buf: array<byte>, dataOffset: nat, dataLen: nat, ctr: bytes, recType: byte, ver: bytes, cid: bytes)
      requires dataOffset + dataLen <= buf.Length && |ctr| == 8 && |ver| == 2
      ensures Valid() && View() == Rec(ctr, recType, ver, cid, buf[dataOffset..dataOffset + dataLen])
      ensures this.buf == buf && this.dataOffset == dataOffset && this.dataLen == dataLen
    {
      this.buf, this.dataOffset, this.dataLen := buf, dataOffset, dataLen;
      this.ctr, this.recType, this.ver, this.cid := ctr, recType, ver, cid;
    }

    /** The room behind the content. */
    function PostAvail(): nat
      requires Valid()
      reads this
    {
      buf.Length - (dataLen + dataOffset)
    }

    // ---------- Writing next to the content and over it

    method Append(s: bytes)
      requires Valid() && |s| <= PostAvail()
      modifies this`dataLen, buf
      ensures Valid() && Data() == old(Data()) + s && dataLen == old(dataLen) + |s|
    {
      forall i | 0 <= i < |s| {
        buf[dataOffset + dataLen + i] := s[i];
      }
      dataLen := dataLen + |s|;
    }

    method Prepend(s: bytes)
      requires Valid() && |s| <= dataOffset
      modifies this`dataLen, this`dataOffset, buf
      ensures Valid() && Data() == s + old(Data()) && dataLen == old(dataLen) + |s| &&
        dataOffset == old(dataOffset) - |s|
    {
      forall i | 0 <= i < |s| {
        buf[dataOffset - |s| + i] := s[i];
      }
      dataOffset, dataLen := dataOffset - |s|, dataLen + |s|;
    }

    method Replace(s: bytes)
      requires Valid() && dataOffset + |s| <= buf.Length
      modifies this`dataLen, buf
      ensures Valid() && Data() == s && dataLen == |s|
    {
      forall i | 0 <= i < |s| {
        buf[dataOffset + i] := s[i];
      }
      dataLen := |s|;
    }

    method Skip(n: nat)
      requires Valid() && n <= dataLen
      modifies this`dataLen, this`dataOffset
      ensures Valid() && Data() == old(Data())[n..] && dataLen == old(dataLen) - n
    {
      dataOffset, dataLen := dataOffset + n, dataLen - n;
    }

    method Trim(n: nat)
      requires Valid() && n <= dataLen
      modifies this`dataLen
      ensures Valid() && Data() == old(Data())[..old(dataLen) - n] && dataLen == old(dataLen) - n
    {
      dataLen := dataLen - n;
    }

    // ---------- Inner plaintext

    /** ssl_build_inner_plaintext */
    method BuildInner(pad: nat, outerType: byte) returns (ok: bool)
      requires Valid()
      modifies this`dataLen, this`recType, buf
      ensures Valid() && ok == (1 + pad <= old(PostAvail()))
      ensures ok ==> Data() == Inner(old(Data()), old(recType), pad)
      ensures ok ==> recType == outerType && dataLen == old(dataLen) + 1 + pad
    {
      if PostAvail() == 0 {
        return false;
      }
      Append([recType]);
      if PostAvail() < pad {
        return false;
      }
      Append(Zeros(pad));
      recType := outerType;
      return true;
    }

    /** ssl_parse_inner_plaintext */
    method ParseInnerPlaintext() returns (ok: bool)
      requires Valid()
      modifies this`dataLen, this`recType
      ensures Valid() && ok == ParseInner(old(Data())).Some?
      ensures ok ==> (Data(), recType) == ParseInner(old(Data())).value
    {
      var remaining := dataLen;
      while true
        invariant 0 <= remaining <= dataLen
        invariant ParseInner(Data()) == ParseInner(buf[dataOffset..dataOffset + remaining])
        decreases remaining
      {
        if remaining == 0 {
          return false;
        }
        remaining := remaining - 1;
        assert buf[dataOffset..dataOffset + remaining + 1][..remaining] == buf[dataOffset..dataOffset + remaining];
        if buf[dataOffset + remaining] != 0 {
          break;
        }
      }
      dataLen := remaining;
      recType := buf[dataOffset + remaining];
      return true;
    }

    /** ssl_extract_add_data_from_record, for a content of dataLen bytes */
    method ExtractAddData(tls13: bool, tagLen: nat) returns (addData: bytes)
      requires Valid()
      ensures addData == AddData(View(), dataLen, tls13, tagLen)
    {
      addData := [];
      var adLenField := dataLen;
      if tls13 {
        adLenField := adLenField + tagLen;
      } else if cid != [] {
        addData := addData + SEQ_NUM_PLACEHOLDER;
        var cidLen: byte := |cid| % 256;
        addData := addData + [recType, cidLen];
      } else {
        addData := addData + ctr;
      }
      addData := addData + [recType];
      addData := addData + ver;
      if cid != [] {
        addData := addData + ctr;
        addData := addData + cid;
      }
      addData := addData + PutU16(adLenField);
    }

    // ---------- mbedtls_ssl_encrypt_buf

    method EncryptBuf(c: Primitives, t: Transform, iv: bytes) returns (err: Option<Error>)
      requires Valid() && Ideal(c, t.cipher) && TransformOk(t) && |iv| == t.cipher.ivLen
      modifies this, buf
      ensures Valid() && buf == old(buf)
      ensures err == EncryptVerdict(t, old(cid), old(dataLen), old(dataOffset), buf.Length)
      ensures err == None ==> View() == Protect(c, t, old(View()), iv)
    {
      hide Seal, Wrap, SealRoom, WrappedLen, Ideal;
      if cid != [] {
        return Some(InternalError);
      }
      if dataLen > OUT_CONTENT_LEN {
        return Some(BadInput);
      }
      err := WrapInner(t);
      if err == None {
        err := SealBuf(c, t.cipher, iv);
      }
    }

    method WrapInner(t: Transform) returns (err: Option<Error>)
      requires Valid() && TransformOk(t)
      modifies this, buf
      ensures Valid() && buf == old(buf) && dataOffset == old(dataOffset)
      ensures err == None <==> dataOffset + WrappedLen(t, old(dataLen)) <= buf.Length
      ensures err == None || err == Some(BufferTooSmall)
      ensures err == None ==> View() == Wrap(t, old(View())) && dataLen == WrappedLen(t, old(dataLen))
    {
      var ok := true;
      if t.cipher.tls13 {
        ok := BuildInner(PadLen(dataLen, GRANULARITY), APPLICATION_DATA);
      }
      cid := t.outCid;
      if ok && cid != [] {
        ok := BuildInner(PadLen(dataLen, GRANULARITY), CID_TYPE);
      }
      err := if ok then None else Some(BufferTooSmall);
    }

    method SealBuf(c: Primitives, t: Cipher, iv: bytes) returns (err: Option<Error>)
      requires Valid() && Ideal(c, t) && |iv| == t.ivLen
      modifies this`dataLen, this`dataOffset, buf
      ensures Valid()
      ensures err == if SealRoom(t, old(dataLen), old(dataOffset), buf.Length) then None else Some(BufferTooSmall)
      ensures err == None ==> View() == Seal(c, t, old(View()), iv)
    {
      hide AddData, HmacOf, CbcPad;
      var ok := true;
      if t.mode == Aead {
        ok := SealAead(c, t, iv);
      } else if t.mode == CbcEtm {
        ok := SealEtm(c, t, iv);
      } else {
        ok := SealMac(c, t, iv);
      }
      err := if ok then None else Some(BufferTooSmall);
    }

    method SealMac(c: Primitives, t: Cipher, iv: bytes) returns (ok: bool)
      requires Valid() && Ideal(c, t) && |iv| == t.ivLen && (t.mode == Stream || t.mode == Cbc)
      modifies this`dataLen, this`dataOffset, buf
      ensures Valid() && ok == SealRoom(t, old(dataLen), old(dataOffset), buf.Length)
      ensures ok ==> View() == Seal(c, t, old(View()), iv)
    {
      hide AddData, HmacOf, CbcPad;
      ok := AppendMac(c, t);
      if ok && t.mode == Cbc {
        ok := SealCbc(c, t, iv);
      }
    }

    method SealEtm(c: Primitives, t: Cipher, iv: bytes) returns (ok: bool)
      requires Valid() && Ideal(c, t) && |iv| == t.ivLen && t.mode == CbcEtm
      modifies this`dataLen, this`dataOffset, buf
      ensures Valid() && ok == SealRoom(t, old(dataLen), old(dataOffset), buf.Length)
      ensures ok ==> View() == Seal(c, t, old(View()), iv)
    {
      hide AddData, HmacOf, CbcPad;
      ok := SealCbc(c, t, iv);
      if ok {
        SameAddData(old(View()), View(), dataLen, t);
        ok := AppendMac(c, t);
      }
    }

    /** The MAC over the additional data and the content, behind the content. */
    method AppendMac(c: Primitives, t: Cipher) returns (ok: bool)
      requires Valid() && CipherOk(t, c) && t.mode != Aead
      modifies this`dataLen, buf
      ensures Valid() && ok == (t.macLen <= old(PostAvail()))
      ensures ok ==>
        Data() == old(Data()) + Mac(c, t, AddData(old(View()), old(dataLen), t.tls13, t.tagLen), old(Data()))
      ensures ok ==> dataLen == old(dataLen) + t.macLen
    {
      ok := PostAvail() >= t.macLen;
      if ok {
        var addData := ExtractAddData(t.tls13, t.tagLen);
        Append(HmacOf(c.hash, c.block, t.macKey, addData + buf[dataOffset..dataOffset + dataLen]));
      }
    }

    method SealAead(c: Primitives, t: Cipher, ghost iv: bytes) returns (ok: bool)
      requires Valid() && Ideal(c, t) && t.mode == Aead && |iv| == t.ivLen
      modifies this`dataLen, this`dataOffset, buf
      ensures Valid() && ok == (t.tagLen <= old(PostAvail()) && (ExplicitIv(t) ==> 8 <= old(dataOffset)))
      ensures ok ==> View() == Seal(c, t, old(View()), iv)
    {
      hide AddData, Nonce, HmacOf, CbcPad;
      ok := PostAvail() >= t.tagLen;
      if ok {
        var nonce := BuildNonce(t.fixedIv, ctr);
        var addData := ExtractAddData(t.tls13, t.tagLen);
        Replace(c.aeadEncrypt(t.key, nonce, addData, buf[dataOffset..dataOffset + dataLen]));
        if ExplicitIv(t) {
          ok := dataOffset >= 8;
          if ok {
            Prepend(ctr);
          }
        }
      }
    }

    /** Pad, encrypt, and put the IV in front. */
    method SealCbc(c: Primitives, t: Cipher, iv: bytes) returns (ok: bool)
      requires Valid() && Ideal(c, t) && (t.mode == Cbc || t.mode == CbcEtm) && |iv| == t.ivLen
      modifies this`dataLen, this`dataOffset, buf
      ensures Valid() && ok == (PadByte(old(dataLen)) + 1 <= old(PostAvail()) && t.ivLen <= old(dataOffset))
      ensures ok ==> Data() == iv + c.cbcEncrypt(t.key, iv, CbcPad(old(Data())))
      ensures ok ==> dataOffset == old(dataOffset) - t.ivLen
      ensures ok ==> dataLen == old(dataLen) + PadByte(old(dataLen)) + 1 + t.ivLen
    {
      var padlen := BLOCK - (dataLen + 1) % BLOCK;
      if padlen == BLOCK {
        padlen := 0;
      }
      ok := PostAvail() >= padlen + 1;
      if ok {
        Append(Repeat(padlen, padlen + 1));
        ok := dataOffset >= t.ivLen;
        if ok {
          Replace(c.cbcEncrypt(t.key, iv, buf[dataOffset..dataOffset + dataLen]));
          Prepend(iv);
        }
      }
    }

    // ---------- mbedtls_ssl_decrypt_buf

    method DecryptBuf(c: Primitives, t: Transform) returns (err: Option<Error>)
      requires Valid() && Ideal(c, t.cipher)
      modifies this, buf
      ensures Valid() && buf == old(buf)
      ensures match Unprotect(c, t, old(View()))
        case Ok(r) => err == None && View() == r
        case Err(e) => err == Some(e)
      ensures err == None ==> StandsFor(c, t, old(View()), View())
      ensures forall p: Rec :: StandsFor(c, t, old(View()), p) ==> err == None && View() == p
    {
      hide Open, Unwrap, StandsFor;
      ghost var r := View();
      forall p: Rec
        ensures Unprotect(c, t, r) == Ok(p) <==> StandsFor(c, t, r, p)
      {
        UnprotectIff(c, t, r, p);
      }
      if cid != t.inCid {
        return Some(UnexpectedCid);
      }
      err := OpenBuf(c, t.cipher);
      if err == None {
        err := UnwrapInner(t);
      }
    }

    method OpenBuf(c: Primitives, t: Cipher) returns (err: Option<Error>)
      requires Valid() && Ideal(c, t)
      modifies this`dataLen, this`dataOffset, buf
      ensures Valid()
      ensures match Open(c, t, old(View()))
        case Ok(r) => err == None && View() == r
        case Err(e) => err == Some(e)
    {
      hide OpenStream, OpenAead, OpenCbc;
      match t.mode {
        case Stream => err := DecryptStream(c, t);
        case Aead => err := DecryptAead(c, t);
        case _ => err := DecryptCbc(c, t);
      }
    }

    method UnwrapInner(t: Transform) returns (err: Option<Error>)
      requires Valid()
      modifies this`dataLen, this`recType
      ensures Valid()
      ensures match Unwrap(t, old(View()))
        case Ok(r) => err == None && View() == r
        case Err(e) => err == Some(e)
    {
      hide ParseInner;
      var ok := true;
      if t.cipher.tls13 {
        ok := ParseInnerPlaintext();
      }
      if ok && cid != [] {
        ok := ParseInnerPlaintext();
      }
      err := if ok then None else Some(InvalidRecord);
    }

    method DecryptStream(c: Primitives, t: Cipher) returns (err: Option<Error>)
      requires Valid() && CipherOk(t, c) && t.mode == Stream
      modifies this`dataLen
      ensures Valid()
      ensures match OpenStream(c, t, old(View()))
        case Ok(r) => err == None && View() == r
        case Err(e) => err == Some(e)
    {
      if dataLen < t.macLen {
        return Some(InvalidMac);
      }
      err := VerifyMac(c, t, true, 0);
    }

    /** Authenticate what was not authenticated before decryption. `padlen` bytes of
        padding were stripped; the time must not depend on it. */
    method VerifyMac(c: Primitives, t: Cipher, correct0: bool, padlen: nat) returns (err: Option<Error>)
      requires Valid() && CipherOk(t, c) && t.mode != Aead
      requires t.macLen <= dataLen && padlen <= 256 && dataOffset + dataLen + padlen <= buf.Length
      modifies this`dataLen
      ensures Valid()
      ensures match CheckMac(c, t, old(View()), old(Data()), correct0)
        case Ok(r) => err == None && View() == r
        case Err(e) => err == Some(e)
      ensures err == None <==> correct0 && old(Data()) == Data() + MacFor(c, t, View(), Data())
    {
      hide AddData, Mac, PaddingOk, MacFor, CipherOk;
      var correct := correct0;
      ghost var s := Data();
      CheckMacIff(c, t, View(), s, correct0, View().(data := s[..|s| - t.macLen]));
      dataLen := dataLen - t.macLen;
      assert Data() == s[..dataLen] && View() == old(View()).(data := s[..dataLen]);
      SameAddData(old(View()), View(), dataLen, t);
      var same := CompareMac(c, t, padlen);
      assert buf[dataOffset + dataLen..dataOffset + dataLen + t.macLen] == s[dataLen..];
      if !same {
        correct := false;
      }
      err := if correct then None else Some(InvalidMac);
    }

    /** Is the MAC behind the content the right one? */
    method CompareMac(c: Primitives, t: Cipher, padlen: nat) returns (same: bool)
      requires Valid() && CipherOk(t, c) && t.mode != Aead && padlen <= 256
      requires dataOffset + dataLen + padlen <= buf.Length && dataOffset + dataLen + t.macLen <= buf.Length
      ensures var mac := buf[dataOffset + dataLen..dataOffset + dataLen + t.macLen];
        same == (mac == Mac(c, t, AddData(View(), dataLen, t.tls13, t.tagLen), Data()))
    {
      hide AddData, HmacOf;
      var addData := ExtractAddData(t.tls13, t.tagLen);
      var maxLen := dataLen + padlen;
      var minLen := if maxLen > 256 then maxLen - 256 else 0;
      var macExpect := CtHmac(c.hash, c.block, t.macKey, addData, buf, dataOffset, dataLen, minLen, maxLen);
      var macPeer := buf[dataOffset + dataLen..dataOffset + dataLen + t.macLen];
      same := macPeer == macExpect;
    }

    method DecryptAead(c: Primitives, t: Cipher) returns (err: Option<Error>)
      requires Valid() && Ideal(c, t) && t.mode == Aead
      modifies this`dataLen, this`dataOffset, buf
      ensures Valid()
      ensures match OpenAead(c, t, old(View()))
        case Ok(r) => err == None && View() == r
        case Err(e) => err == Some(e)
    {
      hide AddData, HmacOf, PaddingOk, Nonce, Ideal;
      err := Some(InvalidMac);
      var short, dynamicIv := TakeDynamicIv(t);
      SameAddData(old(View()), View(), if dataLen >= t.tagLen then dataLen - t.tagLen else 0, t);
      if !short && dataLen >= t.tagLen {
        err := OpenAeadPart(c, t, dynamicIv);
      }
    }

    /** The dynamic part of the nonce, taken off the front of the content if it is there. */
    method TakeDynamicIv(t: Cipher) returns (short: bool, dynamicIv: bytes)
      requires Valid()
      modifies this`dataLen, this`dataOffset
      ensures Valid() && short == (ExplicitIv(t) && old(dataLen) < 8) && |dynamicIv| == 8
      ensures !short ==> dynamicIv == if ExplicitIv(t) then old(Data())[..8] else ctr
      ensures !short ==> Data() == old(Data())[if ExplicitIv(t) then 8 else 0..]
    {
      short, dynamicIv := false, ctr;
      if ExplicitIv(t) {
        short := dataLen < 8;
        if !short {
          dynamicIv := buf[dataOffset..dataOffset + 8];
          Skip(8);
        }
      }
    }

    method OpenAeadPart(c: Primitives, t: Cipher, dynamicIv: bytes) returns (err: Option<Error>)
      requires Valid() && Ideal(c, t) && t.mode == Aead && |dynamicIv| == 8 && t.tagLen <= dataLen
      modifies this`dataLen, this`dataOffset, buf
      ensures Valid()
      ensures var n := old(dataLen) - t.tagLen;
        match c.aeadDecrypt(t.key, Nonce(t.fixedIv, dynamicIv), AddData(old(View()), n, t.tls13, t.tagLen), old(Data()))
        case None => err == Some(InvalidMac)
        case Some(p) =>
          if |p| == n then err == None && View() == old(View()).(data := p) else err == Some(InternalError)
    {
      hide AddData, Nonce;
      var sealed := buf[dataOffset..dataOffset + dataLen];
      Trim(t.tagLen);
      var iv := BuildNonce(t.fixedIv, dynamicIv);
      var addData := ExtractAddData(t.tls13, t.tagLen);
      SameAddData(old(View()), View(), dataLen, t);
      var plain := c.aeadDecrypt(t.key, iv, addData, sealed);
      if plain == None {
        err := Some(InvalidMac);
      } else if |plain.value| != dataLen {
        err := Some(InternalError);
      } else {
        Replace(plain.value);
        err := None;
      }
    }

    method DecryptCbc(c: Primitives, t: Cipher) returns (err: Option<Error>)
      requires Valid() && Ideal(c, t) && (t.mode == Cbc || t.mode == CbcEtm)
      modifies this`dataLen, this`dataOffset, buf
      ensures Valid()
      ensures match OpenCbc(c, t, old(View()))
        case Ok(r) => err == None && View() == r
        case Err(e) => err == Some(e)
    {
      hide AddData, HmacOf, PaddingOk, OpenCbcPlain;
      ghost var data := Data();
      if dataLen < t.ivLen + t.ivLen || dataLen < t.ivLen + t.macLen + 1 {
        return Some(InvalidMac);
      }
      if t.mode == CbcEtm {
        var ok := VerifyEtm(c, t);
        if !ok {
          return Some(InvalidMac);
        }
      }
      if dataLen % BLOCK != 0 {
        return Some(InvalidMac);
      }
      assert Data() == data[..dataLen];
      OpenPlainSameHeader(c, t, old(View()), View(), c.cbcDecrypt(t.key, data[..t.ivLen], data[t.ivLen..dataLen]));
      assert Data()[..t.ivLen] == data[..t.ivLen] && Data()[t.ivLen..] == data[t.ivLen..dataLen];
      err := DecryptBlocks(c, t);
    }

    /** Whole blocks behind the IV: decrypt them, check and strip the padding and the MAC. */
    method DecryptBlocks(c: Primitives, t: Cipher) returns (err: Option<Error>)
      requires Valid() && Ideal(c, t) && (t.mode == Cbc || t.mode == CbcEtm)
      requires t.ivLen < dataLen && (t.mode == Cbc ==> t.ivLen + t.macLen < dataLen)
      modifies this`dataLen, this`dataOffset, buf
      ensures Valid()
      ensures match OpenCbcPlain(c, t, old(View()), c.cbcDecrypt(t.key, old(Data())[..t.ivLen], old(Data())[t.ivLen..]))
        case Ok(r) => err == None && View() == r
        case Err(e) => err == Some(e)
    {
      hide AddData, HmacOf, PaddingOk, OpenCbcPlain;
      var iv := buf[dataOffset..dataOffset + t.ivLen];
      assert iv == Data()[..t.ivLen];
      Skip(t.ivLen);
      var plain := c.cbcDecrypt(t.key, iv, buf[dataOffset..dataOffset + dataLen]);
      Replace(plain);
      OpenPlainSameHeader(c, t, old(View()), View(), Data());
      err := StripPadding(c, t);
    }

    /** Encrypt-then-MAC: authenticate the IV and the ciphertext, and take the MAC off. */
    method VerifyEtm(c: Primitives, t: Cipher) returns (ok: bool)
      requires Valid() && CipherOk(t, c) && t.mode == CbcEtm && t.macLen <= dataLen
      modifies this`dataLen
      ensures Valid() && dataLen == old(dataLen) - t.macLen && Data() == old(Data())[..dataLen]
      ensures ok == (Mac(c, t, AddData(old(View()), dataLen, t.tls13, t.tagLen), old(Data())[..dataLen]) ==
        old(Data())[dataLen..])
    {
      hide AddData, HmacOf;
      ghost var data := Data();
      var macPeer := buf[dataOffset + dataLen - t.macLen..dataOffset + dataLen];
      Trim(t.macLen);
      assert macPeer == data[dataLen..];
      var addData := ExtractAddData(t.tls13, t.tagLen);
      SameAddData(old(View()), View(), dataLen, t);
      ok := macPeer == HmacOf(c.hash, c.block, t.macKey, addData + buf[dataOffset..dataOffset + dataLen]);
    }

    /** Check and strip the padding, then check the MAC unless that was done before. */
    method StripPadding(c: Primitives, t: Cipher) returns (err: Option<Error>)
      requires Valid() && CipherOk(t, c) && (t.mode == Cbc || t.mode == CbcEtm)
      requires dataLen > 0 && (t.mode == Cbc ==> dataLen > t.macLen)
      modifies this`dataLen
      ensures Valid()
      ensures match OpenCbcPlain(c, t, old(View()), old(Data()))
        case Ok(r) => err == None && View() == r
        case Err(e) => err == Some(e)
    {
      hide AddData, HmacOf, CheckMac, Ideal, PaddingOk;
      ghost var r := View();
      var correct, padlen := TrimPadding(if t.mode == Cbc then t.macLen else 0);
      if t.mode == Cbc {
        CheckMacSameHeader(c, t, r, View(), Data(), correct);
        err := VerifyMac(c, t, correct, padlen);
      } else {
        err := if correct then None else Some(InvalidMac);
      }
    }

    method TrimPadding(extra: nat) returns (correct: bool, padlen: nat)
      requires Valid() && dataLen > extra
      modifies this`dataLen
      ensures Valid() && correct == PaddingOk(old(Data()), extra) && padlen <= 256
      ensures dataLen + padlen == old(dataLen) && extra <= dataLen
      ensures var s := old(Data());
        View() == old(View()).(data := if correct then s[..|s| - 1 - s[|s| - 1]] else s)
    {
      correct, padlen := CheckPadding(buf, dataOffset, dataLen, extra);
      Trim(padlen);
    }
  }

  /** ssl_build_record_nonce */
  method BuildNonce(fixedIv: bytes, dynamicIv: bytes) returns (iv: bytes)
    requires |fixedIv| <= NONCE_LEN && |dynamicIv| <= NONCE_LEN
    ensures iv == Nonce(fixedIv, dynamicIv)
  {
    hide XorByte;
    var dst := new byte[NONCE_LEN](_ => 0);
    forall i | 0 <= i < |fixedIv| {
      dst[i] := fixedIv[i];
    }
    var skip := NONCE_LEN - |dynamicIv|;
    ghost var base := dst[..];
    var i := 0;
    while i < |dynamicIv|
      invariant 0 <= i <= |dynamicIv|
      invariant forall j :: 0 <= j < NONCE_LEN ==>
        dst[j] == if skip <= j < skip + i then XorByte(base[j], dynamicIv[j - skip]) else base[j]
    {
      dst[skip + i] := XorByte(dst[skip + i], dynamicIv[i]);
      i := i + 1;
    }
    assert base == fixedIv + Zeros(NONCE_LEN - |fixedIv|);
    iv := dst[..];
  }
}
