/** How much payload still fits into the datagram that is being put together, and why
    the record it becomes fits too. */
module DatagramBudget {
  import opened Bytes
  import opened RecordFormat

  const DTLS_HDR: nat := 13

  /** mbedtls_ssl_out_hdr_len: the record header with the connection ID. */
  function HdrLen(t: Option<Transform>): nat
  {
    DTLS_HDR + if t.Some? then |t.value.outCid| else 0
  }

  /** transform->minlen as it is set up when the keys are derived: the explicit IV and
      the tag, or the MAC for the NULL cipher. */
  function MinLen(t: Cipher): nat
  {
    if t.mode == Aead then (if ExplicitIv(t) then 8 else 0) + t.tagLen else t.macLen
  }

  /** mbedtls_ssl_get_record_expansion */
  function RecordExpansion(t: Option<Transform>): nat
  {
    if t == None then DTLS_HDR
    else
      var cipher := t.value.cipher;
      HdrLen(t)
      + (if cipher.mode == Aead || cipher.mode == Stream then MinLen(cipher) else cipher.macLen + BLOCK + BLOCK)
      + (if t.value.outCid != [] then GRANULARITY else 0)
  }

  /** ssl_get_remaining_payload_in_datagram, with outLeft bytes already in a datagram
      of at most `mtu` bytes and records of at most maxLen bytes of content. None is
      the internal error for a datagram that is already too long. */
  function RemainingPayload(outLeft: nat, mtu: nat, maxLen: nat, expansion: nat): Option<nat>
  {
    if maxLen <= outLeft then Some(0)
    else if outLeft > mtu then None
    else if mtu - outLeft <= expansion then Some(0)
    else Some(Min(mtu - outLeft - expansion, maxLen - outLeft))
  }

  /** The record on the wire. */
  function RecordSize(c: Primitives, t: Option<Transform>, r: Rec, iv: bytes): nat
    requires |r.ctr| == 8
    requires t.Some? ==> CipherOk(t.value.cipher, c) && |iv| == t.value.cipher.ivLen
  {
    HdrLen(t) + if t.Some? then |Protect(c, t.value, r, iv).data| else |r.data|
  }

  lemma WrapAdds(t: Transform, r: Rec)
    requires !t.cipher.tls13
    ensures |r.data| <= |Wrap(t, r).data| <= |r.data| + if t.outCid != [] then GRANULARITY else 0
  {
  }

  lemma SealAdds(c: Primitives, t: Cipher, r: Rec, iv: bytes)
    requires Ideal(c, t) && |r.ctr| == 8 && |iv| == t.ivLen
    ensures |r.data| <= |Seal(c, t, r, iv).data|
      <= |r.data| + if t.mode == Aead || t.mode == Stream then MinLen(t) else t.macLen + BLOCK + BLOCK
  {
    hide Seal;
    SealLength(c, t, r, iv);
  }

  /** In DTLS 1.2 the estimate of the expansion is an upper bound. */
  lemma ExpansionBounds(c: Primitives, t: Option<Transform>, r: Rec, iv: bytes)
    requires |r.ctr| == 8
    requires t.Some? ==> Ideal(c, t.value.cipher) && !t.value.cipher.tls13 && |iv| == t.value.cipher.ivLen
    ensures |r.data| + DTLS_HDR <= RecordSize(c, t, r, iv) <= |r.data| + RecordExpansion(t)
  {
    if t.Some? {
      WrapAdds(t.value, r);
      SealAdds(c, t.value.cipher, Wrap(t.value, r), iv);
    }
  }

  /** With a connection ID the content is wrapped to whole blocks, which a MAC that is not
      whole blocks long leaves no full block of padding. */
  predicate NeverFull(t: Option<Transform>)
  {
    t.Some? && t.value.cipher.mode == Cbc && t.value.outCid != [] && t.value.cipher.macLen % BLOCK != 0
  }

  /** And it is no more than needed: there is a content for which it is exact, in every mode
      but for the ones in which padding and connection ID keep each other from it. */
  lemma ExpansionTight(c: Primitives, t: Option<Transform>, r: Rec, iv: bytes)
    requires |r.ctr| == 8
    requires t.Some? ==> Ideal(c, t.value.cipher) && !t.value.cipher.tls13 && |iv| == t.value.cipher.ivLen
    ensures (exists len: nat :: RecordSize(c, t, r.(data := Zeros(len)), iv) == len + RecordExpansion(t)) <==>
      !NeverFull(t)
  {
    hide AddData, Nonce, Mac, RecordSize, RecordExpansion;
    if NeverFull(t) {
      forall len: nat
        ensures RecordSize(c, t, r.(data := Zeros(len)), iv) != len + RecordExpansion(t)
      {
        NotExact(c, t.value, r.(data := Zeros(len)), iv);
      }
    } else {
      var len: nat := 0;
      if t.Some? && t.value.cipher.mode == Cbc {
        len := (BLOCK - t.value.cipher.macLen % BLOCK) % BLOCK;
      }
      ExactAt(c, t, r.(data := Zeros(len)), iv);
      assert RecordSize(c, t, r.(data := Zeros(len)), iv) == len + RecordExpansion(t);
    }
  }

  lemma ExactAt(c: Primitives, t: Option<Transform>, r: Rec, iv: bytes)
    requires |r.ctr| == 8
    requires t.Some? ==> Ideal(c, t.value.cipher) && !t.value.cipher.tls13 && |iv| == t.value.cipher.ivLen
    requires t.Some? && t.value.cipher.mode == Cbc ==> (|r.data| + t.value.cipher.macLen) % BLOCK == 0
    requires t.Some? && t.value.cipher.mode == CbcEtm ==> |r.data| % BLOCK == 0
    requires t.Some? && t.value.outCid != [] ==> |r.data| % GRANULARITY == 0
    ensures RecordSize(c, t, r, iv) == |r.data| + RecordExpansion(t)
  {
    if t.Some? {
      WrapExact(t.value, r);
      SealExact(c, t.value.cipher, Wrap(t.value, r), iv);
    }
  }

  lemma NotExact(c: Primitives, t: Transform, r: Rec, iv: bytes)
    requires |r.ctr| == 8 && Ideal(c, t.cipher) && !t.cipher.tls13 && |iv| == t.cipher.ivLen && NeverFull(Some(t))
    ensures RecordSize(c, Some(t), r, iv) < |r.data| + RecordExpansion(Some(t))
  {
    hide Wrap, Seal, PadByte;
    var w := Wrap(t, r);
    WrapAdds(t, r);
    WrapShows(t, r);
    SealLength(c, t.cipher, w, iv);
    PadByteFills(|w.data| + t.cipher.macLen);
    NoFullPadding(|w.data|, t.cipher.macLen, PadByte(|w.data| + t.cipher.macLen));
  }

  lemma NoFullPadding(len: nat, macLen: nat, pad: nat)
    requires len % 16 == 0 && macLen % 16 != 0 && pad < 16 && (len + macLen + pad + 1) % 16 == 0
    ensures pad + 1 < 16
  {
  }

  lemma WrapExact(t: Transform, r: Rec)
    requires !t.cipher.tls13 && (t.outCid != [] ==> |r.data| % GRANULARITY == 0)
    ensures |Wrap(t, r).data| == |r.data| + if t.outCid != [] then GRANULARITY else 0
    ensures Wrap(t, r).ctr == r.ctr
  {
  }

  lemma SealExact(c: Primitives, t: Cipher, r: Rec, iv: bytes)
    requires Ideal(c, t) && |r.ctr| == 8 && |iv| == t.ivLen
    requires t.mode == Cbc ==> (|r.data| + t.macLen) % BLOCK == 0
    requires t.mode == CbcEtm ==> |r.data| % BLOCK == 0
    ensures |Seal(c, t, r, iv).data|
      == |r.data| + if t.mode == Aead || t.mode == Stream then MinLen(t) else t.macLen + BLOCK + BLOCK
  {
    hide Seal;
    SealLength(c, t, r, iv);
  }

  /** The budget is the most that fits by the estimate: one byte more would exceed the
      datagram, or the longest content. */
  lemma BudgetIsMost(outLeft: nat, mtu: nat, maxLen: nat, expansion: nat)
    ensures var b := RemainingPayload(outLeft, mtu, maxLen, expansion);
      && (b == None <==> mtu < outLeft < maxLen)
      && (b.Some? ==>
            && (b.value > 0 ==> outLeft + b.value + expansion <= mtu && outLeft + b.value <= maxLen)
            && (outLeft + b.value + 1 + expansion > mtu || outLeft + b.value + 1 > maxLen))
  {
  }

  /** The budget is sound: a payload within it, once protected, fits into what is left
      of the datagram, so the check before sending never fails. */
  lemma BudgetSound(c: Primitives, t: Option<Transform>, r: Rec, iv: bytes, outLeft: nat, mtu: nat, maxLen: nat)
    requires |r.ctr| == 8
    requires t.Some? ==> Ideal(c, t.value.cipher) && !t.value.cipher.tls13 && |iv| == t.value.cipher.ivLen
    requires var budget := RemainingPayload(outLeft, mtu, maxLen, RecordExpansion(t));
      budget.Some? && budget.value > 0 && |r.data| <= budget.value
    ensures outLeft + RecordSize(c, t, r, iv) <= mtu
  {
    ExpansionBounds(c, t, r, iv);
  }

  /** After a record that used the whole budget nothing more fits. */
  lemma BudgetSpent(outLeft: nat, mtu: nat, maxLen: nat, expansion: nat, size: nat)
    requires var budget := RemainingPayload(outLeft, mtu, maxLen, expansion);
      budget.Some? && budget.value > 0 && budget.value <= size && outLeft + size <= mtu
    ensures RemainingPayload(outLeft + size, mtu, maxLen, expansion) == Some(0)
  {
  }
}
