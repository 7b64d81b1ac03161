/** Writing and parsing the TLS 1.3 Certificate message in a buffer. */
module Certificates {
  import opened Bytes
  import opened CertificateFormat

  predicate CanRead(p: nat, end: nat, need: nat)
  {
    p <= end && need <= end - p
  }

  /** The handshake state that parsing updates. */
  class Peer {
    var chain: seq<bytes>
    var receivedExtensions: set<nat>

    constructor ()
      ensures chain == []
    {
      chain, receivedExtensions := [], {};
    }

    /** The extensions of one entry, at buf[p..end]. */
    method ParseExtensions(env: Env, buf: array<byte>, start: nat, end: nat) returns (err: Option<Error>)
      requires start <= end <= buf.Length
      modifies this`receivedExtensions
      ensures match ParseExts(env, buf[start..end])
        case Ok(xs) => err == None && receivedExtensions == TypesOf(xs)
        case Err(e) => err == Some(e)
    {
      hide U16At, U16, TypesOf;
      ghost var xs: seq<Ext> := [];
      TypesMore([], Ext(0, []));
      receivedExtensions := {};
      var p := start;
      PrependNone(xs, ParseExts(env, buf[start..end]));
      while p < end
        invariant start <= p <= end
        invariant ParseExts(env, buf[start..end]) == Prepend(xs, ParseExts(env, buf[p..end]))
        invariant receivedExtensions == TypesOf(xs)
      {
        ghost var s := buf[p..end];
        if !CanRead(p, end, 4) {
          return Some(DecodeError);
        }
        var extType := U16(buf, p);
        var len := U16(buf, p + 2);
        ReadU16(buf, p, end, 0);
        ReadU16(buf, p, end, 2);
        if !CanRead(p + 4, end, len) {
          return Some(DecodeError);
        }
        var refused := env.check(extType);
        if refused.Some? {
          return Some(Refused(refused.value));
        }
        receivedExtensions := receivedExtensions + {extType};
        SubSlice(buf, p, end, 4 + len, end - p);
        ghost var x := Ext(extType, s[4..4 + len]);
        PrependMore(xs, x, ParseExts(env, s[4 + len..]));
        TypesMore(xs, x);
        xs := xs + [x];
        p := p + 4 + len;
      }
      assert buf[end..end] == [];
      PrependNone(xs, ParseExts(env, buf[end..end]));
      return None;
    }

    /** One entry of the list at buf[p..end]; `known` tells whether the code that is
        left over is 0. */
    method ParseNext(env: Env, buf: array<byte>, p: nat, end: nat) returns (err: Option<Error>, p': nat, known: bool)
      requires p < end <= buf.Length
      modifies this
      ensures match ParseEntry(env, buf[p..end])
        case Ok((e, rest)) =>
          && err == None && p < p' <= end && buf[p'..end] == rest
          && chain == old(chain) + (if env.verdict(e.cert) == Good then [e.cert] else [])
          && known == !LastUnknown(env, [e])
        case Err(e) => err == Some(e)
    {
      hide ParseExts, ParseEntry, U16At, U24At, U16, U24;
      ghost var s := buf[p..end];
      err, p', known := Some(DecodeError), p, true;
      EntryCases(env, s);
      var size := CertSize(buf, p, end);
      if size.Some? {
        var n := size.value;
        p' := p' + 3;
        var cert := buf[p'..p' + n];
        SubSlice(buf, p, end, 3, 3 + n);
        var verdict := env.verdict(cert);
        match verdict {
          case Good => chain := chain + [cert];
          case Unknown => known := false;
          case Bad(code) => return Some(Refused(code)), p', known;
        }
        p' := p' + n;
        var extsSize := ExtsSize(buf, p, p', end);
        if extsSize.Some? {
          var m := extsSize.value;
          p' := p' + 2;
          SubSlice(buf, p, end, 5 + n, 5 + n + m);
          SubSlice(buf, p, end, 5 + n + m, end - p);
          err := ParseExtensions(env, buf, p', p' + m);
          NoExtsIffEmpty(env, buf[p'..p' + m]);
          if m > 0 {
            known := true;
          }
          p' := p' + m;
        }
      }
    }

    /** The length in front of the certificate, if it is acceptable and so many bytes follow. */
    method CertSize(buf: array<byte>, p: nat, end: nat) returns (n: Option<nat>)
      requires p <= end <= buf.Length
      ensures var s := buf[p..end];
        n == if |s| < 3 || U24At(s, 0) < MIN_CERT || U24At(s, 0) >= LIMIT || |s| - 3 < U24At(s, 0) then None
             else Some(U24At(s, 0))
    {
      hide U24At, U24;
      n := None;
      if CanRead(p, end, 3) {
        var len := U24(buf, p);
        ReadU24(buf, p, end, 0);
        if !(len < MIN_CERT || len >= LIMIT || !CanRead(p + 3, end, len)) {
          n := Some(len);
        }
      }
    }

    /** The length in front of the extensions at q, if so many bytes follow. */
    method ExtsSize(buf: array<byte>, p: nat, q: nat, end: nat) returns (m: Option<nat>)
      requires p <= q <= end <= buf.Length
      ensures var s, i := buf[p..end], q - p;
        m == if |s| - i < 2 || |s| - i - 2 < U16At(s, i) then None else Some(U16At(s, i))
    {
      hide U16At, U16;
      m := None;
      if CanRead(q, end, 2) {
        var len := U16(buf, q);
        ReadU16(buf, p, end, q - p);
        if CanRead(q + 2, end, len) {
          m := Some(len);
        }
      }
    }

    /** The list of entries, up to its end. */
    method ParseEntries(env: Env, buf: array<byte>, start: nat, end: nat) returns (err: Option<Error>, known: bool)
      requires start <= end <= buf.Length && chain == []
      modifies this
      ensures match ParseList(env, buf[start..end])
        case Ok(es) => err == None && chain == Chain(env, es) && known == !LastUnknown(env, es)
        case Err(e) => err == Some(e)
    {
      hide ParseEntry;
      ghost var es: seq<CertEntry> := [];
      var p := start;
      err, known := None, true;
      PrependNone(es, ParseList(env, buf[start..end]));
      while p < end
        invariant start <= p <= end && err == None && chain == Chain(env, es) && known == !LastUnknown(env, es)
        invariant ParseList(env, buf[start..end]) == Prepend(es, ParseList(env, buf[p..end]))
      {
        ghost var s := buf[p..end];
        err, p, known := ParseNext(env, buf, p, end);
        if err != None {
          return;
        }
        ghost var e := ParseEntry(env, s).value.0;
        PrependMore(es, e, ParseList(env, buf[p..end]));
        ghost var was := es;
        es := es + [e];
        assert es[..|es| - 1] == was;
      }
      assert buf[p..end] == [];
      PrependNone(es, ParseList(env, buf[p..end]));
    }

    /** mbedtls_ssl_tls13_parse_certificate */
    method ParseCertificate(env: Env, buf: array<byte>) returns (err: Option<Error>)
      modifies this
      ensures match Parse(env, buf[..])
        case Ok(certs) => err == None && chain == certs
        case Err(e) => err == Some(e)
    {
      hide ParseList, LastUnknown, Chain, U24At, U24;
      if !CanRead(0, buf.Length, 4) {
        return Some(DecodeError);
      }
      var contextLen: nat := buf[0];
      var listLen := U24(buf, 1);
      if contextLen != 0 || listLen >= LIMIT {
        return Some(DecodeError);
      }
      chain := [];
      if listLen == 0 {
        return if buf.Length == 4 then None else Some(DecodeError);
      }
      if !CanRead(4, buf.Length, listLen) {
        return Some(DecodeError);
      }
      assert buf[4..4 + listLen] == buf[..][4..4 + listLen];
      var known;
      err, known := ParseEntries(env, buf, 4, 4 + listLen);
      if err != None {
        return;
      }
      if 4 + listLen != buf.Length {
        return Some(DecodeError);
      }
      return if known then None else Some(UnknownOid);
    }
  }

  function U16(buf: array<byte>, i: nat): (n: nat)
    reads buf
    requires i + 2 <= buf.Length
    ensures n == U16At(buf[..], i)
  {
    buf[i] as int * 0x100 + buf[i + 1] as int
  }

  function U24(buf: array<byte>, i: nat): (n: nat)
    reads buf
    requires i + 3 <= buf.Length
    ensures n == U24At(buf[..], i)
  {
    buf[i] as int * 0x1_0000 + buf[i + 1] as int * 0x100 + buf[i + 2] as int
  }

  function TypesOf(xs: seq<Ext>): set<nat>
  {
    set x | x in xs :: x.extType
  }

  lemma TypesMore(xs: seq<Ext>, x: Ext)
    ensures TypesOf([]) == {} && TypesOf(xs + [x]) == TypesOf(xs) + {x.extType}
  {
    var n := |xs|;
    assert (xs + [x])[n] == x;
    assert forall y :: y in xs ==> y in xs + [x];
  }

  function Prepend<T>(done: seq<T>, rest: Result<seq<T>>): Result<seq<T>>
  {
    if rest.Err? then rest else Ok(done + rest.value)
  }

  lemma PrependNone<T>(done: seq<T>, rest: Result<seq<T>>)
    ensures done == [] ==> Prepend(done, rest) == rest
    ensures rest == Ok([]) ==> Prepend(done, rest) == Ok(done)
  {
    if rest.Ok? {
      assert done == [] ==> done + rest.value == rest.value;
      assert rest.value == [] ==> done + rest.value == done;
    }
  }

  lemma ReadU16(buf: array<byte>, p: nat, end: nat, i: nat)
    requires p <= end <= buf.Length && i + 2 <= end - p
    ensures U16(buf, p + i) == U16At(buf[p..end], i)
  {
  }

  lemma ReadU24(buf: array<byte>, p: nat, end: nat, i: nat)
    requires p <= end <= buf.Length && i + 3 <= end - p
    ensures U24(buf, p + i) == U24At(buf[p..end], i)
  {
  }

  lemma SubSlice(buf: array<byte>, p: nat, end: nat, a: nat, b: nat)
    requires p <= end <= buf.Length && a <= b <= end - p
    ensures buf[p..end][a..b] == buf[p + a..p + b]
  {
    forall k | 0 <= k < b - a
      ensures buf[p..end][a..b][k] == buf[p + a..p + b][k]
    {
    }
  }

  /** The answer for an entry, case by case. */
  lemma EntryCases(env: Env, s: bytes)
    ensures |s| < 3 || U24At(s, 0) < MIN_CERT || U24At(s, 0) >= LIMIT || |s| - 3 < U24At(s, 0) ==>
      ParseEntry(env, s) == Err(DecodeError)
    ensures |s| >= 3 && MIN_CERT <= U24At(s, 0) < LIMIT && |s| - 3 >= U24At(s, 0) ==>
      var n := U24At(s, 0);
      var cert := s[3..3 + n];
      ParseEntry(env, s) ==
        if env.verdict(cert).Bad? then Err(Refused(env.verdict(cert).code))
        else if |s| - 3 - n < 2 || |s| - 5 - n < U16At(s, 3 + n) then Err(DecodeError)
        else
          var m := U16At(s, 3 + n);
          match ParseExts(env, s[5 + n..5 + n + m])
          case Err(e) => Err(e)
          case Ok(xs) => Ok((CertEntry(cert, xs), s[5 + n + m..]))
  {
  }

  lemma PrependMore<T>(done: seq<T>, x: T, rest: Result<seq<T>>)
    ensures Prepend(done, if rest.Err? then rest else Ok([x] + rest.value)) == Prepend(done + [x], rest)
  {
    if rest.Ok? {
      assert done + ([x] + rest.value) == done + [x] + rest.value;
    }
  }

  lemma NoExtsIffEmpty(env: Env, s: bytes)
    ensures ParseExts(env, s).Ok? ==> (ParseExts(env, s).value == [] <==> s == [])
  {
  }

  // ---------- Writing

  /** ssl_tls13_write_certificate_body */
  method WriteCertificateBody(context: bytes, certs: seq<bytes>, buf: array<byte>) returns (r: Result<nat>)
    requires |context| < 256
    modifies buf
    ensures var s := Format(context, Plain(certs));
      && (r.Ok? <==> |s| <= buf.Length) && (r.Err? ==> r.error == BufferTooSmall)
      && (r.Ok? ==> r.value == |s| && buf[..r.value] == s)
  {
    hide PutU24, FormatList;
    ghost var list := FormatList(Plain(certs));
    NoList();
    assert Plain(certs[..0]) == [];
    assert certs[..|certs|] == certs;
    if 1 + |context| > buf.Length {
      return Err(BufferTooSmall);
    }
    WriteAt(buf, 0, [|context|] + context);
    var p := 1 + |context|;
    if buf.Length - p < 3 {
      return Err(BufferTooSmall);
    }
    var at := p;
    p := p + 3;
    for i := 0 to |certs|
      invariant at == 1 + |context| && p == at + 3 + |FormatList(Plain(certs[..i]))| <= buf.Length
      invariant buf[..at] == [|context|] + context && buf[at + 3..p] == FormatList(Plain(certs[..i]))
    {
      ListGrows(certs, i);
      ListIsPrefix(certs, i + 1);
      if buf.Length - p < |certs[i]| + 5 {
        return Err(BufferTooSmall);
      }
      p := WriteEntry(buf, at + 3, p, certs[i]);
    }
    WriteLength(buf, at, p);
    return Ok(p);
  }

  method WriteEntry(buf: array<byte>, start: nat, p: nat, cert: bytes) returns (p': nat)
    requires start <= p && p + |cert| + 5 <= buf.Length
    modifies buf
    ensures p' == p + |cert| + 5 && buf[..start] == old(buf[..start])
    ensures buf[start..p'] == old(buf[start..p]) + (PutU24(|cert|) + cert + [0, 0])
  {
    ghost var before := buf[..p];
    WriteAt(buf, p, PutU24(|cert|) + cert + [0, 0]);
    p' := p + |cert| + 5;
    assert buf[..start] == before[..start] && buf[start..p] == before[start..p];
    assert buf[start..p'] == buf[start..p] + buf[p..p'];
  }

  /** The length of the list is written when it is known. */
  method WriteLength(buf: array<byte>, at: nat, p: nat)
    requires at + 3 <= p <= buf.Length
    modifies buf
    ensures buf[..p] == old(buf[..at]) + PutU24(p - at - 3) + old(buf[at + 3..p])
  {
    ghost var behind := buf[at + 3..];
    WriteAt(buf, at, PutU24(p - at - 3));
    assert buf[at + 3..p] == behind[..p - at - 3];
    assert buf[..p] == buf[..at] + buf[at..at + 3] + buf[at + 3..p];
  }

  lemma NoList()
    ensures FormatList([]) == []
  {
  }

  lemma ListGrows(certs: seq<bytes>, i: nat)
    requires i < |certs|
    ensures FormatList(Plain(certs[..i + 1])) ==
      FormatList(Plain(certs[..i])) + (PutU24(|certs[i]|) + certs[i] + [0, 0])
  {
    ListAppend(Plain(certs[..i]), CertEntry(certs[i], []));
    assert Plain(certs[..i + 1]) == Plain(certs[..i]) + [CertEntry(certs[i], [])];
  }

  lemma {:induction false} ListAppend(es: seq<CertEntry>, e: CertEntry)
    ensures FormatList(es + [e]) == FormatList(es) + FormatEntry(e)
  {
    if es == [] {
      assert es + [e] == [e] && [e][1..] == [];
    } else {
      ListAppend(es[1..], e);
      assert (es + [e])[1..] == es[1..] + [e];
    }
  }

  lemma ListIsPrefix(certs: seq<bytes>, i: nat)
    requires i <= |certs|
    ensures |FormatList(Plain(certs[..i]))| <= |FormatList(Plain(certs))|
    decreases |certs| - i
  {
    if i < |certs| {
      ListGrows(certs, i);
      ListIsPrefix(certs, i + 1);
    } else {
      assert certs[..i] == certs;
    }
  }
}
