/** The TLS 1.3 Certificate message, section 4.4.2 of RFC 8446: its format as nested
    lists, and a parser on values that undoes it. */
module CertificateFormat {
  import opened Bytes

  const MIN_CERT: nat := 128
  const LIMIT: nat := 0x1_0000

  datatype Ext = Ext(extType: nat, data: bytes)
  datatype CertEntry = CertEntry(cert: bytes, exts: seq<Ext>)

  datatype Error = DecodeError | BufferTooSmall | UnknownOid | Refused(code: nat)
  datatype Result<T> = Ok(value: T) | Err(error: Error)

  /** What the X.509 parser says about a certificate. */
  datatype Verdict = Good | Unknown | Bad(code: nat)

  /** The X.509 parser, and the check of an extension type; None is an allowed one. */
  datatype Env = Env(verdict: bytes -> Verdict, check: nat -> Option<nat>)

  // ---------- Format

  function FormatExts(xs: seq<Ext>): bytes
  {
    if xs == [] then [] else PutU16(xs[0].extType) + PutU16(|xs[0].data|) + xs[0].data + FormatExts(xs[1..])
  }

  function FormatEntry(e: CertEntry): bytes
  {
    PutU24(|e.cert|) + e.cert + PutU16(|FormatExts(e.exts)|) + FormatExts(e.exts)
  }

  function FormatList(es: seq<CertEntry>): bytes
  {
    if es == [] then [] else FormatEntry(es[0]) + FormatList(es[1..])
  }

  function Format(context: bytes, es: seq<CertEntry>): bytes
  {
    [|context| % 256] + context + PutU24(|FormatList(es)|) + FormatList(es)
  }

  predicate ExtOk(env: Env, x: Ext)
  {
    x.extType < LIMIT && |x.data| < LIMIT && env.check(x.extType) == None
  }

  predicate EntryOk(env: Env, e: CertEntry)
  {
    && MIN_CERT <= |e.cert| < LIMIT && !env.verdict(e.cert).Bad?
    && |FormatExts(e.exts)| < LIMIT && forall i :: 0 <= i < |e.exts| ==> ExtOk(env, e.exts[i])
  }

  predicate ListOk(env: Env, es: seq<CertEntry>)
  {
    forall i :: 0 <= i < |es| ==> EntryOk(env, es[i])
  }

  // ---------- Parsing

  function ParseExts(env: Env, s: bytes): Result<seq<Ext>>
  {
    if s == [] then Ok([])
    else if |s| < 4 then Err(DecodeError)
    else
      var extType, len := U16At(s, 0), U16At(s, 2);
      if |s| - 4 < len then Err(DecodeError)
      else if env.check(extType).Some? then Err(Refused(env.check(extType).value))
      else
        var rest := ParseExts(env, s[4 + len..]);
        if rest.Err? then rest else Ok([Ext(extType, s[4..4 + len])] + rest.value)
  }

  /** One entry at the start of s, and what is behind it. */
  function ParseEntry(env: Env, s: bytes): (r: Result<(CertEntry, bytes)>)
    ensures r.Ok? ==> |r.value.1| < |s|
  {
    if |s| < 3 then Err(DecodeError)
    else
      var n := U24At(s, 0);
      if n < MIN_CERT || n >= LIMIT || |s| - 3 < n then Err(DecodeError)
      else
        var cert := s[3..3 + n];
        if env.verdict(cert).Bad? then Err(Refused(env.verdict(cert).code))
        else if |s| - 3 - n < 2 then Err(DecodeError)
        else
          var m := U16At(s, 3 + n);
          if |s| - 5 - n < m then Err(DecodeError)
          else
            var xs := ParseExts(env, s[5 + n..5 + n + m]);
            if xs.Err? then Err(xs.error) else Ok((CertEntry(cert, xs.value), s[5 + n + m..]))
  }

  function ParseList(env: Env, s: bytes): Result<seq<CertEntry>>
    decreases |s|
  {
    if s == [] then Ok([])
    else
      var first := ParseEntry(env, s);
      if first.Err? then Err(first.error)
      else
        var rest := ParseList(env, first.value.1);
        if rest.Err? then rest else Ok([first.value.0] + rest.value)
  }

  /** The certificates that end up in the peer's chain. */
  function Chain(env: Env, es: seq<CertEntry>): seq<bytes>
  {
    if es == [] then []
    else Chain(env, es[..|es| - 1]) + if env.verdict(es[|es| - 1].cert) == Good then [es[|es| - 1].cert] else []
  }

  /** The code that is left over in the end: the one of the last certificate, unless it
      has extensions. */
  predicate LastUnknown(env: Env, es: seq<CertEntry>)
  {
    es != [] && es[|es| - 1].exts == [] && env.verdict(es[|es| - 1].cert) == Unknown
  }

  /** mbedtls_ssl_tls13_parse_certificate: the chain, or the code it returns. */
  function Parse(env: Env, s: bytes): Result<seq<bytes>>
  {
    if |s| < 4 || s[0] != 0 || U24At(s, 1) >= LIMIT then Err(DecodeError)
    else
      var len := U24At(s, 1);
      if len == 0 then (if |s| == 4 then Ok([]) else Err(DecodeError))
      else if |s| - 4 < len then Err(DecodeError)
      else
        var es := ParseList(env, s[4..4 + len]);
        if es.Err? then Err(es.error)
        else if |s| != 4 + len then Err(DecodeError)
        else if LastUnknown(env, es.value) then Err(UnknownOid)
        else Ok(Chain(env, es.value))
  }

  // ---------- They undo each other

  lemma {:induction false} ExtsRoundTrip(env: Env, xs: seq<Ext>)
    requires forall i :: 0 <= i < |xs| ==> ExtOk(env, xs[i])
    ensures ParseExts(env, FormatExts(xs)) == Ok(xs)
  {
    if xs != [] {
      var x, rest := xs[0], FormatExts(xs[1..]);
      var s := FormatExts(xs);
      U16RoundTrip(x.extType);
      U16RoundTrip(|x.data|);
      assert s == PutU16(x.extType) + (PutU16(|x.data|) + (x.data + rest));
      assert s[..2] == PutU16(x.extType) && s[2..4] == PutU16(|x.data|);
      assert U16At(s, 0) == x.extType && U16At(s, 2) == |x.data|;
      assert s[4..4 + |x.data|] == x.data && s[4 + |x.data|..] == rest;
      ExtsRoundTrip(env, xs[1..]);
      assert [x] + xs[1..] == xs;
    }
  }

  lemma {:induction false} ExtsWellFormed(env: Env, s: bytes)
    requires ParseExts(env, s).Ok?
    ensures var xs := ParseExts(env, s).value;
      FormatExts(xs) == s && forall i :: 0 <= i < |xs| ==> ExtOk(env, xs[i])
    decreases |s|
  {
    if s != [] {
      var len := U16At(s, 2);
      ExtsWellFormed(env, s[4 + len..]);
      var xs := ParseExts(env, s).value;
      PutU16At(s, 0);
      PutU16At(s, 2);
      assert xs[1..] == ParseExts(env, s[4 + len..]).value;
      assert s == s[0..2] + s[2..4] + s[4..4 + len] + s[4 + len..];
    }
  }

  lemma EntryParts(len3: bytes, cert: bytes, len2: bytes, xs: bytes, rest: bytes)
    requires |len3| == 3 && |len2| == 2
    ensures var s, n, m := len3 + cert + len2 + xs + rest, |cert|, |xs|;
      && |s| == 5 + n + m + |rest|
      && U24At(s, 0) == U24At(len3, 0) && s[3..3 + n] == cert && U16At(s, 3 + n) == U16At(len2, 0)
      && s[5 + n..5 + n + m] == xs && s[5 + n + m..] == rest
  {
  }

  lemma {:induction false} EntryRoundTrip(env: Env, e: CertEntry, rest: bytes)
    requires EntryOk(env, e)
    ensures ParseEntry(env, FormatEntry(e) + rest) == Ok((e, rest))
  {
    var xs := FormatExts(e.exts);
    U24RoundTrip(|e.cert|);
    U16RoundTrip(|xs|);
    EntryParts(PutU24(|e.cert|), e.cert, PutU16(|xs|), xs, rest);
    ExtsRoundTrip(env, e.exts);
    hide U24At, U16At, PutU24, PutU16, FormatExts, ParseExts, ExtOk;
  }

  lemma {:induction false} EntryWellFormed(env: Env, s: bytes)
    requires ParseEntry(env, s).Ok?
    ensures var (e, rest) := ParseEntry(env, s).value; EntryOk(env, e) && s == FormatEntry(e) + rest
  {
    hide ParseExts, FormatExts;
    var n := U24At(s, 0);
    var m := U16At(s, 3 + n);
    PutU24At(s, 0);
    PutU16At(s, 3 + n);
    ExtsWellFormed(env, s[5 + n..5 + n + m]);
    assert s == s[0..3] + s[3..3 + n] + s[3 + n..5 + n] + s[5 + n..5 + n + m] + s[5 + n + m..];
  }

  /** What is accepted as a list is the format of its entries, and nothing else is. */
  lemma {:induction false} ListRoundTrip(env: Env, es: seq<CertEntry>)
    requires ListOk(env, es)
    ensures ParseList(env, FormatList(es)) == Ok(es)
  {
    hide ParseEntry, FormatEntry, EntryOk;
    if es != [] {
      EntryNotEmpty(es[0]);
      EntryRoundTrip(env, es[0], FormatList(es[1..]));
      ListRoundTrip(env, es[1..]);
      assert [es[0]] + es[1..] == es;
    }
  }

  lemma EntryNotEmpty(e: CertEntry)
    ensures |FormatEntry(e)| == 5 + |e.cert| + |FormatExts(e.exts)|
  {
  }

  lemma {:induction false} ListWellFormed(env: Env, s: bytes)
    requires ParseList(env, s).Ok?
    ensures var es := ParseList(env, s).value; ListOk(env, es) && FormatList(es) == s
    decreases |s|
  {
    hide ParseEntry, FormatEntry, EntryOk;
    if s != [] {
      EntryWellFormed(env, s);
      var (e, rest) := ParseEntry(env, s).value;
      ListWellFormed(env, rest);
      var es := ParseList(env, s).value;
      assert es[1..] == ParseList(env, rest).value;
    }
  }

  lemma ListNotEmpty(es: seq<CertEntry>)
    ensures es != [] ==> |FormatList(es)| > 0
  {
    if es != [] {
      EntryNotEmpty(es[0]);
    }
  }

  lemma NoChain(env: Env)
    ensures Chain(env, []) == []
  {
  }

  /** The message is taken exactly when it is the format, with no context, of acceptable
      entries of less than 2^16 bytes; and then, unless the last certificate has an
      unknown algorithm and no extensions, the chain has its known certificates in order. */
  lemma {:induction false} ParseExact(env: Env, s: bytes, es: seq<CertEntry>)
    requires ListOk(env, es) && |FormatList(es)| < LIMIT && s == Format([], es)
    ensures Parse(env, s) == if LastUnknown(env, es) then Err(UnknownOid) else Ok(Chain(env, es))
  {
    hide FormatList, ParseList, Chain, ListOk;
    var len := |FormatList(es)|;
    U24RoundTrip(len);
    assert s == [0] + (PutU24(len) + FormatList(es));
    assert s[1..4] == PutU24(len) && s[4..] == FormatList(es);
    assert U24At(s, 1) == U24At(s[1..4], 0) == len;
    assert s[4..4 + len] == FormatList(es);
    ListRoundTrip(env, es);
    ListNotEmpty(es);
    NoChain(env);
  }

  lemma {:induction false} AcceptedIsWellFormed(env: Env, s: bytes) returns (es: seq<CertEntry>)
    requires Parse(env, s).Ok? || Parse(env, s) == Err(UnknownOid)
    ensures ListOk(env, es) && |FormatList(es)| < LIMIT && s == Format([], es)
  {
    hide ParseList, ListOk, FormatList, LastUnknown, Chain;
    var len := U24At(s, 1);
    PutU24At(s, 1);
    assert s[..1] == [0];
    var list := s[4..4 + len];
    if len == 0 {
      es := [];
      NoEntries(env);
    } else {
      NoUnknownFromList(env, list);
      ListWellFormed(env, list);
      es := ParseList(env, list).value;
    }
    assert FormatList(es) == list;
    assert s == s[..1] + [] + s[1..4] + list;
  }

  lemma NoEntries(env: Env)
    ensures FormatList([]) == [] && ListOk(env, [])
  {
  }

  lemma {:induction false} NoUnknownFromExts(env: Env, s: bytes)
    ensures ParseExts(env, s) != Err(UnknownOid)
    decreases |s|
  {
    if |s| >= 4 && |s| - 4 >= U16At(s, 2) {
      NoUnknownFromExts(env, s[4 + U16At(s, 2)..]);
    }
  }

  lemma {:induction false} NoUnknownFromList(env: Env, s: bytes)
    ensures ParseList(env, s) != Err(UnknownOid)
    decreases |s|
  {
    if s != [] {
      if |s| >= 3 && |s| - 3 >= U24At(s, 0) && |s| - 3 - U24At(s, 0) >= 2 {
        var n := U24At(s, 0);
        var m := U16At(s, 3 + n);
        if |s| - 5 - n >= m {
          NoUnknownFromExts(env, s[5 + n..5 + n + m]);
        }
      }
      if ParseEntry(env, s).Ok? {
        NoUnknownFromList(env, ParseEntry(env, s).value.1);
      }
    }
  }

  // ---------- What the writer produces

  /** The writer has no extensions to send. */
  function Plain(certs: seq<bytes>): (es: seq<CertEntry>)
    ensures |es| == |certs| && forall i :: 0 <= i < |certs| ==> es[i] == CertEntry(certs[i], [])
  {
    seq(|certs|, i requires 0 <= i < |certs| => CertEntry(certs[i], []))
  }

  lemma {:induction false} ChainOfPlain(env: Env, certs: seq<bytes>)
    requires forall i :: 0 <= i < |certs| ==> env.verdict(certs[i]) == Good
    ensures Chain(env, Plain(certs)) == certs
    decreases |certs|
  {
    if certs != [] {
      var n := |certs| - 1;
      assert Plain(certs)[..n] == Plain(certs[..n]);
      ChainOfPlain(env, certs[..n]);
    }
  }

  lemma {:induction false} PlainParsed(env: Env, certs: seq<bytes>)
    requires forall i :: 0 <= i < |certs| ==> |certs[i]| < 0x100_0000
    requires ParseList(env, FormatList(Plain(certs))).Ok?
    ensures forall i :: 0 <= i < |certs| ==> MIN_CERT <= |certs[i]| < LIMIT && !env.verdict(certs[i]).Bad?
    decreases |certs|
  {
    if certs != [] {
      var e, rest := CertEntry(certs[0], []), FormatList(Plain(certs[1..]));
      assert Plain(certs)[1..] == Plain(certs[1..]);
      EntryNotEmpty(e);
      EntryParsed(env, e, rest);
      EntryRoundTrip(env, e, rest);
      PlainParsed(env, certs[1..]);
    }
  }

  lemma EntryParsed(env: Env, e: CertEntry, rest: bytes)
    requires |e.cert| < 0x100_0000 && e.exts == []
    requires ParseEntry(env, FormatEntry(e) + rest).Ok?
    ensures EntryOk(env, e)
  {
    var n, s := |e.cert|, FormatEntry(e) + rest;
    U24RoundTrip(n);
    var behind := PutU16(0) + [] + rest;
    assert s == PutU24(n) + (e.cert + behind);
    assert s[..3] == PutU24(n) && s[3..] == e.cert + behind;
    assert U24At(s, 0) == n;
    assert s[3..3 + n] == e.cert;
  }

  /** Certificates the peer knows come back in order exactly when the context is empty,
      each has 128 to 65535 bytes and the list fits 16 bits. */
  lemma {:induction false} RoundTrip(env: Env, context: bytes, certs: seq<bytes>)
    requires |context| < 256 && |FormatList(Plain(certs))| < 0x100_0000
    requires forall i :: 0 <= i < |certs| ==> env.verdict(certs[i]) == Good && |certs[i]| < 0x100_0000
    ensures Parse(env, Format(context, Plain(certs))) == Ok(certs) <==>
      context == [] && |FormatList(Plain(certs))| < LIMIT && forall i :: 0 <= i < |certs| ==>
        MIN_CERT <= |certs[i]| < LIMIT
  {
    hide FormatList, ParseList, Chain;
    var es := Plain(certs);
    var s, list := Format(context, es), FormatList(es);
    if context == [] && |list| < LIMIT && forall i :: 0 <= i < |certs| ==> MIN_CERT <= |certs[i]| < LIMIT {
      assert forall i :: 0 <= i < |es| ==> FormatExts(es[i].exts) == [];
      ParseExact(env, s, es);
      ChainOfPlain(env, certs);
    }
    if Parse(env, s).Ok? {
      assert s[0] == |context| % 256;
      assert context == [];
      assert s == [0] + (PutU24(|list|) + list);
      U24RoundTrip(|list|);
      assert s[1..4] == PutU24(|list|) && s[4..] == list;
      assert U24At(s, 1) == U24At(s[1..4], 0) == |list|;
      assert s[4..4 + |list|] == list;
      ListNotEmpty(es);
      if |list| > 0 {
        PlainParsed(env, certs);
      }
    }
  }

  /** The order matters: a list that ends with a certificate of an unknown algorithm is
      refused, the same certificates the other way round are taken. */
  lemma {:induction false} OrderMatters(env: Env, known: bytes, unknown: bytes)
    requires MIN_CERT <= |known| < 0x7000 && MIN_CERT <= |unknown| < 0x7000
    requires env.verdict(known) == Good && env.verdict(unknown) == Unknown
    ensures Parse(env, Format([], Plain([known, unknown]))) == Err(UnknownOid)
    ensures Parse(env, Format([], Plain([unknown, known]))) == Ok([known])
  {
    forall a, b | (a == known && b == unknown) || (a == unknown && b == known)
      ensures Parse(env, Format([], Plain([a, b]))) == if b == unknown then Err(UnknownOid) else Ok([known])
    {
      TwoCerts(env, a, b);
    }
  }

  lemma TwoCerts(env: Env, a: bytes, b: bytes)
    requires MIN_CERT <= |a| < 0x7000 && MIN_CERT <= |b| < 0x7000 && !env.verdict(a).Bad? && !env.verdict(b).Bad?
    ensures Parse(env, Format([], Plain([a, b]))) ==
      if env.verdict(b) == Unknown then Err(UnknownOid)
      else Ok(if env.verdict(a) == Good then [a, b] else [b])
  {
    hide FormatEntry, Parse, FormatExts;
    var es := Plain([a, b]);
    NoExts();
    EntryNotEmpty(es[0]);
    EntryNotEmpty(es[1]);
    TwoEntries(es);
    assert ListOk(env, es);
    ParseExact(env, Format([], es), es);
    assert es[..1][..0] == [];
    assert Chain(env, es[..1]) == if env.verdict(a) == Good then [a] else [];
    assert es[..|es| - 1] == es[..1] && [a] + [b] == [a, b] && [] + [b] == [b];
    assert Chain(env, es) == Chain(env, es[..1]) + if env.verdict(b) == Good then [b] else [];
  }

  lemma NoExts()
    ensures FormatExts([]) == []
  {
  }

  lemma TwoEntries(es: seq<CertEntry>)
    requires |es| == 2
    ensures |FormatList(es)| == |FormatEntry(es[0])| + |FormatEntry(es[1])|
  {
    assert es[1..] == [es[1]] && es[1..][1..] == [];
    assert FormatList(es[1..]) == FormatEntry(es[1]) + FormatList(es[1..][1..]);
  }
}
