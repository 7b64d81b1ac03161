/** The outgoing epoch and record counter, and the alternative one kept for resending. */
module OutCounters {
  import opened Bytes
  import opened RecordFormat

  /** Epoch and sequence number take 8 bytes; the first EPOCH_LEN are the epoch. */
  const CTR_LEN: nat := 8
  const EPOCH_LEN: nat := 2

  /** The big-endian number in s. */
  function Value(s: bytes): nat
  {
    if s == [] then 0 else Value(s[..|s| - 1]) * 256 + s[|s| - 1]
  }

  function Epoch(ctr: bytes): bytes
    requires |ctr| == CTR_LEN
  {
    ctr[..EPOCH_LEN]
  }

  function Number(ctr: bytes): nat
    requires |ctr| == CTR_LEN
  {
    Value(ctr[EPOCH_LEN..])
  }

  const LAST: nat := 0xffff_ffff_ffff

  /** The last number of an epoch. */
  predicate IsLast(ctr: bytes)
    requires |ctr| == CTR_LEN
  {
    Number(ctr) == LAST
  }

  /** One more, with the carry, on big-endian bytes. */
  function Plus1(s: bytes): (r: bytes)
    ensures |r| == |s|
  {
    var n := |s| - 1;
    if s == [] then []
    else if s[n] == 255 then Plus1(s[..n]) + [0]
    else s[..n] + [s[n] + 1]
  }

  function Following(ctr: bytes): (r: bytes)
    requires |ctr| == CTR_LEN
    ensures |r| == CTR_LEN && Epoch(r) == Epoch(ctr)
  {
    ctr[..EPOCH_LEN] + Plus1(ctr[EPOCH_LEN..])
  }

  function Pow256(n: nat): (p: nat)
    ensures p > 0
  {
    if n == 0 then 1 else 256 * Pow256(n - 1)
  }

  predicate AllFull(s: bytes)
  {
    forall i :: 0 <= i < |s| ==> s[i] == 255
  }

  lemma {:induction false} FullIsMax(s: bytes)
    ensures Value(s) < Pow256(|s|) && (Value(s) == Pow256(|s|) - 1 <==> AllFull(s))
    decreases |s|
  {
    if s != [] {
      var n := |s| - 1;
      FullIsMax(s[..n]);
      assert AllFull(s) <==> AllFull(s[..n]) && s[n] == 255 by {
        assert forall i :: 0 <= i < n ==> s[i] == s[..n][i];
      }
    }
  }

  lemma {:induction false} Plus1Value(s: bytes)
    ensures Value(Plus1(s)) == if AllFull(s) then 0 else Value(s) + 1
    decreases |s|
  {
    if s != [] {
      var n := |s| - 1;
      var r := Plus1(s);
      if s[n] == 255 {
        Plus1Value(s[..n]);
        assert r[..n] == Plus1(s[..n]) && r[n] == 0;
        assert AllFull(s) <==> AllFull(s[..n]) by {
          assert forall i :: 0 <= i < n ==> s[i] == s[..n][i];
        }
      } else {
        assert r[..n] == s[..n] && r[n] == s[n] + 1;
      }
    }
  }

  /** The number goes up by one, and from the last one to 0. */
  lemma FollowingNumber(ctr: bytes)
    requires |ctr| == CTR_LEN
    ensures Number(Following(ctr)) == if IsLast(ctr) then 0 else Number(ctr) + 1
    ensures IsLast(ctr) <==> AllFull(ctr[EPOCH_LEN..])
  {
    var s := ctr[EPOCH_LEN..];
    assert Following(ctr)[EPOCH_LEN..] == Plus1(s);
    Plus1Value(s);
    FullIsMax(s);
    assert Pow256(6) - 1 == LAST;
  }

  /** r is s with a carry through the bytes behind the first i. */
  predicate Carried(s: bytes, r: bytes, i: nat)
    requires i <= |s| == |r|
  {
    && r[..i] == s[..i]
    && forall j :: i <= j < |s| ==> s[j] == 255 && r[j] == 0
  }

  lemma {:induction false} CarriedIsPlus1(s: bytes, r: bytes, i: nat)
    requires |s| == |r|
    requires if i == 0 then Carried(s, r, 0) else i <= |s| && s[i - 1] < 255 && Carried(s, r[i - 1 := s[i - 1]], i)
    requires i > 0 ==> r[i - 1] == s[i - 1] + 1
    ensures r == Plus1(s)
    decreases |s|
  {
    if s != [] {
      var n := |s| - 1;
      if i == |s| {
        assert r[..n] == r[n := s[n]][..n] == s[..n];
      } else {
        var q := if i == 0 then r else r[i - 1 := s[i - 1]];
        assert s[n] == 255 && q[n] == 0 == r[n];
        assert q[..n][..i] == q[..i] && s[..n][..i] == s[..i];
        assert i > 0 ==> r[..n][i - 1 := s[..n][i - 1]] == q[..n];
        CarriedIsPlus1(s[..n], r[..n], i);
        assert r == r[..n] + [0];
      }
    }
  }

  // ---------- The two transforms with their counters, on values

  datatype Counters = Counters(transform: nat, alt: nat, ctr: bytes, altCtr: bytes)

  predicate CountersOk(c: Counters)
  {
    |c.ctr| == |c.altCtr| == CTR_LEN
  }

  function Swapped(c: Counters): Counters
  {
    if c.transform == c.alt then c else Counters(c.alt, c.transform, c.altCtr, c.ctr)
  }

  function Counted(c: Counters): (r: Counters)
    requires CountersOk(c)
    ensures CountersOk(r)
  {
    c.(ctr := Following(c.ctr))
  }

  class OutCounter {
    var transform: nat
    var altTransform: nat
    const cur: array<byte>
    const alt: array<byte>

    ghost predicate Valid()
      reads this
    {
      cur != alt && cur.Length == alt.Length == CTR_LEN
    }

    ghost function View(): (c: Counters)
      requires Valid()
      reads this, cur, alt
      ensures CountersOk(c)
    {
      Counters(transform, altTransform, cur[..], alt[..])
    }

    constructor (c: Counters)
      requires CountersOk(c)
      ensures Valid() && fresh(cur) && fresh(alt) && View() == c
    {
      transform, altTransform := c.transform, c.alt;
      var x := new byte[CTR_LEN](i requires 0 <= i < CTR_LEN => c.ctr[i]);
      var y := new byte[CTR_LEN](i requires 0 <= i < CTR_LEN => c.altCtr[i]);
      assert x[..] == c.ctr && y[..] == c.altCtr;
      cur, alt := x, y;
    }

    /** ssl_swap_epochs */
    method SwapEpochs()
      requires Valid()
      modifies this, cur, alt
      ensures Valid() && View() == Swapped(old(View()))
    {
      if transform == altTransform {
        return;
      }
      transform, altTransform := altTransform, transform;
      var tmp := new byte[CTR_LEN](_ => 0);
      Copy(cur, 0, tmp, 0, CTR_LEN);
      assert tmp[..] == old(cur[..]);
      Copy(alt, 0, cur, 0, CTR_LEN);
      assert cur[..] == old(alt[..]);
      Copy(tmp, 0, alt, 0, CTR_LEN);
      assert alt[..] == old(cur[..]);
    }

    /** Number a record and count on; `wrapped` is COUNTER_WRAPPING. */
    method Next() returns (ctr: bytes, wrapped: bool)
      requires Valid()
      modifies cur
      ensures Valid() && ctr == old(View()).ctr && View() == Counted(old(View()))
      ensures wrapped <==> IsLast(ctr)
    {
      ctr := cur[..];
      ghost var s := ctr[EPOCH_LEN..];
      var i := CTR_LEN;
      while i > EPOCH_LEN
        invariant EPOCH_LEN <= i <= CTR_LEN && cur[..EPOCH_LEN] == ctr[..EPOCH_LEN]
        invariant Carried(s, cur[EPOCH_LEN..], i - EPOCH_LEN)
      {
        var b := cur[i - 1] as int + 1;
        ghost var was, k := cur[EPOCH_LEN..], i - EPOCH_LEN;
        assert was[k - 1] == s[..k][k - 1];
        cur[i - 1] := b % 256;
        ghost var r := cur[EPOCH_LEN..];
        assert r == was[k - 1 := b % 256];
        if cur[i - 1] != 0 {
          assert r[k - 1 := s[k - 1]] == was;
          CarriedIsPlus1(s, r, k);
          break;
        }
        assert r[..k - 1] == was[..k][..k - 1] == s[..k - 1];
        i := i - 1;
      }
      if i == EPOCH_LEN {
        CarriedIsPlus1(s, cur[EPOCH_LEN..], 0);
      }
      wrapped := i == EPOCH_LEN;
      FollowingNumber(ctr);
      assert cur[..] == cur[..EPOCH_LEN] + cur[EPOCH_LEN..];
      assert i > EPOCH_LEN ==> s[i - 1 - EPOCH_LEN] == ctr[i - 1];
    }
  }

  // ---------- Counters never repeat

  /** ctr was emitted in the epoch of cur, before cur. */
  predicate Before(ctr: bytes, cur: bytes)
    requires |cur| == CTR_LEN
  {
    |ctr| == CTR_LEN && Epoch(ctr) == Epoch(cur) && Number(ctr) < Number(cur)
  }

  predicate Distinct(s: seq<bytes>)
  {
    forall i, j :: 0 <= i < j < |s| ==> s[i] != s[j]
  }

  predicate Apart(c: Counters)
    requires CountersOk(c)
  {
    c.transform == c.alt || Epoch(c.ctr) != Epoch(c.altCtr)
  }

  /** Everything emitted so far is behind one of the two counters; the alternative one
      is in another epoch, unless it is never swapped in. */
  predicate Behind(emitted: seq<bytes>, c: Counters)
    requires CountersOk(c)
  {
    && Apart(c)
    && forall e :: e in emitted ==> Before(e, c.ctr) || (c.transform != c.alt && Before(e, c.altCtr))
  }

  lemma SwappedBehind(emitted: seq<bytes>, c: Counters)
    requires CountersOk(c) && Behind(emitted, c)
    ensures Behind(emitted, Swapped(c))
  {
  }

  lemma DistinctAppend(s: seq<bytes>, x: bytes)
    requires Distinct(s) && forall e :: e in s ==> e != x
    ensures Distinct(s + [x])
  {
    forall i, j | 0 <= i < j < |s + [x]|
      ensures (s + [x])[i] != (s + [x])[j]
    {
      assert (s + [x])[i] in s;
    }
  }

  lemma CountedBehind(emitted: seq<bytes>, c: Counters)
    requires CountersOk(c) && Behind(emitted, c) && Distinct(emitted)
    ensures Distinct(emitted + [c.ctr]) && (!IsLast(c.ctr) ==> Behind(emitted + [c.ctr], Counted(c)))
  {
    DistinctAppend(emitted, c.ctr);
    FollowingNumber(c.ctr);
    hide Number, Following;
  }

  /** What a run has emitted, and whether it has come to the end of an epoch. */
  datatype Counting = Counting(c: Counters, emitted: seq<bytes>, wrapped: bool)

  /** A run of swapping epochs (true) and writing records (false), which stops with the
      first record that takes the last number of an epoch. */
  function Emission(c: Counters, swaps: seq<bool>): (r: Counting)
    requires CountersOk(c)
    ensures CountersOk(r.c)
  {
    if swaps == [] then Counting(c, [], false)
    else
      var r := Emission(c, swaps[..|swaps| - 1]);
      if r.wrapped then r
      else if swaps[|swaps| - 1] then r.(c := Swapped(r.c))
      else Counting(Counted(r.c), r.emitted + [r.c.ctr], IsLast(r.c.ctr))
  }

  predicate EndsAtLast(emitted: seq<bytes>, wrapped: bool)
  {
    && (forall e :: e in emitted ==> |e| == CTR_LEN)
    && (forall i :: 0 <= i < |emitted| - 1 ==> !IsLast(emitted[i]))
    && (wrapped <==> emitted != [] && IsLast(emitted[|emitted| - 1]))
  }

  /** In any such run no two records carry the same epoch and number, and it has stopped
      if and only if the last record has the last number; no other one has. */
  lemma {:induction false} EmissionDistinct(c: Counters, swaps: seq<bool>)
    requires CountersOk(c) && Apart(c)
    ensures var r := Emission(c, swaps);
      Distinct(r.emitted) && EndsAtLast(r.emitted, r.wrapped) && (!r.wrapped ==> Behind(r.emitted, r.c))
    decreases |swaps|
  {
    hide Behind, Distinct, EndsAtLast, IsLast, Apart, Following;
    if swaps == [] {
      NothingEmitted(c);
    } else {
      EmissionDistinct(c, swaps[..|swaps| - 1]);
      var r := Emission(c, swaps[..|swaps| - 1]);
      if !r.wrapped {
        SwappedBehind(r.emitted, r.c);
        CountedBehind(r.emitted, r.c);
        EndsAppend(r.emitted, r.c.ctr);
      }
    }
  }

  lemma NothingEmitted(c: Counters)
    requires CountersOk(c) && Apart(c)
    ensures Behind([], c) && Distinct([]) && EndsAtLast([], false)
  {
  }

  lemma EndsAppend(emitted: seq<bytes>, ctr: bytes)
    requires EndsAtLast(emitted, false) && |ctr| == CTR_LEN
    ensures EndsAtLast(emitted + [ctr], IsLast(ctr))
  {
    hide IsLast;
  }

  /** The run in place emits just that; so no two records carry the same counter. */
  method Run(c: Counters, swaps: seq<bool>) returns (emitted: seq<bytes>, wrapped: bool)
    requires CountersOk(c)
    ensures var r := Emission(c, swaps); emitted == r.emitted && wrapped == r.wrapped
    ensures Apart(c) ==> Distinct(emitted) && EndsAtLast(emitted, wrapped)
  {
    hide Distinct, EndsAtLast, Apart;
    var out := new OutCounter(c);
    emitted, wrapped := [], false;
    for i := 0 to |swaps|
      invariant out.Valid() && fresh(out) && fresh(out.cur) && fresh(out.alt)
      invariant Counting(out.View(), emitted, wrapped) == Emission(c, swaps[..i])
    {
      assert swaps[..i + 1][..i] == swaps[..i];
      if !wrapped {
        if swaps[i] {
          out.SwapEpochs();
        } else {
          var ctr, last := out.Next();
          emitted, wrapped := emitted + [ctr], last;
        }
      }
    }
    assert swaps[..|swaps|] == swaps;
    if Apart(c) {
      EmissionDistinct(c, swaps);
    }
  }

  /** So under one transform no AEAD nonce repeats either. */
  lemma NoncesDistinct(fixedIv: bytes, emitted: seq<bytes>)
    requires |fixedIv| <= NONCE_LEN && Distinct(emitted) && forall e :: e in emitted ==> |e| == CTR_LEN
    ensures forall i, j :: 0 <= i < j < |emitted| ==> Nonce(fixedIv, emitted[i]) != Nonce(fixedIv, emitted[j])
  {
    forall i, j | 0 <= i < j < |emitted|
      ensures Nonce(fixedIv, emitted[i]) != Nonce(fixedIv, emitted[j])
    {
      if Nonce(fixedIv, emitted[i]) == Nonce(fixedIv, emitted[j]) {
        NonceInjective(fixedIv, emitted[i], emitted[j]);
      }
    }
  }
}
