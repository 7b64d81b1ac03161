/** The back-off of the DTLS retransmission timer. Sections 4.1.1.1 and 4.2.4.1 of
    RFC 6347. */
module Backoff {
  import opened Bytes

  const LIMIT: nat := 0x1_0000_0000
  const SMALL_MTU: nat := 508

  type uint32 = x: int | 0 <= x < 0x1_0000_0000

  /** min * 2^k */
  function Scaled(min: nat, k: nat): nat
  {
    min * Pow2(k)
  }

  lemma ScaledSteps(min: nat, k: nat)
    ensures Scaled(min, 0) == min && Scaled(min, k + 1) == 2 * Scaled(min, k)
  {
    assert Pow2(k + 1) == 2 * Pow2(k);
  }

  /** The wait after k doublings. */
  function Timeout(min: nat, max: nat, k: nat): nat
  {
    Min(max, Scaled(min, k))
  }

  /** k doublings reach the maximum, and no fewer: k is the logarithm to base 2 of
      max / min, rounded up. */
  predicate Reaches(min: nat, max: nat, k: nat)
  {
    max <= Scaled(min, k) && (k > 0 ==> Scaled(min, k - 1) < max)
  }

  lemma {:induction false} Pow2Grows(j: nat, k: nat)
    requires j <= k
    ensures Pow2(j) <= Pow2(k)
    decreases k
  {
    if j < k {
      Pow2Grows(j, k - 1);
    }
  }

  lemma TimesGrows(m: nat, a: nat, b: nat)
    requires a <= b
    ensures m * a <= m * b
  {
  }

  /** There is only one such number. */
  lemma {:induction false} ReachesOnce(min: nat, max: nat, j: nat, k: nat)
    requires Reaches(min, max, j) && Reaches(min, max, k)
    ensures j == k
  {
    if j < k {
      Pow2Grows(j, k - 1);
      TimesGrows(min, Pow2(j), Pow2(k - 1));
    } else if k < j {
      Pow2Grows(k, j - 1);
      TimesGrows(min, Pow2(k), Pow2(j - 1));
    }
  }

  class Retransmission {
    const min: uint32
    const max: uint32
    var timeout: uint32
    /** Our estimate of the MTU, 0 for none. */
    var mtu: nat

    constructor (min: uint32, max: uint32)
      ensures this.min == min && this.max == max && timeout == min && mtu == 0
    {
      this.min, this.max, timeout, mtu := min, max, min, 0;
    }

    /** ssl_reset_retransmit_timeout */
    method Reset()
      modifies this`timeout
      ensures timeout == min
    {
      timeout := min;
    }

    /** ssl_double_retransmit_timeout. The doubling wraps around at 32 bits; the result is
        that of unbounded numbers nevertheless. */
    method Double() returns (ok: bool)
      modifies this
      ensures ok <==> old(timeout) < max
      ensures timeout == if ok then Min(max, 2 * old(timeout)) else old(timeout)
      ensures mtu == if ok && old(timeout) != min then SMALL_MTU else old(mtu)
    {
      if timeout >= max {
        return false;
      }
      if timeout != min {
        mtu := SMALL_MTU;
      }
      var doubled: uint32 := 2 * timeout % LIMIT;
      if doubled < timeout || doubled > max {
        doubled := max;
      }
      timeout := doubled;
      return true;
    }
  }

  /** The peer is silent. Wait k lasts min(max, min * 2^k); the flight is sent again
      ceil(log2(max / min)) times before the handshake times out; and from the second
      time on with the small MTU. */
  method Silence(min: uint32, max: uint32) returns (waits: seq<nat>, mtus: seq<nat>, resends: nat)
    requires 0 < min <= max
    ensures |waits| == resends + 1 && |mtus| == resends && Reaches(min, max, resends)
    ensures forall k :: 0 <= k < |waits| ==> waits[k] == Timeout(min, max, k)
    ensures forall k :: 0 <= k < |mtus| ==> mtus[k] == if k == 0 then 0 else SMALL_MTU
  {
    hide Scaled;
    ScaledSteps(min, 0);
    var r := new Retransmission(min, max);
    waits, mtus, resends := [r.timeout], [], 0;
    var ok := r.Double();
    while ok
      invariant fresh(r) && r.min == min && r.max == max && |waits| == resends + 1 && |mtus| == resends
      invariant forall k :: 0 <= k < |waits| ==> waits[k] == Timeout(min, max, k)
      invariant forall k :: 0 <= k < |mtus| ==> mtus[k] == if k == 0 then 0 else SMALL_MTU
      invariant r.timeout == Timeout(min, max, if ok then resends + 1 else resends)
      invariant ok ==> Scaled(min, resends) < max
      invariant ok ==> r.mtu == if resends == 0 then 0 else SMALL_MTU
      invariant !ok ==> Reaches(min, max, resends)
      decreases ok, max - r.timeout
    {
      resends := resends + 1;
      waits := waits + [r.timeout];
      mtus := mtus + [r.mtu];
      ok := r.Double();
      ScaledSteps(min, resends);
    }
  }
}
