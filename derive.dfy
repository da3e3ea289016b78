/** esp_derive_mac: turn a universally administered MAC address into a
    locally administered one (bit 0x02 of byte 0, the IEEE 802 U/L bit, set)
    that differs from it. The loop allows 64 attempts; attempt `idx` tries
    `(u0 | 0x02) ^ (idx << 2)` as byte 0. */
module Derive {
  import opened MacTypes

  /** The byte 0 that attempt `idx` writes: the universal byte 0 with the U/L
      bit set, XOR-ed with `idx << 2`. The counter is a uint8_t. */
  function Candidate(u0: bv8, idx: bv8): bv8
    requires idx < 64
  {
    (u0 | 0x02) ^ (idx << 2)
  }

  /** The attempt at which the loop stops when it starts at `from`: the first
      whose candidate differs from `u0`, or the last attempt if none does. */
  function BreakIndex(u0: bv8, from: bv8): (k: bv8)
    requires from < 64
    ensures from <= k < 64
    ensures Candidate(u0, k) != u0 || k == 63
    ensures forall j: bv8 :: from <= j < k ==> Candidate(u0, j) == u0
    decreases 64 - from
  {
    if Candidate(u0, from) != u0 || from == 63 then from
    else BreakIndex(u0, from + 1)
  }

  /** The attempt at which the loop stops, in closed form: 0 when the U/L bit
      of `u0` is clear, 1 when it is set. */
  function ExitIndex(u0: bv8): bv8
  {
    if u0 & 0x02 == 0 then 0 else 1
  }

  /** The loop always stops at attempt 0 or 1, never for lack of attempts:
      attempt 0 differs exactly when the U/L bit is clear, and attempt 1
      always differs because it flips bit 0x04. */
  lemma {:induction false} BreakIndexAtMostOne(u0: bv8)
    ensures BreakIndex(u0, 0) == ExitIndex(u0)
    ensures Candidate(u0, ExitIndex(u0)) != u0
  {
    var k := BreakIndex(u0, 0);
    if u0 & 0x02 == 0 {
      assert Candidate(u0, 0) != u0;
    } else {
      assert Candidate(u0, 0) == u0;
      assert Candidate(u0, 1) != u0;
      assert k != 0;
    }
  }

  /** The address esp_derive_mac produces from `u`: `u` with byte 0 replaced
      by the candidate of the attempt at which the loop stops. */
  function DerivedMac(u: Mac): Mac
  {
    u[0 := Candidate(u[0], ExitIndex(u[0]))]
  }

  /** The loop's break selects the first attempt whose candidate differs
      from the universal address; the derived address is that candidate. */
  lemma DerivedMacIsFirstDifferingAttempt(u: Mac)
    ensures DerivedMac(u) == u[0 := Candidate(u[0], BreakIndex(u[0], 0))]
  {
    BreakIndexAtMostOne(u[0]);
  }

  /** The derived address is locally administered, keeps the multicast bit
      and bytes 1..5, and differs from `u`; its byte 0 is `u0 | 0x02` when
      the U/L bit of `u0` is clear and `u0 ^ 0x04` when it is set. */
  lemma DerivedMacProperties(u: Mac)
    ensures DerivedMac(u)[1..] == u[1..]
    ensures DerivedMac(u)[0] & 0x02 == 0x02
    ensures DerivedMac(u)[0] & 0x01 == u[0] & 0x01
    ensures DerivedMac(u)[0] == if u[0] & 0x02 == 0 then u[0] | 0x02 else u[0] ^ 0x04
    ensures DerivedMac(u) != u
  {
    BreakIndexAtMostOne(u[0]);
  }

  /** esp_derive_mac. A null pointer gives ESP_ERR_INVALID_ARG and nothing
      is written; otherwise `local` receives the derived address of
      `universal` and the result is ESP_OK. The two buffers must not
      overlap, as memcpy requires. */
  method DeriveMac(local: array?<bv8>, universal: array?<bv8>) returns (err: EspErr)
    requires local != null ==> local.Length == 6
    requires universal != null ==> universal.Length == 6
    requires local != universal || local == null
    modifies local
    ensures local == null || universal == null ==> err == ErrInvalidArg
    ensures local != null && universal == null ==> local[..] == old(local[..])
    ensures local != null && universal != null ==>
              err == EspOk && local[..] == DerivedMac(old(universal[..]))
    ensures universal != null ==> universal[..] == old(universal[..])
  {
    if local == null || universal == null {
      return ErrInvalidArg;
    }

    Memcpy(local, universal);

    var idx: bv8 := 0;
    while idx < 64
      invariant idx <= 1
      invariant idx == 1 ==> universal[0] & 0x02 == 0x02
      invariant local[1..] == universal[1..]
    {
      local[0] := universal[0] | 0x02;
      local[0] := local[0] ^ (idx << 2);

      if local[..] != universal[..] {
        break;
      }
      idx := idx + 1;
    }
    return EspOk;
  }
}
