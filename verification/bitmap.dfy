/** PCR bitmaps: bit n of byte i selects register 8*i + n. */
module Bitmap {
  import opened Wire

  /** Bit n of a byte is set (`byte >> n & 0x1 == 0x1`), counted from the
      least significant bit one shift at a time; BitIsShift shows this is
      the shift test of the source. */
  predicate Bit(b: byte, n: nat)
    requires n < 8
  {
    if n == 0 then b & 1 == 1 else Bit(b >> 1, n - 1)
  }

  lemma BitIsShift(b: byte, n: nat)
    requires n < 8
    ensures Bit(b, n) <==> (b >> n) & 1 == 1
  {
  }

  /** An empty byte has no bit set. */
  lemma {:induction false} NoBitOfZero(n: nat)
    requires n < 8
    ensures !Bit(0, n)
  {
    if n > 0 {
      NoBitOfZero(n - 1);
    }
  }

  /** Register r is selected by the bitmap. */
  predicate Selects(bm: seq<byte>, r: nat) {
    r / 8 < |bm| && Bit(bm[r / 8], r % 8)
  }

  /** The selected registers in [lo, hi), in increasing order. */
  function RegistersIn(bm: seq<byte>, lo: nat, hi: nat): (rs: seq<nat>)
    ensures forall k :: 0 <= k < |rs| ==> lo <= rs[k] < hi
    decreases hi - lo
  {
    if hi <= lo then []
    else (if Selects(bm, lo) then [lo] else []) + RegistersIn(bm, lo + 1, hi)
  }

  /** A range with no selected register lists nothing. */
  lemma {:induction false} RegistersInNone(bm: seq<byte>, lo: nat, hi: nat)
    requires forall r :: lo <= r < hi ==> !Selects(bm, r)
    ensures RegistersIn(bm, lo, hi) == []
    decreases hi - lo
  {
    if lo < hi {
      RegistersInNone(bm, lo + 1, hi);
    }
  }

  /** Every selected register of the bitmap, in increasing order. */
  function SelectedRegisters(bm: seq<byte>): seq<nat> {
    RegistersIn(bm, 0, 8 * |bm|)
  }

  /** A register is listed exactly when it lies in the range and is
      selected. */
  lemma {:induction false} RegistersInMembers(bm: seq<byte>, lo: nat, hi: nat, r: nat)
    ensures r in RegistersIn(bm, lo, hi) <==> lo <= r < hi && Selects(bm, r)
    decreases hi - lo
  {
    if lo < hi {
      RegistersInMembers(bm, lo + 1, hi, r);
    }
  }

  lemma SelectedRegistersMembers(bm: seq<byte>, r: nat)
    ensures r in SelectedRegisters(bm) <==> Selects(bm, r)
  {
    RegistersInMembers(bm, 0, 8 * |bm|, r);
  }

  /** The listing is strictly increasing, so it has no duplicates. */
  lemma {:induction false} RegistersInIncreasing(bm: seq<byte>, lo: nat, hi: nat)
    ensures forall j, k :: 0 <= j < k < |RegistersIn(bm, lo, hi)| ==> RegistersIn(bm, lo, hi)[j] < RegistersIn(bm, lo, hi)[k]
    decreases hi - lo
  {
    if lo < hi {
      RegistersInIncreasing(bm, lo + 1, hi);
    }
  }

  /** Listing [lo, hi) is listing [lo, mid) and then [mid, hi). */
  lemma {:induction false} RegistersInSplit(bm: seq<byte>, lo: nat, mid: nat, hi: nat)
    requires lo <= mid <= hi
    ensures RegistersIn(bm, lo, hi) == RegistersIn(bm, lo, mid) + RegistersIn(bm, mid, hi)
    decreases mid - lo
  {
    if lo < mid {
      var head: seq<nat> := if Selects(bm, lo) then [lo] else [];
      var front, back := RegistersIn(bm, lo + 1, mid), RegistersIn(bm, mid, hi);
      assert RegistersIn(bm, lo + 1, hi) == front + back by {
        RegistersInSplit(bm, lo + 1, mid, hi);
      }
      assert RegistersIn(bm, lo, hi) == head + (front + back);
      assert RegistersIn(bm, lo, mid) == head + front;
      assert head + (front + back) == (head + front) + back;
    }
  }

  /** The number of selected registers. */
  function Popcount(bm: seq<byte>): nat {
    |SelectedRegisters(bm)|
  }

  /** `0x1 << n`, one shift at a time; MaskIsShift shows the two agree. */
  function Mask(n: nat): byte
    requires n < 8
  {
    if n == 0 then 1 else Mask(n - 1) << 1
  }

  lemma MaskIsShift(n: nat)
    requires n < 8
    ensures Mask(n) == 1 << n
  {
  }

  /** `map[p / 8] | (0x1 << p % 8)` on a three-byte map. */
  function SetRegister(bm: seq<byte>, p: nat): (r: seq<byte>)
    requires |bm| == 3 && p < 24
    ensures |r| == 3
  {
    bm[p / 8 := bm[p / 8] | Mask(p % 8)]
  }

  /** Or-ing in bit k sets bit k and keeps the others. */
  lemma BitOfOr(b: byte, k: nat, n: nat)
    requires k < 8 && n < 8
    ensures Bit(b | Mask(k), n) <==> Bit(b, n) || n == k
  {
    MaskIsShift(k);
    BitIsShift(b | (1 << k), n);
    BitIsShift(b, n);
  }

  /** Setting a register selects it and changes nothing else. */
  lemma SetRegisterSelects(bm: seq<byte>, p: nat, r: nat)
    requires |bm| == 3 && p < 24
    ensures Selects(SetRegister(bm, p), r) <==> Selects(bm, r) || r == p
  {
    if r / 8 == p / 8 && r < 24 {
      BitOfOr(bm[p / 8], p % 8, r % 8);
    }
  }
}
