/** The value of a byte as an integer and back; kept apart from the
    codec so that each fact is proved on its own. */
module ByteValues {
  /** The byte whose value is v, built one bit at a time from the least
      significant end: the `as u8` of a value below 256. */
  function ByteOf(v: nat): bv8
    requires v < 256
  {
    if v == 0 then 0 else (ByteOf(v / 2) << 1) | (if v % 2 == 1 then 1 else 0)
  }

  lemma ByteRange(b: bv8)
    ensures 0 <= b as int < 256
  {
  }

  /** A byte survives the trip through its value. */
  lemma ByteBack(b: bv8)
    ensures (b as int) as bv8 == b
  {
  }

  /** Shifting in one more low bit doubles the value and adds the bit. */
  lemma ShiftValue(b: bv8, c: bv8)
    requires b < 128 && c < 2
    ensures ((b << 1) | c) as int == 2 * (b as int) + c as int
  {
  }

  /** ByteOf(v) has the value v. */
  lemma {:induction false} ByteOfValue(v: nat)
    requires v < 256
    ensures ByteOf(v) as int == v
  {
    if v > 0 {
      ByteOfValue(v / 2);
      var c: bv8 := if v % 2 == 1 then 1 else 0;
      assert ByteOf(v / 2) < 128;
      ShiftValue(ByteOf(v / 2), c);
    }
  }

  /** Every byte is ByteOf of its value. */
  lemma ByteOfBack(b: bv8)
    ensures ByteOf(b as int) == b
  {
    ByteRange(b);
    ByteOfValue(b as int);
    ByteBack(b);
    ByteBack(ByteOf(b as int));
  }

  lemma SplitLow(f: nat, x: nat)
    requires x < 256
    ensures (f * 256 + x) / 256 == f && (f * 256 + x) % 256 == x
  {
  }

  /** Appending byte b to a big-endian value f: dividing by 256 gives f
      back and the remainder is b's value. */
  lemma LowByte(f: nat, b: bv8)
    ensures (f * 256 + b as int) / 256 == f
    ensures ByteOf((f * 256 + b as int) % 256) == b
  {
    ByteRange(b);
    SplitLow(f, b as int);
    ByteOfBack(b);
  }
}
