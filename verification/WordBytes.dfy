/** The bytes of a 32-bit word, least significant first. */
module WordBytes {
  import opened Words

  function Scale(k: int): int {
    if k == 0 then 1 else if k == 1 then 0x100 else if k == 2 then 0x1_0000 else 0x100_0000
  }

  /** The 32-bit two's complement reading of x. */
  function ToInt(x: int): int {
    (x + 0x8000_0000) % WORD_LIMIT - 0x8000_0000
  }

  function GetByte(w: int, k: int): int {
    if k == 0 then w % 0x100
    else if k == 1 then w / 0x100 % 0x100
    else if k == 2 then w / 0x1_0000 % 0x100
    else w / 0x100_0000 % 0x100
  }

  /** d in the place of byte k. */
  function Shifted(d: int, k: int): int {
    if k == 0 then d else if k == 1 then 0x100 * d else if k == 2 then 0x1_0000 * d else 0x100_0000 * d
  }

  function PutByte(w: int, k: int, b: int): int {
    ToInt(w + Shifted(b - GetByte(w, k), k))
  }

  lemma ByteIsQuotient(w: int, k: int)
    requires 0 <= k < 4
    ensures GetByte(w, k) == w / Scale(k) % 0x100
  {
  }

  lemma ShiftedIsProduct(d: int, k: int)
    requires 0 <= k < 4
    ensures Shifted(d, k) == d * Scale(k)
  {
  }

  // ---- Adding multiples of 256 times the scale does not change a byte ----

  lemma Lift0(x: int, t: int)
    ensures GetByte(x + 0x100 * t, 0) == GetByte(x, 0)
  {
  }

  lemma Lift1(x: int, t: int)
    ensures GetByte(x + 0x1_0000 * t, 1) == GetByte(x, 1)
  {
    assert (x + 0x1_0000 * t) / 0x100 == x / 0x100 + 0x100 * t;
    assert (x / 0x100 + 0x100 * t) % 0x100 == (x / 0x100) % 0x100;
  }

  lemma Lift2(x: int, t: int)
    ensures GetByte(x + 0x100_0000 * t, 2) == GetByte(x, 2)
  {
    assert (x + 0x100_0000 * t) / 0x1_0000 == x / 0x1_0000 + 0x100 * t;
    assert (x / 0x1_0000 + 0x100 * t) % 0x100 == (x / 0x1_0000) % 0x100;
  }

  lemma Lift3(x: int, t: int)
    ensures GetByte(x + WORD_LIMIT * t, 3) == GetByte(x, 3)
  {
    assert (x + WORD_LIMIT * t) / 0x100_0000 == x / 0x100_0000 + 0x100 * t;
    assert (x / 0x100_0000 + 0x100 * t) % 0x100 == (x / 0x100_0000) % 0x100;
  }

  lemma ToIntBytes(x: int, k: int)
    requires 0 <= k < 4
    ensures GetByte(ToInt(x), k) == GetByte(x, k)
  {
    var q := (x + 0x8000_0000) / WORD_LIMIT;
    assert ToInt(x) == x - q * WORD_LIMIT;
    if k == 0 {
      Lift0(x, -q * 0x100_0000);
    } else if k == 1 {
      Lift1(x, -q * 0x1_0000);
    } else if k == 2 {
      Lift2(x, -q * 0x100);
    } else {
      Lift3(x, -q);
    }
  }

  // ---- Changing one byte within its range ----

  lemma OneByte(w: int, k: int, d: int)
    requires 0 <= k < 4 && 0 <= GetByte(w, k) + d < 0x100
    ensures (w + d * Scale(k)) / Scale(k) == w / Scale(k) + d
    ensures (w / Scale(k) + d) / 0x100 == w / Scale(k) / 0x100
    ensures (w / Scale(k) + d) % 0x100 == GetByte(w, k) + d
  {
  }

  lemma Nest(w: int, k: int, j: int)
    requires 0 <= k < j < 4
    ensures w / Scale(j) == w / Scale(k) / 0x100 / Scale(j - k - 1)
  {
    var v := w / Scale(k);
    if j == k + 1 {
      assert v / 0x100 / 1 == v / 0x100;
    }
  }

  lemma HigherByte(w: int, k: int, d: int, j: int)
    requires 0 <= k < j < 4 && 0 <= GetByte(w, k) + d < 0x100
    ensures GetByte(w + d * Scale(k), j) == GetByte(w, j)
  {
    OneByte(w, k, d);
    Nest(w, k, j);
    Nest(w + d * Scale(k), k, j);
    ByteIsQuotient(w, j);
    ByteIsQuotient(w + d * Scale(k), j);
  }

  lemma LowerByte(w: int, k: int, d: int, j: int)
    requires 0 <= j < k < 4
    ensures GetByte(w + d * Scale(k), j) == GetByte(w, j)
  {
    if j == 0 {
      Lift0(w, d * Scale(k - 1));
    } else if j == 1 {
      Lift1(w, d * Scale(k - 2));
    } else {
      Lift2(w, d);
    }
  }

  /** Storing one byte of a word changes that byte alone. */
  lemma GetPut(w: int, k: int, b: int, j: int)
    requires 0 <= k < 4 && 0 <= j < 4 && 0 <= b < 0x100
    ensures GetByte(PutByte(w, k, b), j) == if j == k then b else GetByte(w, j)
  {
    var d := b - GetByte(w, k);
    ShiftedIsProduct(d, k);
    ToIntBytes(w + d * Scale(k), j);
    ByteIsQuotient(w + d * Scale(k), j);
    if j < k {
      LowerByte(w, k, d, j);
    } else if j == k {
      OneByte(w, k, d);
    } else {
      HigherByte(w, k, d, j);
    }
  }
}
