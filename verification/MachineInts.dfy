/** Machine integers: limits, and wrap-around written out. */
module MachineInts {

  const I32_LIMIT: int := 0x8000_0000
  const I64_LIMIT: int := 0x8000_0000_0000_0000

  type Byte = b: int | 0 <= b < 256
  type I32 = x: int | -I32_LIMIT <= x < I32_LIMIT
  type I64 = x: int | -I64_LIMIT <= x < I64_LIMIT

  /** The first number that an unsigned word cannot hold. */
  const WORD: nat := 0x1_0000_0000_0000_0000

  /** Addresses handed out by the system lie in the lower half of the address space. */
  const ADDRESS_LIMIT: nat := 0x8000_0000_0000_0000

  /** The value an i32 holds after a wrapping computation of x. */
  function Wrap32(x: int): (w: I32) {
    (x + I32_LIMIT) % (2 * I32_LIMIT) - I32_LIMIT
  }

  lemma SmallDoesNotWrap(x: int)
    requires -I32_LIMIT <= x < I32_LIMIT
    ensures Wrap32(x) == x
  {
  }

  lemma WrapShift(x: int, m: int)
    ensures Wrap32(x + 2 * I32_LIMIT * m) == Wrap32(x)
  {
  }

  /** Wrapping an operand first does not change a wrapped product. */
  lemma WrapProduct(x: int, y: int)
    ensures Wrap32(Wrap32(x) * y) == Wrap32(x * y)
  {
    var w := 2 * I32_LIMIT;
    var q := (x + I32_LIMIT) / w;
    assert Wrap32(x) == x - w * q;
    assert Wrap32(x) * y == x * y + w * (-q * y) by {
      assert (x - w * q) * y == x * y - (w * q) * y;
      assert (w * q) * y == w * (q * y);
    }
    WrapShift(x * y, -q * y);
  }

  /** The value an i64 holds after a wrapping computation of x. */
  function Wrap64(x: int): (w: I64) {
    (x + I64_LIMIT) % (2 * I64_LIMIT) - I64_LIMIT
  }

  lemma SmallDoesNotWrap64(x: int)
    requires -I64_LIMIT <= x < I64_LIMIT
    ensures Wrap64(x) == x
  {
  }

  lemma Wrap64Shift(x: int, m: int)
    ensures Wrap64(x + 2 * I64_LIMIT * m) == Wrap64(x)
  {
  }

  lemma Wrap64Product(x: int, y: int)
    ensures Wrap64(Wrap64(x) * y) == Wrap64(x * y)
  {
    var w := 2 * I64_LIMIT;
    var q := (x + I64_LIMIT) / w;
    assert Wrap64(x) == x - w * q;
    assert Wrap64(x) * y == x * y + w * (-q * y) by {
      assert (x - w * q) * y == x * y - (w * q) * y;
      assert (w * q) * y == w * (q * y);
    }
    Wrap64Shift(x * y, -q * y);
  }
}
