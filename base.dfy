/** Shared vocabulary of the editor model: optional results, bytes, and the
    integer arithmetic of C++ (division and remainder truncate toward zero). */
module Base {

  /** A value that may be absent; stands for a pointer that may be null or
      an access that fails. */
  datatype Option<+T> = None | Some(value: T)

  /** An unsigned 8-bit value (`Uint8`), as stored in the pixel arrays. */
  type Byte = b: int | 0 <= b < 256

  /** The byte that `memset` stores when passed the int `c`: its value
      converted to `unsigned char`, that is, reduced modulo 256. */
  function ToByte(c: int): (b: Byte)
    ensures 0 <= c < 256 ==> b == c
    ensures (c - b) % 256 == 0
  {
    c % 256
  }

  /** C++ `a / b` for a positive divisor: the quotient truncated toward zero. */
  function TruncDiv(a: int, b: int): (q: int)
    requires b > 0
    ensures a >= 0 ==> 0 <= a - q * b < b
    ensures a < 0 ==> -b < a - q * b <= 0
  {
    if a >= 0 then a / b else -((-a) / b)
  }

  /** C++ `a % b` for a positive divisor: the remainder takes the sign of `a`. */
  function TruncRem(a: int, b: int): (r: int)
    requires b > 0
    ensures a >= 0 ==> 0 <= r < b
    ensures a < 0 ==> -b < r <= 0
    ensures a == TruncDiv(a, b) * b + r
  {
    a - TruncDiv(a, b) * b
  }

  /** The quotient of a non-negative number is non-negative and no larger. */
  lemma QuotientBounds(a: int, b: int)
    requires b > 0
    ensures a >= 0 ==> 0 <= TruncDiv(a, b) <= a
  {
    var q := TruncDiv(a, b);
    if a >= 0 {
      if q < 0 {
        MulAtLeast(-q, b);
        assert false;
      }
      MulAtLeast(b, q);
    }
  }

  /** A product with a factor of at least one is at least the other factor. */
  lemma {:induction false} MulAtLeast(a: int, b: int)
    requires a >= 1 && b >= 0
    ensures a * b >= b
  {
    if a > 1 {
      MulAtLeast(a - 1, b);
      assert a * b == (a - 1) * b + b;
    }
  }

  /** Quotient and remainder are determined by any decomposition
      `p == w * q + r` with `0 <= r < w`. */
  lemma DivModUnique(p: int, w: int, q: int, r: int)
    requires w > 0 && 0 <= r < w && p == w * q + r
    ensures p / w == q && p % w == r
  {
    var q', r' := p / w, p % w;
    assert p == w * q' + r';
    assert w * (q - q') == r' - r;
    if q - q' >= 1 {
      MulAtLeast(q - q', w);
      assert false;
    } else if q' - q >= 1 {
      MulAtLeast(q' - q, w);
      assert false;
    }
  }

  /** Rows of width `w` below row `h` end before `w * h`. */
  lemma RowBelow(x: int, y: int, w: int, h: int)
    requires 0 <= x < w && 0 <= y < h
    ensures 0 <= x + w * y && x + w * y + 1 <= w * h
  {
    MulAtLeast(h - y, w);
    assert w * h == w * y + w * (h - y);
  }
}
