/** Shared value types: the 8-bit channel type OpenCV and PIL store samples in,
    and the Option/Result wrappers used for the script's error exits. */
module Common {

  /** One 8-bit channel or grey sample (numpy uint8). */
  newtype byte = x: int | 0 <= x < 256

  datatype Option<+T> = None | Some(value: T)

  datatype Result<+R, +E> = Success(value: R) | Failure(error: E)

  function Max(a: int, b: int): (m: int)
    ensures m >= a && m >= b
    ensures m == a || m == b
  {
    if a >= b then a else b
  }

  function Clamp(v: int, lo: int, hi: int): (c: int)
    requires lo <= hi
    ensures lo <= c <= hi
    ensures lo <= v <= hi ==> c == v
  {
    if v < lo then lo else if v > hi then hi else v
  }
}

/** Small facts of non-linear integer arithmetic used by the layout proofs. */
module Arith {

  lemma MulMonotone(a: int, b: int, c: int)
    requires a <= b && c >= 0
    ensures a * c <= b * c
  {
    assert b * c - a * c == (b - a) * c;
  }

  /** A value in [q * c, q * c + c) has quotient q. */
  lemma DivOfBlock(p: int, c: int, q: int)
    requires c > 0
    requires q * c <= p < q * c + c
    ensures p / c == q && p % c == p - q * c
  {
    var q0 := p / c;
    assert p == q0 * c + p % c;
    if q0 > q {
      MulMonotone(q + 1, q0, c);
    } else if q0 < q {
      MulMonotone(q0 + 1, q, c);
    }
  }

  /** Row-major numbering: cell (x, y) of a w-wide grid is number y * w + x. */
  lemma RowMajor(y: int, x: int, w: int, h: int)
    requires 0 <= y < h && 0 <= x < w
    ensures 0 <= y * w + x < h * w
    ensures (y * w + x) / w == y && (y * w + x) % w == x
  {
    MulMonotone(y + 1, h, w);
    assert (y + 1) * w == y * w + w;
    assert 0 <= y * w;
    DivOfBlock(y * w + x, w, y);
  }

  /** ... and every number below h * w is some cell. */
  lemma RowMajorInverse(k: int, w: int, h: int)
    requires 0 <= k < h * w && w > 0
    ensures 0 <= k / w < h && 0 <= k % w < w
    ensures (k / w) * w + k % w == k
  {
    if k / w >= h {
      MulMonotone(h, k / w, w);
    }
  }
}
