/** Shared vocabulary of the three simulators: optional values, Python's integer
    division, and the result record of a paged address translation. */
module Common {

  datatype Option<T> = None | Some(value: T)
  {
    function GetOr(default: T): T
    {
      match this
      case Some(v) => v
      case None => default
    }
  }

  function Min(a: int, b: int): int
  {
    if a <= b then a else b
  }

  /** Python's `a // b`: the quotient rounded toward negative infinity.
      Dafny's `/` is Euclidean, so the two differ when `b < 0`. */
  function FloorDiv(a: int, b: int): int
    requires b != 0
  {
    if b > 0 || a % b == 0 then a / b else a / b - 1
  }

  /** Python's `a % b`: the remainder takes the sign of the divisor. */
  function FloorMod(a: int, b: int): (r: int)
    requires b != 0
    ensures b > 0 ==> 0 <= r < b
    ensures b < 0 ==> b < r <= 0
  {
    if b > 0 || a % b == 0 then a % b else a % b + b
  }

  /** Quotient and remainder recombine to the dividend, whatever the signs. */
  lemma FloorDivMod(a: int, b: int)
    requires b != 0
    ensures b * FloorDiv(a, b) + FloorMod(a, b) == a
  {
    if b < 0 && a % b != 0 {
      calc {
        b * FloorDiv(a, b) + FloorMod(a, b);
        b * (a / b - 1) + (a % b + b);
        b * (a / b) + a % b;
        a;
      }
    }
  }

  /** A multiple of a positive number strictly between -b and b is zero. */
  lemma SmallMultipleIsZero(b: int, k: int)
    requires b > 0 && -b < b * k < b
    ensures k == 0
  {
  }

  /** The floor quotient and remainder are the unique pair that recombines to
      the dividend with the remainder in the divisor's range. */
  lemma FloorDivModUnique(a: int, b: int, q: int, r: int)
    requires b > 0 && 0 <= r < b && a == b * q + r
    ensures FloorDiv(a, b) == q && FloorMod(a, b) == r
  {
    var q', r' := a / b, a % b;
    assert a == b * q' + r';
    assert b * (q - q') == r' - r;
    SmallMultipleIsZero(b, q - q');
  }

  /** The outcome of translating a paged address: a physical address unless the
      page is not resident, the offset within the page, and the fault flag. */
  datatype Translation = Translation(physicalAddress: Option<int>, offset: int, pageFault: bool)
}
