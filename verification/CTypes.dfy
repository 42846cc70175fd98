/** C integer types, where a value that does not fit keeps its low bits. */
module CTypes {
  const INT_MAX: int := 0x7fff_ffff
  const INT_MIN: int := -0x8000_0000
  const UINT32: int := 0x1_0000_0000
  const INT64_MAX: int := 0x7fff_ffff_ffff_ffff
  const INT64_MIN: int := -0x8000_0000_0000_0000
  const UINT64: int := 0x1_0000_0000_0000_0000

  type cint = x: int | INT_MIN <= x <= INT_MAX

  /** A number converted to unsigned int. */
  function Low32(n: int): (w: nat)
    ensures w < UINT32 && (0 <= n < UINT32 ==> w == n)
  {
    n % UINT32
  }

  /** A number converted to int. */
  function AsInt(n: int): (i: cint)
    ensures INT_MIN <= n <= INT_MAX ==> i == n
  {
    var w := Low32(n);
    if w < 0x8000_0000 then w else w - UINT32
  }

  /** A conversion gives the one number of the type that differs from `n` by a
      multiple of the type's range. */
  lemma Conversions(n: int)
    ensures 0 <= Low32(n) < 0x1_0000_0000 && (n - Low32(n)) % 0x1_0000_0000 == 0
    ensures -0x8000_0000 <= AsInt(n) < 0x8000_0000 && (n - AsInt(n)) % 0x1_0000_0000 == 0
    ensures -0x8000_0000_0000_0000 <= AsLongLong(n) < 0x8000_0000_0000_0000
    ensures (n - AsLongLong(n)) % 0x1_0000_0000_0000_0000 == 0
  {
  }

  /** Sums may be converted at every step or once at the end. */
  lemma AsIntAdd(a: int, b: int)
    ensures AsInt(AsInt(a) + b) == AsInt(a + b)
  {
    var k := a / UINT32;
    assert a == k * UINT32 + Low32(a);
    assert AsInt(a) == a - k * UINT32 || AsInt(a) == a - (k + 1) * UINT32;
    if AsInt(a) == a - k * UINT32 { Low32Shift(a + b, -k); } else { Low32Shift(a + b, -k - 1); }
  }

  lemma Low32Shift(n: int, k: int)
    ensures Low32(n + k * UINT32) == Low32(n)
  {
  }

  /** A number converted to long long. */
  function AsLongLong(n: int): (v: int)
    ensures INT64_MIN <= v <= INT64_MAX && (INT64_MIN <= n <= INT64_MAX ==> v == n)
  {
    var w := n % UINT64;
    if w <= INT64_MAX then w else w - UINT64
  }

  /** The conversion moves a number by a multiple of 2^64. */
  lemma AsLongLongShift(n: int) returns (k: int)
    ensures AsLongLong(n) == n + k * UINT64
  {
    k := -(n / UINT64);
    if n % UINT64 > INT64_MAX { k := k - 1; }
  }

  lemma AsLongLongSame(n: int, k: int)
    ensures AsLongLong(n + k * UINT64) == AsLongLong(n)
  {
  }

  /** Products and sums may be converted at every step or once at the end. */
  lemma AsLongLongStep(a: int, m: int, b: int)
    ensures AsLongLong(AsLongLong(a) * m + b) == AsLongLong(a * m + b)
  {
    hide AsLongLong;
    var k := AsLongLongShift(a);
    assert (a + k * UINT64) * m + b == a * m + b + k * m * UINT64;
    AsLongLongSame(a * m + b, k * m);
  }

  /** Converting a size can only make it smaller. */
  lemma AsIntBelow(n: nat)
    ensures AsInt(n) <= n && (n > INT_MAX ==> AsInt(n) < n)
  {
  }
}
