/** Machine-level vocabulary shared by the ESC telemetry model: C integer
    widths, big-endian field extraction, C's truncating division and the
    `constrain` clamp used by the flight code. */
module Common {

  /** One byte on the wire (`uint8_t`). Bit-vectors make the CRC shifts exact. */
  type byte = bv8

  type uint8 = x: int | 0 <= x < 0x100
  type uint16 = x: int | 0 <= x < 0x1_0000
  type uint32 = x: int | 0 <= x < 0x1_0000_0000

  /** A result that may be NULL. */
  datatype Option<+T> = None | Some(value: T)

  /** `++counter` on a `uint32_t`: adds one, wrapping to 0 past 2^32 - 1. */
  function Inc32(x: uint32): (r: uint32)
    ensures (r - x) % 0x1_0000_0000 == 1
    ensures r != 0 ==> r == x + 1
  {
    if x == 0xFFFF_FFFF then 0 else x + 1
  }

  /** `hi << 8 | lo` with both operands promoted to `int`. */
  function BigEndian16(hi: byte, lo: byte): (r: uint16)
    ensures r / 0x100 == hi as int
    ensures r % 0x100 == lo as int
  {
    hi as int * 0x100 + lo as int
  }

  /** The successor of a residue, reduced again: it wraps to 0 exactly at `n`. */
  lemma SuccessorMod(x: int, n: int)
    requires 0 <= x < n
    ensures x + 1 < n ==> (x + 1) % n == x + 1
    ensures x + 1 == n ==> (x + 1) % n == 0
  {
  }

  lemma MulAtLeast(d: int, n: int)
    requires d >= 1 && n > 0
    ensures d * n >= n
  {
    assert d * n == (d - 1) * n + n;
    assert (d - 1) * n >= 0;
  }

  /** A quotient-remainder decomposition is the one `%` computes. */
  lemma ModUnique(a: int, n: int, q: int, r: int)
    requires n > 0 && 0 <= r < n && a == q * n + r
    ensures a % n == r
  {
    var q2 := a / n;
    var r2 := a % n;
    assert a == q2 * n + r2;
    assert q * n - q2 * n == r2 - r;
    assert (q - q2) * n == q * n - q2 * n;
    if q > q2 {
      MulAtLeast(q - q2, n);
    } else if q < q2 {
      MulAtLeast(q2 - q, n);
    }
  }

  /** Counting modulo `n` one step at a time. */
  lemma ModNext(k: nat, n: nat)
    requires n > 0
    ensures ((k % n) + 1) % n == (k + 1) % n
  {
    var q := k / n;
    var r := k % n;
    assert k == q * n + r;
    if r + 1 < n {
      ModUnique(k + 1, n, q, r + 1);
      ModUnique(r + 1, n, 0, r + 1);
    } else {
      ModUnique(k + 1, n, q + 1, 0);
      ModUnique(r + 1, n, 1, 0);
    }
  }

  /** Fewer than `n` steps never return to the same residue. */
  lemma ModShiftDistinct(a: nat, d: nat, n: nat)
    requires 0 < d < n
    ensures (a + d) % n != a % n
  {
    var q := a / n;
    var r := a % n;
    assert a == q * n + r;
    if r + d < n {
      ModUnique(a + d, n, q, r + d);
    } else {
      ModUnique(a + d, n, q + 1, r + d - n);
    }
  }

  /** Every residue is reached within `n` steps of any starting point. */
  lemma ModReach(a: nat, m: nat, n: nat)
    requires m < n
    ensures var t := if m >= a % n then m - a % n else m + n - a % n;
            0 <= t < n && (a + t) % n == m
  {
    var q := a / n;
    var r := a % n;
    assert a == q * n + r;
    if m >= r {
      ModUnique(a + (m - r), n, q, m);
    } else {
      ModUnique(a + (m + n - r), n, q + 1, m);
    }
  }

  /** `b0 << 16 | b1 << 8 | b2` with all operands promoted to `int`: the
      high two bytes form a 16-bit big-endian value above the low byte. */
  function BigEndian24(b0: byte, b1: byte, b2: byte): (r: nat)
    ensures r < 0x100_0000
    ensures r / 0x100 == BigEndian16(b0, b1)
    ensures r % 0x100 == b2 as int
  {
    BigEndian16(b0, b1) * 0x100 + b2 as int
  }

  function Max(a: int, b: int): (m: int)
    ensures a <= m && b <= m
    ensures m == a || m == b
  {
    if a < b then b else a
  }

  /** C's `/` on `int`, which truncates toward zero (Dafny's `/` is Euclidean). */
  function CDiv(a: int, d: int): (q: int)
    requires d > 0
    ensures a >= 0 ==> q * d <= a < q * d + d
    ensures a < 0 ==> q * d - d < a <= q * d
  {
    if a >= 0 then a / d else -((-a) / d)
  }

  /** Truncation is symmetric about zero, unlike Euclidean division. */
  lemma CDivNegate(a: int, d: int)
    requires d > 0
    ensures CDiv(-a, d) == -CDiv(a, d)
  {
  }

  /** Dividing a non-negative number by a positive one never grows it. */
  lemma DivBelow(m: int, d: int)
    requires m >= 0 && d > 0
    ensures 0 <= m / d <= m
  {
    var q := m / d;
    var r := m % d;
    assert m == q * d + r;
    if q >= 1 {
      MulAtLeast(q, d);
      MulAtLeast(d, q);
    }
  }

  /** Truncating division never grows the magnitude nor flips the sign. */
  lemma CDivShrinks(a: int, d: int)
    requires d > 0
    ensures a >= 0 ==> 0 <= CDiv(a, d) <= a
    ensures a < 0 ==> a <= CDiv(a, d) <= 0
  {
    DivBelow(if a >= 0 then a else -a, d);
  }

  /** `constrain(amt, low, high)` of common/maths.h. */
  function Constrain(amt: int, low: int, high: int): (r: int)
    requires low <= high
    ensures low <= r <= high
    ensures low <= amt <= high ==> r == amt
    ensures amt < low ==> r == low
    ensures amt > high ==> r == high
  {
    if amt < low then low else if amt > high then high else amt
  }
}
