/**
 * Small shared vocabulary: an Option type, C integer division, the 32-bit
 * limits the tasklist relies on, and the signed/unsigned conversions that C
 * performs when a `gint` is stored in a `guint` and back.
 */
module Base {

  datatype Option<T> = None | Some(value: T)

  /** G_MAXINT, the largest `gint`. */
  const IntMax: int := 0x7fff_ffff
  /** 2^32, the modulus of `guint` arithmetic. */
  const U32Modulus: int := 0x1_0000_0000

  type Int32 = x: int | -0x8000_0000 <= x <= 0x7fff_ffff
  type U32 = x: int | 0 <= x < 0x1_0000_0000

  /** One byte of a pixel buffer (`guchar`). */
  newtype Byte = x: int | 0 <= x < 256

  function Min(a: int, b: int): int { if a < b then a else b }
  function Max(a: int, b: int): int { if a < b then b else a }
  function Abs(a: int): nat { if a < 0 then -a else a }

  /**
   * C's `/` on `int`: the quotient is truncated toward zero (Dafny's own `/`
   * is Euclidean and differs on negative operands).
   */
  function CDiv(a: int, b: int): (q: int)
    requires b != 0
    ensures a >= 0 && b > 0 ==> q == a / b
  {
    var m := Abs(a) / Abs(b);
    if (a < 0) != (b < 0) then -m else m
  }

  /** The `guint` that a `gint` becomes when it is stored in an unsigned variable. */
  function ToU32(x: Int32): (u: U32)
    ensures x >= 0 ==> u == x
    ensures x < 0 ==> u == x + U32Modulus
  {
    x % U32Modulus
  }

  /** The `gint` that a `guint` becomes when it is passed where a signed value is expected. */
  function FromU32(u: U32): (x: Int32)
    ensures ToU32(x) == u
  {
    if u <= IntMax then u else u - U32Modulus
  }

  /** `guint` increment, which wraps at 2^32. */
  function IncU32(u: U32): (r: U32)
    ensures u < U32Modulus - 1 ==> r == u + 1
    ensures u == U32Modulus - 1 ==> r == 0
  {
    (u + 1) % U32Modulus
  }

  /** `guint` subtraction, which wraps at 2^32. */
  function SubU32(a: U32, b: U32): (r: U32)
    ensures a >= b ==> r == a - b
    ensures a < b ==> r == a - b + U32Modulus
  {
    (a - b) % U32Modulus
  }

  /**
   * A list built by prepending each element in turn (g_list_prepend in a
   * loop) holds the elements in reverse order.
   */
  function Reversed<T>(s: seq<T>): (r: seq<T>)
    ensures |r| == |s|
  {
    if s == [] then [] else [s[|s| - 1]] + Reversed(s[..|s| - 1])
  }

  lemma ReversedSnoc<T>(s: seq<T>, x: T)
    ensures Reversed(s + [x]) == [x] + Reversed(s)
  {
    assert (s + [x])[..|s|] == s;
  }

  /** Reversal keeps every element, as often as it occurs. */
  lemma {:induction false} ReversedMultiset<T>(s: seq<T>)
    ensures multiset(Reversed(s)) == multiset(s)
  {
    if s != [] {
      ReversedMultiset(s[..|s| - 1]);
      assert s == s[..|s| - 1] + [s[|s| - 1]];
    }
  }

  lemma FromToU32(x: Int32)
    ensures FromU32(ToU32(x)) == x
  {
  }
}
