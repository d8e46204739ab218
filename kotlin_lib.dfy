/** The pieces of the Kotlin runtime that the expandable creator relies on:
    the exceptions it lets escape, 32-bit `Int` arithmetic (`shl`, `shr`,
    truncating `/`) and `List.indexOf`. */
module KotlinLib {

  datatype Option<+T> = None | Some(value: T)

  /** The unchecked exceptions the creator can throw. */
  datatype Exception =
    | NullPointer       // NullPointerException, raised explicitly by the creator
    | IndexOutOfBounds  // IndexOutOfBoundsException, from the creator or a MutableList
    | Arithmetic        // ArithmeticException: Int division by zero

  /** A call that either returns normally or throws. */
  datatype Result<+T> = Ok(value: T) | Err(error: Exception)

  /** A call that returns `Unit` or throws. */
  datatype Outcome = Pass | Fail(error: Exception)

  const IntModulus: int := 0x1_0000_0000

  /** The values of Kotlin's 32-bit signed `Int`. */
  predicate IsInt(x: int) {
    -0x8000_0000 <= x < 0x8000_0000
  }

  function Pow2(k: nat): (r: nat)
    ensures r >= 1
  {
    if k == 0 then 1 else 2 * Pow2(k - 1)
  }

  /** Two's-complement wrap-around of an exact integer into the `Int` range. */
  function Wrap(x: int): (r: int)
    ensures IsInt(r)
    ensures (x - r) % IntModulus == 0
    ensures IsInt(x) ==> r == x
  {
    (x + 0x8000_0000) % IntModulus - 0x8000_0000
  }

  /** `x shl k` on `Int`, for a shift distance below 32. */
  function Shl(x: int, k: nat): (r: int)
    requires k < 32
    ensures IsInt(r)
    ensures IsInt(x * Pow2(k)) ==> r == x * Pow2(k)
  {
    Wrap(x * Pow2(k))
  }

  /** `x shr k` on `Int`: the arithmetic shift rounds toward negative
      infinity, which is what Dafny's `/` does for a positive divisor. */
  function Shr(x: int, k: nat): (r: int)
    requires k < 32
    ensures Pow2(k) * r <= x < Pow2(k) * r + Pow2(k)
  {
    x / Pow2(k)
  }

  function Abs(x: int): nat {
    if x < 0 then -x else x
  }

  /** Kotlin's `a / b` on `Int`: rounds toward zero, throws on a zero
      divisor, and wraps the one overflowing case `Int.MIN_VALUE / -1`. */
  function IntDiv(a: int, b: int): (r: Result<int>)
    requires IsInt(a) && IsInt(b)
    ensures r.Err? <==> b == 0
    ensures r.Err? ==> r.error == Arithmetic
    ensures r.Ok? && 0 <= a && 0 < b ==> r.value == a / b
  {
    if b == 0 then Err(Arithmetic)
    else
      var q := Abs(a) / Abs(b);
      QuotientBound(Abs(a), Abs(b));
      Ok(Wrap(if (a < 0) == (b < 0) then q else -q))
  }

  lemma QuotientBound(n: nat, d: nat)
    requires d >= 1
    ensures 0 <= n / d <= n
  {
    var q := n / d;
    assert q * d <= n;
    MulAtLeast(q, d);
  }

  lemma {:induction false} MulAtLeast(q: nat, d: nat)
    requires d >= 1
    ensures q <= q * d
  {
    if d > 1 {
      MulAtLeast(q, d - 1);
      assert q * d == q * (d - 1) + q;
    }
  }

  /** `List.indexOf`: the first position holding `x`, or -1. */
  function IndexOf<T(==)>(s: seq<T>, x: T): (r: int)
    ensures -1 <= r < |s|
    ensures r == -1 <==> x !in s
    ensures r >= 0 ==> s[r] == x && x !in s[..r]
  {
    if s == [] then -1
    else if s[0] == x then 0
    else
      var k := IndexOf(s[1..], x);
      if k == -1 then -1
      else
        assert s[..k + 1] == [s[0]] + s[1..][..k];
        k + 1
  }

  /** `MutableList.remove(element)`: drops the first occurrence of `x`, if
      any. */
  function RemoveFirst<T(==)>(s: seq<T>, x: T): (r: seq<T>)
    ensures x in s ==> |r| == |s| - 1
    ensures x !in s ==> r == s
  {
    var at := IndexOf(s, x);
    if at < 0 then s
    else
      assert s == s[..at] + [x] + s[at + 1..];
      s[..at] + s[at + 1..]
  }

  /** `remove` takes out the first occurrence of `x` and keeps the order of
      the rest: what comes before it stays put, what follows moves up by
      one. */
  lemma RemoveFirstKeepsOrder<T>(s: seq<T>, x: T)
    requires x in s
    ensures var at := IndexOf(s, x);
      && RemoveFirst(s, x)[..at] == s[..at]
      && RemoveFirst(s, x)[at..] == s[at + 1..]
  {
  }

  /** `remove` takes out exactly one copy of `x` when there is one, and
      leaves every other element's count alone. */
  lemma RemoveFirstCounts<T>(s: seq<T>, x: T)
    ensures multiset(RemoveFirst(s, x)) + (if x in s then multiset{x} else multiset{}) == multiset(s)
  {
    if x in s {
      var at := IndexOf(s, x);
      assert s == s[..at] + [x] + s[at + 1..];
    }
  }
}
