/**
 * Shared vocabulary of the model: the optional and fallible values Rust
 * spells `Option` and `Result`, the three-way `Ordering`, bytes, runs of
 * spaces, decimal rendering of unsigned integers (what `format!("{}", n)`
 * produces) and the standard library's `binary_search_by`.
 */
module Common {

  datatype Option<+T> = None | Some(value: T)

  datatype Result<+T, +E> = Ok(value: T) | Err(error: E)

  /** `std::cmp::Ordering`. */
  datatype Ordering = Less | Equal | Greater

  newtype byte = x: int | 0 <= x < 256

  function Max(a: int, b: int): int { if a >= b then a else b }

  function Min(a: int, b: int): int { if a <= b then a else b }

  /** Three-way comparison of integers, as `Ord::cmp`. */
  function Cmp(a: int, b: int): (r: Ordering)
    ensures r == Less <==> a < b
    ensures r == Equal <==> a == b
    ensures r == Greater <==> a > b
  {
    if a < b then Less else if a == b then Equal else Greater
  }

  /** `" ".repeat(n)`. */
  function Spaces(n: nat): (s: string)
    ensures |s| == n
    ensures forall i :: 0 <= i < n ==> s[i] == ' '
  {
    seq(n, _ => ' ')
  }

  // ---------------------------------------------------------------------
  // Decimal rendering of unsigned integers.

  predicate IsDigit(c: char) { '0' <= c <= '9' }

  predicate AllDigits(s: string) { forall i :: 0 <= i < |s| ==> IsDigit(s[i]) }

  function DigitChar(d: nat): (c: char)
    requires d < 10
    ensures IsDigit(c) && c as int - '0' as int == d
  {
    "0123456789"[d]
  }

  /** The text `format!("{}", n)` produces for an unsigned `n`. */
  function Decimal(n: nat): string
    decreases n
  {
    if n < 10 then [DigitChar(n)] else Decimal(n / 10) + [DigitChar(n % 10)]
  }

  /** The value of a non-empty run of decimal digits. */
  function DigitsValue(s: string): nat
    requires AllDigits(s)
  {
    if s == [] then 0
    else DigitsValue(s[..|s| - 1]) * 10 + (s[|s| - 1] as int - '0' as int)
  }

  /** Reads back what `Decimal` writes; anything but a non-empty digit run is refused. */
  function ParseDecimal(s: string): Option<nat>
  {
    if s != [] && AllDigits(s) then Some(DigitsValue(s)) else None
  }

  /** A rendered number is a non-empty run of digits with no superfluous leading zero. */
  lemma {:induction false} DecimalWellFormed(n: nat)
    ensures |Decimal(n)| >= 1 && AllDigits(Decimal(n))
    ensures |Decimal(n)| > 1 ==> Decimal(n)[0] != '0'
    decreases n
  {
    if n >= 10 {
      DecimalWellFormed(n / 10);
      var s := Decimal(n / 10);
      assert Decimal(n) == s + [DigitChar(n % 10)];
      assert Decimal(n)[0] == s[0];
      if |s| == 1 {
        assert s == [DigitChar(n / 10)];
        assert n / 10 != 0;
      }
    }
  }

  /** Rendering then reading a number gives the number back. */
  lemma {:induction false} DecimalRoundTrip(n: nat)
    ensures ParseDecimal(Decimal(n)) == Some(n)
    decreases n
  {
    DecimalWellFormed(n);
    if n >= 10 {
      DecimalRoundTrip(n / 10);
      DecimalWellFormed(n / 10);
      var s := Decimal(n);
      assert s[..|s| - 1] == Decimal(n / 10);
      assert s[|s| - 1] == DigitChar(n % 10);
      assert DigitsValue(s) == DigitsValue(Decimal(n / 10)) * 10 + n % 10;
    } else {
      assert Decimal(n) == [DigitChar(n)];
      assert Decimal(n)[..0] == [];
    }
  }

  // ---------------------------------------------------------------------
  // `<[T]>::binary_search_by`.

  function Rank(o: Ordering): nat
  {
    match o
    case Less => 0
    case Equal => 1
    case Greater => 2
  }

  /** The comparator's answers are ordered Less, then Equal, then Greater along `s`. */
  ghost predicate Partitioned<T>(s: seq<T>, f: T -> Ordering)
  {
    forall i, j :: 0 <= i < j < |s| ==> Rank(f(s[i])) <= Rank(f(s[j]))
  }

  /**
   * The standard library's binary search: `Ok(i)` only at an element the
   * comparator calls `Equal`; on a partitioned sequence `Ok` exactly when
   * such an element exists, and otherwise `Err(i)` with `i` the insertion
   * point.
   */
  method BinarySearchBy<T>(s: seq<T>, f: T -> Ordering) returns (r: Result<nat, nat>)
    ensures r.Ok? ==> r.value < |s| && f(s[r.value]) == Equal
    ensures Partitioned(s, f) ==>
      (r.Ok? <==> exists i :: 0 <= i < |s| && f(s[i]) == Equal)
    ensures Partitioned(s, f) && r.Err? ==>
      r.error <= |s|
      && (forall i :: 0 <= i < r.error ==> f(s[i]) == Less)
      && (forall i :: r.error <= i < |s| ==> f(s[i]) == Greater)
  {
    var size := |s|;
    var left, right := 0, |s|;
    while left < right
      invariant 0 <= left <= right <= |s|
      invariant size == right - left
      invariant Partitioned(s, f) ==> forall i :: 0 <= i < left ==> f(s[i]) == Less
      invariant Partitioned(s, f) ==> forall i :: right <= i < |s| ==> f(s[i]) == Greater
    {
      var mid := left + size / 2;
      var cmp := f(s[mid]);
      if cmp == Less {
        left := mid + 1;
      }
      if cmp == Greater {
        right := mid;
      }
      if cmp == Equal {
        return Ok(mid);
      }
      size := right - left;
    }
    return Err(left);
  }
}
