/**
 * `CursorPos`: the row/column cursor of the cursor-addressed board. Rows
 * and columns count from 1, as in ECMA-48; setting the cursor clamps it
 * to the board, moving it back stops at the first row or column, and
 * moving it forward is not limited. Its report uses the Cursor Position
 * Report form of ECMA-48 section 8.3.14, CSI `n;mR`.
 */
module Cursor {
  import opened Common
  import DocEdit

  /** `v` brought into `[lo, hi]`, testing the upper bound first as the program does. */
  function Clamp(v: int, lo: int, hi: int): int
  {
    if v > hi then hi else if v < lo then lo else v
  }

  class CursorPos {
    var n: nat
    var m: nat
    var maxN: nat
    var maxM: nat

    /** What every cursor keeps: a position on the board grid and a grid of at least 2 by 2. */
    ghost predicate Valid()
      reads this
    {
      n >= 1 && m >= 1 && maxN >= 2 && maxM >= 2
    }

    /** `CursorPos::new`: a position of at least (1, 1) on a grid of at least 2 by 2. */
    constructor (n: nat, m: nat, maxN: nat, maxM: nat)
      ensures Valid()
      ensures this.n == Max(n, 1) && this.m == Max(m, 1)
      ensures this.maxN == Max(maxN, 2) && this.maxM == Max(maxM, 2)
    {
      this.n := Max(n, 1);
      this.m := Max(m, 1);
      this.maxN := Max(maxN, 2);
      this.maxM := Max(maxM, 2);
    }

    /** `CursorPos::set`: the position is clamped into `[1, maxN]` by `[1, maxM]`. */
    method Set(n: nat, m: nat)
      requires Valid()
      modifies this
      ensures Valid()
      ensures this.n == Clamp(n, 1, maxN) && this.m == Clamp(m, 1, maxM)
      ensures 1 <= this.n <= maxN && 1 <= this.m <= maxM
      ensures 1 <= n <= maxN ==> this.n == n
      ensures 1 <= m <= maxM ==> this.m == m
      ensures maxN == old(maxN) && maxM == old(maxM)
    {
      this.n := if n > maxN then maxN else if n < 1 then 1 else n;
      this.m := if m > maxM then maxM else if m < 1 then 1 else m;
    }

    /** `CursorPos::get`. */
    function Get(): (p: (nat, nat))
      reads this
      ensures p.0 == n && p.1 == m
    {
      (n, m)
    }

    /** `CursorPos::set_m`: the column is clamped into `[1, maxM]`; the row stays. */
    method SetM(m: nat)
      requires Valid()
      modifies this
      ensures Valid()
      ensures this.m == Clamp(m, 1, maxM) && 1 <= this.m <= maxM
      ensures 1 <= m <= maxM ==> this.m == m
      ensures n == old(n) && maxN == old(maxN) && maxM == old(maxM)
    {
      this.m := if m > maxM then maxM else if m < 1 then 1 else m;
    }

    /**
     * `CursorPos::sub_n`: moves up, stopping at row 1. The program
     * subtracts unsigned integers, so a step larger than the row itself
     * would underflow; the step must not exceed the row.
     */
    method SubN(k: nat)
      requires Valid() && k <= n
      modifies this
      ensures Valid()
      ensures n == Max(old(n) - k, 1) && n <= old(n)
      ensures m == old(m) && maxN == old(maxN) && maxM == old(maxM)
    {
      n := Max(n - k, 1);
    }

    /** `CursorPos::sub_m`: moves left, stopping at column 1; the step must not exceed the column. */
    method SubM(k: nat)
      requires Valid() && k <= m
      modifies this
      ensures Valid()
      ensures m == Max(old(m) - k, 1) && m <= old(m)
      ensures n == old(n) && maxN == old(maxN) && maxM == old(maxM)
    {
      m := Max(m - k, 1);
    }

    /** `CursorPos::add_n`: moves down without any limit; the row may pass `maxN`. */
    method AddN(k: nat)
      requires Valid()
      modifies this
      ensures Valid()
      ensures n == old(n) + k
      ensures m == old(m) && maxN == old(maxN) && maxM == old(maxM)
    {
      n := n + k;
    }

    /** `CursorPos::add_m`: moves right without any limit. */
    method AddM(k: nat)
      requires Valid()
      modifies this
      ensures Valid()
      ensures m == old(m) + k
      ensures n == old(n) && maxN == old(maxN) && maxM == old(maxM)
    {
      m := m + k;
    }

    /** `CursorPos::dsr`: the Cursor Position Report for the current position. */
    function Dsr(): (s: string)
      reads this
      ensures ParseCpr(s) == Some((n, m))
    {
      CprRoundTrip(n, m);
      CprReport(n, m)
    }
  }

  /** The Cursor Position Report text, CSI `n;mR`. */
  function CprReport(n: nat, m: nat): string
  {
    DocEdit.Csi + Decimal(n) + ";" + Decimal(m) + "R"
  }

  /** Reads a Cursor Position Report back into its row and column. */
  function ParseCpr(s: string): Option<(nat, nat)>
  {
    if |s| < 3 || s[..2] != DocEdit.Csi || s[|s| - 1] != 'R' then None
    else
      match DocEdit.SplitFirst(s[2..|s| - 1], ';')
      case None => None
      case Some((a, b)) =>
        match (ParseDecimal(a), ParseDecimal(b))
        case (Some(n), Some(m)) => Some((n, m))
        case _ => None
  }

  /** A report reads back as the position it reports, so distinct positions give distinct reports. */
  lemma CprRoundTrip(n: nat, m: nat)
    ensures ParseCpr(CprReport(n, m)) == Some((n, m))
  {
    assert CprReport(n, m) == DocEdit.Csi + (Decimal(n) + ";" + Decimal(m)) + ['R'];
    DocEdit.CsiParts(Decimal(n) + ";" + Decimal(m), 'R');
    DecimalRoundTrip(n);
    DecimalRoundTrip(m);
    DocEdit.SplitRenderedPair(n, m);
  }

  /** Worked case: the report for row 3, column 14. */
  lemma CprExample()
    ensures CprReport(3, 14) == "\U{1b}[3;14R"
  {
    assert Decimal(14) == Decimal(1) + [DigitChar(4)];
  }

  /** A clamped value lies in the range and is the value itself when that already does. */
  lemma ClampInRange(v: int, lo: int, hi: int)
    requires lo <= hi
    ensures lo <= Clamp(v, lo, hi) <= hi
    ensures lo <= v <= hi ==> Clamp(v, lo, hi) == v
    ensures Clamp(Clamp(v, lo, hi), lo, hi) == Clamp(v, lo, hi)
  {
  }
}
