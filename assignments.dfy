/**
 * The assignments `parse` enumerates: the cartesian product of one
 * `["true", "false"]` domain per variable, as the `permutator` crate's
 * `cart_prod` yields it (first position slowest, "true" before "false").
 */
module Assignments {

  function Pow2(n: nat): (r: nat)
    ensures r >= 1
  {
    if n == 0 then 1 else 2 * Pow2(n - 1)
  }

  /** The two strings an assignment entry can be. */
  predicate IsBool(v: string) { v == "true" || v == "false" }

  /** An assignment to `n` variables. */
  predicate IsAssignment(n: nat, a: seq<string>)
  {
    |a| == n && forall j :: 0 <= j < n ==> IsBool(a[j])
  }

  /**
   * The `k`-th assignment `cart_prod` yields for `n` variables: the first
   * half of the enumeration puts "true" in front of the assignments to the
   * remaining variables, the second half puts "false" in front of them.
   */
  function Assignment(n: nat, k: nat): (a: seq<string>)
    requires k < Pow2(n)
    ensures IsAssignment(n, a)
  {
    if n == 0 then []
    else if k < Pow2(n - 1) then ["true"] + Assignment(n - 1, k)
    else ["false"] + Assignment(n - 1, k - Pow2(n - 1))
  }

  /** `n` copies of `v`. */
  function Repeat(v: string, n: nat): (r: seq<string>)
    ensures |r| == n && forall j :: 0 <= j < n ==> r[j] == v
  {
    if n == 0 then [] else [v] + Repeat(v, n - 1)
  }

  /** `cart_prod` over `n` copies of `["true", "false"]`, collected in the order it yields. */
  function Product(n: nat): (r: seq<seq<string>>)
    ensures |r| == Pow2(n)
    ensures forall k :: 0 <= k < |r| ==> IsAssignment(n, r[k])
  {
    seq(Pow2(n), k requires 0 <= k < Pow2(n) => Assignment(n, k))
  }

  /** Bit `m` (counting from the least significant) of `k`. */
  function Bit(k: nat, m: nat): nat
  {
    if m == 0 then k % 2 else Bit(k / 2, m - 1)
  }

  /** Adding a higher power of two leaves the lower bits alone. */
  lemma {:induction false} BitAddHigh(k: nat, n: nat, m: nat)
    requires m < n
    ensures Bit(k + Pow2(n), m) == Bit(k, m)
    decreases m
  {
    if m > 0 {
      assert (k + Pow2(n)) / 2 == k / 2 + Pow2(n - 1);
      BitAddHigh(k / 2, n - 1, m - 1);
    }
  }

  /** Below 2^(m+1), bit `m` tells whether `k` reached 2^m. */
  lemma {:induction false} BitTop(k: nat, m: nat)
    requires k < Pow2(m + 1)
    ensures Bit(k, m) == if k < Pow2(m) then 0 else 1
    decreases m
  {
    if m > 0 {
      BitTop(k / 2, m - 1);
    }
  }

  /** The head of assignment `k` is "true" exactly in the first half. */
  lemma AssignmentHead(n: nat, k: nat)
    requires 0 < n && k < Pow2(n)
    ensures Assignment(n, k)[0] == if Bit(k, n - 1) == 0 then "true" else "false"
  {
    BitTop(k, n - 1);
  }

  /** The index, among the assignments to the remaining n - 1 variables, of the tail of assignment `k`. */
  function TailIndex(n: nat, k: nat): (t: nat)
    requires 0 < n && k < Pow2(n)
    ensures t < Pow2(n - 1)
  {
    if k < Pow2(n - 1) then k else k - Pow2(n - 1)
  }

  /** Past the head, assignment `k` continues with the assignment at its tail index. */
  lemma AssignmentTail(n: nat, k: nat, j: nat)
    requires 0 < j < n && k < Pow2(n)
    ensures Assignment(n, k)[j] == Assignment(n - 1, TailIndex(n, k))[j - 1]
  {
  }

  /** The lower bits of `k` are those of its tail index. */
  lemma BitTail(n: nat, k: nat, m: nat)
    requires m < n - 1 && k < Pow2(n)
    ensures Bit(k, m) == Bit(TailIndex(n, k), m)
  {
    if k >= Pow2(n - 1) {
      BitAddHigh(TailIndex(n, k), n - 1, m);
      assert TailIndex(n, k) + Pow2(n - 1) == k;
    }
  }

  /** Entry `j` of assignment `k` is binary digit n-1-j of `k`, 0 as "true". */
  lemma {:induction false} AssignmentBit(n: nat, k: nat, j: nat)
    requires k < Pow2(n) && j < n
    ensures Assignment(n, k)[j] == if Bit(k, n - 1 - j) == 0 then "true" else "false"
    decreases n
  {
    if j == 0 {
      AssignmentHead(n, k);
    } else {
      AssignmentTail(n, k, j);
      BitTail(n, k, n - 1 - j);
      AssignmentBit(n - 1, TailIndex(n, k), j - 1);
    }
  }

  /**
   * The k-th assignment is `k` written in `n` binary digits, most significant
   * first, with digit 0 shown as "true" and digit 1 as "false".
   */
  lemma ProductIsBinaryCount(n: nat, k: nat, j: nat)
    requires k < Pow2(n) && j < n
    ensures Product(n)[k][j] == if Bit(k, n - 1 - j) == 0 then "true" else "false"
  {
    AssignmentBit(n, k, j);
  }

  /** Lexicographic order with "true" before "false". */
  predicate LexBefore(a: seq<string>, b: seq<string>)
    decreases |a|
  {
    a != [] && b != []
    && ((a[0] == "true" && b[0] == "false") || (a[0] == b[0] && LexBefore(a[1..], b[1..])))
  }

  /** No assignment comes before itself, so the order separates distinct ones. */
  lemma {:induction false} LexBeforeIrreflexive(a: seq<string>)
    ensures !LexBefore(a, a)
    decreases |a|
  {
    if a != [] {
      LexBeforeIrreflexive(a[1..]);
    }
  }

  /** Putting the same entry in front keeps the order. */
  lemma LexBeforeCons(v: string, a: seq<string>, b: seq<string>)
    requires LexBefore(a, b)
    ensures LexBefore([v] + a, [v] + b)
  {
    assert ([v] + a)[1..] == a && ([v] + b)[1..] == b;
  }

  /** Assignment `i` comes before assignment `j` whenever i < j. */
  lemma {:induction false} AssignmentOrdered(n: nat, i: nat, j: nat)
    requires i < j < Pow2(n)
    ensures LexBefore(Assignment(n, i), Assignment(n, j))
    decreases n
  {
    var half := Pow2(n - 1);
    if j < half {
      AssignmentOrdered(n - 1, i, j);
      LexBeforeCons("true", Assignment(n - 1, i), Assignment(n - 1, j));
    } else if i >= half {
      AssignmentOrdered(n - 1, i - half, j - half);
      LexBeforeCons("false", Assignment(n - 1, i - half), Assignment(n - 1, j - half));
    }
  }

  /** The assignments come in strictly increasing lexicographic order, hence pairwise distinct. */
  lemma ProductOrdered(n: nat, i: nat, j: nat)
    requires i < j < Pow2(n)
    ensures LexBefore(Product(n)[i], Product(n)[j]) && Product(n)[i] != Product(n)[j]
  {
    AssignmentOrdered(n, i, j);
    LexBeforeIrreflexive(Assignment(n, i));
  }

  /** Every assignment to `n` variables is enumerated. */
  lemma {:induction false} ProductComplete(n: nat, a: seq<string>)
    requires IsAssignment(n, a)
    ensures a in Product(n)
    decreases n
  {
    if n == 0 {
      assert Product(0)[0] == a;
    } else {
      ProductComplete(n - 1, a[1..]);
      var i :| 0 <= i < Pow2(n - 1) && Product(n - 1)[i] == a[1..];
      assert Assignment(n - 1, i) == a[1..];
      assert a == [a[0]] + a[1..];
      var k := if a[0] == "true" then i else Pow2(n - 1) + i;
      assert Assignment(n, k) == a;
      assert Product(n)[k] == a;
    }
  }

  /** The first assignment is all "true". */
  lemma {:induction false} AssignmentFirst(n: nat)
    ensures forall j :: 0 <= j < n ==> Assignment(n, 0)[j] == "true"
    decreases n
  {
    if n > 0 {
      AssignmentFirst(n - 1);
      assert Assignment(n, 0) == ["true"] + Assignment(n - 1, 0);
    }
  }

  /** The last assignment, number 2^n - 1, is all "false". */
  lemma {:induction false} AssignmentLast(n: nat, last: nat)
    requires last == Pow2(n) - 1
    ensures forall j :: 0 <= j < n ==> Assignment(n, last)[j] == "false"
    decreases n
  {
    if n > 0 {
      var prev := Pow2(n - 1) - 1;
      AssignmentLast(n - 1, prev);
      assert Assignment(n, last) == ["false"] + Assignment(n - 1, prev);
    }
  }

  /** The first enumerated assignment is all "true" and the last all "false". */
  lemma ProductEnds(n: nat)
    ensures Product(n)[0] == Repeat("true", n)
    ensures Product(n)[Pow2(n) - 1] == Repeat("false", n)
  {
    AssignmentFirst(n);
    AssignmentLast(n, Pow2(n) - 1);
    assert Product(n)[0] == Assignment(n, 0);
    assert Product(n)[Pow2(n) - 1] == Assignment(n, Pow2(n) - 1);
  }

  /** For two variables: (true, true), (true, false), (false, true), (false, false). */
  lemma ProductOfTwo()
    ensures Product(2) == [["true", "true"], ["true", "false"], ["false", "true"], ["false", "false"]]
  {
    assert Assignment(1, 0) == ["true"] && Assignment(1, 1) == ["false"];
    var two := Product(2);
    assert two[0] == ["true", "true"] && two[1] == ["true", "false"];
    assert two[2] == ["false", "true"] && two[3] == ["false", "false"];
  }
}
