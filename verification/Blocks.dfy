/** Division of an address range into blocks of one size: pages, sectors, the
    capacity of a file header.  The three functions are the source's `k * n`,
    `a / n` and `a % n`, written by repeated addition so that no proof about
    pages or sectors meets a product of two unknowns. */
module Blocks {
  type Pos = n: nat | n > 0 witness 1

  function Base(n: Pos, k: nat): nat { if k == 0 then 0 else Base(n, k - 1) + n }

  function Index(n: Pos, a: nat): nat { if a < n then 0 else 1 + Index(n, a - n) }

  function Offset(n: Pos, a: nat): (o: nat)
    ensures o < n
  {
    if a < n then a else Offset(n, a - n)
  }

  function DivRoundUp(n: Pos, a: nat): nat { Index(n, a) + if Offset(n, a) > 0 then 1 else 0 }

  lemma {:induction false} BaseIsProduct(n: Pos, k: nat)
    ensures Base(n, k) == k * n
  {
    if k > 0 {
      BaseIsProduct(n, k - 1);
      assert (k - 1) * n == k * n - n;
    }
  }

  lemma BaseStep(n: Pos, k: nat)
    ensures Base(n, 0) == 0 && Base(n, k + 1) == Base(n, k) + n
  {
  }

  lemma {:induction false} BaseAtLeast(n: Pos, k: nat)
    ensures k <= Base(n, k)
  {
    if k > 0 { BaseAtLeast(n, k - 1); }
  }

  lemma {:induction false} Apart(n: Pos, j: nat, k: nat)
    requires j < k
    ensures Base(n, j) + n <= Base(n, k)
  {
    if j < k - 1 { Apart(n, j, k - 1); }
  }

  lemma {:induction false} Split(n: Pos, a: nat)
    ensures a == Base(n, Index(n, a)) + Offset(n, a)
  {
    if a >= n { Split(n, a - n); }
  }

  lemma {:induction false} Join(n: Pos, k: nat, o: nat)
    requires o < n
    ensures Index(n, Base(n, k) + o) == k && Offset(n, Base(n, k) + o) == o
  {
    if k > 0 {
      Join(n, k - 1, o);
      assert Base(n, k) + o - n == Base(n, k - 1) + o;
    }
  }

  lemma Euclid(n: Pos, a: nat) returns (q: nat, r: nat)
    ensures q == a / n && r == a % n
    ensures a == q * n + r && r < n
  {
    q, r := a / n, a % n;
  }

  lemma IndexIsQuotient(n: Pos, a: nat)
    ensures Index(n, a) == a / n && Offset(n, a) == a % n
  {
    var q, r := Euclid(n, a);
    BaseIsProduct(n, q);
    Join(n, q, r);
  }

  /** Below `k` blocks is exactly having an index below `k`. */
  lemma IndexBelow(n: Pos, a: nat, k: nat)
    ensures a < Base(n, k) <==> Index(n, a) < k
  {
    Split(n, a);
    if Index(n, a) < k { Apart(n, Index(n, a), k); } else if k < Index(n, a) { Apart(n, k, Index(n, a)); }
  }

  /** `DivRoundUp` is the least number of blocks that covers `a` bytes. */
  lemma RoundUpCovers(n: Pos, a: nat, k: nat)
    ensures a <= Base(n, k) <==> DivRoundUp(n, a) <= k
  {
    Split(n, a);
    var i := Index(n, a);
    if i < k { Apart(n, i, k); } else if k < i { Apart(n, k, i); }
  }

  lemma {:induction false} BaseSum(n: Pos, j: nat, k: nat)
    ensures Base(n, j + k) == Base(n, j) + Base(n, k)
  {
    if k > 0 { BaseSum(n, j, k - 1); }
  }
}
