/** Cardinalities of finite sets related by a bijection. */
module Counting {

  /** The numbers below n that satisfy `keep`. */
  function Below(n: nat, keep: int -> bool): set<int> {
    set k | 0 <= k < n && keep(k)
  }

  lemma BelowSame(n: nat, p: int -> bool, q: int -> bool)
    requires forall k | 0 <= k < n :: p(k) == q(k)
    ensures Below(n, p) == Below(n, q)
  {
  }

  lemma BelowStep(n: nat, keep: int -> bool)
    ensures |Below(n + 1, keep)| == |Below(n, keep)| + if keep(n) then 1 else 0
  {
    assert Below(n + 1, keep) == Below(n, keep) + if keep(n) then {n} else {};
  }

  lemma SameSize<S, T>(a: set<S>, b: set<T>, f: S -> T, g: T -> S)
    requires forall x <- a :: f(x) in b && g(f(x)) == x
    requires forall y <- b :: g(y) in a && f(g(y)) == y
    ensures |a| == |b|
  {
    if a == {} {
      assert b == {} by {
        if y :| y in b {
          assert g(y) in a;
        }
      }
    } else {
      var x :| x in a;
      SameSize(a - {x}, b - {f(x)}, f, g);
    }
  }

  lemma BelowSplit(m: nat, n: nat, keep: int -> bool)
    ensures |Below(m + n, keep)| == |Below(m, keep)| + |Below(n, i => keep(m + i))|
  {
    if n == 0 {
      assert Below(0, i => keep(m + i)) == {};
    } else {
      BelowSplit(m, n - 1, keep);
      BelowStep(m + n - 1, keep);
      BelowStep(n - 1, i => keep(m + i));
    }
  }

  /** Sum of f over 0, ..., n - 1. */
  function Sum(n: nat, f: int -> int): int {
    if n == 0 then 0 else Sum(n - 1, f) + f(n - 1)
  }

  /** Counting block by block. */
  lemma BelowBlocks(blocks: nat, size: nat, keep: int -> bool)
    ensures 0 <= blocks * size
    ensures |Below(blocks * size, keep)| == Sum(blocks, b => |Below(size, i => keep(b * size + i))|)
  {
    if blocks == 0 {
      assert Below(0, keep) == {};
    } else {
      BelowBlocks(blocks - 1, size, keep);
      BelowSplit((blocks - 1) * size, size, keep);
      assert (blocks - 1) * size + size == blocks * size;
      SumSame(blocks - 1, b => |Below(size, i => keep(b * size + i))|, b => |Below(size, i => keep(b * size + i))|);
      assert |Below(size, i => keep((blocks - 1) * size + i))|
          == (b => |Below(size, i => keep(b * size + i))|)(blocks - 1);
    }
  }

  lemma SumSame(n: nat, f: int -> int, g: int -> int)
    requires forall i | 0 <= i < n :: f(i) == g(i)
    ensures Sum(n, f) == Sum(n, g)
  {
  }

  lemma SumAdd(n: nat, f: int -> int, g: int -> int)
    ensures Sum(n, i => f(i) + g(i)) == Sum(n, f) + Sum(n, g)
  {
    if n == 0 {
    } else {
      SumAdd(n - 1, f, g);
    }
  }

  lemma SumZero(n: nat, f: int -> int)
    requires forall i | 0 <= i < n :: f(i) >= 0
    ensures Sum(n, f) >= 0
    ensures Sum(n, f) == 0 <==> forall i | 0 <= i < n :: f(i) == 0
  {
  }

  /** Removing one copy of x from two sequences with the same elements. */
  lemma DropSame<T>(front: seq<T>, x: T, p: seq<T>, q: seq<T>)
    requires multiset(front + [x]) == multiset(p + [x] + q)
    ensures multiset(front) == multiset(p + q)
  {
    assert multiset(front) == multiset(front + [x]) - multiset{x};
    assert multiset(p + q) == multiset(p + [x] + q) - multiset{x};
  }
}
