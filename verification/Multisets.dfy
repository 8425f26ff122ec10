/** Laws of multiset sums, stated for arbitrary operands so that proofs need not unfold them. */
module Multisets {

  lemma Cancel<T>(x: multiset<T>, y: multiset<T>, c: multiset<T>)
    requires x + c == y + c
    ensures x == y
  {
    forall e ensures x[e] == y[e] { assert (x + c)[e] == (y + c)[e]; }
  }

  lemma AddFront<T>(z: multiset<T>, a: multiset<T>, b: multiset<T>, c: multiset<T>, d: multiset<T>)
    requires a + b == c + d
    ensures z + a + b == z + c + d
  {
    assert z + a + b == z + (a + b) && z + c + d == z + (c + d);
  }

  /** Two changes one after the other: what the first brought, the second takes away. */
  lemma Chain<T>(x0: multiset<T>, x1: multiset<T>, x2: multiset<T>, p: multiset<T>, q: multiset<T>, r: multiset<T>)
    requires x1 + p == x0 + q
    requires x2 + q == x1 + r
    ensures x2 + p == x0 + r
  {
    forall e ensures (x2 + p)[e] == (x0 + r)[e] {
      assert (x1 + p)[e] == (x0 + q)[e] && (x2 + q)[e] == (x1 + r)[e];
    }
  }

  /** Taking away what is there. */
  lemma Remove<T>(x: multiset<T>, p: multiset<T>)
    requires p <= x
    ensures (x - p) + p == x
  {
  }

  /** What a change does not take away stays. */
  lemma Keeps<T>(x0: multiset<T>, x1: multiset<T>, p: multiset<T>, q: multiset<T>, z: multiset<T>)
    requires x1 + p == x0 + q && p + z <= x0
    ensures q + z <= x1
  {
    forall e ensures (q + z)[e] <= x1[e] {
      assert (x1 + p)[e] == (x0 + q)[e] && (p + z)[e] <= x0[e];
    }
  }

  /** A gain on top of a change. */
  lemma Gain<T>(x0: multiset<T>, x1: multiset<T>, p: multiset<T>, q: multiset<T>, o: multiset<T>)
    requires x1 + p == x0 + q
    ensures x1 + o + p == x0 + (q + o)
  {
    assert x1 + o + p == x1 + p + o && x0 + (q + o) == x0 + q + o;
  }

  /** A change of one part `a` of `q` into `b` changes `q` into `r`. */
  lemma ChainPart<T>(x0: multiset<T>, x1: multiset<T>, x2: multiset<T>,
                     p: multiset<T>, q: multiset<T>, r: multiset<T>, a: multiset<T>, b: multiset<T>)
    requires x1 + p == x0 + q
    requires x2 + a == x1 + b
    requires r + a == q + b
    ensures x2 + p == x0 + r
  {
    forall e ensures (x2 + p)[e] == (x0 + r)[e] {
      assert (x1 + p)[e] == (x0 + q)[e] && (x2 + a)[e] == (x1 + b)[e] && (r + a)[e] == (q + b)[e];
    }
  }

  /** A part changes, its owner goes, and what came for the part changes once more. */
  lemma ChainOwner<T>(x0: multiset<T>, x1: multiset<T>, x2: multiset<T>, x3: multiset<T>,
                      p: multiset<T>, q: multiset<T>, r: multiset<T>, o: multiset<T>)
    requires x1 + p == x0 + q
    requires x2 + o == x1
    requires x3 + q == x2 + r
    ensures x3 + (p + o) == x0 + r
  {
    forall e ensures (x3 + (p + o))[e] == (x0 + r)[e] {
      assert (x1 + p)[e] == (x0 + q)[e] && (x2 + o)[e] == x1[e] && (x3 + q)[e] == (x2 + r)[e];
    }
  }

  lemma KeepsPart<T>(x: multiset<T>, o: multiset<T>, q: multiset<T>)
    requires q + o <= x
    ensures q <= x - o
  {
    forall e ensures q[e] <= (x - o)[e] { assert (q + o)[e] <= x[e]; }
  }

  lemma Parts<T>(x: multiset<T>, y: multiset<T>, z: multiset<T>)
    requires x + y <= z
    ensures x <= z && y <= z
  {
    forall e ensures x[e] <= z[e] && y[e] <= z[e] { assert (x + y)[e] <= z[e]; }
  }

  /** A change of a part, after which its owner goes. */
  lemma DropOwner<T>(x0: multiset<T>, x1: multiset<T>, p: multiset<T>, q: multiset<T>, o: multiset<T>)
    requires x1 + p == x0 + q && p + o <= x0
    ensures (x1 - o) + (p + o) == x0 + q
  {
    forall e ensures ((x1 - o) + (p + o))[e] == (x0 + q)[e] {
      assert (x1 + p)[e] == (x0 + q)[e] && (p + o)[e] <= x0[e];
    }
  }

  lemma KeepsAll<T>(x0: multiset<T>, x1: multiset<T>, p: multiset<T>, q: multiset<T>)
    requires x1 + p == x0 + q && p <= x0
    ensures q <= x1
  {
    forall e ensures q[e] <= x1[e] { assert (x1 + p)[e] == (x0 + q)[e]; }
  }

  lemma Swap<T>(x: multiset<T>, y: multiset<T>)
    ensures x + y == y + x
  {
  }

  /** A change of one of two parts, on top of a change that brought both. */
  lemma ChainOne<T>(x0: multiset<T>, x1: multiset<T>, x2: multiset<T>, p: multiset<T>,
                    a: multiset<T>, b: multiset<T>, c: multiset<T>, d: multiset<T>, first: bool)
    requires x1 + p == x0 + (a + b)
    requires if first then x2 + a == x1 + c && d == b else x2 + b == x1 + d && c == a
    ensures x2 + p == x0 + (c + d)
  {
    forall e ensures (x2 + p)[e] == (x0 + (c + d))[e] {
      assert (x1 + p)[e] == (x0 + (a + b))[e];
      assert if first then (x2 + a)[e] == (x1 + c)[e] else (x2 + b)[e] == (x1 + d)[e];
    }
  }
}
