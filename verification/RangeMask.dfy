/** Sets of numbers within a ground range, kept as sorted ranges with gaps between them. */
module RangeMask {
  import opened Bytes

  /** All numbers are unsigned and of 32 bits. */
  const WRAP: nat := 0x1_0000_0000

  type u32 = x: int | 0 <= x < 0x1_0000_0000

  /** The numbers from `lo` up to but not including `hi`. */
  datatype Range = Range(lo: u32, hi: u32)

  predicate Covers(r: Range, x: int) {
    r.lo <= x < r.hi
  }

  ghost predicate In(rs: seq<Range>, x: int) {
    exists r :: r in rs && Covers(r, x)
  }

  /** Sorted, none empty, and with a gap between any two. */
  ghost predicate Separated(rs: seq<Range>) {
    && (forall i :: 0 <= i < |rs| ==> rs[i].lo < rs[i].hi)
    && (forall i, j :: 0 <= i < j < |rs| ==> rs[i].hi < rs[j].lo)
  }

  ghost predicate Within(rs: seq<Range>, lo: int, hi: int) {
    forall r :: r in rs ==> lo <= r.lo && r.hi <= hi
  }

  lemma IndexOf(rs: seq<Range>, x: int) returns (k: nat)
    requires In(rs, x)
    ensures k < |rs| && Covers(rs[k], x)
  {
    var r :| r in rs && Covers(r, x);
    k :| k < |rs| && rs[k] == r;
  }

  lemma InConcat(a: seq<Range>, b: seq<Range>, x: int)
    ensures In(a + b, x) <==> In(a, x) || In(b, x)
  {
    if In(a, x) { var r :| r in a && Covers(r, x); assert r in a + b; }
    if In(b, x) { var r :| r in b && Covers(r, x); assert r in a + b; }
  }

  lemma InOne(r: Range, x: int)
    ensures In([r], x) <==> Covers(r, x)
  {
    assert r in [r];
  }

  /** Ranges lie in the ground range when their numbers do. */
  lemma InGround(rs: seq<Range>, lo: int, hi: int)
    requires Separated(rs) && forall x :: In(rs, x) ==> lo <= x < hi
    ensures Within(rs, lo, hi)
  {
    forall r | r in rs ensures lo <= r.lo && r.hi <= hi {
      assert Covers(r, r.lo) && Covers(r, r.hi - 1);
      assert In(rs, r.lo) && In(rs, r.hi - 1);
    }
  }

  lemma OfGround(rs: seq<Range>, lo: int, hi: int, x: int)
    requires Within(rs, lo, hi) && In(rs, x)
    ensures lo <= x < hi
  {
  }

  // ------------------------------------------------ one set, one representation

  lemma Tail(rs: seq<Range>, x: int)
    requires Separated(rs) && rs != []
    ensures In(rs[1..], x) <==> In(rs, x) && rs[0].hi < x
    ensures In(rs, x) ==> rs[0].lo <= x
    ensures Separated(rs[1..])
  {
    assert rs == [rs[0]] + rs[1..];
    InConcat([rs[0]], rs[1..], x);
    InOne(rs[0], x);
  }

  lemma StartIn(rs: seq<Range>)
    requires Separated(rs) && rs != []
    ensures In(rs, rs[0].lo) && !In(rs, rs[0].hi)
    ensures forall x :: rs[0].lo <= x < rs[0].hi ==> In(rs, x)
  {
    assert rs[0] in rs;
    Tail(rs, rs[0].hi);
    assert rs == [rs[0]] + rs[1..];
    InConcat([rs[0]], rs[1..], rs[0].hi);
    InOne(rs[0], rs[0].hi);
  }

  lemma {:induction false} Unique(a: seq<Range>, b: seq<Range>)
    requires Separated(a) && Separated(b) && forall x :: In(a, x) <==> In(b, x)
    ensures a == b
    decreases |a|
  {
    if a == [] {
      if b != [] { StartIn(b); }
    } else {
      StartIn(a);
      assert b != [];
      StartIn(b);
      Tail(a, b[0].lo);
      Tail(b, a[0].lo);
      assert a[0].lo == b[0].lo;
      assert a[0].hi == b[0].hi;
      forall x ensures In(a[1..], x) <==> In(b[1..], x) {
        Tail(a, x);
        Tail(b, x);
      }
      Tail(a, 0);
      Tail(b, 0);
      Unique(a[1..], b[1..]);
      assert a == [a[0]] + a[1..] && b == [b[0]] + b[1..];
    }
  }

  // ------------------------------------------------------------------- editing

  /** The index of the first range, from `j` on, that starts behind `i`. */
  function UpperBound(rs: seq<Range>, i: int, j: nat): (u: nat)
    requires j <= |rs|
    ensures j <= u <= |rs| && (forall k :: j <= k < u ==> rs[k].lo <= i) && (u < |rs| ==> rs[u].lo > i)
    decreases |rs| - j
  {
    if j == |rs| || rs[j].lo > i then j else UpperBound(rs, i, j + 1)
  }

  /** The ranges from index `j` up to `n` replaced by one. */
  function Replaced(rs: seq<Range>, j: nat, n: nat, r: Range): seq<Range>
    requires j <= n <= |rs|
  {
    rs[..j] + [r] + rs[n..]
  }

  lemma ReplacedSeparated(rs: seq<Range>, j: nat, n: nat, r: Range)
    requires j <= n <= |rs| && Separated(rs) && r.lo < r.hi
    requires j > 0 ==> rs[j - 1].hi < r.lo
    requires n < |rs| ==> r.hi < rs[n].lo
    ensures Separated(Replaced(rs, j, n, r))
  {
    SeparatedConcat(rs[..j], [r]);
    SeparatedConcat(rs[..j] + [r], rs[n..]);
  }

  lemma {:induction false} SeparatedConcat(a: seq<Range>, b: seq<Range>)
    requires Separated(a) && Separated(b) && (a != [] && b != [] ==> a[|a| - 1].hi < b[0].lo)
    ensures Separated(a + b)
  {
    var ab := a + b;
    forall i, j | 0 <= i < j < |ab| ensures ab[i].hi < ab[j].lo {
      if i < |a| <= j {
        assert a[i].hi <= a[|a| - 1].hi;
        assert b[0].lo <= b[j - |a|].lo;
      }
    }
  }

  /** If the new range covers those it replaces, it is added and nothing is taken away. */
  lemma ReplacedAdds(rs: seq<Range>, j: nat, n: nat, r: Range, x: int)
    requires j <= n <= |rs| && forall k :: j <= k < n ==> r.lo <= rs[k].lo && rs[k].hi <= r.hi
    ensures In(Replaced(rs, j, n, r), x) <==> In(rs, x) || Covers(r, x)
  {
    var rs' := Replaced(rs, j, n, r);
    assert rs'[j] == r && r in rs';
    if In(rs, x) {
      var k := IndexOf(rs, x);
      if k < j { assert rs'[k] == rs[k]; } else if k >= n { assert rs'[k - n + j + 1] == rs[k]; }
      assert k < j || k >= n ==> rs[k] in rs';
    }
    if In(rs', x) {
      var k := IndexOf(rs', x);
      if k < j { assert rs'[k] == rs[k]; } else if k > j { assert rs'[k] == rs[k - j - 1 + n]; }
      assert k != j ==> rs'[k] in rs;
    }
  }

  lemma Replacing(rs: seq<Range>, j: nat, n: nat, r: Range)
    requires j <= n <= |rs| && Separated(rs) && r.lo < r.hi
    requires j > 0 ==> rs[j - 1].hi < r.lo
    requires n < |rs| ==> r.hi < rs[n].lo
    requires forall k :: j <= k < n ==> r.lo <= rs[k].lo && rs[k].hi <= r.hi
    ensures Separated(Replaced(rs, j, n, r))
    ensures forall x :: In(Replaced(rs, j, n, r), x) <==> In(rs, x) || Covers(r, x)
  {
    ReplacedSeparated(rs, j, n, r);
    forall x ensures In(Replaced(rs, j, n, r), x) <==> In(rs, x) || Covers(r, x) { ReplacedAdds(rs, j, n, r, x); }
  }

  /** Outside of `i` up to `b`, the new range only covers what its neighbours covered. */
  lemma Settles(rs: seq<Range>, first: nat, end: nat, r: Range, i: u32, b: u32)
    requires Fits(rs, first, end, r, i, b)
    ensures forall x :: In(rs, x) || Covers(r, x) <==> In(rs, x) || (i <= x < r.hi && x < b)
  {
    forall x | Covers(r, x) && !(i <= x < b) ensures In(rs, x) {
      var k := if x < i then first else end - 1;
      assert rs[k] in rs && Covers(rs[k], x);
    }
  }

  /** The new range `r` may replace the ranges from `first` up to `end`, and only adds numbers from `i` up to `b`. */
  ghost predicate Fits(rs: seq<Range>, first: nat, end: nat, r: Range, i: u32, b: u32) {
    && first <= end <= |rs| && r.lo <= i < r.hi
    && (first > 0 ==> rs[first - 1].hi < r.lo) && (end < |rs| ==> r.hi < rs[end].lo)
    && (forall k :: first <= k < end ==> r.lo <= rs[k].lo && rs[k].hi <= r.hi)
    && (r.lo == i || (first < |rs| && rs[first] == Range(r.lo, i)))
    && (r.hi == b || (end > 0 && rs[end - 1].hi == r.hi && rs[end - 1].lo <= b))
  }

  /** How to add the numbers from `i` on, unless a range covers `i` already. */
  method Choose(rs: seq<Range>, i: u32, b: u32) returns (first: nat, end: nat, r: Range, covered: bool)
    requires Separated(rs) && i < b
    ensures covered ==> first < |rs| && Covers(rs[first], i) && r == rs[first]
    ensures !covered ==> Fits(rs, first, end, r, i, b)
  {
    var after := UpperBound(rs, i, 0);
    var apart := after == |rs| || rs[after].lo > b;
    FitsBetween(rs, after, i, b);
    first, end, r, covered := after, after, Range(i, b), false;
    if after == 0 || rs[after - 1].hi < i {
      if apart {
        return;
      } else if rs[after].lo == i {
        assert false;
      } else {
        end, r := after + 1, Range(i, rs[after].hi);
      }
    } else if rs[after - 1].hi == i {
      FitsOnto(rs, after, i, b);
      first := after - 1;
      if apart {
        r := Range(rs[first].lo, b);
      } else {
        end, r := after + 1, Range(rs[first].lo, rs[after].hi);
      }
    } else {
      first, r, covered := after - 1, rs[after - 1], true;
    }
  }

  ghost predicate IsUpperBound(rs: seq<Range>, i: int, u: nat) {
    u <= |rs| && (u > 0 ==> rs[u - 1].lo <= i) && (u < |rs| ==> rs[u].lo > i)
  }

  /** Behind a gap a new range begins at `i`, and takes in the next one when that is in reach. */
  lemma FitsBetween(rs: seq<Range>, u: nat, i: u32, b: u32)
    requires Separated(rs) && i < b && IsUpperBound(rs, i, u)
    ensures (u == 0 || rs[u - 1].hi < i) && (u == |rs| || rs[u].lo > b) ==> Fits(rs, u, u, Range(i, b), i, b)
    ensures (u == 0 || rs[u - 1].hi < i) && u < |rs| && rs[u].lo <= b ==> Fits(rs, u, u + 1, Range(i, rs[u].hi), i, b)
  {
    assert u + 1 < |rs| ==> rs[u].hi < rs[u + 1].lo;
  }

  /** A range that ends at `i` grows, and takes in the next one when that is in reach. */
  lemma FitsOnto(rs: seq<Range>, u: nat, i: u32, b: u32)
    requires Separated(rs) && i < b && IsUpperBound(rs, i, u) && u > 0 && rs[u - 1].hi == i
    ensures u == |rs| || rs[u].lo > b ==> Fits(rs, u - 1, u, Range(rs[u - 1].lo, b), i, b)
    ensures u < |rs| && rs[u].lo <= b ==> Fits(rs, u - 1, u + 1, Range(rs[u - 1].lo, rs[u].hi), i, b)
  {
    assert u > 1 ==> rs[u - 2].hi < rs[u - 1].lo;
    assert u + 1 < |rs| ==> rs[u].hi < rs[u + 1].lo;
    assert u < |rs| ==> rs[u - 1].hi < rs[u].lo;
  }

  /** Adds the numbers from `i` up to `b`: one turn of the loop, which settles those up to `next`. */
  method UnionStep(rs: seq<Range>, i: u32, b: u32) returns (rs': seq<Range>, next: u32)
    requires Separated(rs) && i < b
    ensures Separated(rs') && next > i
    ensures forall x :: In(rs', x) <==> In(rs, x) || (i <= x < next && x < b)
  {
    var first, end, r, covered := Choose(rs, i, b);
    next := r.hi;
    if covered {
      rs' := rs;
      forall x | i <= x < next ensures In(rs, x) { assert r in rs && Covers(r, x); }
    } else {
      Replacing(rs, first, end, r);
      Settles(rs, first, end, r, i, b);
      rs' := Replaced(rs, first, end, r);
    }
  }

  // ------------------------------------------------------------------ counting

  ghost function Numbers(lo: int, hi: int): (s: set<int>)
    ensures forall x :: x in s <==> lo <= x < hi
    decreases hi - lo
  {
    if lo >= hi then {} else Numbers(lo, hi - 1) + {hi - 1}
  }

  lemma {:induction false} CountNumbers(lo: int, hi: int)
    requires lo <= hi
    ensures |Numbers(lo, hi)| == hi - lo
    decreases hi - lo
  {
    if lo < hi {
      CountNumbers(lo, hi - 1);
    }
  }

  /** The numbers of all ranges as a set. */
  ghost function Elements(rs: seq<Range>): set<int> {
    if rs == [] then {} else Numbers(rs[0].lo, rs[0].hi) + Elements(rs[1..])
  }

  lemma {:induction false} ElementsAreIn(rs: seq<Range>, x: int)
    ensures x in Elements(rs) <==> In(rs, x)
  {
    if rs != [] {
      ElementsAreIn(rs[1..], x);
      assert rs == [rs[0]] + rs[1..];
      InConcat([rs[0]], rs[1..], x);
      InOne(rs[0], x);
    }
  }

  function Total(rs: seq<Range>): int {
    if rs == [] then 0 else rs[0].hi - rs[0].lo + Total(rs[1..])
  }

  lemma {:induction false} TotalIsCount(rs: seq<Range>)
    requires Separated(rs)
    ensures Total(rs) == |Elements(rs)|
  {
    if rs != [] {
      Tail(rs, 0);
      TotalIsCount(rs[1..]);
      CountNumbers(rs[0].lo, rs[0].hi);
      forall x | x in Elements(rs[1..]) ensures x !in Numbers(rs[0].lo, rs[0].hi) {
        ElementsAreIn(rs[1..], x);
        Tail(rs, x);
      }
    }
  }

  lemma {:induction false} TotalSnoc(rs: seq<Range>, r: Range)
    ensures Total(rs + [r]) == Total(rs) + r.hi - r.lo
  {
    if rs == [] {
      assert rs + [r] == [r];
    } else {
      assert (rs + [r])[1..] == rs[1..] + [r];
      TotalSnoc(rs[1..], r);
    }
  }

  function Min(a: u32, b: u32): u32 {
    if a < b then a else b
  }

  function Max(a: u32, b: u32): u32 {
    if a < b then b else a
  }

  lemma InSnoc(rs: seq<Range>, r: Range, x: int)
    ensures In(rs + [r], x) <==> In(rs, x) || Covers(r, x)
  {
    InConcat(rs, [r], x);
    InOne(r, x);
  }

  /** `gaps` is the complement of `rs` between `lo` and `last`, and ends before `last`. */
  ghost predicate Inverts(gaps: seq<Range>, rs: seq<Range>, lo: int, last: int) {
    && Separated(gaps) && (forall i :: 0 <= i < |gaps| ==> gaps[i].hi < last)
    && (forall x :: In(gaps, x) <==> lo <= x < last && !In(rs, x))
  }

  lemma InvertsStep(gaps: seq<Range>, rs: seq<Range>, i: nat, lo: u32, last: u32)
    requires i < |rs| && Separated(rs) && Within(rs, lo, WRAP) && Inverts(gaps, rs[..i], lo, last)
    requires lo <= last && if i > 0 then last == rs[i - 1].hi else last == lo
    ensures
      var gaps' := if rs[i].lo != last then gaps + [Range(last, rs[i].lo)] else gaps;
      Inverts(gaps', rs[..i + 1], lo, rs[i].hi)
  {
    var gap := Range(last, rs[i].lo);
    var gaps' := if rs[i].lo != last then gaps + [gap] else gaps;
    assert rs[i] in rs && last <= rs[i].lo < rs[i].hi;
    assert rs[..i + 1] == rs[..i] + [rs[i]];
    forall x ensures In(gaps', x) <==> lo <= x < rs[i].hi && !In(rs[..i + 1], x) {
      InSnoc(rs[..i], rs[i], x);
      InSnoc(gaps, gap, x);
      if In(rs[..i], x) {
        var k := IndexOf(rs[..i], x);
        assert k < i - 1 ==> rs[k].hi < rs[i - 1].lo;
      }
    }
  }

  lemma InvertsEnd(gaps: seq<Range>, rs: seq<Range>, lo: u32, last: u32, hi: u32)
    requires Separated(rs) && Inverts(gaps, rs, lo, last) && lo <= last <= hi
    requires if rs == [] then last == lo else last == rs[|rs| - 1].hi
    ensures
      var gaps' := if last != hi then gaps + [Range(last, hi)] else gaps;
      Separated(gaps') && Within(gaps', lo, hi) && forall x :: In(gaps', x) <==> lo <= x < hi && !In(rs, x)
  {
    var gap := Range(last, hi);
    var gaps' := if last != hi then gaps + [gap] else gaps;
    forall x ensures In(gaps', x) <==> lo <= x < hi && !In(rs, x) {
      InSnoc(gaps, gap, x);
      if In(rs, x) {
        var k := IndexOf(rs, x);
        assert k < |rs| - 1 ==> rs[k].hi < rs[|rs| - 1].lo;
      }
    }
    InGround(gaps', lo, hi);
  }

  /** Only the last range that starts at `i` or before can hold `i`, and nothing lies between `i` and the next one. */
  lemma Neighbours(rs: seq<Range>, i: int)
    requires Separated(rs)
    ensures
      var u := UpperBound(rs, i, 0);
      && (In(rs, i) <==> u > 0 && rs[u - 1].hi > i)
      && (forall x :: In(rs, x) && x > i && !(u > 0 && rs[u - 1].hi > i) ==> u < |rs| && rs[u].lo <= x)
  {
    var u := UpperBound(rs, i, 0);
    if u > 0 && rs[u - 1].hi > i { assert rs[u - 1] in rs && Covers(rs[u - 1], i); }
    assert forall k :: 0 <= k < u - 1 ==> rs[k].hi < rs[u - 1].lo;
    assert forall k :: u < k < |rs| ==> rs[u].hi < rs[k].lo;
    forall x | In(rs, x) && x >= i && !(u > 0 && rs[u - 1].hi > i) ensures u < |rs| && rs[u].lo <= x {
      var k := IndexOf(rs, x);
    }
  }

  /** A mask that is not its ground range as one range lacks some number of it. */
  lemma Missing(rs: seq<Range>, lo: int, hi: int) returns (x: int)
    requires lo < hi && Separated(rs) && Within(rs, lo, hi) && !(|rs| == 1 && rs[0].lo == lo && rs[0].hi == hi)
    ensures lo <= x < hi && !In(rs, x)
  {
    if rs == [] {
      x := lo;
    } else {
      assert rs[0] in rs;
      StartIn(rs);
      if rs[0].lo != lo {
        x := lo;
        Tail(rs, lo);
      } else {
        x := rs[0].hi;
        if |rs| > 1 { assert rs[1] in rs; }
      }
    }
  }

  // -------------------------------------------------------- the lowest numbers

  /** Unsigned arithmetic on sums and differences of two numbers. */
  function Wrapped(x: int): u32
    requires 0 < x + WRAP && x < 2 * WRAP
  {
    if x < 0 then x + WRAP else if x >= WRAP then x - WRAP else x
  }

  function LowestOf(rs: seq<Range>, items: u32): seq<Range>
    decreases |rs|
  {
    if rs == [] || items == 0 then []
    else
      var end := Min(Wrapped(rs[0].lo + items), rs[0].hi);
      [Range(rs[0].lo, end)] + LowestOf(rs[1..], Wrapped(items - Wrapped(end - rs[0].lo)))
  }

  /** No sum of the start of a range and the number of items left wraps around. */
  predicate NoWrap(rs: seq<Range>, items: int)
    decreases |rs|
  {
    rs == [] || items <= 0 || (rs[0].lo + items < WRAP && NoWrap(rs[1..], items - (rs[0].hi - rs[0].lo)))
  }

  /** `out` holds the smallest `items` numbers of `rs`, or all of them. */
  ghost predicate IsLowest(rs: seq<Range>, items: int, out: seq<Range>) {
    && Separated(out)
    && (forall x :: In(out, x) ==> In(rs, x))
    && (forall x, y :: In(rs, x) && In(out, y) && x < y ==> In(out, x))
    && Total(out) == if items < Total(rs) then items else Total(rs)
  }

  lemma {:induction false} LowestWraps(rs: seq<Range>, items: u32)
    requires Separated(rs) && !NoWrap(rs, items)
    ensures !Separated(LowestOf(rs, items))
    decreases |rs|
  {
    Tail(rs, 0);
    var out := LowestOf(rs, items);
    if rs[0].lo + items < WRAP {
      var left := items - (rs[0].hi - rs[0].lo);
      LowestWraps(rs[1..], left);
      assert out[1..] == LowestOf(rs[1..], left);
      if Separated(out) { Tail(out, 0); }
    } else {
      assert out[0].hi < out[0].lo;
    }
  }

  lemma InFront(r: Range, rs: seq<Range>, x: int)
    ensures In([r] + rs, x) <==> Covers(r, x) || In(rs, x)
  {
    InConcat([r], rs, x);
    InOne(r, x);
  }

  /** The first range cut off. */
  lemma {:induction false} LowestOfFirst(rs: seq<Range>, items: u32)
    requires Separated(rs) && rs != [] && 0 < items <= rs[0].hi - rs[0].lo
    ensures IsLowest(rs, items, [Range(rs[0].lo, rs[0].lo + items)])
  {
    var cut := Range(rs[0].lo, rs[0].lo + items);
    assert rs[0] in rs;
    forall x ensures In([cut], x) <==> Covers(cut, x) { InOne(cut, x); }
    forall x | In([cut], x) ensures In(rs, x) { assert Covers(rs[0], x); }
    forall x | In(rs, x) ensures rs[0].lo <= x { Tail(rs, x); }
    Tail(rs, 0);
    TotalIsCount(rs[1..]);
    assert Total([cut]) == items + Total([]);
  }

  /** The first range as a whole, and the lowest numbers of the others. */
  lemma {:induction false} LowestWithFirst(rs: seq<Range>, items: int, out: seq<Range>)
    requires Separated(rs) && rs != [] && IsLowest(rs[1..], items - (rs[0].hi - rs[0].lo), out)
    ensures IsLowest(rs, items, [rs[0]] + out)
  {
    var all := [rs[0]] + out;
    FrontIs(rs);
    forall x ensures In(all, x) <==> Covers(rs[0], x) || In(out, x) { InFront(rs[0], out, x); }
    forall x ensures In(rs, x) <==> Covers(rs[0], x) || In(rs[1..], x) { InFront(rs[0], rs[1..], x); }
    forall x | In(out, x) ensures rs[0].hi < x { Tail(rs, x); }
    BehindFront(rs[0], out);
  }

  lemma {:induction false} FrontIs(rs: seq<Range>)
    requires rs != []
    ensures rs == [rs[0]] + rs[1..] && Total(rs) == rs[0].hi - rs[0].lo + Total(rs[1..])
  {
  }

  /** A range in front of ranges behind it. */
  lemma {:induction false} BehindFront(r: Range, out: seq<Range>)
    requires Separated(out) && r.lo < r.hi && forall x :: In(out, x) ==> r.hi < x
    ensures Separated([r] + out) && Total([r] + out) == r.hi - r.lo + Total(out)
  {
    forall i | 0 <= i < |out| ensures r.hi < out[i].lo {
      assert out[i] in out && Covers(out[i], out[i].lo);
      assert In(out, out[i].lo);
    }
    assert ([r] + out)[1..] == out;
  }

  lemma {:induction false} LowestUnfolds(rs: seq<Range>, items: u32)
    requires Separated(rs) && NoWrap(rs, items) && rs != [] && items != 0
    ensures items <= rs[0].hi - rs[0].lo ==> LowestOf(rs, items) == [Range(rs[0].lo, rs[0].lo + items)]
    ensures items > rs[0].hi - rs[0].lo ==>
      LowestOf(rs, items) == [rs[0]] + LowestOf(rs[1..], items - (rs[0].hi - rs[0].lo))
  {
    var size := rs[0].hi - rs[0].lo;
    var end := Min(Wrapped(rs[0].lo + items), rs[0].hi);
    if items <= size {
      assert Wrapped(items - Wrapped(end - rs[0].lo)) == 0;
      assert LowestOf(rs[1..], 0) == [];
    } else {
      assert end == rs[0].hi && Wrapped(items - Wrapped(end - rs[0].lo)) == items - size;
    }
  }

  lemma {:induction false} LowestIs(rs: seq<Range>, items: u32)
    requires Separated(rs) && NoWrap(rs, items)
    ensures IsLowest(rs, items, LowestOf(rs, items))
    decreases |rs|
  {
    if rs == [] || items == 0 {
      TotalIsCount(rs);
    } else {
      var size := rs[0].hi - rs[0].lo;
      Tail(rs, 0);
      LowestUnfolds(rs, items);
      if items <= size {
        LowestOfFirst(rs, items);
      } else {
        LowestIs(rs[1..], items - size);
        LowestWithFirst(rs, items, LowestOf(rs[1..], items - size));
      }
    }
  }

  lemma {:induction false} LowestExactly(rs: seq<Range>, items: u32)
    requires Separated(rs)
    ensures IsLowest(rs, items, LowestOf(rs, items)) <==> NoWrap(rs, items)
  {
    if NoWrap(rs, items) { LowestIs(rs, items); } else { LowestWraps(rs, items); }
  }

  method TakeLowest(ranges: seq<Range>, items: u32) returns (rs: seq<Range>)
    ensures rs == LowestOf(ranges, items)
  {
    rs := [];
    var left: u32, rest := items, ranges;
    while rest != [] && left != 0
      invariant rs + LowestOf(rest, left) == LowestOf(ranges, items)
      decreases |rest|
    {
      var r := rest[0];
      var end := Min(Wrapped(r.lo + left), r.hi);
      var next := Wrapped(left - Wrapped(end - r.lo));
      Assoc(rs, [Range(r.lo, end)], LowestOf(rest[1..], next));
      rs, left, rest := rs + [Range(r.lo, end)], next, rest[1..];
    }
  }

  /** Adds the numbers from `a` to `b`, range by range. */
  method AddRange(rs: seq<Range>, a: u32, b: u32) returns (r: seq<Range>)
    requires Separated(rs)
    ensures Separated(r) && forall x :: In(r, x) <==> In(rs, x) || a <= x < b
  {
    var i := a;
    r := rs;
    while i < b
      invariant i >= a && Separated(r)
      invariant forall x :: In(r, x) <==> In(rs, x) || (a <= x < i && x < b)
      decreases b - i
    {
      ghost var was, j := r, i;
      r, i := UnionStep(r, i, b);
      forall x ensures In(r, x) <==> In(rs, x) || (a <= x < i && x < b) {
        assert In(r, x) <==> In(was, x) || (j <= x < i && x < b);
        assert In(was, x) <==> In(rs, x) || (a <= x < j && x < b);
      }
    }
  }

  class RangeMask {
    var lo: u32
    var hi: u32
    var ranges: seq<Range>

    ghost predicate Valid()
      reads this
    {
      lo <= hi && Separated(ranges) && Within(ranges, lo, hi)
    }

    ghost predicate Has(x: int)
      reads this
    {
      In(ranges, x)
    }

    constructor (begin: u32, end: u32)
      ensures (Valid() <==> begin <= end) && lo == begin && hi == end && ranges == [] && forall x :: !Has(x)
    {
      lo, hi, ranges := begin, end, [];
    }

    /** Adds a range that lies in the ground range. */
    method UnionWithRange(a: u32, b: u32)
      requires Valid() && (a < b ==> lo <= a && b <= hi)
      modifies this`ranges
      ensures Valid() && forall x :: Has(x) <==> old(Has(x)) || a <= x < b
    {
      ranges := AddRange(ranges, a, b);
      forall x | In(ranges, x) ensures lo <= x < hi {
        assert Has(x);
        if old(Has(x)) { OfGround(old(ranges), lo, hi, x); }
      }
      InGround(ranges, lo, hi);
    }

    /** Adds another mask; the ground range comes to include that of the other. */
    method UnionWith(m: RangeMask)
      requires Valid() && m.Valid()
      modifies this
      ensures Valid() && lo == Min(old(lo), old(m.lo)) && hi == Max(old(hi), old(m.hi))
      ensures forall x :: Has(x) <==> old(Has(x)) || old(m.Has(x))
    {
      var rs := m.ranges;
      lo, hi := Min(m.lo, lo), Max(m.hi, hi);
      for i := 0 to |rs|
        invariant Valid() && lo == Min(old(lo), old(m.lo)) && hi == Max(old(hi), old(m.hi))
        invariant forall x :: Has(x) <==> old(Has(x)) || In(rs[..i], x)
      {
        UnionWithRange(rs[i].lo, rs[i].hi);
        forall x ensures In(rs[..i + 1], x) <==> In(rs[..i], x) || Covers(rs[i], x) {
          assert rs[..i + 1] == rs[..i] + [rs[i]];
          InConcat(rs[..i], [rs[i]], x);
          InOne(rs[i], x);
        }
      }
      assert rs[..|rs|] == rs;
    }

    /** The complement in the ground range. */
    method Inverted() returns (rs: seq<Range>)
      requires Valid()
      ensures Separated(rs) && Within(rs, lo, hi)
      ensures forall x :: In(rs, x) <==> lo <= x < hi && !Has(x)
    {
      rs := [];
      var last := lo;
      for i := 0 to |ranges|
        invariant lo <= last <= hi && if i > 0 then last == ranges[i - 1].hi else last == lo
        invariant Inverts(rs, ranges[..i], lo, last)
      {
        assert ranges[i] in ranges;
        InvertsStep(rs, ranges, i, lo, last);
        if ranges[i].lo != last {
          rs := rs + [Range(last, ranges[i].lo)];
        }
        last := ranges[i].hi;
      }
      assert ranges[..|ranges|] == ranges;
      InvertsEnd(rs, ranges, lo, last, hi);
      if last != hi {
        rs := rs + [Range(last, hi)];
      }
    }

    method Invert()
      requires Valid()
      modifies this`ranges
      ensures Valid() && forall x :: Has(x) <==> lo <= x < hi && !old(Has(x))
    {
      ranges := Inverted();
    }

    /**
     Takes another mask away. What the other's ground range adds to this one is
     part of the result, but for what the other mask holds of it; and taking a
     mask away from itself has no effect.
     */
    method Subtract(m: RangeMask)
      requires Valid() && m.Valid()
      modifies this
      ensures Valid() && lo == Min(old(lo), old(m.lo)) && hi == Max(old(hi), old(m.hi))
      ensures m == this ==> forall x :: Has(x) <==> old(Has(x))
      ensures m != this ==> forall x :: Has(x) <==>
        (old(Has(x)) || (lo <= x < hi && !(old(lo) <= x < old(hi)))) && !old(m.Has(x))
      ensures m != this ==>
        ((forall x :: Has(x) <==> old(Has(x)) && !old(m.Has(x))) <==>
          (forall x :: lo <= x < hi && !(old(lo) <= x < old(hi)) ==> old(m.Has(x))))
    {
      forall x | old(Has(x)) ensures lo <= x < hi { OfGround(ranges, lo, hi, x); }
      Invert();
      UnionWith(m);
      Invert();
    }

    method Contains(i: u32) returns (b: bool)
      requires Valid()
      ensures b <==> Has(i)
    {
      var u := UpperBound(ranges, i, 0);
      Neighbours(ranges, i);
      if u == 0 {
        return false;
      }
      b := ranges[u - 1].hi > i;
    }

    /** `r` is the least number of the mask behind `t`, or the end of the ground range. */
    ghost predicate IsNext(t: u32, r: u32)
      reads this
    {
      || (Has(r) && t < r && forall x :: Has(x) && t < x ==> r <= x)
      || (r == hi && forall x :: Has(x) ==> x <= t)
    }

    /** The least number of the mask from `t` on, or the end of the ground range. */
    method AtLeast(t: u32) returns (r: u32)
      requires Valid()
      ensures r == hi || Has(r)
      ensures if Has(r) then t <= r && forall x :: Has(x) && t <= x ==> r <= x else forall x :: Has(x) ==> x < t
    {
      var u := UpperBound(ranges, t, 0);
      Neighbours(ranges, t);
      if u > 0 && ranges[u - 1].lo <= t && ranges[u - 1].hi > t {
        return t;
      }
      if u < |ranges| {
        r := ranges[u].lo;
        assert ranges[u] in ranges && Covers(ranges[u], r);
      } else {
        r := hi;
        if Has(hi) { OfGround(ranges, lo, hi, hi); }
      }
    }

    /** The next number, unless `t` is the greatest there is and the mask is not empty: then it is the least. */
    method Next(t: u32) returns (r: u32)
      requires Valid()
      ensures IsNext(t, r) <==> t + 1 < WRAP || forall x :: !Has(x)
      ensures t + 1 == WRAP && Has(r) ==> forall x :: Has(x) ==> r <= x
      ensures t + 1 == WRAP && !Has(r) ==> r == hi && forall x :: !Has(x)
    {
      r := AtLeast(if t + 1 == WRAP then 0 else t + 1);
      forall x | Has(x) ensures lo <= x < hi { OfGround(ranges, lo, hi, x); }
    }

    method Size() returns (c: nat)
      requires Valid()
      ensures c == |Elements(ranges)|
    {
      c := 0;
      for i := 0 to |ranges|
        invariant c == Total(ranges[..i])
      {
        assert ranges[..i + 1] == ranges[..i] + [ranges[i]];
        TotalSnoc(ranges[..i], ranges[i]);
        c := c + (ranges[i].hi - ranges[i].lo);
      }
      assert ranges[..|ranges|] == ranges;
      TotalIsCount(ranges);
    }

    method Full() returns (b: bool)
      requires Valid()
      ensures b <==> forall x :: lo <= x < hi ==> Has(x)
    {
      b := lo == hi || (|ranges| == 1 && ranges[0].lo == lo && ranges[0].hi == hi);
      if b {
        forall x | lo <= x < hi ensures Has(x) { assert ranges[0] in ranges && Covers(ranges[0], x); }
      } else {
        var x := Missing(ranges, lo, hi);
        assert !Has(x);
      }
    }

    /** The first number of the ground range that is not in the mask, or its end. */
    method FirstOut() returns (r: u32)
      requires Valid()
      ensures lo <= r <= hi && !Has(r) && forall x :: lo <= x < r ==> Has(x)
    {
      forall x | Has(x) ensures lo <= x < hi { OfGround(ranges, lo, hi, x); }
      if ranges == [] {
        return lo;
      }
      StartIn(ranges);
      assert ranges[0] in ranges;
      Tail(ranges, lo);
      if ranges[0].lo != lo {
        return lo;
      }
      r := ranges[0].hi;
    }

    /** The greatest number of the mask. */
    method LastIn() returns (r: u32)
      requires Valid()
      ensures if ranges == [] then r == lo else Has(r) && forall x :: Has(x) ==> x <= r
    {
      if ranges == [] {
        return lo;
      }
      var n := |ranges| - 1;
      assert ranges[n].lo < ranges[n].hi;
      r := ranges[n].hi - 1;
      assert ranges[n] in ranges && Covers(ranges[n], r);
      assert forall k :: 0 <= k < n ==> ranges[k].hi < ranges[n].lo;
      forall x | Has(x) ensures x <= r { var k := IndexOf(ranges, x); }
    }

    /** The smallest `items` numbers, as far as no sum on the way wraps around. */
    method Lowest(items: u32) returns (rs: seq<Range>)
      requires Valid()
      ensures IsLowest(ranges, items, rs) <==> NoWrap(ranges, items)
    {
      rs := TakeLowest(ranges, items);
      LowestExactly(ranges, items);
    }
  }

  // --------------------------------------------------- inputs where they fail

  /** Nothing minus nothing holds numbers, where the ground range of the second is wider. */
  method SubtractExample() returns (a: RangeMask, b: RangeMask)
    ensures a.Valid() && a.lo == 0 && a.hi == 5 && b.hi == 5 && forall x :: !b.Has(x)
    ensures forall x :: a.Has(x) <==> 2 <= x < 5
  {
    a := new RangeMask(0, 2);
    b := new RangeMask(0, 5);
    a.Subtract(b);
  }

  /** Behind the greatest number comes the least one of the mask, instead of the end of its ground range. */
  method NextExample() returns (m: RangeMask, r: u32)
    ensures m.Valid() && m.hi == 30 && (forall x :: m.Has(x) <==> 10 <= x < 20) && r == 10
  {
    m := new RangeMask(0, 30);
    m.UnionWithRange(10, 20);
    r := m.Next(4294967295);
    assert m.Has(10);
  }

  /** Asked for as many as there are, the lowest numbers of a mask are a range that ends before it begins. */
  lemma {:induction false} LowestExample()
    ensures
      var rs := [Range(10, 20)];
      Separated(rs) && LowestOf(rs, 4294967295) == [Range(10, 9)] && !IsLowest(rs, 4294967295, [Range(10, 9)])
  {
    var rs := [Range(10, 20)];
    assert LowestOf(rs[1..], 0) == [];
    assert [Range(10, 9)][0].lo > [Range(10, 9)][0].hi;
  }
}
