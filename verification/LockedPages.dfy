/** Counting locks per memory page, so that locks of overlapping ranges can be stacked. */
module LockedPages {
  import opened Arithmetic

  datatype Range = Range(base: nat, size: nat)

  const ADDRESS_BITS: nat := 64

  /** addr & ~(2^k - 1) */
  function PageOf(addr: nat, k: nat): (page: nat)
    requires k <= ADDRESS_BITS && addr < Pow(2, ADDRESS_BITS)
    ensures Pow(2, k) > 0 && page == addr - addr % Pow(2, k) <= addr
  {
    MaskedIs(addr, k, ADDRESS_BITS);
    BitAnd(addr, Pow(2, ADDRESS_BITS) - Pow(2, k))
  }

  lemma {:induction false} MaskedIs(x: nat, k: nat, w: nat)
    requires k <= w && x < Pow(2, w)
    ensures Pow(2, k) > 0 && Pow(2, k) <= Pow(2, w)
    ensures BitAnd(x, Pow(2, w) - Pow(2, k)) == x - x % Pow(2, k)
    decreases k
  {
    hide *;
    PowPositive(2, k);
    PowMono(2, k, w);
    if k == 0 {
      MaskedWhole(x, w);
    } else {
      PowPositive(2, k - 1);
      PowMono(2, k - 1, w - 1);
      HalfBelow(x, w);
      MaskedIs(x / 2, k - 1, w - 1);
      MaskedStep(x, k, w);
    }
  }

  lemma HalfBelow(x: nat, w: nat)
    requires w > 0 && x < Pow(2, w)
    ensures x / 2 < Pow(2, w - 1)
  {
  }

  lemma MaskedWhole(x: nat, w: nat)
    requires x < Pow(2, w)
    ensures Pow(2, w) >= Pow(2, 0) && Pow(2, 0) > 0
    ensures BitAnd(x, Pow(2, w) - Pow(2, 0)) == x - x % Pow(2, 0)
  {
    AndMask(x, w);
    SmallMod(x, Pow(2, w));
    assert x % 1 == 0;
    hide BitAnd;
  }

  lemma MaskedStep(x: nat, k: nat, w: nat)
    requires 0 < k <= w && 0 < Pow(2, k - 1) <= Pow(2, w - 1)
    requires BitAnd(x / 2, Pow(2, w - 1) - Pow(2, k - 1)) == x / 2 - x / 2 % Pow(2, k - 1)
    ensures 0 < Pow(2, k) <= Pow(2, w)
    ensures BitAnd(x, Pow(2, w) - Pow(2, k)) == x - x % Pow(2, k)
  {
    var m, n := Pow(2, w - 1), Pow(2, k - 1);
    assert Pow(2, w) == 2 * m && Pow(2, k) == 2 * n;
    hide Pow;
    AndEven(x, m - n);
    HalvedMod(x, n);
    hide BitAnd;
  }

  lemma AndEven(x: nat, m: nat)
    ensures BitAnd(x, 2 * m) == 2 * BitAnd(x / 2, m)
  {
    assert (2 * m) / 2 == m && (2 * m) % 2 == 0;
  }

  /** Whether the range has a byte in the page that starts at `page`. */
  predicate Touches(r: Range, page: nat, k: nat)
    requires k <= ADDRESS_BITS
  {
    PowPositive(2, k);
    page % Pow(2, k) == 0 && r.size > 0 && page < r.base + r.size && r.base < page + Pow(2, k)
  }

  function Count(live: seq<Range>, page: nat, k: nat): nat
    requires k <= ADDRESS_BITS
  {
    if live == [] then 0
    else Count(live[..|live| - 1], page, k) + (if Touches(live[|live| - 1], page, k) then 1 else 0)
  }

  lemma {:induction false} CountWithout(live: seq<Range>, i: nat, page: nat, k: nat)
    requires i < |live| && k <= ADDRESS_BITS
    ensures Count(live, page, k) ==
      Count(live[..i] + live[i + 1..], page, k) + (if Touches(live[i], page, k) then 1 else 0)
  {
    hide Touches;
    var n := |live| - 1;
    var rest := live[..i] + live[i + 1..];
    if i == n {
      assert rest == live[..n];
    } else {
      CountWithout(live[..n], i, page, k);
      assert rest[..|rest| - 1] == live[..n][..i] + live[..n][i + 1..];
    }
  }

  /** The loop over the pages from the first byte's to the last byte's visits those touched. */
  lemma PagesTouched(r: Range, page: nat, k: nat)
    requires k <= ADDRESS_BITS && r.size > 0 && r.base + r.size <= Pow(2, ADDRESS_BITS)
    ensures Touches(r, page, k) <==>
      Pow(2, k) > 0 && page % Pow(2, k) == 0 && PageOf(r.base, k) <= page <= PageOf(r.base + r.size - 1, k)
  {
    PowPositive(2, k);
    var d := Pow(2, k);
    var first, last := r.base, r.base + r.size - 1;
    var p, q := PageOf(first, k), PageOf(last, k);
    hide Pow, PageOf;
    if page % d == 0 {
      PageStart(page, first, d);
      PageStart(page, last, d);
    }
  }

  /** Where the start of a page lies with respect to the page of an address. */
  lemma PageStart(page: nat, a: nat, d: nat)
    requires d > 0 && page % d == 0
    ensures page <= a - a % d <==> page <= a
    ensures a - a % d <= page <==> a < page + d
  {
    if page <= a { PageMono(page, a, d); }
    ModAdd(page, d, 1);
    if page + d <= a { PageMono(page + d, a, d); }
    if page < a - a % d {
      var m, n := page / d, a / d;
      assert page == m * d && a - a % d == n * d;
      if n <= m { MulMono(n, m, d); }
      MulMono(m + 1, n, d);
      MulDistrib(d, m, 1);
    }
  }

  /** A range that reaches the last page: no page is behind its end, so the loop's test never fails. */
  lemma LastPageNeverEnds(r: Range, page: nat, k: nat)
    requires k <= ADDRESS_BITS && r.size > 0 && r.base + r.size <= Pow(2, ADDRESS_BITS) < r.base + r.size + Pow(2, k)
    requires Pow(2, k) > 0 && page % Pow(2, k) == 0 && page < Pow(2, ADDRESS_BITS)
    ensures page <= PageOf(r.base + r.size - 1, k)
  {
    hide Pow, PageOf;
    var d, top, end := Pow(2, k), Pow(2, ADDRESS_BITS), r.base + r.size - 1;
    WholePages(k, ADDRESS_BITS);
    PageStart(page, end, d);
    if end < page { PagesApart(page, end, top, d); }
  }

  lemma WholePages(k: nat, w: nat)
    requires k <= w
    ensures Pow(2, k) > 0 && Pow(2, w) % Pow(2, k) == 0
  {
    hide Pow;
    var j: nat := w - k;
    PowPositive(2, k);
    PowAdd(2, k, j);
    Multiple(Pow(2, w), Pow(2, k), Pow(2, j));
  }

  lemma Multiple(n: nat, d: nat, m: nat)
    requires d > 0 && n == d * m
    ensures n % d == 0
  {
    DivMod(n, d, m, 0);
  }

  /** Between an address on the last page and the end there is no other page. */
  lemma PagesApart(page: nat, end: nat, top: nat, d: nat)
    requires d > 0 && page % d == 0 && top % d == 0 && end < page < top
    ensures top >= end + 1 + d
  {
    var p, t := page / d, top / d;
    assert page == p * d && top == t * d;
    if t <= p { MulMono(t, p, d); }
    MulMono(p + 1, t, d);
    MulDistrib(d, p, 1);
  }

  lemma PageExact(page: nat, a: nat, d: nat)
    requires d > 0 && page % d == 0 && page <= a < page + d
    ensures a % d == a - page
  {
    var q := page / d;
    assert page == q * d;
    DivMod(a, d, q, a - page);
  }

  lemma PageMono(a: nat, b: nat, d: nat)
    requires d > 0 && a <= b
    ensures a - a % d <= b - b % d
  {
    var p, q := a / d, b / d;
    assert a == p * d + a % d && b == q * d + b % d;
    if q < p { MulMono(q + 1, p, d); MulDistrib(d, q, 1); }
    MulMono(if p <= q then p else q, q, d);
  }

  // ------------------------------------------------------------ counts on the way

  /** The counts are those of the ranges `live`. */
  ghost predicate Counts(h: map<nat, nat>, live: seq<Range>, k: nat)
    requires k <= ADDRESS_BITS
  {
    && (forall page: nat :: page in h <==> Count(live, page, k) > 0)
    && (forall page :: page in h ==> h[page] == Count(live, page, k))
  }

  /** How much a page counts when the pages below `at` that r touches have been changed by `delta`. */
  ghost function Due(was: seq<Range>, r: Range, page: nat, at: nat, delta: int, k: nat): int
    requires k <= ADDRESS_BITS
  {
    Count(was, page, k) + (if Touches(r, page, k) && page < at then delta else 0)
  }

  ghost predicate Counting(h: map<nat, nat>, was: seq<Range>, r: Range, at: nat, delta: int, k: nat)
    requires k <= ADDRESS_BITS
  {
    && (forall page: nat :: page in h <==> Due(was, r, page, at, delta, k) > 0)
    && (forall page :: page in h ==> h[page] == Due(was, r, page, at, delta, k))
  }

  lemma NothingBelow(r: Range, k: nat, page: nat)
    requires k <= ADDRESS_BITS && r.size > 0 && r.base + r.size <= Pow(2, ADDRESS_BITS) && page < PageOf(r.base, k)
    ensures !Touches(r, page, k)
  {
    hide Pow, PageOf, Touches;
    PagesTouched(r, page, k);
  }

  lemma CountingStart(h: map<nat, nat>, was: seq<Range>, r: Range, delta: int, k: nat)
    requires k <= ADDRESS_BITS && r.size > 0 && r.base + r.size <= Pow(2, ADDRESS_BITS) && Counts(h, was, k)
    ensures Counting(h, was, r, PageOf(r.base, k), delta, k)
  {
    hide Pow, PageOf, Touches, Count;
    forall page: nat ensures Due(was, r, page, PageOf(r.base, k), delta, k) == Count(was, page, k) {
      if page < PageOf(r.base, k) { NothingBelow(r, k, page); }
    }
  }

  lemma DueNext(was: seq<Range>, r: Range, page: nat, at: nat, delta: int, k: nat)
    requires k <= ADDRESS_BITS && Pow(2, k) > 0 && at % Pow(2, k) == 0 && Touches(r, at, k)
    ensures Due(was, r, page, at + Pow(2, k), delta, k) ==
      Due(was, r, page, at, delta, k) + (if page == at then delta else 0)
  {
    hide Count;
    var d := Pow(2, k);
    if at < page < at + d && page % d == 0 {
      PageExact(at, page, d);
    }
    hide Pow;
  }

  lemma CountingNext(h: map<nat, nat>, h1: map<nat, nat>, was: seq<Range>, r: Range, at: nat, delta: int, k: nat)
    requires k <= ADDRESS_BITS && Pow(2, k) > 0 && at % Pow(2, k) == 0 && Touches(r, at, k)
    requires Counting(h, was, r, at, delta, k) && (delta == 1 || (delta == -1 && at in h))
    requires
      var n := (if at in h then h[at] else 0) + delta;
      h1 == if n == 0 then h - {at} else h[at := n]
    ensures Counting(h1, was, r, at + Pow(2, k), delta, k)
  {
    hide Pow, Touches, Due;
    forall page: nat
      ensures page in h1 <==> Due(was, r, page, at + Pow(2, k), delta, k) > 0
      ensures page in h1 ==> h1[page] == Due(was, r, page, at + Pow(2, k), delta, k)
    {
      DueNext(was, r, page, at, delta, k);
      DueBound(was, r, at, delta, k);
    }
  }

  lemma DueBound(was: seq<Range>, r: Range, at: nat, delta: int, k: nat)
    requires k <= ADDRESS_BITS
    ensures Due(was, r, at, at, delta, k) == Count(was, at, k) >= 0
  {
    hide Count, Touches;
  }

  /** Past the last page the counts are those of the ranges after the call. */
  lemma CountingEnd(h: map<nat, nat>, was: seq<Range>, r: Range, at: nat, delta: int, k: nat, after: seq<Range>)
    requires k <= ADDRESS_BITS && r.size > 0 && r.base + r.size <= Pow(2, ADDRESS_BITS)
    requires at > PageOf(r.base + r.size - 1, k)
    requires Counting(h, was, r, at, delta, k)
    requires forall page: nat ::
      Count(after, page, k) == Count(was, page, k) + (if Touches(r, page, k) then delta else 0)
    ensures Counts(h, after, k)
  {
    hide Pow, PageOf, Touches, Count;
    forall page: nat ensures Due(was, r, page, at, delta, k) == Count(after, page, k) {
      PagesTouched(r, page, k);
    }
  }

  lemma CountAppend(was: seq<Range>, r: Range, page: nat, k: nat)
    requires k <= ADDRESS_BITS
    ensures Count(was + [r], page, k) == Count(was, page, k) + (if Touches(r, page, k) then 1 else 0)
  {
    hide Touches;
    assert (was + [r])[..|was|] == was;
  }

  lemma NoBytes(h: map<nat, nat>, was: seq<Range>, r: Range, k: nat, after: seq<Range>, delta: int)
    requires k <= ADDRESS_BITS && r.size == 0 && Counts(h, was, k)
    requires forall page: nat ::
      Count(after, page, k) == Count(was, page, k) + (if Touches(r, page, k) then delta else 0)
    ensures Counts(h, after, k)
  {
    forall page: nat ensures !Touches(r, page, k) {}
    hide Touches, Count;
  }

  // ------------------------------------------------------------ the manager

  class LockedPageManager {
    const k: nat
    var histogram: map<nat, nat>
    var locked: set<nat>
    ghost var live: seq<Range>

    /** Each page's count is the number of live ranges that touch it, and the pages that are
        locked are those with a count. */
    ghost predicate Valid()
      reads this
    {
      k <= ADDRESS_BITS && Counts(histogram, live, k) && locked == histogram.Keys
    }

    constructor (k: nat)
      requires k <= ADDRESS_BITS
      ensures Valid() && live == [] && this.k == k
    {
      this.k := k;
      histogram := map[];
      locked := {};
      live := [];
    }

    /** Unless it is empty the range does not reach the last page of the address space, where the walk
        over its pages would wrap around and never end. */
    method LockRange(base: nat, size: nat)
      requires Valid() && (size == 0 || base + size + Pow(2, k) <= Pow(2, ADDRESS_BITS))
      modifies this
      ensures Valid() && live == old(live) + [Range(base, size)]
    {
      hide Count, Counts, Counting, Touches, Pow, PageOf;
      ghost var r, was := Range(base, size), live;
      live := live + [r];
      forall page: nat { CountAppend(was, r, page, k); }
      if size == 0 {
        NoBytes(histogram, was, r, k, live, 1);
        return;
      }
      var page := PageOf(base, k);
      var end := PageOf(base + size - 1, k);
      FirstPage(r, k);
      CountingStart(histogram, was, r, 1, k);
      while page <= end
        invariant live == was + [r] && locked == histogram.Keys
        invariant Pow(2, k) > 0 && page % Pow(2, k) == 0 && PageOf(base, k) <= page
        invariant Counting(histogram, was, r, page, 1, k)
        decreases end + Pow(2, k) - page
      {
        PagesTouched(r, page, k);
        ghost var before := histogram;
        if page !in histogram {
          locked := locked + {page};
          histogram := histogram[page := 1];
        } else {
          histogram := histogram[page := histogram[page] + 1];
        }
        CountingNext(before, histogram, was, r, page, 1, k);
        NextPage(page, k);
        assert page + Pow(2, k) < Pow(2, ADDRESS_BITS);
        page := page + Pow(2, k);
      }
      CountingEnd(histogram, was, r, page, 1, k, live);
    }

    /** One of the live ranges is given back; its pages are there, so the assertion holds. */
    method UnlockRange(base: nat, size: nat, ghost i: nat)
      requires Valid() && (size == 0 || base + size + Pow(2, k) <= Pow(2, ADDRESS_BITS)) && i < |live|
      requires live[i] == Range(base, size)
      modifies this
      ensures Valid() && live == old(live[..i] + live[i + 1..])
    {
      hide Count, Counts, Counting, Touches, Pow, PageOf;
      ghost var r, was := Range(base, size), live;
      live := live[..i] + live[i + 1..];
      forall page: nat { CountWithout(was, i, page, k); }
      if size == 0 {
        NoBytes(histogram, was, r, k, live, -1);
        return;
      }
      var page := PageOf(base, k);
      var end := PageOf(base + size - 1, k);
      FirstPage(r, k);
      CountingStart(histogram, was, r, -1, k);
      while page <= end
        invariant live == was[..i] + was[i + 1..] && locked == histogram.Keys
        invariant Pow(2, k) > 0 && page % Pow(2, k) == 0 && PageOf(base, k) <= page
        invariant Counting(histogram, was, r, page, -1, k)
        decreases end + Pow(2, k) - page
      {
        PagesTouched(r, page, k);
        StillCounted(histogram, was, r, page, k, i);
        assert page in histogram;
        ghost var before := histogram;
        var count := histogram[page] - 1;
        if count == 0 {
          locked := locked - {page};
          histogram := histogram - {page};
        } else {
          histogram := histogram[page := count];
        }
        CountingNext(before, histogram, was, r, page, -1, k);
        NextPage(page, k);
        assert page + Pow(2, k) < Pow(2, ADDRESS_BITS);
        page := page + Pow(2, k);
      }
      CountingEnd(histogram, was, r, page, -1, k, live);
    }

    function GetLockedPageCount(): (n: nat)
      requires Valid()
      reads this
      ensures n == |locked|
    {
      |histogram|
    }
  }

  lemma FirstPage(r: Range, k: nat)
    requires k <= ADDRESS_BITS && r.base < Pow(2, ADDRESS_BITS)
    ensures Pow(2, k) > 0 && PageOf(r.base, k) % Pow(2, k) == 0
  {
    hide Pow, PageOf;
    var d := Pow(2, k);
    var q := PageOf(r.base, k);
    PowPositive(2, k);
    var m := r.base / d;
    assert q == m * d;
    DivMod(q, d, m, 0);
  }

  lemma NextPage(page: nat, k: nat)
    requires Pow(2, k) > 0 && page % Pow(2, k) == 0
    ensures (page + Pow(2, k)) % Pow(2, k) == 0
  {
    hide Pow;
    ModAdd(page, Pow(2, k), 1);
  }

  /** A page that a live range touches has a count until it is reached. */
  lemma StillCounted(h: map<nat, nat>, was: seq<Range>, r: Range, page: nat, k: nat, i: nat)
    requires k <= ADDRESS_BITS && Counting(h, was, r, page, -1, k) && i < |was| && was[i] == r && Touches(r, page, k)
    ensures page in h && h[page] > 0
  {
    hide Touches;
    CountWithout(was, i, page, k);
    DueBound(was, r, page, -1, k);
    hide Count, Due;
  }
}
