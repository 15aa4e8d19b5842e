/**
 The heights that blocks skip back to, and how few steps a walk needs because of them: quadratic in the
 number of binary digits of the height.
 */
module SkipHeights {
  import opened Arithmetic

  /** n & (n - 1) */
  function InvertLowestOne(n: int): (r: nat)
    requires n >= 0
    ensures r <= n && (n > 0 ==> r < n)
  {
    if n == 0 then 0 else AndBelow(n, n - 1); BitAnd(n, n - 1)
  }

  lemma {:induction false} AndBelow(x: nat, y: nat)
    ensures BitAnd(x, y) <= y
  {
    if x > 0 { AndBelow(x / 2, y / 2); }
  }

  function GetSkipHeight(height: int): (r: nat)
    ensures height > 0 ==> r < height
  {
    if height < 2 then 0
    else if height % 2 == 1 then InvertLowestOne(InvertLowestOne(height - 1)) + 1
    else InvertLowestOne(height)
  }

  /** Whether the walk from height w to height t follows the skip pointer: only if the parent's is not better. */
  predicate Skips(w: nat, t: nat)
    requires t < w
  {
    var heightSkip, heightSkipPrev := GetSkipHeight(w), GetSkipHeight(w - 1);
    heightSkip == t || (heightSkip > t && !(heightSkipPrev < heightSkip - 2 && heightSkipPrev >= t))
  }

  function Next(w: nat, t: nat): (r: nat)
    requires t < w
    ensures t <= r < w
  {
    if Skips(w, t) then GetSkipHeight(w) else w - 1
  }

  /** The number of pointers followed from height w down to height t. */
  function WalkSteps(w: nat, t: nat): nat
    requires t <= w
    decreases w
  {
    if w == t then 0 else 1 + WalkSteps(Next(w, t), t)
  }

  lemma StepsNone(t: nat)
    ensures WalkSteps(t, t) == 0
  {
  }

  lemma OneStep(w: nat, t: nat)
    requires t < w
    ensures Skips(w, t) ==> t <= GetSkipHeight(w) && WalkSteps(w, t) == 1 + WalkSteps(GetSkipHeight(w), t)
    ensures !Skips(w, t) ==> WalkSteps(w, t) == 1 + WalkSteps(w - 1, t)
  {
  }

  // ------------------------------------------------------------ binary digits

  lemma {:induction false} AndSelf(x: nat)
    ensures BitAnd(x, x) == x
  {
    if x > 0 { AndSelf(x / 2); }
  }

  /** Inverting the lowest one, in terms of the number without its last digit. */
  lemma InvertHalf(n: nat)
    ensures n % 2 == 1 ==> InvertLowestOne(n) == n - 1
    ensures n % 2 == 0 ==> InvertLowestOne(n) == 2 * InvertLowestOne(n / 2)
  {
    if n % 2 == 1 {
      AndSelf(n / 2);
    } else if n > 0 {
      assert (n - 1) / 2 == n / 2 - 1;
    }
  }

  /** The highest digit in which w and t differ, counted from 0, and the ones of w below it. */
  function Top(w: nat, t: nat): nat
    requires t < w
  {
    if w / 2 == t / 2 then 0 else 1 + Top(w / 2, t / 2)
  }

  function Low(w: nat, t: nat): nat
    requires t < w
  {
    if w / 2 == t / 2 then 0 else w % 2 + Low(w / 2, t / 2)
  }

  lemma {:induction false} LowInTop(w: nat, t: nat)
    requires t < w
    ensures Low(w, t) <= Top(w, t)
  {
    if w / 2 != t / 2 { LowInTop(w / 2, t / 2); }
  }

  lemma {:induction false} TopBelow(w: nat, t: nat, k: nat)
    requires t < w < Pow(2, k)
    ensures Top(w, t) < k
  {
    if w / 2 != t / 2 {
      assert k > 0 by { assert Pow(2, 0) == 1; }
      TopBelow(w / 2, t / 2, k - 1);
    }
  }

  /** Above t, inverting the lowest one takes away one of the ones. */
  lemma {:induction false} InvertAbove(w: nat, t: nat)
    requires t < InvertLowestOne(w)
    ensures t < w && Low(w, t) > 0
    ensures Top(InvertLowestOne(w), t) == Top(w, t) && Low(InvertLowestOne(w), t) == Low(w, t) - 1
  {
    InvertHalf(w);
    hide InvertLowestOne;
    if w % 2 == 0 { InvertAbove(w / 2, t / 2); }
  }

  /** Where it would not stay above t, there are no ones left, and the number before differs from t in a lower
      digit only. */
  lemma {:induction false} InvertBelow(w: nat, t: nat)
    requires InvertLowestOne(w) <= t < w
    ensures Low(w, t) == 0 && (w - 1 == t || Top(w - 1, t) < Top(w, t))
  {
    InvertHalf(w);
    hide InvertLowestOne;
    if w % 2 == 0 {
      InvertBelow(w / 2, t / 2);
      assert (w - 1) / 2 == w / 2 - 1;
    }
  }

  /** One more, for an even number. */
  lemma OneMore(e: nat, t: nat)
    requires e % 2 == 0 && t <= e
    ensures e == t ==> Top(e + 1, t) == 0 && Low(e + 1, t) == 0
    ensures e > t ==> Top(e + 1, t) == Top(e, t) && Low(e + 1, t) == Low(e, t) + 1
  {
    assert (e + 1) / 2 == e / 2;
  }

  lemma OneLess(w: nat, t: nat)
    requires w % 2 == 1 && t < w - 1
    ensures Top(w - 1, t) == Top(w, t) && Low(w - 1, t) == Low(w, t) - 1 && Top(w, t) > 0
  {
    assert (w - 1) / 2 == w / 2;
  }

  // ------------------------------------------------------------ the bound

  /** What is left of the walk is at most this. */
  function Measure(w: nat, t: nat): nat
    requires t <= w
  {
    if w == t then 0 else Top(w, t) * Top(w, t) + 2 * Low(w, t) + 1
  }

  /** From an odd height every step brings the measure down. */
  lemma OddStep(w: nat, t: nat)
    requires t < w && w % 2 == 1
    ensures Measure(Next(w, t), t) < Measure(w, t)
  {
    if w > 1 {
      var e := InvertLowestOne(InvertLowestOne(w - 1));
      EvenTwice(w - 1);
      assert GetSkipHeight(w) == e + 1;
      hide InvertLowestOne, GetSkipHeight, Measure, Top, Low;
      NoneLeft(w, t);
      if t < w - 1 {
        OneLess(w, t);
        FewerOnes(w - 1, w, t);
      }
      if Skips(w, t) && e + 1 > t {
        hide Skips;
        OneMore(e, t);
        if e > t {
          InvertAbove(w - 1, t);
          InvertAbove(InvertLowestOne(w - 1), t);
          FewerOnes(e + 1, w, t);
        } else {
          LowerTop(e + 1, w, t);
        }
      }
    } else {
      hide InvertLowestOne;
    }
  }

  lemma NoneLeft(w: nat, t: nat)
    requires t < w
    ensures Measure(t, t) < Measure(w, t)
  {
    MulMono(0, Top(w, t), Top(w, t));
  }

  lemma FewerOnes(v: nat, w: nat, t: nat)
    requires t < v && t < w && Top(v, t) == Top(w, t) && Low(v, t) < Low(w, t)
    ensures Measure(v, t) < Measure(w, t)
  {
  }

  lemma LowerTop(v: nat, w: nat, t: nat)
    requires t < v && t < w && Top(v, t) == 0 && Low(v, t) == 0 && Top(w, t) > 0
    ensures Measure(v, t) < Measure(w, t)
  {
    MulMono(1, Top(w, t), Top(w, t));
    assert Top(v, t) * Top(v, t) == 0;
  }

  lemma EvenTwice(n: nat)
    requires n % 2 == 0
    ensures InvertLowestOne(n) % 2 == 0 && InvertLowestOne(InvertLowestOne(n)) % 2 == 0
  {
    InvertHalf(n);
    InvertHalf(InvertLowestOne(n));
  }

  /** At an odd height above t the skip pointer is followed if it does not lead below t. */
  lemma OddSkips(w: nat, t: nat)
    requires t < w && w % 2 == 1 && GetSkipHeight(w) >= t
    ensures Skips(w, t)
  {
    if w > 1 {
      var i := InvertLowestOne(w - 1);
      hide InvertLowestOne;
      assert GetSkipHeight(w) == InvertLowestOne(i) + 1 && GetSkipHeight(w - 1) == i;
    }
  }

  /** From an even height, one step brings the measure down, or two bring it down by two. */
  lemma EvenStep(w: nat, t: nat)
    requires t < w && w % 2 == 0
    ensures
      var v := Next(w, t);
      || Measure(v, t) < Measure(w, t)
      || (v > t && Measure(Next(v, t), t) + 2 <= Measure(w, t))
  {
    var s := InvertLowestOne(w);
    assert GetSkipHeight(w) == s;
    if s > t {
      InvertAbove(w, t);
      hide InvertLowestOne;
      if !Skips(w, t) {
        var v := w - 1;
        OddSkips(v, t);
        assert Next(w, t) == v && Next(v, t) == GetSkipHeight(v);
        Detour(w, t);
      }
    } else if s < t {
      InvertBelow(w, t);
      hide InvertLowestOne;
      assert Next(w, t) == w - 1;
      if w - 1 > t { Lower(Top(w - 1, t), Top(w, t), Low(w - 1, t)) by { LowInTop(w - 1, t); } }
    }
  }

  lemma Lower(p: nat, q: nat, c: nat)
    requires c <= p < q
    ensures p * p + 2 * c + 1 <= q * q
  {
    MulMono(p + 1, q, p + 1);
    MulMono(p + 1, q, q);
    assert (p + 1) * (p + 1) == p * p + 2 * p + 1;
  }

  /** When the parent's pointer is better, going over the parent is worth two steps. */
  lemma Detour(w: nat, t: nat)
    requires w % 2 == 0 && t < InvertLowestOne(w) < w
    requires t <= GetSkipHeight(w - 1) < InvertLowestOne(w) - 2
    ensures t < w && Measure(GetSkipHeight(w - 1), t) + 2 <= Measure(w, t)
  {
    InvertAbove(w, t);
    var e := InvertLowestOne(InvertLowestOne(w - 2));
    EvenTwice(w - 2);
    assert GetSkipHeight(w - 1) == e + 1;
    if e + 1 > t {
      OneMore(e, t);
      if e > t { DetourOnes(w, t, e); }
    }
  }

  lemma DetourOnes(w: nat, t: nat, e: nat)
    requires w % 2 == 0 && w >= 2 && e == InvertLowestOne(InvertLowestOne(w - 2))
    requires t < e && e + 1 < InvertLowestOne(w) - 2 && t < w
    ensures Top(e, t) == Top(w, t) && Low(e, t) + 2 <= Low(w, t)
  {
    if w / 2 % 2 == 1 {
      TwoLess(w);
      hide *;
      InvertAbove(w, t);
      InvertAbove(w - 2, t);
      InvertAbove(InvertLowestOne(w - 2), t);
    } else {
      assert w % 4 == 0 && w >= 4;
      HighDigits(w);
      hide *;
      InvertAbove(w, t);
      InvertAbove(InvertLowestOne(w), t);
    }
  }

  lemma TwoLess(w: nat)
    requires w % 2 == 0 && w / 2 % 2 == 1
    ensures InvertLowestOne(w) == w - 2
  {
    InvertHalf(w);
    InvertHalf(w / 2);
    hide InvertLowestOne;
  }

  /** For a multiple of four, unless it is better not to go over the parent, the first of its two inversions
      comes to the same. */
  lemma HighDigits(w: nat)
    requires w % 4 == 0 && w >= 4
    ensures InvertLowestOne(w - 2) == InvertLowestOne(w)
      || InvertLowestOne(InvertLowestOne(w - 2)) >= InvertLowestOne(w)
  {
    var u := w / 4;
    Quarter(u);
    InvertHalf(w - 2);
    InvertHalf(2 * u - 1);
    Quarter(u - 1);
    InvertHalf(u);
    InvertHalf(u - 1);
    hide InvertLowestOne;
    assert InvertLowestOne(w - 2) == 4 * (u - 1);
    if u % 2 == 0 { assert InvertLowestOne(u) <= u - 2 by { LessThan(u); } }
  }

  lemma Quarter(u: nat)
    ensures InvertLowestOne(4 * u) == 4 * InvertLowestOne(u)
  {
    InvertHalf(4 * u);
    InvertHalf(2 * u);
    hide InvertLowestOne;
    assert 4 * u / 2 == 2 * u && 2 * u / 2 == u;
  }

  lemma LessThan(u: nat)
    requires u > 0 && u % 2 == 0
    ensures InvertLowestOne(u) <= u - 2
  {
    InvertHalf(u);
  }

  lemma {:induction false} StepsBelowMeasure(w: nat, t: nat)
    requires t <= w
    ensures WalkSteps(w, t) <= Measure(w, t)
    decreases w
  {
    if w > t {
      hide Next, Measure;
      var v := Next(w, t);
      StepsBelowMeasure(v, t);
      if w % 2 == 1 {
        OddStep(w, t);
      } else {
        EvenStep(w, t);
        if v > t { StepsBelowMeasure(Next(v, t), t); }
      }
    }
  }

  /** From a height of k binary digits, no ancestor is more than k * k pointers away. */
  lemma FewSteps(w: nat, t: nat, k: nat)
    requires t <= w < Pow(2, k)
    ensures WalkSteps(w, t) <= k * k
  {
    StepsBelowMeasure(w, t);
    hide WalkSteps;
    if w > t {
      TopBelow(w, t, k);
      LowInTop(w, t);
      Lower(Top(w, t), k, Low(w, t));
    }
  }

  /** No more than the square of the number of binary digits. */
  ghost predicate IsFew(nSteps: nat, height: nat) {
    forall k: nat :: height < Pow(2, k) ==> nSteps <= k * k
  }

  lemma WalksAreShort(w: nat, t: nat)
    requires t <= w
    ensures IsFew(WalkSteps(w, t), w)
  {
    forall k: nat | w < Pow(2, k) ensures WalkSteps(w, t) <= k * k { FewSteps(w, t, k); }
  }

  lemma NoStepsAreFew(height: nat)
    ensures IsFew(0, height)
  {
    forall k: nat | height < Pow(2, k) ensures 0 <= k * k {}
  }
}
