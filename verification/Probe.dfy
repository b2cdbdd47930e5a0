/** The link probe's streaming statistics, against their batch definitions. */
module Probe {
  import opened Words

  // ---------------------------------------------------------------- the worst gaps

  const TOP_GAPS := 20

  datatype Gap = Gap(at: real, delta: nat, seqBefore: uint32, lost: uint32)

  const BLANK := Gap(0.0, 0, 0, 0)

  predicate Ascending(s: seq<Gap>) {
    forall i, j :: 0 <= i < j < |s| ==> s[i].delta <= s[j].delta
  }

  /** `g` put behind every gap that is not longer. */
  function Place(s: seq<Gap>, g: Gap, k: nat): seq<Gap>
    requires k <= |s|
  {
    s[..k] + [g] + s[k..]
  }

  predicate Fits(s: seq<Gap>, g: Gap, k: nat)
    requires k <= |s|
  {
    (forall i :: 0 <= i < k ==> s[i].delta <= g.delta) && (forall i :: k <= i < |s| ==> g.delta < s[i].delta)
  }

  function Blanks(): seq<Gap> {
    seq(TOP_GAPS, _ => BLANK)
  }

  /**
   `kept` are twenty of the longest gaps noted, shortest first, blanks standing for those not yet
   seen: what was left out is no longer than anything kept.
   */
  ghost predicate Longest(kept: seq<Gap>, noted: seq<Gap>, dropped: multiset<Gap>) {
    && |kept| == TOP_GAPS && Ascending(kept)
    && multiset(kept) + dropped == multiset(noted) + multiset(Blanks())
    && forall x, i :: x in dropped && 0 <= i < |kept| ==> x.delta <= kept[i].delta
  }

  lemma ShortestFirst(kept: seq<Gap>)
    requires Ascending(kept)
    ensures forall i :: 0 <= i < |kept| ==> kept[0].delta <= kept[i].delta
  {}

  /** The bookkeeping of one more gap: `e` leaves, or never enters, and everything is accounted for. */
  lemma Accounts(kept: seq<Gap>, kept': seq<Gap>, noted: seq<Gap>, dropped: multiset<Gap>, g: Gap, e: Gap)
    requires multiset(kept) + dropped == multiset(noted) + multiset(Blanks())
    requires multiset(kept') + multiset{e} == multiset(kept) + multiset{g}
    ensures multiset(kept') + (dropped + multiset{e}) == multiset(noted + [g]) + multiset(Blanks())
  {
    calc {
      multiset(kept') + (dropped + multiset{e});
      (multiset(kept') + multiset{e}) + dropped;
      (multiset(kept) + dropped) + multiset{g};
      (multiset(noted) + multiset{g}) + multiset(Blanks());
      multiset(noted + [g]) + multiset(Blanks());
    }
  }

  lemma LongestDrops(kept: seq<Gap>, noted: seq<Gap>, dropped: multiset<Gap>, g: Gap)
    requires Longest(kept, noted, dropped) && g.delta <= kept[0].delta
    ensures Longest(kept, noted + [g], dropped + multiset{g})
  {
    hide Blanks;
    ShortestFirst(kept);
    Accounts(kept, kept, noted, dropped, g, g);
  }

  lemma PlaceKeepsAll(kept: seq<Gap>, g: Gap, k: nat)
    requires k < |kept|
    ensures multiset(Place(kept[1..], g, k)) + multiset{kept[0]} == multiset(kept) + multiset{g}
  {
    var s := kept[1..];
    assert kept == [kept[0]] + s && s == s[..k] + s[k..];
  }

  lemma PlaceSorts(s: seq<Gap>, g: Gap, k: nat)
    requires Ascending(s) && k <= |s| && Fits(s, g, k)
    ensures Ascending(Place(s, g, k))
  {}

  lemma LongestPlaces(kept: seq<Gap>, noted: seq<Gap>, dropped: multiset<Gap>, g: Gap, k: nat)
    requires Longest(kept, noted, dropped) && kept[0].delta < g.delta && k < |kept| && Fits(kept[1..], g, k)
    ensures Longest(Place(kept[1..], g, k), noted + [g], dropped + multiset{kept[0]})
  {
    hide Blanks;
    var s, e, r := kept[1..], kept[0], Place(kept[1..], g, k);
    ShortestFirst(kept);
    PlaceKeepsAll(kept, g, k);
    PlaceSorts(s, g, k);
    Accounts(kept, r, noted, dropped, g, e);
    forall i | 0 <= i < |r|
      ensures e.delta <= r[i].delta
    {
      assert r[i] == g || r[i] in kept;
    }
  }

  /** Every gap noted is among the twenty kept or is no longer than any of them. */
  lemma KeptOrShorter(kept: seq<Gap>, noted: seq<Gap>, dropped: multiset<Gap>, g: Gap)
    requires Longest(kept, noted, dropped) && g in noted
    ensures |kept| == 20 && (g in kept || forall i :: 0 <= i < 20 ==> g.delta <= kept[i].delta)
  {
    hide Blanks;
    assert g in multiset(noted) + multiset(Blanks());
    assert g in multiset(kept) + dropped;
  }

  class TopGaps {
    const top: array<Gap>
    ghost var noted: seq<Gap>
    ghost var dropped: multiset<Gap>

    ghost predicate Valid()
      reads this, top
    {
      top.Length == TOP_GAPS && Longest(top[..], noted, dropped)
    }

    constructor ()
      ensures Valid() && noted == [] && fresh(top)
    {
      top := new Gap[TOP_GAPS](_ => BLANK);
      noted, dropped := [], multiset{};
      new;
      assert top[..] == Blanks();
    }

    /** note_gap: replaces the shortest gap kept and bubbles the new one into place. */
    method NoteGap(g: Gap)
      requires Valid()
      modifies this`noted, this`dropped, top
      ensures Valid() && noted == old(noted) + [g]
      ensures top.Length == 20 && forall i, j :: 0 <= i < j < 20 ==> top[i].delta <= top[j].delta
      ensures forall x :: x in noted ==> x in top[..] || forall i :: 0 <= i < 20 ==> x.delta <= top[i].delta
    {
      Note(g);
      assert top[..] == top[..20];
      forall x | x in noted
        ensures x in top[..] || forall i :: 0 <= i < 20 ==> x.delta <= top[i].delta
      {
        KeptOrShorter(top[..], noted, dropped, x);
      }
      hide Longest;
    }

    method Note(g: Gap)
      requires Valid()
      modifies this`noted, this`dropped, top
      ensures Valid() && noted == old(noted) + [g]
    {
      if top[0].delta >= g.delta {
        LongestDrops(top[..], noted, dropped, g);
        noted, dropped := noted + [g], dropped + multiset{g};
        return;
      }
      ghost var was := top[..];
      assert top[1..] == was[1..];
      ghost var k := Insert(top, g);
      LongestPlaces(was, noted, dropped, g, k);
      noted, dropped := noted + [g], dropped + multiset{was[0]};
    }
  }

  method Swap(top: array<Gap>, i: nat)
    requires 0 < i < top.Length
    modifies top
    ensures top[i] == old(top[i - 1]) && top[i - 1] == old(top[i])
    ensures forall j :: 0 <= j < top.Length && j != i && j != i - 1 ==> top[j] == old(top[j])
  {
    top[i], top[i - 1] := top[i - 1], top[i];
  }

  /** The bubbling loop: the shortest gap gives way to `g`. */
  method Insert(top: array<Gap>, g: Gap) returns (ghost k: nat)
    requires top.Length > 0 && Ascending(top[..])
    modifies top
    ensures k < top.Length && Fits(old(top[1..]), g, k) && top[..] == Place(old(top[1..]), g, k)
  {
    hide Ascending, Fits, Place;
    ghost var was, s := top[..], top[1..];
    top[0] := g;
    var i := 1;
    while i < top.Length
      invariant 1 <= i <= top.Length && top[i - 1] == g
      invariant forall j :: 0 <= j < i - 1 ==> top[j] == s[j] && s[j].delta <= g.delta
      invariant forall j :: i <= j < top.Length ==> top[j] == was[j]
    {
      assert s[i - 1] == was[i];
      if top[i].delta > top[i - 1].delta {
        break;
      }
      Swap(top, i);
      i := i + 1;
    }
    k := i - 1;
    Bubbled(was, s, top[..], g, k);
  }

  lemma Bubbled(was: seq<Gap>, s: seq<Gap>, t: seq<Gap>, g: Gap, k: nat)
    requires Ascending(was) && was != [] && s == was[1..] && |t| == |was| && k < |t|
    requires forall j :: 0 <= j < k ==> t[j] == s[j] && s[j].delta <= g.delta
    requires t[k] == g && (k + 1 < |t| ==> g.delta < t[k + 1].delta)
    requires forall j :: k < j < |t| ==> t[j] == was[j]
    ensures Fits(s, g, k) && t == Place(s, g, k)
  {}

  // ---------------------------------------------------------------- mean and variance

  function Sum(xs: seq<real>): real {
    if xs == [] then 0.0 else Sum(xs[..|xs| - 1]) + xs[|xs| - 1]
  }

  /** Products, named so that only the lemmas about the algebra look inside. */
  function Mul(a: real, b: real): real {
    a * b
  }

  /** Sum of squared deviations from `c`. */
  function Deviations(xs: seq<real>, c: real): real {
    if xs == [] then 0.0
    else Deviations(xs[..|xs| - 1], c) + Mul(xs[|xs| - 1] - c, xs[|xs| - 1] - c)
  }

  /** By how much the deviations grow when their centre moves from `m` to `c`. */
  function Shift(m: real, c: real, sum: real, n: real): real {
    (m - c) * (2.0 * sum - n * (m + c))
  }

  lemma {:induction false} Recentre(xs: seq<real>, m: real, c: real)
    ensures Deviations(xs, c) == Deviations(xs, m) + Shift(m, c, Sum(xs), |xs| as real)
  {
    if xs != [] {
      var p, x, n := xs[..|xs| - 1], xs[|xs| - 1], |xs| as real - 1.0;
      Recentre(p, m, c);
      RecentreStep(m, c, Sum(p), n, x);
      hide Mul, Shift;
      assert |p| as real == n;
    }
  }

  lemma RecentreStep(m: real, c: real, s: real, n: real, x: real)
    ensures Shift(m, c, s, n) + Mul(x - c, x - c) == Mul(x - m, x - m) + Shift(m, c, s + x, n + 1.0)
  {}

  function NextMean(m: real, x: real, n: real): real
    requires n != 0.0
  {
    m + (x - m) / n
  }

  /** The algebra of one update, `n` values with sum `s` and mean `m` before it. */
  lemma UpdateExact(n: real, m: real, x: real, s: real)
    requires n >= 0.0 && Mul(n, m) == s
    ensures var c := NextMean(m, x, n + 1.0);
            Mul(n + 1.0, c) == s + x && Shift(m, c, s, n) + Mul(x - c, x - c) == Mul(x - m, x - c)
  {}

  /** The update turns the figures of `xs` into those of `xs` and one more value. */
  lemma UpdateKeeps(xs: seq<real>, x: real, m: real, m2: real, n: real)
    requires n == |xs| as real && Mul(n, m) == Sum(xs) && m2 == Deviations(xs, m)
    ensures var c := NextMean(m, x, n + 1.0);
            Mul(n + 1.0, c) == Sum(xs + [x]) && m2 + Mul(x - m, x - c) == Deviations(xs + [x], c)
  {
    hide Mul, Shift, NextMean;
    assert (xs + [x])[..|xs|] == xs;
    Recentre(xs, m, NextMean(m, x, n + 1.0));
    UpdateExact(n, m, x, Sum(xs));
  }

  lemma MeanIs(n: real, m: real, s: real)
    requires n > 0.0 && Mul(n, m) == s
    ensures m == s / n
  {}

  /** The running figures of one connection. */
  class Running {
    var n: nat
    var mean: real
    var m2: real
    ghost var deltas: seq<real>

    /** The mean is the arithmetic mean, and `m2` the sum of squared deviations from it. */
    ghost predicate Valid()
      reads this
    {
      n == |deltas| && Mul(n as real, mean) == Sum(deltas) && m2 == Deviations(deltas, mean)
    }

    constructor ()
      ensures Valid() && deltas == []
    {
      n, mean, m2, deltas := 0, 0.0, 0.0, [];
    }

    /** The per-packet update. */
    method Update(delta: real)
      requires Valid()
      modifies this
      ensures Valid() && deltas == old(deltas) + [delta]
      ensures n == |deltas| && mean == Sum(deltas) / n as real && m2 == Deviations(deltas, Sum(deltas) / n as real)
    {
      hide Mul, NextMean;
      UpdateKeeps(deltas, delta, mean, m2, n as real);
      n := n + 1;
      var d := delta - mean;
      mean := NextMean(mean, delta, n as real);
      m2 := m2 + Mul(d, delta - mean);
      deltas := deltas + [delta];
      MeanIs(n as real, mean, Sum(deltas));
    }
  }
}
