/** What a split gives to each identifier, as a function of the requested parts alone.

    A request names each identifier once with a fixed amount, a percentage of the total, or
    "left". Every amount is an exact decimal (a `real`); fractions of a minor unit are cut off and
    what is missing goes to the largest allocation, ties going to the smallest identifier. */
module Allocation {
  import opened RealSums
  import opened StringOrder
  import Sums

  datatype Part = Left | Fixed(amount: real) | Percent(rate: real) | Malformed

  type Parts = map<string, Part>

  // ----- the largest entry

  predicate Tops(x: real, a: string, y: real, b: string)
  {
    x > y || (x == y && (a == b || Less(a, b)))
  }

  ghost predicate IsLargest(m: map<string, real>, k: string)
  {
    k in m && forall j | j in m :: Tops(m[k], k, m[j], j)
  }

  lemma TopsTransitive(x: real, a: string, y: real, b: string, z: real, c: string)
    requires Tops(x, a, y, b) && Tops(y, b, z, c)
    ensures Tops(x, a, z, c)
  {
    if Less(a, b) && Less(b, c) {
      Transitive(a, b, c);
    }
  }

  lemma TopsTotal(x: real, a: string, y: real, b: string)
    ensures Tops(x, a, y, b) || Tops(y, b, x, a)
  {
    Connected(a, b);
  }

  lemma LargestIsUnique(m: map<string, real>, k: string, j: string)
    requires IsLargest(m, k) && IsLargest(m, j)
    ensures k == j
  {
    if k != j {
      assert Tops(m[k], k, m[j], j) && Tops(m[j], j, m[k], k);
      Asymmetric(k, j);
    }
  }

  lemma {:induction false} LargestExists(m: map<string, real>) returns (k: string)
    requires m != map[]
    ensures IsLargest(m, k)
    decreases |m|
  {
    k :| k in m;
    var rest := m - {k};
    assert forall i | i in m :: i == k || i in rest;
    if rest != map[] {
      var j := LargestExists(rest);
      TopsTotal(m[k], k, m[j], j);
      var first := if Tops(m[k], k, m[j], j) then k else j;
      forall i | i in m ensures Tops(m[first], first, m[i], i) {
        if i != k {
          assert Tops(rest[j], j, rest[i], i);
          if first == k {
            TopsTransitive(m[k], k, m[j], j, m[i], i);
          }
        }
      }
      k := first;
    }
  }

  ghost function Largest(m: map<string, real>): (k: string)
    requires m != map[]
    ensures k in m && IsLargest(m, k)
  {
    assert exists k :: IsLargest(m, k) by { var k := LargestExists(m); }
    var k :| IsLargest(m, k);
    k
  }

  // ----- the parts of a request

  ghost function FixedAmounts(p: Parts): map<string, real>
  {
    map k | k in p && p[k].Fixed? :: p[k].amount
  }

  ghost function Rates(p: Parts): map<string, real>
  {
    map k | k in p && p[k].Percent? :: p[k].rate
  }

  function RawShare(total: real, rate: real): real
  {
    total * rate / 100.0
  }

  /** A share below one minor unit counts as nothing. */
  function Share(total: real, rate: real): real
  {
    var raw := RawShare(total, rate);
    if 0.0 < raw < 1.0 then 0.0 else raw
  }

  ghost function Shares(total: real, p: Parts): map<string, real>
  {
    map k | k in p && p[k].Percent? :: Share(total, p[k].rate)
  }

  /** What the percentages are worth together. */
  ghost function Target(total: real, p: Parts): real
  {
    RawShare(total, Sum(Rates(p)))
  }

  ghost predicate HasLeft(p: Parts)
  {
    exists k | k in p :: p[k].Left?
  }

  ghost predicate OneLeft(p: Parts)
  {
    forall j, k | j in p && k in p && p[j].Left? && p[k].Left? :: j == k
  }

  ghost predicate Sound(p: Parts)
  {
    && OneLeft(p)
    && (forall k | k in p :: !p[k].Malformed?)
    && (forall k | k in p && p[k].Fixed? :: p[k].amount >= 0.0)
    && (forall k | k in p && p[k].Percent? :: p[k].rate >= 0.0)
  }

  /** The parts can be paid out of the total, and some part claims a positive total. */
  ghost predicate Payable(total: nat, p: Parts)
  {
    var fixedTotal, rateTotal := Sum(FixedAmounts(p)), Sum(Rates(p));
    && p != map[] && Sound(p)
    && rateTotal <= 100.0
    && fixedTotal + Target(total as real, p) <= total as real
    && (total > 0 ==> fixedTotal != 0.0 || rateTotal != 0.0 || HasLeft(p))
  }

  // ----- the allocation

  /** The shares, with the units lost to small shares given to the largest positive share. */
  ghost function Adjusted(total: real, p: Parts): map<string, real>
  {
    var s := Shares(total, p);
    if s == map[] || s[Largest(s)] <= 0.0 then s
    else s[Largest(s) := s[Largest(s)] + (Target(total, p) - Sum(s))]
  }

  ghost function Rest(total: real, p: Parts): real
  {
    total - Sum(FixedAmounts(p)) - Sum(Adjusted(total, p))
  }

  ghost function Exact(total: real, p: Parts): map<string, real>
  {
    map k | k in p :: match p[k]
      case Fixed(amount) => amount
      case Percent(_) => Adjusted(total, p)[k]
      case _ => Rest(total, p)
  }

  ghost function Residue(total: nat, p: Parts): int
  {
    total - Sums.Total(Floors(Exact(total as real, p)))
  }

  /** The allocation that the final correction is added to. */
  ghost function Corrected(total: nat, p: Parts): (k: string)
    requires p != map[]
    ensures k in p
  {
    var f := Floors(Exact(total as real, p));
    assert f.Keys == p.Keys && Reals(f).Keys == p.Keys;
    Largest(Reals(f))
  }

  ghost function Allocate(total: nat, p: Parts): map<string, int>
    requires p != map[]
  {
    if total == 0 then map k | k in p :: 0
    else
      var f, k := Floors(Exact(total as real, p)), Corrected(total, p);
      f[k := f[k] + Residue(total, p)]
  }

  // ----- nothing is lost before the floors

  lemma RawShareLinear(total: real, x: real, y: real)
    ensures RawShare(total, x + y) == RawShare(total, x) + RawShare(total, y)
    ensures RawShare(total, 0.0) == 0.0
    ensures total >= 0.0 && x >= 0.0 ==> RawShare(total, x) >= 0.0
  {
    assert total * (x + y) == total * x + total * y;
  }

  lemma {:induction false} RawShareOfSum(total: real, rates: map<string, real>, raws: map<string, real>)
    requires raws.Keys == rates.Keys
    requires forall k | k in rates :: raws[k] == RawShare(total, rates[k])
    ensures Sum(raws) == RawShare(total, Sum(rates))
    decreases |rates|
  {
    hide Sum, RawShare;
    Nothing<string>();
    RawShareLinear(total, 0.0, 0.0);
    if rates == map[] {
      assert raws == map[];
    } else {
      var p :| p in rates;
      Remove(rates, p);
      Remove(raws, p);
      RawShareOfSum(total, rates - {p}, raws - {p});
      RawShareLinear(total, rates[p], Sum(rates - {p}));
    }
  }

  lemma SharesBelowTarget(total: real, p: Parts)
    requires total >= 0.0 && Sound(p)
    ensures forall k | k in Shares(total, p) :: Shares(total, p)[k] >= 0.0
    ensures 0.0 <= Sum(Shares(total, p)) <= Target(total, p)
  {
    hide Sum, RawShare, OneLeft;
    var rates, shares := Rates(p), Shares(total, p);
    var raws := map k | k in rates :: RawShare(total, rates[k]);
    forall k | k in rates ensures 0.0 <= shares[k] <= raws[k] {
      RawShareLinear(total, rates[k], 0.0);
    }
    RawShareOfSum(total, rates, raws);
    assert shares.Keys == raws.Keys;
    Below(shares, raws);
    NonNegative(shares);
  }

  /** The adjustment reaches the exact worth of the percentages as soon as one share counts. */
  lemma AdjustedReachesTarget(total: real, p: Parts)
    requires total >= 0.0 && Sound(p)
    ensures Adjusted(total, p).Keys == Shares(total, p).Keys
    ensures forall k | k in Adjusted(total, p) :: Adjusted(total, p)[k] >= Shares(total, p)[k] >= 0.0
    ensures Sum(Adjusted(total, p)) <= Target(total, p)
    ensures (exists k | k in Shares(total, p) :: Shares(total, p)[k] > 0.0) ==> Sum(Adjusted(total, p)) == Target(total, p)
  {
    hide Sum, Share, Target, Less;
    SharesBelowTarget(total, p);
    var s := Shares(total, p);
    if s != map[] {
      var k := Largest(s);
      Put(s, k, s[k] + (Target(total, p) - Sum(s)));
      if j :| j in s && s[j] > 0.0 {
        assert Tops(s[k], k, s[j], j);
      }
    }
  }

  lemma RestNonNegative(total: nat, p: Parts)
    requires Payable(total, p)
    ensures Rest(total as real, p) >= 0.0
    ensures forall k | k in p :: Exact(total as real, p)[k] >= 0.0
  {
    hide Sum, Target, Adjusted, OneLeft;
    AdjustedReachesTarget(total as real, p);
    var shares := Shares(total as real, p);
    assert forall k | k in p && p[k].Percent? :: k in shares;
  }

  lemma KeysOfAdjusted(total: real, p: Parts)
    requires total >= 0.0 && Sound(p)
    ensures forall k :: k in Adjusted(total, p) <==> k in p && p[k].Percent?
  {
    hide Sum, Target, Adjusted;
    AdjustedReachesTarget(total, p);
    assert forall k :: k in Shares(total, p) <==> k in p && p[k].Percent?;
  }

  /** The exact amounts use up the total, except for what nobody asked for. */
  lemma ExactSum(total: real, p: Parts)
    requires total >= 0.0 && Sound(p)
    ensures Sum(Exact(total, p)) == if HasLeft(p) then total else total - Rest(total, p)
  {
    hide Sum, Target, Adjusted, Shares;
    var fixed, shares, exact := FixedAmounts(p), Adjusted(total, p), Exact(total, p);
    KeysOfAdjusted(total, p);
    var both := map k | k in p && !p[k].Left? :: exact[k];
    assert Joins(fixed, shares, both);
    Merge(fixed, shares, both);
    if l :| l in p && p[l].Left? {
      var left := map[l := Rest(total, p)];
      Put(map[], l, Rest(total, p));
      Nothing<string>();
      assert left == map[][l := Rest(total, p)];
      assert Joins(both, left, exact);
      Merge(both, left, exact);
    } else {
      assert both == exact;
    }
  }

  // ----- what a split guarantees

  /** The parts claim the whole total: there is a "left" part, or the fixed amounts and the
      percentages add up to it and some percentage is worth a minor unit. */
  ghost predicate ClaimsAll(total: nat, p: Parts)
  {
    var target := Target(total as real, p);
    || HasLeft(p)
    || (Sum(FixedAmounts(p)) + target == total as real &&
        (target == 0.0 || exists k | k in p && p[k].Percent? :: RawShare(total as real, p[k].rate) >= 1.0))
  }

  lemma FullPercentagesClaimAll(total: nat, p: Parts)
    requires Payable(total, p) && Sum(Rates(p)) == 100.0
    requires exists k | k in p && p[k].Percent? :: RawShare(total as real, p[k].rate) >= 1.0
    ensures ClaimsAll(total, p)
  {
    hide Sum;
    assert Target(total as real, p) == total as real;
    assert forall k | k in FixedAmounts(p) :: FixedAmounts(p)[k] >= 0.0;
    NonNegative(FixedAmounts(p));
  }

  /** What no part asks for; the final correction hands it to the largest allocation. */
  ghost function Unclaimed(total: real, p: Parts): real
  {
    if HasLeft(p) then 0.0 else Rest(total, p)
  }

  lemma UnclaimedWhen(total: nat, p: Parts)
    requires Payable(total, p)
    ensures Unclaimed(total as real, p) >= 0.0
    ensures Unclaimed(total as real, p) == 0.0 <==> ClaimsAll(total, p)
  {
    hide Sum, RawShare, Adjusted, OneLeft;
    var t := total as real;
    var s := Shares(t, p);
    RestNonNegative(total, p);
    SharesBelowTarget(t, p);
    AdjustedReachesTarget(t, p);
    NonNegative(Adjusted(t, p));
    assert forall k | k in p && p[k].Percent? :: k in s && (RawShare(t, p[k].rate) >= 1.0 <==> s[k] > 0.0);
    if forall k | k in s :: s[k] <= 0.0 {
      NoShareNothing(t, p);
    } else {
      var k :| k in s && s[k] > 0.0;
      assert RawShare(t, p[k].rate) >= 1.0;
    }
  }

  lemma NoShareNothing(total: real, p: Parts)
    requires total >= 0.0 && Sound(p)
    requires forall k | k in Shares(total, p) :: Shares(total, p)[k] <= 0.0
    ensures Sum(Adjusted(total, p)) == 0.0
  {
    hide Sum, Target, Share, OneLeft;
    var s := Shares(total, p);
    SharesBelowTarget(total, p);
    Nothing<string>();
    Below(s, map k | k in s :: 0.0);
    NonNegative(s);
    ZeroSum(map k | k in s :: 0.0);
  }

  lemma {:induction false} ZeroSum(m: map<string, real>)
    requires forall k | k in m :: m[k] == 0.0
    ensures Sum(m) == 0.0
    decreases |m|
  {
    if m != map[] {
      var p :| p in m && Sum(m) == m[p] + Sum(m - {p});
      ZeroSum(m - {p});
    }
  }

  /** The final correction is the unclaimed amount plus less than one minor unit per identifier,
      and it takes nothing away. */
  lemma ResidueBound(total: nat, p: Parts)
    requires total > 0 && Payable(total, p)
    ensures 0 <= Residue(total, p)
    ensures Unclaimed(total as real, p) <= Residue(total, p) as real < Unclaimed(total as real, p) + |p| as real
    ensures ClaimsAll(total, p) ==> Residue(total, p) < |p|
  {
    hide Sum, Sums.Total, Target, Adjusted, OneLeft, Sound, ClaimsAll;
    var exact := Exact(total as real, p);
    ExactSum(total as real, p);
    UnclaimedWhen(total, p);
    FloorsLose(exact);
    assert exact.Keys == p.Keys;
    assert |exact| == |p| by { assert |exact| == |exact.Keys| && |p| == |p.Keys|; }
  }

  /** Without that the correction can reach any size: a single fixed part of one unit gets the whole
      total, whose other units no part asked for. */
  lemma UnclaimedGoesToLargest(total: nat)
    requires total > 1
    ensures var p := map["a" := Fixed(1.0)];
      Payable(total, p) && !ClaimsAll(total, p) && Residue(total, p) == total - 1 >= |p| && Allocate(total, p) == map["a" := total]
  {
    hide Sum, Sums.Total, IsLargest;
    var p, t := map["a" := Fixed(1.0)], total as real;
    Nothing<string>();
    Put(map[], "a", 1.0);
    assert FixedAmounts(p) == map[]["a" := 1.0];
    assert Rates(p) == map[] && Shares(t, p) == map[] && Adjusted(t, p) == map[];
    assert Target(t, p) == 0.0 by { RawShareLinear(t, 0.0, 0.0); }
    assert Exact(t, p) == map["a" := 1.0];
    assert Floors(Exact(t, p)) == map[]["a" := 1];
    Sums.Put(map[], "a", 1);
    Sums.Zero<string>(map[]);
    UnclaimedWhen(total, p);
    assert Corrected(total, p) == "a";
    assert |p| == 1;
  }

  /** Conservation: exactly the requested identifiers, none negative, summing to the total. */
  lemma SplitConserves(total: nat, p: Parts)
    requires Payable(total, p)
    ensures Allocate(total, p).Keys == p.Keys
    ensures forall k | k in p :: Allocate(total, p)[k] >= 0
    ensures Sums.Total(Allocate(total, p)) == total
  {
    hide Sum, Sums.Total, Sound, Exact, Target, HasLeft;
    if total == 0 {
      Sums.Zero(Allocate(total, p));
    } else {
      var f, k := Floors(Exact(total as real, p)), Corrected(total, p);
      assert f.Keys == p.Keys by { assert Exact(total as real, p).Keys == p.Keys by { KeysOfExact(total as real, p); } }
      ResidueBound(total, p);
      RestNonNegative(total, p);
      Sums.Put(f, k, f[k] + Residue(total, p));
    }
  }

  lemma KeysOfExact(total: real, p: Parts)
    ensures Exact(total, p).Keys == p.Keys
  {
  }

  /** What an identifier's part is worth on its own. */
  ghost function Worth(total: real, p: Parts, k: string): real
    requires k in p
  {
    match p[k]
    case Fixed(amount) => amount
    case Percent(rate) => RawShare(total, rate)
    case _ => Rest(total, p)
  }

  /** Every identifier but the ones an adjustment chose gets the floor of its worth, and those
      get no less. */
  lemma FloorOfWorth(total: nat, p: Parts, k: string)
    requires total > 0 && Payable(total, p) && k in p
    ensures Allocate(total, p)[k] >= Worth(total as real, p, k).Floor
    ensures
      var shares := Shares(total as real, p);
      k != Corrected(total, p) && !(p[k].Percent? && shares != map[] && k == Largest(shares)) ==>
        Allocate(total, p)[k] == Worth(total as real, p, k).Floor
  {
    hide Sum, Sums.Total, Target, RawShare, OneLeft, HasLeft;
    var t := total as real;
    ResidueBound(total, p);
    AdjustedReachesTarget(t, p);
    assert p[k].Percent? ==> k in Shares(t, p) && Shares(t, p)[k].Floor == Worth(t, p, k).Floor by {
      if p[k].Percent? {
        RawShareLinear(t, p[k].rate, 0.0);
      }
    }
  }
}
