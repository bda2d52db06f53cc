/** Spending policies of API keys, and the policy that a chain of ancestors leaves in force. */
module PolicyRules {
  import opened Basics
  import opened Decimals

  /** A missing limit is no limit. */
  datatype Rule = Rule(currency: string, precision: nat, maxTransaction: Option<nat>, dailyLimit: Option<nat>,
                       approvalAbove: Option<nat>)

  /** Empty allowlists are unrestricted. */
  datatype KeyPolicy = KeyPolicy(apiKeyId: string, version: int, rules: seq<Rule>, ledgerIds: seq<string>,
                                 balanceIds: seq<string>, denyAll: bool, inheritedFrom: seq<string>)

  datatype Leg = Leg(transactionId: string, reference: string, source: string, destination: string,
                     sourceLedger: string, destinationLedger: string, currency: string, precision: nat, amount: string)

  // ----- rule keys and amounts

  function RuleKey(currency: string, precision: nat): string
  {
    currency + "/" + Digits(precision)
  }

  lemma SuffixAfterSlash(a: string, x: string, b: string, y: string)
    requires AllDigits(x) && AllDigits(y) && a + "/" + x == b + "/" + y
    ensures |x| <= |y|
  {
    var s := b + "/" + y;
    var at := |s| - |y| - 1;
    assert s[at] == '/';
    assert forall i | |a| < i < |s| :: s[i] == x[i - |a| - 1] && s[i] in x;
  }

  lemma RuleKeyInjective(c: string, p: nat, d: string, q: nat)
    requires RuleKey(c, p) == RuleKey(d, q)
    ensures c == d && p == q
  {
    hide Digits, Number;
    var x, y := Digits(p), Digits(q);
    SuffixAfterSlash(c, x, d, y);
    SuffixAfterSlash(d, y, c, x);
    var s := RuleKey(c, p);
    assert s[..|s| - |x| - 1] == c && s[..|s| - |y| - 1] == d;
    assert s[|s| - |x|..] == x && s[|s| - |y|..] == y;
    NumberOfDigits(p);
    NumberOfDigits(q);
  }

  /** Policy amounts are non-negative integers written without sign or leading zeros. */
  function Integer(s: string): Option<nat>
  {
    if s != "" && AllDigits(s) && Digits(Number(s)) == s then Some(Number(s)) else None
  }

  lemma IntegerRoundTrip(n: nat, s: string)
    ensures Integer(s) == Some(n) <==> s == Digits(n)
  {
    hide Digits, Number;
    NumberOfDigits(n);
  }

  // ----- what one policy allows

  predicate Allowed(list: seq<string>, id: string)
  {
    list == [] || id in list
  }

  function Find(rules: seq<Rule>, k: string): Option<Rule>
  {
    if rules == [] then None
    else if RuleKey(rules[|rules| - 1].currency, rules[|rules| - 1].precision) == k then Some(rules[|rules| - 1])
    else Find(rules[..|rules| - 1], k)
  }

  predicate UniqueKeys(rules: seq<Rule>)
  {
    forall i, j | 0 <= i < j < |rules| ::
      RuleKey(rules[i].currency, rules[i].precision) != RuleKey(rules[j].currency, rules[j].precision)
  }

  predicate Within(limit: Option<nat>, n: int)
  {
    limit.Some? ==> n <= limit.value
  }

  function KeyOf(leg: Leg): string
  {
    RuleKey(leg.currency, leg.precision)
  }

  predicate AllowsParties(p: KeyPolicy, leg: Leg)
  {
    && Allowed(p.balanceIds, leg.source) && Allowed(p.balanceIds, leg.destination)
    && Allowed(p.ledgerIds, leg.sourceLedger) && Allowed(p.ledgerIds, leg.destinationLedger)
  }

  predicate Admits(p: KeyPolicy, leg: Leg)
  {
    !p.denyAll && Find(p.rules, KeyOf(leg)).Some? && AllowsParties(p, leg)
  }

  // ----- intersection

  function Minimum(a: Option<nat>, b: Option<nat>): (r: Option<nat>)
    ensures forall n :: Within(r, n) <==> Within(a, n) && Within(b, n)
  {
    if a.None? then b else if b.None? then a else if a.value <= b.value then a else b
  }

  function MeetRule(a: Rule, b: Rule): Rule
  {
    a.(maxTransaction := Minimum(a.maxTransaction, b.maxTransaction),
       dailyLimit := Minimum(a.dailyLimit, b.dailyLimit),
       approvalAbove := Minimum(a.approvalAbove, b.approvalAbove))
  }

  method IntersectIds(a: seq<string>, b: seq<string>) returns (ids: seq<string>, empty: bool)
    ensures forall id :: !empty && Allowed(ids, id) <==> Allowed(a, id) && Allowed(b, id)
  {
    if a == [] {
      return b, false;
    }
    if b == [] {
      return a, false;
    }
    ids := [];
    for i := 0 to |a|
      invariant forall id :: id in ids <==> id in a[..i] && id in b
    {
      assert forall id :: id in a[..i + 1] <==> id in a[..i] || id == a[i];
      if Allowed(b, a[i]) {
        ids := ids + [a[i]];
      }
    }
    assert a[..|a|] == a;
    empty := |ids| == 0;
  }

  /** Exactly the rules both sides have, with the smaller of each pair of limits. */
  ghost predicate MeetsRules(a: seq<Rule>, b: seq<Rule>, r: seq<Rule>)
  {
    forall k :: Find(r, k) == if Find(a, k).Some? && Find(b, k).Some? then Some(MeetRule(Find(a, k).value, Find(b, k).value)) else None
  }

  lemma {:induction false} FindAt(rules: seq<Rule>, i: nat)
    requires UniqueKeys(rules) && i < |rules|
    ensures Find(rules, RuleKey(rules[i].currency, rules[i].precision)) == Some(rules[i])
    decreases |rules|
  {
    hide RuleKey;
    if i < |rules| - 1 {
      FindAt(rules[..|rules| - 1], i);
    }
  }

  lemma {:induction false} FindFrom(rules: seq<Rule>, k: string) returns (i: nat)
    requires Find(rules, k).Some?
    ensures i < |rules| && rules[i] == Find(rules, k).value && RuleKey(rules[i].currency, rules[i].precision) == k
  {
    hide RuleKey;
    if RuleKey(rules[|rules| - 1].currency, rules[|rules| - 1].precision) == k {
      i := |rules| - 1;
    } else {
      i := FindFrom(rules[..|rules| - 1], k);
    }
  }

  lemma {:induction false} FindNone(rules: seq<Rule>, i: nat)
    requires i < |rules|
    ensures Find(rules, RuleKey(rules[i].currency, rules[i].precision)).Some?
    decreases |rules|
  {
    hide RuleKey;
    if i < |rules| - 1 {
      FindNone(rules[..|rules| - 1], i);
    }
  }

  /** Growing a list by a rule whose key it does not have yet. */
  lemma FindGrows(rules: seq<Rule>, r: Rule)
    ensures forall k :: Find(rules + [r], k) == if RuleKey(r.currency, r.precision) == k then Some(r) else Find(rules, k)
    ensures UniqueKeys(rules + [r]) <==> UniqueKeys(rules) && Find(rules, RuleKey(r.currency, r.precision)).None?
  {
    hide RuleKey;
    var all, key := rules + [r], RuleKey(r.currency, r.precision);
    assert all[..|rules|] == rules && all[|rules|] == r;
    if Find(rules, key).Some? {
      var i := FindFrom(rules, key);
      assert all[i] == rules[i];
    } else {
      forall i | 0 <= i < |rules| ensures RuleKey(rules[i].currency, rules[i].precision) != key {
        FindNone(rules, i);
      }
    }
    if UniqueKeys(all) {
      forall i, j | 0 <= i < j < |rules|
        ensures RuleKey(rules[i].currency, rules[i].precision) != RuleKey(rules[j].currency, rules[j].precision)
      {
        assert all[i] == rules[i] && all[j] == rules[j];
      }
    }
  }

  lemma PrefixUnique(rules: seq<Rule>, n: nat)
    requires n < |rules| && UniqueKeys(rules)
    ensures rules[..n + 1] == rules[..n] + [rules[n]] && UniqueKeys(rules[..n + 1])
  {
    hide RuleKey;
  }

  /** One rule against a list: at most one entry has its key. */
  method MeetOne(rule: Rule, b: seq<Rule>, rules: seq<Rule>) returns (r: seq<Rule>)
    requires UniqueKeys(b)
    ensures
      var other := Find(b, RuleKey(rule.currency, rule.precision));
      r == if other.Some? then rules + [MeetRule(rule, other.value)] else rules
  {
    hide RuleKey, UniqueKeys;
    var key := RuleKey(rule.currency, rule.precision);
    var current := rule;
    r := rules;
    for j := 0 to |b|
      invariant Find(b[..j], key).None? ==> r == rules && current == rule
      invariant Find(b[..j], key).Some? ==> r == rules + [MeetRule(rule, Find(b[..j], key).value)]
    {
      PrefixUnique(b, j);
      FindGrows(b[..j], b[j]);
      if key != RuleKey(b[j].currency, b[j].precision) {
        continue;
      }
      current := MeetRule(current, b[j]);
      r := r + [current];
    }
    assert b[..|b|] == b;
  }

  method MeetRules(a: seq<Rule>, b: seq<Rule>) returns (rules: seq<Rule>)
    requires UniqueKeys(a) && UniqueKeys(b)
    ensures UniqueKeys(rules) && MeetsRules(a, b, rules)
  {
    hide RuleKey, UniqueKeys;
    rules := [];
    assert UniqueKeys(rules) by { NoRules(); }
    for i := 0 to |a|
      invariant UniqueKeys(rules) && MeetsRules(a[..i], b, rules)
    {
      PrefixUnique(a, i);
      FindGrows(a[..i], a[i]);
      var key := RuleKey(a[i].currency, a[i].precision);
      ghost var before := rules;
      rules := MeetOne(a[i], b, rules);
      if Find(b, key).Some? {
        FindGrows(before, MeetRule(a[i], Find(b, key).value));
      }
    }
    assert a[..|a|] == a;
  }

  lemma NoRules()
    ensures UniqueKeys([])
  {
  }

  // ----- the policy in force

  function MaxOf(p: KeyPolicy, k: string): Option<nat>
  {
    if Find(p.rules, k).Some? then Find(p.rules, k).value.maxTransaction else None
  }

  function DailyOf(p: KeyPolicy, k: string): Option<nat>
  {
    if Find(p.rules, k).Some? then Find(p.rules, k).value.dailyLimit else None
  }

  function ApprovalOf(p: KeyPolicy, k: string): Option<nat>
  {
    if Find(p.rules, k).Some? then Find(p.rules, k).value.approvalAbove else None
  }

  predicate AllAdmit(ps: seq<KeyPolicy>, leg: Leg)
  {
    forall p | p in ps :: Admits(p, leg)
  }

  predicate AllWithinMax(ps: seq<KeyPolicy>, k: string, n: int)
  {
    forall p | p in ps :: Within(MaxOf(p, k), n)
  }

  predicate AllWithinDaily(ps: seq<KeyPolicy>, k: string, n: int)
  {
    forall p | p in ps :: Within(DailyOf(p, k), n)
  }

  predicate AllBelowApproval(ps: seq<KeyPolicy>, k: string, n: int)
  {
    forall p | p in ps :: Within(ApprovalOf(p, k), n)
  }

  predicate AllHaveRule(ps: seq<KeyPolicy>, k: string)
  {
    forall p | p in ps :: Find(p.rules, k).Some?
  }

  function Versions(ps: seq<KeyPolicy>): int
  {
    if ps == [] then 0 else Versions(ps[..|ps| - 1]) + ps[|ps| - 1].version
  }

  /** The other keys the policies come from, nearest first. */
  function Inherited(key: string, ps: seq<KeyPolicy>): seq<string>
  {
    if ps == [] then []
    else
      var p := ps[|ps| - 1];
      Inherited(key, ps[..|ps| - 1]) + if p.apiKeyId != key then [p.apiKeyId] else []
  }

  /** m allows what every policy of the list allows on its own, and nothing else. */
  ghost predicate Conjunction(m: KeyPolicy, ps: seq<KeyPolicy>)
  {
    && UniqueKeys(m.rules)
    && (forall leg :: Admits(m, leg) <==> AllAdmit(ps, leg))
    && (forall k :: Find(m.rules, k).Some? <==> AllHaveRule(ps, k))
    && (forall k, n | Find(m.rules, k).Some? :: Within(MaxOf(m, k), n) <==> AllWithinMax(ps, k, n))
    && (forall k, n | Find(m.rules, k).Some? :: Within(DailyOf(m, k), n) <==> AllWithinDaily(ps, k, n))
    && (forall k, n | Find(m.rules, k).Some? :: Within(ApprovalOf(m, k), n) <==> AllBelowApproval(ps, k, n))
  }

  method MeetPolicy(m: KeyPolicy, p: KeyPolicy) returns (r: KeyPolicy)
    requires UniqueKeys(m.rules) && UniqueKeys(p.rules)
    ensures UniqueKeys(r.rules) && MeetsRules(m.rules, p.rules, r.rules)
    ensures forall leg :: Admits(r, leg) <==> Admits(m, leg) && Admits(p, leg)
    ensures r.apiKeyId == m.apiKeyId && r.version == m.version && r.inheritedFrom == m.inheritedFrom
  {
    hide UniqueKeys, Find;
    var rules := MeetRules(m.rules, p.rules);
    var ledgers, noLedger := IntersectIds(m.ledgerIds, p.ledgerIds);
    var balances, noBalance := IntersectIds(m.balanceIds, p.balanceIds);
    r := m.(rules := rules, ledgerIds := ledgers, balanceIds := balances,
            denyAll := m.denyAll || p.denyAll || noLedger || noBalance);
  }

  lemma ConjunctionGrows(m: KeyPolicy, ps: seq<KeyPolicy>, p: KeyPolicy, r: KeyPolicy)
    requires Conjunction(m, ps) && UniqueKeys(r.rules) && MeetsRules(m.rules, p.rules, r.rules)
    requires forall leg :: Admits(r, leg) <==> Admits(m, leg) && Admits(p, leg)
    ensures Conjunction(r, ps + [p])
  {
    hide *;
    var all := ps + [p];
    ConjunctionSays(m, ps);
    AllGrow(ps, p);
    forall k ensures Find(r.rules, k).Some? <==> Find(m.rules, k).Some? && Find(p.rules, k).Some? {
      MeetLimits(m, p, r, k);
    }
    forall k, n | Find(r.rules, k).Some?
      ensures Within(MaxOf(r, k), n) <==> AllWithinMax(all, k, n)
      ensures Within(DailyOf(r, k), n) <==> AllWithinDaily(all, k, n)
      ensures Within(ApprovalOf(r, k), n) <==> AllBelowApproval(all, k, n)
    {
      MeetLimits(m, p, r, k);
    }
    ConjunctionHolds(r, all);
  }

  lemma ConjunctionSays(m: KeyPolicy, ps: seq<KeyPolicy>)
    requires Conjunction(m, ps)
    ensures forall leg :: Admits(m, leg) <==> AllAdmit(ps, leg)
    ensures forall k :: Find(m.rules, k).Some? <==> AllHaveRule(ps, k)
    ensures forall k, n | Find(m.rules, k).Some? :: Within(MaxOf(m, k), n) <==> AllWithinMax(ps, k, n)
    ensures forall k, n | Find(m.rules, k).Some? :: Within(DailyOf(m, k), n) <==> AllWithinDaily(ps, k, n)
    ensures forall k, n | Find(m.rules, k).Some? :: Within(ApprovalOf(m, k), n) <==> AllBelowApproval(ps, k, n)
  {
    hide UniqueKeys, Find, AllAdmit, AllHaveRule, AllWithinMax, AllWithinDaily, AllBelowApproval, Admits, Within, MaxOf, DailyOf, ApprovalOf;
  }

  lemma ConjunctionHolds(m: KeyPolicy, ps: seq<KeyPolicy>)
    requires UniqueKeys(m.rules)
    requires forall leg :: Admits(m, leg) <==> AllAdmit(ps, leg)
    requires forall k :: Find(m.rules, k).Some? <==> AllHaveRule(ps, k)
    requires forall k, n | Find(m.rules, k).Some? :: Within(MaxOf(m, k), n) <==> AllWithinMax(ps, k, n)
    requires forall k, n | Find(m.rules, k).Some? :: Within(DailyOf(m, k), n) <==> AllWithinDaily(ps, k, n)
    requires forall k, n | Find(m.rules, k).Some? :: Within(ApprovalOf(m, k), n) <==> AllBelowApproval(ps, k, n)
    ensures Conjunction(m, ps)
  {
    hide UniqueKeys, Find, AllAdmit, AllHaveRule, AllWithinMax, AllWithinDaily, AllBelowApproval, Admits, Within, MaxOf, DailyOf, ApprovalOf;
  }

  lemma AllGrow(ps: seq<KeyPolicy>, p: KeyPolicy)
    ensures forall leg :: AllAdmit(ps + [p], leg) <==> AllAdmit(ps, leg) && Admits(p, leg)
    ensures forall k :: AllHaveRule(ps + [p], k) <==> AllHaveRule(ps, k) && Find(p.rules, k).Some?
    ensures forall k, n :: AllWithinMax(ps + [p], k, n) <==> AllWithinMax(ps, k, n) && Within(MaxOf(p, k), n)
    ensures forall k, n :: AllWithinDaily(ps + [p], k, n) <==> AllWithinDaily(ps, k, n) && Within(DailyOf(p, k), n)
    ensures forall k, n :: AllBelowApproval(ps + [p], k, n) <==> AllBelowApproval(ps, k, n) && Within(ApprovalOf(p, k), n)
  {
    hide Find, Admits, Within, MaxOf, DailyOf, ApprovalOf;
    assert forall q :: q in ps + [p] <==> q in ps || q == p;
  }

  lemma MeetLimits(m: KeyPolicy, p: KeyPolicy, r: KeyPolicy, k: string)
    requires MeetsRules(m.rules, p.rules, r.rules)
    ensures Find(r.rules, k).Some? <==> Find(m.rules, k).Some? && Find(p.rules, k).Some?
    ensures Find(r.rules, k).Some? ==> forall n :: Within(MaxOf(r, k), n) <==> Within(MaxOf(m, k), n) && Within(MaxOf(p, k), n)
    ensures Find(r.rules, k).Some? ==> forall n :: Within(DailyOf(r, k), n) <==> Within(DailyOf(m, k), n) && Within(DailyOf(p, k), n)
    ensures Find(r.rules, k).Some? ==>
      forall n :: Within(ApprovalOf(r, k), n) <==> Within(ApprovalOf(m, k), n) && Within(ApprovalOf(p, k), n)
  {
    hide Find;
  }

  lemma ConjunctionOfOne(m: KeyPolicy, p: KeyPolicy)
    requires UniqueKeys(p.rules) && m.rules == p.rules && m.denyAll == p.denyAll
    requires m.ledgerIds == p.ledgerIds && m.balanceIds == p.balanceIds
    ensures Conjunction(m, [p])
  {
    hide UniqueKeys, Find;
    assert p in [p] && forall q | q in [p] :: q == p;
    assert forall leg :: AllAdmit([p], leg) <==> Admits(p, leg);
    assert forall k :: AllHaveRule([p], k) <==> Find(p.rules, k).Some?;
    assert forall k, n :: AllWithinMax([p], k, n) <==> Within(MaxOf(p, k), n);
    assert forall k, n :: AllWithinDaily([p], k, n) <==> Within(DailyOf(p, k), n);
    assert forall k, n :: AllBelowApproval([p], k, n) <==> Within(ApprovalOf(p, k), n);
  }

  /** The policy in force for a key: what its own policy and all its ancestors' policies allow. */
  method Intersect(key: string, policies: seq<KeyPolicy>) returns (r: Option<KeyPolicy>)
    requires forall p | p in policies :: UniqueKeys(p.rules)
    ensures r.None? <==> policies == []
    ensures r.Some? ==> Conjunction(r.value, policies) && r.value.apiKeyId == key && r.value.version == Versions(policies)
    ensures r.Some? ==> r.value.inheritedFrom == Inherited(key, policies)
    ensures r.Some? && r.value.denyAll ==> forall leg :: !AllAdmit(policies, leg)
  {
    hide UniqueKeys, Find, Admits, Conjunction;
    if policies == [] {
      return None;
    }
    var m := policies[0].(apiKeyId := key, version := 0, inheritedFrom := []);
    for i := 0 to |policies|
      invariant m.apiKeyId == key && m.version == Versions(policies[..i]) && m.inheritedFrom == Inherited(key, policies[..i])
      invariant i == 0 ==> m.rules == policies[0].rules && m.denyAll == policies[0].denyAll
      invariant i == 0 ==> m.ledgerIds == policies[0].ledgerIds && m.balanceIds == policies[0].balanceIds
      invariant i > 0 ==> Conjunction(m, policies[..i])
    {
      var p := policies[i];
      assert policies[..i + 1] == policies[..i] + [p] && (policies[..i + 1])[..i] == policies[..i];
      ghost var was := m;
      m := m.(version := m.version + p.version);
      if p.apiKeyId != key {
        m := m.(inheritedFrom := m.inheritedFrom + [p.apiKeyId]);
      }
      if i == 0 {
        ConjunctionOfOne(m, p);
        assert policies[..1] == [p];
        continue;
      }
      SameRestrictions(was, m, policies[..i]);
      ghost var before := m;
      m := MeetPolicy(m, p);
      ConjunctionGrows(before, policies[..i], p, m);
    }
    assert policies[..|policies|] == policies;
    ghost var was := m;
    if m.rules == [] {
      m := m.(denyAll := true);
    }
    DeniedAnyway(was, m, policies);
    r := Some(m);
  }

  lemma SameRestrictions(m: KeyPolicy, r: KeyPolicy, ps: seq<KeyPolicy>)
    requires Conjunction(m, ps)
    requires r.rules == m.rules && r.denyAll == m.denyAll && r.ledgerIds == m.ledgerIds && r.balanceIds == m.balanceIds
    ensures Conjunction(r, ps) && UniqueKeys(r.rules)
  {
    hide UniqueKeys, Find, AllAdmit, AllHaveRule, AllWithinMax, AllWithinDaily, AllBelowApproval;
    assert forall leg :: Admits(r, leg) <==> Admits(m, leg);
    assert forall k :: MaxOf(r, k) == MaxOf(m, k) && DailyOf(r, k) == DailyOf(m, k) && ApprovalOf(r, k) == ApprovalOf(m, k);
  }

  /** Denying everything changes nothing where no rule is left. */
  lemma DeniedAnyway(m: KeyPolicy, r: KeyPolicy, ps: seq<KeyPolicy>)
    requires Conjunction(m, ps) && (r == m || (m.rules == [] && r == m.(denyAll := true)))
    ensures Conjunction(r, ps)
    ensures r.denyAll ==> forall leg :: !AllAdmit(ps, leg)
  {
    hide UniqueKeys, AllAdmit, AllHaveRule, AllWithinMax, AllWithinDaily, AllBelowApproval;
    assert forall leg :: Admits(r, leg) <==> Admits(m, leg);
    assert forall k :: MaxOf(r, k) == MaxOf(m, k) && DailyOf(r, k) == DailyOf(m, k) && ApprovalOf(r, k) == ApprovalOf(m, k);
    if r.denyAll {
      forall leg ensures !AllAdmit(ps, leg) {
        assert !Admits(r, leg);
      }
    }
  }
}
