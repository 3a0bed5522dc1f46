/** Policy rules. The kernel keeps a set of them; the tables tell them apart by `same_rule`, which confuses
    some (crates/nodenet-linux-context/src/normalize.rs). Dump and replay are coherent where no event is about a
    rule that is confused with one the kernel holds. */
module Rules {
  import opened Wire
  import opened Records
  import opened Tables
  import opened Normalize
  import opened Kernel

  // ---------------------------------------------------------------------------------------
  // The kernel's rules.

  /** The rule an event is about, if any. */
  function RuleOf(m: Message): Option<Rule> {
    match m
    case NewRule(Ok(r)) => Some(r)
    case DelRule(Ok(r)) => Some(r)
    case _ => None
  }

  function ApplyRule(s: set<Rule>, m: Message): set<Rule> {
    match m
    case NewRule(Ok(r)) => s + {r}
    case DelRule(Ok(r)) => s - {r}
    case _ => s
  }

  function ReplayRules(s: set<Rule>, ms: seq<Message>): set<Rule> {
    if ms == [] then s else ApplyRule(ReplayRules(s, ms[..|ms| - 1]), ms[|ms| - 1])
  }

  function RulesAt(start: set<Rule>, history: seq<Message>, i: nat): set<Rule>
    requires i <= |history|
  {
    ReplayRules(start, history[..i])
  }

  /** `seen` shows `r`, present or absent, as it was at some instant between `lo` and `hi`. */
  ghost predicate RuleSeen(seen: set<Rule>, start: set<Rule>, history: seq<Message>, lo: nat, hi: nat, r: Rule)
    requires lo <= hi <= |history|
  {
    exists t: nat :: lo <= t <= hi && (r in seen <==> r in RulesAt(start, history, t))
  }

  // ---------------------------------------------------------------------------------------
  // The table.

  function Self(r: Rule): Rule { r }

  function RuleSet(s: seq<Rule>): set<Rule> { set r | r in s }

  ghost predicate NoRuleTwice(s: seq<Rule>) { Distinct(s, Self) }

  /** Rules the kernel keeps apart and the tables do not. */
  predicate Confused(l: Rule, r: Rule) { SameRule(l, r) && l != r }

  lemma {:induction false} RetainRulesMembers(s: seq<Rule>, r: Rule, x: Rule)
    ensures x in RetainRules(s, r) <==> x in s && !SameRule(x, r)
  {
    if s != [] {
      var init, last := s[..|s| - 1], s[|s| - 1];
      RetainRulesMembers(init, r, x);
      assert s == init + [last];
    }
  }

  lemma {:induction false} RetainRulesTwice(s: seq<Rule>, r: Rule)
    requires NoRuleTwice(s)
    ensures NoRuleTwice(RetainRules(s, r)) && NoRuleTwice(RetainRules(s, r) + [r])
  {
    if s != [] {
      var init, last := s[..|s| - 1], s[|s| - 1];
      RetainRulesTwice(init, r);
      var kept := RetainRules(init, r);
      forall i | 0 <= i < |kept| ensures Self(kept[i]) != Self(last) {
        RetainRulesMembers(init, r, kept[i]);
        var j :| 0 <= j < |init| && init[j] == kept[i];
        assert Self(s[j]) != Self(s[|s| - 1]);
      }
    }
    var kept := RetainRules(s, r);
    forall i | 0 <= i < |kept| ensures Self(kept[i]) != Self(r) {
      RetainRulesMembers(s, r, kept[i]);
    }
  }

  /** A table follows the arrival or the departure of a rule exactly when it confuses that rule with none it
      holds. */
  lemma RuleStepExact(s: seq<Rule>, r: Rule)
    ensures RuleSet(RetainRules(s, r) + [r]) == RuleSet(s) + {r} <==> forall x :: x in s ==> !Confused(x, r)
    ensures RuleSet(RetainRules(s, r)) == RuleSet(s) - {r} <==> forall x :: x in s ==> !Confused(x, r)
  {
    var kept := RetainRules(s, r);
    forall x ensures x in kept <==> x in s && !SameRule(x, r) { RetainRulesMembers(s, r, x); }
    forall x | x in s && Confused(x, r)
      ensures RuleSet(kept + [r]) != RuleSet(s) + {r} && RuleSet(kept) != RuleSet(s) - {r}
    {
      assert x !in RuleSet(kept + [r]) && x in RuleSet(s) + {r};
      assert x !in RuleSet(kept) && x in RuleSet(s) - {r};
    }
  }

  /** Any two rules it confuses break the replay: the arrival of the second drives out the first. */
  lemma ConfusionLosesRule(l: Rule, r: Rule)
    requires Confused(l, r)
    ensures var history := [NewRule(Ok(r))];
            && RuleSet(RetainRules([l], r) + [r]) == {r}
            && RulesAt({l}, history, 0) == {l} && RulesAt({l}, history, 1) == {l, r} != {r}
  {
    var history := [NewRule(Ok(r))];
    assert [l][..0] == [] && RetainRules([], r) == [];
    assert RetainRules([l], r) == [];
    assert history[..0] == [] && history[..1] == history;
    assert l in {l, r} && l !in {r};
  }

  /** Two rules of one priority, which the kernel allows, are confused; so are a rule with a priority and one
      of the same selector without. */
  lemma ConfusedPairs()
    ensures exists l: Rule, r: Rule :: Confused(l, r) && l.priority == r.priority
    ensures exists l: Rule, r: Rule :: Confused(l, r) && l.priority.Some? && r.priority.None?
  {
    var l := Rule(Inet, 0, 0, 0, 0, 254, 1, Some(100), [], []);
    assert Confused(l, l.(table := 253)) && l.priority == l.(table := 253).priority;
    assert Confused(l, l.(priority := None)) && l.(priority := None).priority.None?;
  }

  /** `same_rule` is not even transitive, so no key can stand for it. */
  lemma SameRuleNotTransitive()
    ensures exists a: Rule, b: Rule, c: Rule :: SameRule(a, b) && SameRule(b, c) && !SameRule(a, c)
  {
    var a := Rule(Inet, 0, 0, 0, 0, 254, 1, Some(100), [], []);
    var b := Rule(Inet, 0, 0, 0, 0, 254, 1, None, [], []);
    var c := Rule(Inet, 0, 0, 0, 0, 254, 1, Some(200), [], []);
    assert SameRule(a, b) && SameRule(b, c) && !SameRule(a, c);
  }

  /** The identity `same_rule` would have if presence of a priority were part of it. */
  predicate SameRuleIdentity(l: Rule, r: Rule) {
    l.family == r.family && l.priority == r.priority && (l.priority.None? ==> SameSelector(l, r))
  }

  /** `same_rule` is that identity exactly on the pairs without a clash between a rule that carries a
      priority and one of the same selector that does not. */
  lemma SameRuleExact(l: Rule, r: Rule)
    ensures (SameRule(l, r) <==> SameRuleIdentity(l, r))
            <==> !(l.family == r.family && l.priority.Some? != r.priority.Some? && SameSelector(l, r))
  {
  }

  // ---------------------------------------------------------------------------------------
  // Replay over the table.

  function ChangeTable(s: seq<Rule>, m: Message): seq<Rule> {
    match m
    case NewRule(Ok(r)) => RetainRules(s, r) + [r]
    case DelRule(Ok(r)) => RetainRules(s, r)
    case _ => s
  }

  function ReplayTable(s: seq<Rule>, ms: seq<Message>): seq<Rule> {
    if ms == [] then s else ChangeTable(ReplayTable(s, ms[..|ms| - 1]), ms[|ms| - 1])
  }

  lemma {:induction false} ReplayTableAppend(s: seq<Rule>, a: seq<Message>, b: seq<Message>)
    ensures ReplayTable(s, a + b) == ReplayTable(ReplayTable(s, a), b)
    decreases |b|
  {
    if b == [] {
      assert a + b == a;
    } else {
      assert (a + b)[..|a + b| - 1] == a + b[..|b| - 1];
      ReplayTableAppend(s, a, b[..|b| - 1]);
    }
  }

  lemma {:induction false} ReplayTableTwice(s: seq<Rule>, ms: seq<Message>)
    requires NoRuleTwice(s)
    ensures NoRuleTwice(ReplayTable(s, ms))
  {
    hide NoRuleTwice, RetainRules;
    if ms != [] {
      var init, last := ms[..|ms| - 1], ms[|ms| - 1];
      ReplayTableTwice(s, init);
      if RuleOf(last).Some? { RetainRulesTwice(ReplayTable(s, init), RuleOf(last).value); }
    }
  }

  /** Notifications that are applied change the rule table by replay. */
  lemma {:induction false} ApplyAllTable(p: Parts, ms: seq<Message>)
    requires ApplyAll(p, ms).Ok?
    ensures ApplyAll(p, ms).value.rules == ReplayTable(p.rules, ms)
    decreases |ms|
  {
    hide Change, Total, ChangeTable;
    if ms == [] { return; }
    ChangeRules(p, ms[0]);
    ApplyAllTable(ApplyOne(p, ms[0]).value, ms[1..]);
    assert ms == [ms[0]] + ms[1..];
    ReplayTableAppend(p.rules, [ms[0]], ms[1..]);
    assert [ms[0]][..0] == [];
  }

  lemma ChangeRules(p: Parts, m: Message)
    requires Change(p, m).Ok?
    ensures Change(p, m).value.rules == ChangeTable(p.rules, m)
  {
    hide Retain, CopyUnknown, RetainRules;
  }

  /** No event of the window is about a rule that is confused with one the kernel holds at that moment. */
  ghost predicate Followable(start: set<Rule>, history: seq<Message>, lo: nat, hi: nat)
    requires lo <= hi <= |history|
  {
    forall i, x :: lo <= i < hi && RuleOf(history[i]).Some? && x in RulesAt(start, history, i) ==>
      !Confused(x, RuleOf(history[i]).value)
  }

  lemma FollowableWithin(start: set<Rule>, history: seq<Message>, lo: nat, hi: nat, from: nat, till: nat)
    requires lo <= from <= till <= hi <= |history| && Followable(start, history, lo, hi)
    ensures Followable(start, history, from, till)
  {
    hide RulesAt, Confused, RuleOf;
  }

  lemma RulesAtNext(start: set<Rule>, history: seq<Message>, i: nat)
    requires i < |history|
    ensures RulesAt(start, history, i + 1) == ApplyRule(RulesAt(start, history, i), history[i])
  {
    assert history[..i + 1][..i] == history[..i];
  }

  /** A table that holds the kernel's rules follows one event exactly when the event is about no confused rule. */
  lemma EventExact(s: seq<Rule>, start: set<Rule>, history: seq<Message>, i: nat)
    requires i < |history| && RuleSet(s) == RulesAt(start, history, i)
    ensures RuleSet(ChangeTable(s, history[i])) == RulesAt(start, history, i + 1)
            <==> Followable(start, history, i, i + 1)
  {
    hide RulesAt, Confused, RetainRules;
    RulesAtNext(start, history, i);
    assert forall x :: x in RuleSet(s) <==> x in s;
    if RuleOf(history[i]).Some? { RuleStepExact(s, RuleOf(history[i]).value); }
  }

  /** A table that starts as the kernel's rules follows them through every event of a window exactly when the
      window is followable. */
  lemma {:induction false} FollowsExact(s: seq<Rule>, start: set<Rule>, history: seq<Message>, lo: nat, hi: nat)
    requires lo <= hi <= |history| && RuleSet(s) == RulesAt(start, history, lo)
    ensures (forall i :: lo <= i <= hi ==> RuleSet(ReplayTable(s, history[lo..i])) == RulesAt(start, history, i))
            <==> Followable(start, history, lo, hi)
    decreases hi
  {
    hide RuleSet, RulesAt, ChangeTable, RuleOf, Confused;
    if lo == hi {
      assert history[lo..lo] == [];
      return;
    }
    var n := hi - 1;
    FollowsExact(s, start, history, lo, n);
    assert history[lo..hi][..n - lo] == history[lo..n];
    var before := ReplayTable(s, history[lo..n]);
    assert ReplayTable(s, history[lo..hi]) == ChangeTable(before, history[n]);
    if RuleSet(before) == RulesAt(start, history, n) { EventExact(before, start, history, n); }
  }

  /** Replaying every event of a followable window over a table that shows each rule at its own instant of the
      window gives exactly the rules at its end. */
  lemma {:induction false} TableCoherence(s: seq<Rule>, start: set<Rule>, history: seq<Message>, lo: nat, hi: nat)
    requires lo <= hi <= |history| && Followable(start, history, lo, hi)
    requires forall r :: RuleSeen(RuleSet(s), start, history, lo, hi, r)
    ensures RuleSet(ReplayTable(s, history[lo..hi])) == RulesAt(start, history, hi)
    decreases hi - lo
  {
    hide RulesAt, ChangeTable, Followable, ReplayTable;
    if lo == hi {
      NothingReplayed(s);
      assert history[lo..hi] == [];
      forall r ensures r in RuleSet(s) <==> r in RulesAt(start, history, hi) {
        assert RuleSeen(RuleSet(s), start, history, lo, hi, r);
      }
      return;
    }
    var t, next := ChangeTable(s, history[lo]), lo + 1;
    forall r ensures RuleSeen(RuleSet(t), start, history, next, hi, r) {
      SeenNext(s, start, history, lo, hi, r);
    }
    FollowableWithin(start, history, lo, hi, next, hi);
    TableCoherence(t, start, history, next, hi);
    assert history[lo..hi] == [history[lo]] + history[next..hi];
    ReplayTableAppend(s, [history[lo]], history[next..hi]);
    ReplayedOne(s, history[lo]);
  }

  lemma NothingReplayed(s: seq<Rule>)
    ensures ReplayTable(s, []) == s
  {
  }

  lemma ReplayedOne(s: seq<Rule>, m: Message)
    ensures ReplayTable(s, [m]) == ChangeTable(s, m)
  {
    assert [m][..0] == [];
  }

  /** One event moves the window on for every rule: for its own rule to the moment after it, for a rule confused
      with that to the same moment, when both table and kernel lack it, and for any other not at all. */
  lemma SeenNext(s: seq<Rule>, start: set<Rule>, history: seq<Message>, lo: nat, hi: nat, r: Rule)
    requires lo < hi <= |history| && Followable(start, history, lo, hi)
    requires RuleSeen(RuleSet(s), start, history, lo, hi, r)
    ensures RuleSeen(RuleSet(ChangeTable(s, history[lo])), start, history, lo + 1, hi, r)
  {
    hide RulesAt, RetainRules;
    var t: nat :| lo <= t <= hi && (r in RuleSet(s) <==> r in RulesAt(start, history, t));
    var after := RuleSet(ChangeTable(s, history[lo]));
    RulesAtNext(start, history, lo);
    if RuleOf(history[lo]).Some? { RetainRulesMembers(s, RuleOf(history[lo]).value, r); }
    if RuleOf(history[lo]).Some? && SameRule(r, RuleOf(history[lo]).value) {
      assert r in after <==> r in RulesAt(start, history, lo + 1);
    } else {
      assert r in after <==> r in RuleSet(s);
      var u := if t == lo then lo + 1 else t;
      assert r in after <==> r in RulesAt(start, history, u);
    }
  }

  // ---------------------------------------------------------------------------------------
  // Dumps.

  predicate CoversRule(d: DumpRequest, r: Rule) { d.RuleDump? && r.family == d.family }

  predicate RuleCoveredBy(ds: seq<DumpRequest>, r: Rule) {
    exists i :: 0 <= i < |ds| && CoversRule(ds[i], r)
  }

  /** The rules a dump reports. */
  function Reported(ms: seq<Message>): set<Rule> {
    set i | 0 <= i < |ms| && RuleOf(ms[i]).Some? :: RuleOf(ms[i]).value
  }

  /** `ms` reports each rule at most once and only rules it covers, and shows every covered rule, present or
      absent, at some instant between `lo` and `hi`. */
  ghost predicate IsRuleDump(ms: seq<Message>, d: DumpRequest, start: set<Rule>, history: seq<Message>, lo: nat,
      hi: nat)
    requires lo <= hi <= |history|
  {
    && (forall r :: r in Reported(ms) ==> CoversRule(d, r))
    && (forall i, j :: 0 <= i < j < |ms| && RuleOf(ms[i]).Some? ==> RuleOf(ms[i]) != RuleOf(ms[j]))
    && (forall r :: CoversRule(d, r) ==> RuleSeen(Reported(ms), start, history, lo, hi, r))
  }

  lemma PushRule(p: Parts, m: Message)
    requires PushMessage(p, m).Ok? && NoRuleTwice(p.rules)
    requires RuleOf(m).Some? ==> RuleOf(m).value !in p.rules
    ensures var q := PushMessage(p, m).value;
            && NoRuleTwice(q.rules)
            && RuleSet(q.rules) == RuleSet(p.rules) + (if RuleOf(m).Some? then {RuleOf(m).value} else {})
  {
    hide CopyUnknown;
  }

  /** Pushing a dump of rules not yet in the table adds exactly the rules it reports. */
  lemma {:induction false} PushAllRules(p: Parts, ms: seq<Message>)
    requires PushAll(p, ms).Ok? && NoRuleTwice(p.rules)
    requires forall r :: r in Reported(ms) ==> r !in p.rules
    requires forall i, j :: 0 <= i < j < |ms| && RuleOf(ms[i]).Some? ==> RuleOf(ms[i]) != RuleOf(ms[j])
    ensures NoRuleTwice(PushAll(p, ms).value.rules)
    ensures RuleSet(PushAll(p, ms).value.rules) == RuleSet(p.rules) + Reported(ms)
    decreases |ms|
  {
    hide PushMessage, NoRuleTwice;
    if ms == [] { return; }
    var q, rest := PushMessage(p, ms[0]).value, ms[1..];
    assert RuleOf(ms[0]).Some? ==> RuleOf(ms[0]).value in Reported(ms);
    PushRule(p, ms[0]);
    forall r | r in Reported(rest) ensures r in Reported(ms) && r !in q.rules {
      var i :| 0 <= i < |rest| && RuleOf(rest[i]) == Some(r);
      assert RuleOf(ms[i + 1]) == Some(r) && RuleOf(ms[0]) != RuleOf(ms[i + 1]);
      assert r !in RuleSet(q.rules);
    }
    PushAllRules(q, rest);
    ReportedSplit(ms);
  }

  lemma ReportedSplit(ms: seq<Message>)
    requires ms != []
    ensures Reported(ms) == (if RuleOf(ms[0]).Some? then {RuleOf(ms[0]).value} else {}) + Reported(ms[1..])
  {
    forall r | r in Reported(ms)
      ensures RuleOf(ms[0]) == Some(r) || r in Reported(ms[1..])
    {
      var i :| 0 <= i < |ms| && RuleOf(ms[i]) == Some(r);
      if i > 0 { assert RuleOf(ms[1..][i - 1]) == Some(r); }
    }
    forall r | r in Reported(ms[1..]) ensures r in Reported(ms) {
      var i :| 0 <= i < |ms| - 1 && RuleOf(ms[1..][i]) == Some(r);
      assert RuleOf(ms[i + 1]) == Some(r);
    }
  }

  /** Every rule of the first dumps is shown at some instant of the window; the others are absent. */
  ghost predicate PartialRules(v: set<Rule>, ds: seq<DumpRequest>, start: set<Rule>, history: seq<Message>, lo: nat,
      hi: nat)
    requires lo <= hi <= |history|
  {
    forall r :: if RuleCoveredBy(ds, r) then RuleSeen(v, start, history, lo, hi, r) else r !in v
  }

  lemma RuleCoveredNext(n: nat, r: Rule)
    requires n < |SNAPSHOT_DUMPS|
    ensures RuleCoveredBy(SNAPSHOT_DUMPS[..n + 1], r) <==>
            RuleCoveredBy(SNAPSHOT_DUMPS[..n], r) || CoversRule(SNAPSHOT_DUMPS[n], r)
    ensures CoversRule(SNAPSHOT_DUMPS[n], r) ==> !RuleCoveredBy(SNAPSHOT_DUMPS[..n], r)
  {
    assert SNAPSHOT_DUMPS[..n + 1] == SNAPSHOT_DUMPS[..n] + [SNAPSHOT_DUMPS[n]];
    if RuleCoveredBy(SNAPSHOT_DUMPS[..n], r) {
      var i :| 0 <= i < n && CoversRule(SNAPSHOT_DUMPS[..n][i], r);
      assert CoversRule(SNAPSHOT_DUMPS[..n + 1][i], r);
    }
    if CoversRule(SNAPSHOT_DUMPS[n], r) { assert CoversRule(SNAPSHOT_DUMPS[..n + 1][n], r); }
  }

  lemma RuleSeenWider(v: set<Rule>, w: set<Rule>, start: set<Rule>, history: seq<Message>, lo: nat, from: nat,
      till: nat, hi: nat, r: Rule)
    requires lo <= from <= till <= hi <= |history| && (r in v <==> r in w)
    requires RuleSeen(w, start, history, from, till, r)
    ensures RuleSeen(v, start, history, lo, hi, r)
  {
    var t: nat :| from <= t <= till && (r in w <==> r in RulesAt(start, history, t));
    assert r in v <==> r in RulesAt(start, history, t);
  }

  lemma PartialRulesLater(v: set<Rule>, ds: seq<DumpRequest>, start: set<Rule>, history: seq<Message>, lo: nat,
      hi: nat, later: nat)
    requires lo <= hi <= later <= |history| && PartialRules(v, ds, start, history, lo, hi)
    ensures PartialRules(v, ds, start, history, lo, later)
  {
    hide RuleSeen, RuleCoveredBy;
    forall r | RuleCoveredBy(ds, r) ensures RuleSeen(v, start, history, lo, later, r) {
      RuleSeenWider(v, v, start, history, lo, lo, hi, later, r);
    }
  }

  /** One more dump extends the partial view to the rules it covers. */
  lemma RuleDumpExtends(p: Parts, n: nat, ms: seq<Message>, start: set<Rule>, history: seq<Message>, lo: nat,
      from: nat, hi: nat)
    requires lo <= from <= hi <= |history| && n < |SNAPSHOT_DUMPS| && PushAll(p, ms).Ok? && NoRuleTwice(p.rules)
    requires PartialRules(RuleSet(p.rules), SNAPSHOT_DUMPS[..n], start, history, lo, hi)
    requires IsRuleDump(ms, SNAPSHOT_DUMPS[n], start, history, from, hi)
    ensures NoRuleTwice(PushAll(p, ms).value.rules)
    ensures PartialRules(RuleSet(PushAll(p, ms).value.rules), SNAPSHOT_DUMPS[..n + 1], start, history, lo, hi)
  {
    hide PushAll, RuleSeen, RuleCoveredBy, NoRuleTwice, CoversRule;
    var before, reported := RuleSet(p.rules), Reported(ms);
    forall r | r in reported ensures r !in p.rules {
      RuleCoveredNext(n, r);
      assert r !in before;
    }
    PushAllRules(p, ms);
    var v := before + reported;
    forall r
      ensures if RuleCoveredBy(SNAPSHOT_DUMPS[..n + 1], r) then RuleSeen(v, start, history, lo, hi, r) else r !in v
    {
      RuleCoveredNext(n, r);
      if CoversRule(SNAPSHOT_DUMPS[n], r) {
        assert r !in before;
        RuleSeenWider(v, reported, start, history, lo, from, hi, hi, r);
      } else if RuleCoveredBy(SNAPSHOT_DUMPS[..n], r) {
        RuleSeenWider(v, before, start, history, lo, lo, hi, hi, r);
      }
    }
  }

  lemma RuleDumpsCoverAll(r: Rule)
    ensures RuleCoveredBy(SNAPSHOT_DUMPS, r)
  {
    assert CoversRule(SNAPSHOT_DUMPS[if r.family.Inet? then 3 else 6], r);
  }

  /** Dump-plus-replay coherence for rules: the dumps and the in-order events since the clear leave exactly the
      kernel's rules at the drain, each once, when the window between the two is followable. */
  lemma RuleCoherence(p: Parts, start: set<Rule>, history: seq<Message>, lo: nat, hi: nat)
    requires lo <= hi <= |history| && NoRuleTwice(p.rules) && Followable(start, history, lo, hi)
    requires PartialRules(RuleSet(p.rules), SNAPSHOT_DUMPS, start, history, lo, hi)
    requires ApplyAll(p, history[lo..hi]).Ok?
    ensures var q := ApplyAll(p, history[lo..hi]).value;
            NoRuleTwice(q.rules) && RuleSet(q.rules) == RulesAt(start, history, hi)
  {
    hide ApplyAll, RuleSeen, RuleCoveredBy, NoRuleTwice, RulesAt, RuleSet, Followable;
    forall r ensures RuleSeen(RuleSet(p.rules), start, history, lo, hi, r) { RuleDumpsCoverAll(r); }
    ApplyAllTable(p, history[lo..hi]);
    ReplayTableTwice(p.rules, history[lo..hi]);
    TableCoherence(p.rules, start, history, lo, hi);
  }

  // ---------------------------------------------------------------------------------------
  // Closing.

  /** Closing the tables keeps the rules. */
  lemma FinishedRules(p: Parts)
    requires Finish(p).Ok? && NoRuleTwice(p.rules)
    ensures var q := Finish(p).value; NoRuleTwice(q.rules) && RuleSet(q.rules) == RuleSet(p.rules)
  {
    hide Sort, Indices, References, FirstDangling;
    SortDistinct(p.rules, FlatRule, Self);
    SortMembers(p.rules, FlatRule);
  }

  lemma FlatRuleInjective(x: Rule, y: Rule)
    requires FlatRule(x) == FlatRule(y)
    ensures x == y
  {
    var a, b := RuleHead(x), RuleHead(y);
    assert FlatRule(x) == a + x.unknown + x.detail && FlatRule(y) == b + y.unknown + y.detail;
    assert a == FlatRule(x)[..10] == FlatRule(y)[..10] == b;
    assert a[0] == b[0] && a[1] == b[1] && a[2] == b[2] && a[3] == b[3] && a[4] == b[4] && a[5] == b[5];
    assert a[6] == b[6] && a[9] == b[9];
    assert FlatOption(x.priority) == a[7..9] && FlatOption(y.priority) == b[7..9];
    OptionInjective(x.priority, y.priority);
    TailInjective(x.unknown, x.detail, y.unknown, y.detail, a, b);
  }

  function RuleHead(r: Rule): (s: seq<int>)
    ensures |s| == 10
  {
    [FlatFamily(r.family), r.destinationPrefixLength, r.sourcePrefixLength, r.destination, r.source, r.table,
     r.action] + FlatOption(r.priority) + [|r.unknown|]
  }

  lemma {:induction false} IndexSelf(s: seq<Rule>)
    ensures Index(s, Self, Self) == map r | r in RuleSet(s) :: r
  {
    if s != [] {
      IndexSelf(s[..|s| - 1]);
      assert s == s[..|s| - 1] + [s[|s| - 1]];
    }
  }

  /** Two sorted rule tables of the same rules are equal. */
  lemma FinishedRulesDeterministic(p: Parts, q: Parts)
    requires TablesOrdered(p) && TablesOrdered(q) && NoRuleTwice(p.rules) && NoRuleTwice(q.rules)
    requires RuleSet(p.rules) == RuleSet(q.rules)
    ensures p.rules == q.rules
  {
    hide Index, Distinct, Ordered, FlatRule, RuleSet;
    IndexSelf(p.rules);
    IndexSelf(q.rules);
    forall x, y | FlatRule(x) == FlatRule(y) ensures x == y { FlatRuleInjective(x, y); }
    SortedUnique(p.rules, q.rules, FlatRule, Self, Self);
  }
}
