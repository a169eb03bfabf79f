/** Module groups conserve their weight, whatever members fail, leave other answers
    alone, and never ignore more errors than there are (message.go, lines 189-235
    and 360-399). */
module GroupLaws {
  import opened VerdictSpec
  import opened VerdictLaws

  ghost predicate Positive(g: Group) {
    && (forall m :: m in g.members ==> m.weight > 0.0)
    && g.total == WeightOf(g.members)
  }

  /** How many members of how many groups bear a name. */
  function AllMatches(groups: seq<Group>, name: string): nat {
    if groups == [] then 0
    else AllMatches(groups[..|groups| - 1], name) + Matches(groups[|groups| - 1].members, name)
  }

  /** What startup leaves: no module is twice in a group or in two groups. */
  ghost predicate NoneTwice(groups: seq<Group>) {
    forall name: string :: AllMatches(groups, name) <= 1
  }

  ghost predicate Valid(groups: seq<Group>) {
    (forall g :: g in groups ==> Positive(g)) && NoneTwice(groups)
  }

  /** The weighing divides by no zero of which the quotient is used: a group with no
      answered weight has no answer to weigh. */
  ghost predicate Divides(g: Group, s: seq<Answer>) {
    Answered(g, s) == 0.0 && !AllFailed(g, s) ==>
      forall a :: a in s && a.action != Error ==> Matches(g.members, a.name) == 0
  }

  lemma {:induction false} MatchesWithin(groups: seq<Group>, i: nat, j: nat, name: string)
    requires i < j <= |groups|
    ensures Matches(groups[i].members, name) <= AllMatches(groups[..j], name)
    decreases j
  {
    assert groups[..j][..j - 1] == groups[..j - 1];
    if i < j - 1 {
      MatchesWithin(groups, i, j - 1, name);
    }
  }

  // ----- One group on one answer -----

  lemma {:induction false} NoMatch(ms: seq<Member>, name: string, score: real, factor: real)
    requires Matches(ms, name) == 0
    ensures Weight(ms, name) == 0.0 && Multiplied(ms, name, score, factor) == score
    decreases |ms|
  {
    if ms != [] {
      NoMatch(ms[..|ms| - 1], name, score, factor);
    }
  }

  lemma {:induction false} OneMatch(ms: seq<Member>, name: string, score: real, factor: real)
    requires Matches(ms, name) == 1 && forall m :: m in ms ==> m.weight > 0.0
    ensures Weight(ms, name) > 0.0 && Multiplied(ms, name, score, factor) == score * Weight(ms, name) * factor
    ensures exists m :: m in ms && m.name == name && Weight(ms, name) == m.weight
    decreases |ms|
  {
    var init, last := ms[..|ms| - 1], ms[|ms| - 1];
    if last.name == name {
      NoMatch(init, name, score, factor);
      assert last in ms;
    } else {
      OneMatch(init, name, score, factor);
    }
  }

  /** An answer whose module is in none of the groups keeps its score. */
  lemma {:induction false} UngroupedUntouched(groups: seq<Group>, s: seq<Answer>, a: Answer)
    requires AllMatches(groups, a.name) == 0
    ensures Weighed(groups, s, a) == a.score
    decreases |groups|
  {
    if groups != [] {
      UngroupedUntouched(groups[..|groups| - 1], s, a);
      var g := groups[|groups| - 1];
      NoMatch(g.members, a.name, a.score, Multiplier(g, s));
    }
  }

  /** An answer is weighed by its own group and by no other. */
  lemma {:induction false} OwnGroupOnly(groups: seq<Group>, s: seq<Answer>, a: Answer, i: nat)
    requires i < |groups| && Matches(groups[i].members, a.name) == AllMatches(groups, a.name) == 1
    ensures Weighed(groups, s, a) == WeighedBy(groups[i], s, a, a.score)
    decreases |groups|
  {
    var init, g := groups[..|groups| - 1], groups[|groups| - 1];
    if i == |groups| - 1 {
      UngroupedUntouched(init, s, a);
    } else {
      MatchesWithin(init, i, |init|, a.name);
      assert init[..|init|] == init;
      OwnGroupOnly(init, s, a, i);
      NoMatch(g.members, a.name, Weighed(init, s, a), Multiplier(g, s));
    }
  }

  // ----- Conservation -----

  /** What an answer of the group contributes to the scores. */
  function Contribution(groups: seq<Group>, g: Group, s: seq<Answer>): Answer -> real {
    (a: Answer) => if a.action == Error || Matches(g.members, a.name) == 0 then 0.0 else Weighed(groups, s, a)
  }

  function WeightTimesScore(g: Group): Answer -> real {
    (a: Answer) => Share(g.members)(a) * a.score
  }

  lemma ZeroTimes(w: real, x: real, y: real)
    requires w == 0.0
    ensures y * (w * x) == 0.0
  {
  }

  lemma WeighedByOne(g: Group, s: seq<Answer>, a: Answer)
    requires Matches(g.members, a.name) == 1 && a.action != Error && !AllFailed(g, s)
    requires forall m :: m in g.members ==> m.weight > 0.0
    ensures WeighedBy(g, s, a, a.score) == a.score * Weight(g.members, a.name) * Multiplier(g, s)
  {
    OneMatch(g.members, a.name, a.score, Multiplier(g, s));
    hide Multiplier, AllFailed, Multiplied, Matches, Weight;
  }

  lemma ContributionIs(groups: seq<Group>, g: Group, s: seq<Answer>, a: Answer)
    ensures Contribution(groups, g, s)(a)
         == if a.action == Error || Matches(g.members, a.name) == 0 then 0.0 else Weighed(groups, s, a)
    ensures Scaled(Multiplier(g, s), WeightTimesScore(g))(a)
         == if a.action == Error then 0.0 else Multiplier(g, s) * (Weight(g.members, a.name) * a.score)
  {
  }

  lemma Commute(x: real, y: real, z: real)
    ensures x * y * z == z * (y * x)
  {
  }

  lemma ContributionOf(groups: seq<Group>, i: nat, s: seq<Answer>, a: Answer)
    requires Valid(groups) && i < |groups| && !AllFailed(groups[i], s)
    ensures Contribution(groups, groups[i], s)(a)
         == Scaled(Multiplier(groups[i], s), WeightTimesScore(groups[i]))(a)
  {
    var g, factor := groups[i], Multiplier(groups[i], s);
    var w := Weight(g.members, a.name);
    assert g in groups && Positive(g) && AllMatches(groups, a.name) <= 1;
    assert forall m :: m in g.members ==> m.weight > 0.0;
    assert groups[..|groups|] == groups;
    hide *;
    ContributionIs(groups, g, s, a);
    MatchesWithin(groups, i, |groups|, a.name);
    if Matches(g.members, a.name) == 0 {
      NoMatch(g.members, a.name, a.score, 0.0);
      ZeroTimes(w, a.score, factor);
    } else if a.action != Error {
      OwnGroupOnly(groups, s, a, i);
      WeighedByOne(g, s, a);
      Commute(a.score, w, factor);
    }
  }

  lemma DivideThenMultiply(total: real, n: real, sum: real)
    requires n > 0.0
    ensures total / n * sum == total * (sum / n)
  {
  }

  /** The group contributes exactly its whole weight times the weighted average of
      the answers that its members gave. */
  lemma GroupConserves(groups: seq<Group>, i: nat, s: seq<Answer>)
    requires Valid(groups) && i < |groups|
    requires Answered(groups[i], s) > 0.0 && !AllFailed(groups[i], s)
    ensures var g := groups[i];
            Sum(s, Contribution(groups, g, s)) == g.total * (Sum(s, WeightTimesScore(g)) / Answered(g, s))
  {
    var g := groups[i];
    var factor := Multiplier(g, s);
    forall a | a in s ensures Contribution(groups, g, s)(a) == Scaled(factor, WeightTimesScore(g))(a) {
      ContributionOf(groups, i, s, a);
    }
    SumSame(s, Contribution(groups, g, s), Scaled(factor, WeightTimesScore(g)));
    SumScaled(s, factor, WeightTimesScore(g));
    DivideThenMultiply(g.total, Answered(g, s), Sum(s, WeightTimesScore(g)));
  }

  lemma {:induction false} WeightNonNegative(ms: seq<Member>, name: string)
    requires forall m :: m in ms ==> m.weight > 0.0
    ensures Weight(ms, name) >= 0.0 && WeightOf(ms) >= 0.0
    decreases |ms|
  {
    if ms != [] {
      WeightNonNegative(ms[..|ms| - 1], name);
      assert ms[|ms| - 1] in ms;
    }
  }

  lemma Between(w: real, lo: real, x: real, hi: real)
    requires w >= 0.0 && lo <= x <= hi
    ensures lo * w <= w * x <= hi * w
  {
  }

  lemma ShareBounds(g: Group, a: Answer, lo: real, hi: real)
    requires Positive(g) && (a.action != Error && Matches(g.members, a.name) > 0 ==> lo <= a.score <= hi)
    ensures lo * Share(g.members)(a) <= WeightTimesScore(g)(a) <= hi * Share(g.members)(a)
  {
    var w := Weight(g.members, a.name);
    assert WeightTimesScore(g)(a) == Share(g.members)(a) * a.score;
    if a.action == Error {
      assert Share(g.members)(a) == 0.0;
    } else if Matches(g.members, a.name) == 0 {
      NoMatch(g.members, a.name, a.score, 0.0);
    } else {
      WeightNonNegative(g.members, a.name);
      Between(w, lo, a.score, hi);
    }
  }

  lemma Smaller(x: real, y: real, n: real)
    requires n > 0.0 && x < y
    ensures x * n < y * n
  {
  }

  lemma Divide(lo: real, sum: real, hi: real, n: real)
    requires n > 0.0 && lo * n <= sum <= hi * n
    ensures lo <= sum / n <= hi
  {
    var q := sum / n;
    assert q * n == sum;
    if q < lo {
      Smaller(q, lo, n);
    } else if hi < q {
      Smaller(hi, q, n);
    }
  }

  /** The average lies between the least and the greatest answer of the group. */
  lemma AverageBounds(g: Group, s: seq<Answer>, lo: real, hi: real)
    requires Answered(g, s) > 0.0 && Positive(g)
    requires forall a :: a in s && a.action != Error && Matches(g.members, a.name) > 0 ==> lo <= a.score <= hi
    ensures lo <= Sum(s, WeightTimesScore(g)) / Answered(g, s) <= hi
  {
    hide Sum, Share, WeightTimesScore, Positive, Matches;
    forall a | a in s
      ensures Scaled(lo, Share(g.members))(a) <= WeightTimesScore(g)(a) <= Scaled(hi, Share(g.members))(a)
    {
      ShareBounds(g, a, lo, hi);
    }
    SumMonotone(s, Scaled(lo, Share(g.members)), WeightTimesScore(g));
    SumMonotone(s, WeightTimesScore(g), Scaled(hi, Share(g.members)));
    SumScaled(s, lo, Share(g.members));
    SumScaled(s, hi, Share(g.members));
    Divide(lo, Sum(s, WeightTimesScore(g)), hi, Answered(g, s));
  }

  lemma TimesBetween(w: real, lo: real, x: real, hi: real)
    requires w >= 0.0 && lo <= x <= hi
    ensures w * lo <= w * x <= w * hi
  {
  }

  /** So the group contributes between its whole weight times the least and times
      the greatest of its members' scores. */
  lemma GroupBounds(groups: seq<Group>, i: nat, s: seq<Answer>, lo: real, hi: real)
    requires Valid(groups) && i < |groups|
    requires Answered(groups[i], s) > 0.0 && !AllFailed(groups[i], s)
    requires forall a :: a in s && a.action != Error && Matches(groups[i].members, a.name) > 0 ==> lo <= a.score <= hi
    ensures groups[i].total * lo <= Sum(s, Contribution(groups, groups[i], s)) <= groups[i].total * hi
  {
    var g := groups[i];
    assert g in groups && Positive(g);
    WeightNonNegative(g.members, "");
    assert g.total >= 0.0;
    hide *;
    GroupConserves(groups, i, s);
    AverageBounds(g, s, lo, hi);
    TimesBetween(g.total, lo, Sum(s, WeightTimesScore(g)) / Answered(g, s), hi);
  }

  // ----- Failed members -----

  ghost predicate OncePerModule(s: seq<Answer>) {
    forall i, j :: 0 <= i < j < |s| ==> s[i].name != s[j].name
  }

  function Named(name: string): Answer -> nat {
    (a: Answer) => if a.action == Error && a.name == name then 1 else 0
  }

  lemma {:induction false} NumberAdds(s: seq<Answer>, f: Answer -> nat, g: Answer -> nat, h: Answer -> nat)
    requires forall a :: a in s ==> f(a) == g(a) + h(a)
    ensures Number(s, f) == Number(s, g) + Number(s, h)
    decreases |s|
  {
    if s != [] {
      NumberAdds(s[..|s| - 1], f, g, h);
    }
  }

  lemma {:induction false} NumberMonotone(s: seq<Answer>, f: Answer -> nat, g: Answer -> nat)
    requires forall a :: a in s ==> f(a) <= g(a)
    ensures Number(s, f) <= Number(s, g)
    decreases |s|
  {
    if s != [] {
      NumberMonotone(s[..|s| - 1], f, g);
    }
  }

  lemma {:induction false} NamedOnce(s: seq<Answer>, name: string)
    requires OncePerModule(s)
    ensures Number(s, Named(name)) <= 1
    ensures (forall a :: a in s && a.name == name ==> a.action != Error) ==> Number(s, Named(name)) == 0
    decreases |s|
  {
    if s != [] {
      var init, last := s[..|s| - 1], s[|s| - 1];
      NamedOnce(init, name);
      if last.name == name {
        assert forall a :: a in init ==> a.name != name;
      }
      assert last in s;
    }
  }

  lemma {:induction false} NumberNone(s: seq<Answer>, f: Answer -> nat)
    requires forall a :: a in s ==> f(a) == 0
    ensures Number(s, f) == 0
    decreases |s|
  {
    if s != [] {
      NumberNone(s[..|s| - 1], f);
    }
  }

  /** A group has at least as many members as failures, and more when some member
      answered; so a group of which a member answered is weighed. */
  lemma {:induction false} FailuresWithin(ms: seq<Member>, s: seq<Answer>, b: Answer)
    requires OncePerModule(s) && b in s && b.action != Error
    ensures Number(s, ErrorShare(ms)) + Matches(ms, b.name) <= |ms|
    decreases |ms|
  {
    if ms == [] {
      NumberNone(s, ErrorShare(ms));
    } else {
      var init, name := ms[..|ms| - 1], ms[|ms| - 1].name;
      FailuresWithin(init, s, b);
      NumberAdds(s, ErrorShare(ms), ErrorShare(init), Named(name));
      NamedOnce(s, name);
      if b.name == name {
        forall a | a in s && a.name == name ensures a == b {
        }
      }
    }
  }

  lemma {:induction false} WeightPositive(ms: seq<Member>, name: string)
    requires Matches(ms, name) > 0 && forall m :: m in ms ==> m.weight > 0.0
    ensures Weight(ms, name) > 0.0
    decreases |ms|
  {
    var init, last := ms[..|ms| - 1], ms[|ms| - 1];
    assert last in ms;
    WeightNonNegative(init, name);
    if last.name != name {
      WeightPositive(init, name);
    }
  }

  lemma SomeAnswered(g: Group, s: seq<Answer>, b: Answer)
    requires Positive(g) && b in s && b.action != Error && Matches(g.members, b.name) > 0
    ensures Answered(g, s) > 0.0
  {
    var i :| 0 <= i < |s| && s[i] == b;
    WeightPositive(g.members, b.name);
    forall a | a in s ensures Share(g.members)(a) >= 0.0 {
      WeightNonNegative(g.members, a.name);
    }
    SumWithout(s, i, Share(g.members), IsError());
    SumMonotone(Without(s, i), Nothing(), Share(g.members));
    SumNothing(Without(s, i));
  }

  lemma AnsweredIsWeighed(g: Group, s: seq<Answer>, b: Answer)
    requires Positive(g) && OncePerModule(s)
    requires b in s && b.action != Error && Matches(g.members, b.name) == 1
    ensures !AllFailed(g, s) && Answered(g, s) > 0.0
  {
    FailuresWithin(g.members, s, b);
    SomeAnswered(g, s, b);
  }

  function AllErrorShare(groups: seq<Group>): Answer -> nat {
    (a: Answer) => if a.action == Error then AllMatches(groups, a.name) else 0
  }

  lemma {:induction false} IgnoredWithin(groups: seq<Group>, s: seq<Answer>)
    ensures Ignored(groups, s) <= Number(s, AllErrorShare(groups))
    decreases |groups|
  {
    if groups == [] {
      NumberNone(s, AllErrorShare(groups));
    } else {
      var init, g := groups[..|groups| - 1], groups[|groups| - 1];
      IgnoredWithin(init, s);
      NumberAdds(s, AllErrorShare(groups), AllErrorShare(init), ErrorShare(g.members));
    }
  }

  /** No more errors are ignored than there are, whatever the weights. */
  lemma IgnoredAtMostErrors(groups: seq<Group>, s: seq<Answer>)
    requires NoneTwice(groups)
    ensures 0 <= Ignored(groups, s) <= Errors(s)
  {
    IgnoredWithin(groups, s);
    NumberMonotone(s, AllErrorShare(groups), IsError());
  }

  // ----- The quota's deferral -----

  /** Positive weights never leave such a division. */
  lemma PositiveDivides(g: Group, s: seq<Answer>)
    requires Positive(g)
    ensures Divides(g, s)
  {
    forall a | a in s && a.action != Error && Matches(g.members, a.name) > 0 ensures Answered(g, s) > 0.0 {
      SomeAnswered(g, s, a);
    }
  }

  lemma TotalAtLeast(groups: seq<Group>, s: seq<Answer>, q: Answer)
    requires q in s && forall a :: a in s ==> Weighed(groups, s, a) >= 0.0
    ensures Total(groups, s, q.action) >= Weighed(groups, s, q)
  {
    var i :| 0 <= i < |s| && s[i] == q;
    var f := ScoreOf(groups, s, q.action);
    SumWithout(s, i, f, IsError());
    SumMonotone(Without(s, i), Nothing(), f);
    SumNothing(Without(s, i));
  }

  lemma MultiplierNonNegative(g: Group, s: seq<Answer>)
    requires Positive(g)
    ensures Multiplier(g, s) >= 0.0
  {
    forall a | a in s ensures Share(g.members)(a) >= 0.0 {
      WeightNonNegative(g.members, a.name);
    }
    SumMonotone(s, Nothing(), Share(g.members));
    SumNothing(s);
    WeightNonNegative(g.members, "");
  }

  lemma ProductNonNegative(x: real, y: real, z: real)
    requires x >= 0.0 && y >= 0.0 && z >= 0.0
    ensures x * y * z >= 0.0
  {
    assert x * y >= 0.0;
  }

  lemma {:induction false} MultipliedNonNegative(ms: seq<Member>, name: string, score: real, factor: real)
    requires (forall m :: m in ms ==> m.weight > 0.0) && score >= 0.0 && factor >= 0.0
    ensures Multiplied(ms, name, score, factor) >= 0.0
    decreases |ms|
  {
    if ms != [] {
      var init, last := ms[..|ms| - 1], ms[|ms| - 1];
      MultipliedNonNegative(init, name, score, factor);
      assert last in ms;
      var sofar := Multiplied(init, name, score, factor);
      ProductNonNegative(sofar, last.weight, factor);
    }
  }

  lemma {:induction false} WeighedNonNegative(groups: seq<Group>, s: seq<Answer>, a: Answer)
    requires (forall g :: g in groups ==> Positive(g)) && a.score >= 0.0
    ensures Weighed(groups, s, a) >= 0.0
    decreases |groups|
  {
    if groups != [] {
      WeighedNonNegative(groups[..|groups| - 1], s, a);
      var g := groups[|groups| - 1];
      assert g in groups;
      MultiplierNonNegative(g, s);
      MultipliedNonNegative(g.members, a.name, Weighed(groups[..|groups| - 1], s, a), Multiplier(g, s));
    }
  }

  /** With no negative score, a deferral that weighs at least the tempfail threshold
      keeps the verdict off Permit. */
  lemma DeferralKeepsOffPermit(c: Config, groups: seq<Group>, s: seq<Answer>, q: Answer)
    requires (forall g :: g in groups ==> Positive(g)) && NonNegative(s)
    requires q in s && q.action == TempFail && Weighed(groups, s, q) >= c.tempfail
    ensures Verdict(Decide(c, groups, s)) != Permit
  {
    forall a | a in s ensures Weighed(groups, s, a) >= 0.0 {
      WeighedNonNegative(groups, s, a);
    }
    TotalAtLeast(groups, s, q);
    SumMonotone(s, Nothing(), ScoreOf(groups, s, Reject));
    SumNothing(s);
    hide Total, Has, Errors, Ignored;
  }

  /** So does an ungrouped one that scores as much. */
  lemma UngroupedDeferralKeepsOffPermit(c: Config, groups: seq<Group>, s: seq<Answer>, q: Answer)
    requires (forall g :: g in groups ==> Positive(g)) && NonNegative(s)
    requires q in s && q.action == TempFail && q.score >= c.tempfail && AllMatches(groups, q.name) == 0
    ensures Verdict(Decide(c, groups, s)) != Permit
  {
    UngroupedUntouched(groups, s, q);
    DeferralKeepsOffPermit(c, groups, s, q);
  }

  const LIGHT_QUOTA := [Member("quotas", 0.01), Member("rspamd", 0.99)]

  function QuotaAnswer(): Answer {
    Answer("quotas", TempFail, "", 100.0, [])
  }

  function OtherAnswer(): Answer {
    Answer("rspamd", Permit, "", 0.0, [])
  }

  lemma SumTwo(a: Answer, b: Answer, f: Answer -> real, n: Answer -> nat)
    ensures Sum([a, b], f) == f(a) + f(b) && Number([a, b], n) == n(a) + n(b)
  {
    assert [a, b][..1] == [a] && [a][..0] == [];
    assert Sum([a], f) == f(a) && Number([a], n) == n(a);
  }

  lemma LightMatches(name: string)
    ensures Matches(LIGHT_QUOTA, name) == if name == "quotas" || name == "rspamd" then 1 else 0
    ensures Weight(LIGHT_QUOTA, name) == if name == "quotas" then 0.01 else if name == "rspamd" then 0.99 else 0.0
    ensures WeightOf(LIGHT_QUOTA) == 1.0
  {
    var ms := LIGHT_QUOTA;
    assert ms[..1] == [Member("quotas", 0.01)] && ms[..1][..0] == [];
    assert Matches(ms[..1], name) == if name == "quotas" then 1 else 0;
    assert Weight(ms[..1], name) == if name == "quotas" then 0.01 else 0.0;
  }

  lemma LightIsValid(g: Group)
    requires g.members == LIGHT_QUOTA && g.total == 1.0
    ensures Valid([g])
  {
    var gs := [g];
    assert gs[..0] == [];
    LightMatches("");
    forall name: string ensures AllMatches(gs, name) <= 1 {
      LightMatches(name);
    }
  }

  lemma LightAnswered(g: Group)
    requires g.members == LIGHT_QUOTA
    ensures var s := [QuotaAnswer(), OtherAnswer()]; Answered(g, s) == 1.0 && Failed(g, s) == 0
  {
    LightMatches("quotas");
    LightMatches("rspamd");
    SumTwo(QuotaAnswer(), OtherAnswer(), Share(g.members), ErrorShare(g.members));
    hide Sum, Number, Weight, Matches;
  }

  lemma LightWeighs(g: Group)
    requires g.members == LIGHT_QUOTA && g.total == 1.0
    ensures var q, r := QuotaAnswer(), OtherAnswer();
            Weighed([g], [q, r], q) == 1.0 && Weighed([g], [q, r], r) == 0.0
  {
    LightAnswered(g);
    LightMatches("quotas");
    LightMatches("rspamd");
    OneMatch(g.members, "quotas", 100.0, 1.0);
    OneMatch(g.members, "rspamd", 0.0, 1.0);
    hide Answered, Failed, Multiplied, Weight, Matches, LIGHT_QUOTA;
    assert [g][..0] == [];
  }

  /** The weighed score matters: in a group a quota's deferral of 100 may weigh one,
      and the message is permitted under any higher threshold. */
  lemma GroupedDeferralMayPermit(c: Config)
    requires Ordered(c) && 1.0 < c.tempfail
    ensures var g, s := Group("", LIGHT_QUOTA, 1.0), [QuotaAnswer(), OtherAnswer()];
            && Valid([g]) && NonNegative(s)
            && Weighed([g], s, QuotaAnswer()) == 1.0 && Decide(c, [g], s) == Decided(Permit)
  {
    var g, q, r := Group("", LIGHT_QUOTA, 1.0), QuotaAnswer(), OtherAnswer();
    LightIsValid(g);
    LightWeighs(g);
    forall x: Action ensures Total([g], [q, r], x) == if x == TempFail then 1.0 else 0.0 {
      SumTwo(q, r, ScoreOf([g], [q, r], x), IsError());
    }
    SumTwo(q, r, Nothing(), IsError());
    IgnoredAtMostErrors([g], [q, r]);
    hide Total, Weighed, Has, Ignored, Valid;
  }
}
