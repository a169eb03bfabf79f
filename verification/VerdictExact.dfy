/** The verdict in plain terms: which sums it adds up, which errors it ignores, what
    an answer weighs, when each verdict is given and where reading stops
    (message.go, lines 256-399). */
module VerdictExact {
  import opened VerdictSpec
  import opened VerdictLaws
  import opened GroupLaws

  // ----- Sums and counts -----

  function Plus(xs: seq<real>): real {
    if xs == [] then 0.0 else Plus(xs[..|xs| - 1]) + xs[|xs| - 1]
  }

  lemma {:induction false} SumIs(s: seq<Answer>, f: Answer -> real, xs: seq<real>)
    requires |xs| == |s| && forall i :: 0 <= i < |s| ==> xs[i] == f(s[i])
    ensures Sum(s, f) == Plus(xs)
    decreases |s|
  {
    if s != [] {
      SumIs(s[..|s| - 1], f, xs[..|s| - 1]);
    }
  }

  /** The places of the answers that count. */
  ghost function Where(s: seq<Answer>, f: Answer -> nat): set<int> {
    set i | 0 <= i < |s| && f(s[i]) == 1
  }

  lemma WhereMore(s: seq<Answer>, f: Answer -> nat)
    requires s != []
    ensures var n := |s| - 1;
            && n !in Where(s[..n], f)
            && Where(s, f) == Where(s[..n], f) + (if f(s[n]) == 1 then {n} else {})
  {
  }

  lemma {:induction false} NumberIs(s: seq<Answer>, f: Answer -> nat)
    requires forall a :: a in s ==> f(a) <= 1
    ensures Number(s, f) == |Where(s, f)|
    decreases |s|
  {
    if s == [] {
      assert Where(s, f) == {};
    } else {
      var n := |s| - 1;
      assert s[n] in s;
      WhereMore(s, f);
      hide Where;
      NumberIs(s[..n], f);
    }
  }

  /** The number of errors among the answers. */
  lemma ErrorsAre(s: seq<Answer>)
    ensures Errors(s) == |set i | 0 <= i < |s| && s[i].action == Error|
  {
    NumberIs(s, IsError());
    assert (set i | 0 <= i < |s| && s[i].action == Error) == Where(s, IsError());
  }

  /** The score of an action is the sum of what its answers weigh. */
  lemma TotalIs(groups: seq<Group>, s: seq<Answer>, x: Action)
    ensures Total(groups, s, x)
         == Plus(seq(|s|, i requires 0 <= i < |s| => if s[i].action == x then Weighed(groups, s, s[i]) else 0.0))
  {
    SumIs(s, ScoreOf(groups, s, x),
          seq(|s|, i requires 0 <= i < |s| => if s[i].action == x then Weighed(groups, s, s[i]) else 0.0));
  }

  // ----- Ignored errors -----

  ghost predicate IsMember(g: Group, name: string) {
    exists j :: 0 <= j < |g.members| && g.members[j].name == name
  }

  ghost predicate SaysError(s: seq<Answer>, name: string) {
    exists i :: 0 <= i < |s| && s[i].action == Error && s[i].name == name
  }

  /** Some member of the group did not answer with an error. */
  ghost predicate SomeMemberLeft(g: Group, s: seq<Answer>) {
    exists j :: 0 <= j < |g.members| && !SaysError(s, g.members[j].name)
  }

  /** An error is excused when its module is in a group of which some member is left. */
  ghost predicate Excused(groups: seq<Group>, s: seq<Answer>, a: Answer) {
    a.action == Error
    && exists k :: 0 <= k < |groups| && IsMember(groups[k], a.name) && SomeMemberLeft(groups[k], s)
  }

  lemma {:induction false} MatchesIs(ms: seq<Member>, name: string)
    ensures Matches(ms, name) > 0 <==> exists j :: 0 <= j < |ms| && ms[j].name == name
    decreases |ms|
  {
    if ms != [] {
      var init := ms[..|ms| - 1];
      MatchesIs(init, name);
      if j :| 0 <= j < |init| && init[j].name == name {
        assert ms[j].name == name;
      }
    }
  }

  ghost predicate TwiceIn(ms: seq<Member>, name: string) {
    exists j, l :: 0 <= j < l < |ms| && ms[j].name == ms[l].name == name
  }

  lemma {:induction false} MatchesTwice(ms: seq<Member>, name: string)
    ensures Matches(ms, name) > 1 <==> TwiceIn(ms, name)
    decreases |ms|
  {
    if ms != [] {
      var init, n := ms[..|ms| - 1], |ms| - 1;
      MatchesTwice(init, name);
      MatchesIs(init, name);
      if TwiceIn(init, name) {
        var j, l :| 0 <= j < l < |init| && init[j].name == init[l].name == name;
        assert ms[j].name == ms[l].name == name;
      }
      if j :| 0 <= j < |init| && init[j].name == name {
        assert ms[j].name == name;
      }
      if TwiceIn(ms, name) {
        var j, l :| 0 <= j < l < |ms| && ms[j].name == ms[l].name == name;
        assert init[j].name == name && (l < n ==> init[l].name == name);
      }
    }
  }

  ghost predicate InSome(groups: seq<Group>, name: string) {
    exists i :: 0 <= i < |groups| && IsMember(groups[i], name)
  }

  ghost predicate InTwo(groups: seq<Group>, name: string) {
    exists i, k :: 0 <= i < k < |groups| && IsMember(groups[i], name) && IsMember(groups[k], name)
  }

  ghost predicate TwiceInOne(groups: seq<Group>, name: string) {
    exists i :: 0 <= i < |groups| && TwiceIn(groups[i].members, name)
  }

  /** What is new when one more group is considered. */
  lemma OneMoreGroup(init: seq<Group>, last: Group, name: string)
    ensures var groups := init + [last];
            && (InSome(groups, name) <==> InSome(init, name) || IsMember(last, name))
            && (InTwo(groups, name) <==> InTwo(init, name) || (InSome(init, name) && IsMember(last, name)))
            && (TwiceInOne(groups, name) <==> TwiceInOne(init, name) || TwiceIn(last.members, name))
  {
    hide IsMember, TwiceIn;
    var groups, n := init + [last], |init|;
    assert groups[n] == last && forall i :: 0 <= i < n ==> groups[i] == init[i];
    if i :| 0 <= i < |init| && IsMember(init[i], name) {
      assert IsMember(groups[i], name);
    }
    if i, k :| 0 <= i < k < |init| && IsMember(init[i], name) && IsMember(init[k], name) {
      assert IsMember(groups[i], name) && IsMember(groups[k], name);
    }
    if i :| 0 <= i < |init| && TwiceIn(init[i].members, name) {
      assert TwiceIn(groups[i].members, name);
    }
  }

  lemma {:induction false} AllMatchesIs(groups: seq<Group>, name: string)
    ensures AllMatches(groups, name) > 0 <==> InSome(groups, name)
    ensures AllMatches(groups, name) > 1 <==> InTwo(groups, name) || TwiceInOne(groups, name)
    decreases |groups|
  {
    if groups != [] {
      var init, last := groups[..|groups| - 1], groups[|groups| - 1];
      AllMatchesIs(init, name);
      MatchesIs(last.members, name);
      MatchesTwice(last.members, name);
      assert groups == init + [last];
      OneMoreGroup(init, last, name);
      hide Matches, TwiceIn, InSome, InTwo, TwiceInOne;
    }
  }

  /** No module is at two places of the groups. */
  ghost predicate OnePlace(groups: seq<Group>) {
    forall i, j, k, l :: 0 <= i < |groups| && 0 <= j < |groups[i].members| ==>
      0 <= k < |groups| && 0 <= l < |groups[k].members| ==>
        groups[i].members[j].name == groups[k].members[l].name ==> i == k && j == l
  }

  lemma NoneTwiceIff(groups: seq<Group>)
    ensures NoneTwice(groups) <==> OnePlace(groups)
  {
    hide AllMatches;
    forall name: string
      ensures AllMatches(groups, name) > 1 <==> InTwo(groups, name) || TwiceInOne(groups, name)
    {
      AllMatchesIs(groups, name);
    }
    if NoneTwice(groups) {
      forall i, j, k, l | 0 <= i < |groups| && 0 <= j < |groups[i].members| && 0 <= k < |groups|
                          && 0 <= l < |groups[k].members| && groups[i].members[j].name == groups[k].members[l].name
        ensures i == k && j == l
      {
        var name := groups[i].members[j].name;
        assert IsMember(groups[i], name) && IsMember(groups[k], name);
        assert AllMatches(groups, name) <= 1;
      }
    }
  }

  lemma {:induction false} OneErrorEach(s: seq<Answer>, name: string)
    requires OncePerModule(s)
    ensures Number(s, Named(name)) == if SaysError(s, name) then 1 else 0
    decreases |s|
  {
    if s != [] {
      var init, last := s[..|s| - 1], s[|s| - 1];
      OneErrorEach(init, name);
      if i :| 0 <= i < |init| && init[i].action == Error && init[i].name == name {
        assert s[i].action == Error && s[i].name == name && last.name != name;
      }
      if i :| 0 <= i < |s| && s[i].action == Error && s[i].name == name {
        assert i < |init| ==> init[i] == s[i];
      }
    }
  }

  /** As many fail as there are members exactly when every member fails. */
  lemma {:induction false} AllFailIff(ms: seq<Member>, s: seq<Answer>)
    requires OncePerModule(s)
    ensures Number(s, ErrorShare(ms)) <= |ms|
    ensures Number(s, ErrorShare(ms)) == |ms| <==> forall j :: 0 <= j < |ms| ==> SaysError(s, ms[j].name)
    decreases |ms|
  {
    if ms == [] {
      NumberNone(s, ErrorShare(ms));
    } else {
      var init, name := ms[..|ms| - 1], ms[|ms| - 1].name;
      AllFailIff(init, s);
      NumberAdds(s, ErrorShare(ms), ErrorShare(init), Named(name));
      OneErrorEach(s, name);
      hide SaysError;
      assert forall j :: 0 <= j < |init| ==> init[j] == ms[j];
    }
  }

  function ExcusedMatches(groups: seq<Group>, s: seq<Answer>, a: Answer): nat {
    if groups == [] || a.action != Error then 0
    else
      var g := groups[|groups| - 1];
      ExcusedMatches(groups[..|groups| - 1], s, a) + if AllFailed(g, s) then 0 else Matches(g.members, a.name)
  }

  function ExcusedCount(groups: seq<Group>, s: seq<Answer>): Answer -> nat {
    (a: Answer) => ExcusedMatches(groups, s, a)
  }

  lemma {:induction false} IgnoredSums(groups: seq<Group>, s: seq<Answer>)
    ensures Ignored(groups, s) == Number(s, ExcusedCount(groups, s))
    decreases |groups|
  {
    if groups == [] {
      NumberNone(s, ExcusedCount(groups, s));
    } else {
      var init, g := groups[..|groups| - 1], groups[|groups| - 1];
      IgnoredSums(init, s);
      if AllFailed(g, s) {
        var none: Answer -> nat := (a: Answer) => 0;
        NumberAdds(s, ExcusedCount(groups, s), ExcusedCount(init, s), none);
        NumberNone(s, none);
      } else {
        NumberAdds(s, ExcusedCount(groups, s), ExcusedCount(init, s), ErrorShare(g.members));
      }
    }
  }

  lemma {:induction false} ExcusedIff(groups: seq<Group>, s: seq<Answer>, a: Answer)
    requires OncePerModule(s)
    ensures ExcusedMatches(groups, s, a) <= AllMatches(groups, a.name)
    ensures ExcusedMatches(groups, s, a) > 0 <==> Excused(groups, s, a)
    decreases |groups|
  {
    if groups != [] {
      var init, g := groups[..|groups| - 1], groups[|groups| - 1];
      ExcusedIff(init, s, a);
      MatchesIs(g.members, a.name);
      AllFailIff(g.members, s);
      hide SaysError;
      assert AllFailed(g, s) <==> !SomeMemberLeft(g, s);
      hide SomeMemberLeft, AllFailed, Matches, AllMatches;
      assert forall k :: 0 <= k < |init| ==> init[k] == groups[k];
      if Excused(init, s, a) {
        var k :| 0 <= k < |init| && IsMember(init[k], a.name) && SomeMemberLeft(init[k], s);
        assert IsMember(groups[k], a.name) && SomeMemberLeft(groups[k], s);
      }
    }
  }

  /** The ignored errors are exactly those of modules in a group of which some member
      did not fail, with one answer for each module. */
  lemma IgnoredIs(groups: seq<Group>, s: seq<Answer>)
    requires NoneTwice(groups) && OncePerModule(s)
    ensures Ignored(groups, s) == |set i | 0 <= i < |s| && Excused(groups, s, s[i])|
  {
    IgnoredSums(groups, s);
    var f := ExcusedCount(groups, s);
    forall a ensures f(a) <= 1 && (f(a) == 1 <==> Excused(groups, s, a)) {
      ExcusedIff(groups, s, a);
    }
    hide Excused, ExcusedMatches;
    NumberIs(s, f);
    assert (set i | 0 <= i < |s| && Excused(groups, s, s[i])) == Where(s, f);
  }

  lemma MoreIff(a: set<int>, b: set<int>)
    requires b <= a
    ensures |a| > |b| <==> exists x :: x in a && x !in b
  {
    assert a == b + (a - b);
    if forall x :: x in a ==> x in b {
      assert a == b;
    } else {
      var x :| x in a && x !in b;
      assert x in a - b;
    }
  }

  /** Some error is not ignored exactly when some error is not excused: one whose module
      is in no group, or in one of which every member failed. */
  lemma ErrorsLeftIff(groups: seq<Group>, s: seq<Answer>)
    requires NoneTwice(groups) && OncePerModule(s)
    ensures Errors(s) > Ignored(groups, s)
       <==> exists i :: 0 <= i < |s| && s[i].action == Error
              && forall k :: 0 <= k < |groups| && IsMember(groups[k], s[i].name) ==> !SomeMemberLeft(groups[k], s)
  {
    ErrorsAre(s);
    IgnoredIs(groups, s);
    hide IsMember, SomeMemberLeft, Ignored, Errors;
    var errors := set i | 0 <= i < |s| && s[i].action == Error;
    var excused := set i | 0 <= i < |s| && Excused(groups, s, s[i]);
    MoreIff(errors, excused);
    if x :| x in errors && x !in excused {
      assert !Excused(groups, s, s[x]);
    }
    if i :| 0 <= i < |s| && s[i].action == Error
            && forall k :: 0 <= k < |groups| && IsMember(groups[k], s[i].name) ==> !SomeMemberLeft(groups[k], s) {
      assert i in errors && i !in excused;
    }
  }

  // ----- What an answer weighs -----

  /** The weight that an answer brings to its group. */
  ghost function Brings(g: Group, a: Answer): real {
    if a.action != Error && IsMember(g, a.name)
    then (var j :| 0 <= j < |g.members| && g.members[j].name == a.name; g.members[j].weight)
    else 0.0
  }

  lemma {:induction false} WeightIs(ms: seq<Member>, name: string, j: nat)
    requires j < |ms| && ms[j].name == name && Matches(ms, name) <= 1
    ensures Matches(ms, name) == 1 && Weight(ms, name) == ms[j].weight
    decreases |ms|
  {
    var init := ms[..|ms| - 1];
    MatchesIs(ms, name);
    if j == |ms| - 1 {
      NoMatch(init, name, 0.0, 0.0);
    } else {
      WeightIs(init, name, j);
    }
  }

  lemma BringsShare(g: Group, a: Answer)
    requires Matches(g.members, a.name) <= 1
    ensures Brings(g, a) == Share(g.members)(a)
  {
    MatchesIs(g.members, a.name);
    if IsMember(g, a.name) {
      var j :| 0 <= j < |g.members| && g.members[j].name == a.name
               && (a.action != Error ==> Brings(g, a) == g.members[j].weight);
      WeightIs(g.members, a.name, j);
    } else {
      NoMatch(g.members, a.name, 0.0, 0.0);
    }
  }

  /** The weight of the members that answered. */
  lemma AnsweredIs(g: Group, s: seq<Answer>)
    requires forall name: string :: Matches(g.members, name) <= 1
    ensures Answered(g, s) == Plus(seq(|s|, i requires 0 <= i < |s| => Brings(g, s[i])))
  {
    forall i | 0 <= i < |s| ensures Brings(g, s[i]) == Share(g.members)(s[i]) {
      BringsShare(g, s[i]);
    }
    SumIs(s, Share(g.members), seq(|s|, i requires 0 <= i < |s| => Brings(g, s[i])));
  }

  lemma MultiplierIs(g: Group, s: seq<Answer>)
    requires Answered(g, s) > 0.0
    ensures Multiplier(g, s) * Answered(g, s) == g.total
  {
    hide Answered;
  }

  lemma MemberOnce(groups: seq<Group>, k: nat, j: nat)
    requires NoneTwice(groups) && k < |groups| && j < |groups[k].members|
    ensures var name := groups[k].members[j].name;
            Matches(groups[k].members, name) == AllMatches(groups, name) == 1
  {
    var name := groups[k].members[j].name;
    MatchesIs(groups[k].members, name);
    MatchesWithin(groups, k, |groups|, name);
    assert groups[..|groups|] == groups;
  }

  function Times(x: real, y: real, z: real): real {
    x * y * z
  }

  lemma WeighedByMember(g: Group, s: seq<Answer>, a: Answer, w: real)
    requires Matches(g.members, a.name) == 1 && a.action != Error && !AllFailed(g, s)
    requires Weight(g.members, a.name) == w && forall m :: m in g.members ==> m.weight > 0.0
    ensures WeighedBy(g, s, a, a.score) == Times(a.score, w, Multiplier(g, s))
  {
    WeighedByOne(g, s, a);
    hide WeighedBy, Multiplier, Weight, Matches;
  }

  lemma WeighedAs(groups: seq<Group>, s: seq<Answer>, a: Answer, k: nat, j: nat)
    requires Valid(groups) && OncePerModule(s) && a in s && a.action != Error
    requires k < |groups| && j < |groups[k].members| && groups[k].members[j].name == a.name
    ensures Answered(groups[k], s) > 0.0
    ensures Weighed(groups, s, a) == Times(a.score, groups[k].members[j].weight, Multiplier(groups[k], s))
  {
    var g := groups[k];
    MemberOnce(groups, k, j);
    assert Positive(g) && forall m :: m in g.members ==> m.weight > 0.0;
    hide *;
    OwnGroupOnly(groups, s, a, k);
    AnsweredIsWeighed(g, s, a);
    WeightIs(g.members, a.name, j);
    WeighedByMember(g, s, a, g.members[j].weight);
  }

  /** An answer of a member weighs its score times the member's weight times a factor:
      the total weight of the group over the weight that answered. */
  lemma WeighedIs(groups: seq<Group>, s: seq<Answer>, a: Answer, k: nat, j: nat) returns (factor: real)
    requires Valid(groups) && OncePerModule(s) && a in s && a.action != Error
    requires k < |groups| && j < |groups[k].members| && groups[k].members[j].name == a.name
    ensures Answered(groups[k], s) > 0.0 && factor * Answered(groups[k], s) == groups[k].total
    ensures Weighed(groups, s, a) == a.score * groups[k].members[j].weight * factor
  {
    factor := Multiplier(groups[k], s);
    hide Multiplier, Answered, Weighed, Valid, OncePerModule;
    WeighedAs(groups, s, a, k, j);
    MultiplierIs(groups[k], s);
  }

  // ----- When each verdict is given -----

  /** With ordered thresholds the four sums decide the verdict, and nothing else. */
  lemma VerdictIff(c: Config, groups: seq<Group>, s: seq<Answer>)
    requires Ordered(c)
    ensures var d, r, t := Total(groups, s, Discard), Total(groups, s, Reject), Total(groups, s, TempFail);
            var failed := Errors(s) > Ignored(groups, s);
            var verdict := Verdict(Decide(c, groups, s));
            && (verdict == Discard <==> d >= c.breaker)
            && (verdict == Reject <==> d < c.breaker && r >= c.reject)
            && (verdict == TempFail <==> d < c.breaker && r < c.reject && (failed || t + r >= c.tempfail))
            && (verdict == Permit <==> d < c.breaker && r < c.reject && !failed && t + r < c.tempfail)
            && verdict != Error
  {
    OrderedDecides(c, groups, s);
    hide Total, Errors, Ignored, Has;
  }

  /** And whatever the thresholds, a panic comes of a sum without an answer. */
  lemma PanicsIff(c: Config, groups: seq<Group>, s: seq<Answer>)
    ensures var d, r, t := Total(groups, s, Discard), Total(groups, s, Reject), Total(groups, s, TempFail);
            Decide(c, groups, s).Panicked?
            <==> || (d >= c.breaker && !(exists i :: 0 <= i < |s| && s[i].action == Discard))
                 || (d < c.breaker && r >= c.reject && !(exists i :: 0 <= i < |s| && s[i].action == Reject))
                 || (d < c.breaker && r < c.reject && Errors(s) <= Ignored(groups, s) && t + r >= c.tempfail
                     && !(exists i :: 0 <= i < |s| && s[i].action == TempFail))
  {
    hide Total, Errors, Ignored;
  }

  /** One error of an ungrouped module, or of a group all of whose members failed,
      never ends in a permit. */
  lemma ErrorNeverPermits(c: Config, groups: seq<Group>, s: seq<Answer>, i: nat)
    requires Ordered(c) && NoneTwice(groups) && OncePerModule(s)
    requires i < |s| && s[i].action == Error
    requires forall k :: 0 <= k < |groups| && IsMember(groups[k], s[i].name) ==> !SomeMemberLeft(groups[k], s)
    ensures Verdict(Decide(c, groups, s)) != Permit
  {
    ErrorsLeftIff(groups, s);
    VerdictIff(c, groups, s);
    hide Decide, Errors, Ignored, SomeMemberLeft, IsMember;
  }

  // ----- Where reading stops -----

  /** The score so far of the action of the last answer, which is no error, reaches
      the breaker. */
  ghost predicate Reaches(c: Config, s: seq<Answer>, n: nat)
    requires n <= |s|
  {
    && n > 0 && s[n - 1].action != Error
    && Plus(seq(n, i requires 0 <= i < n => if s[i].action == s[n - 1].action then s[i].score else 0.0)) >= c.breaker
  }

  lemma ReachesIff(c: Config, s: seq<Answer>, n: nat)
    requires n <= |s|
    ensures Trips(c, s[..n]) <==> Reaches(c, s, n)
  {
    if n > 0 {
      var x := s[n - 1].action;
      SumIs(s[..n], RawScore(x), seq(n, i requires 0 <= i < n => if s[i].action == x then s[i].score else 0.0));
    }
  }

  /** Reading stops at the first answer that brings its action to the breaker, and
      else at the last. */
  lemma ReadStopsIff(c: Config, s: seq<Answer>, n: nat)
    requires n <= |s|
    ensures Read(c, s) == s[..n] && |Read(c, s)| == n
       <==> (forall k: nat :: k < n ==> !Reaches(c, s, k)) && (n == |s| || Reaches(c, s, n))
  {
    forall k: nat | k <= |s| ensures Trips(c, s[..k]) <==> Reaches(c, s, k) {
      ReachesIff(c, s, k);
    }
    hide Reaches, Trips;
    assert !Trips(c, s[..0]);
    if (forall k: nat :: k < n ==> !Reaches(c, s, k)) && (n == |s| || Reaches(c, s, n)) {
      ReadFromIs(c, s, 0, n);
    }
  }

  /** An answer without a score permits, and other answers stay as they are. */
  lemma NormalIs(s: seq<Answer>, i: nat)
    requires i < |s|
    ensures s[i].score == 0.0 ==> Normals(s)[i] == s[i].(action := Permit)
    ensures s[i].score != 0.0 ==> Normals(s)[i] == s[i]
  {
  }

  /** An answer without a score is no error, and adds nothing. */
  lemma NormalErrors(s: seq<Answer>)
    ensures Errors(Normals(s)) == |set i | 0 <= i < |s| && s[i].action == Error && s[i].score != 0.0|
  {
    ErrorsAre(Normals(s));
    forall i: nat | i < |s| ensures Normals(s)[i].action == Error <==> s[i].action == Error && s[i].score != 0.0 {
      NormalIs(s, i);
    }
    hide *;
    assert (set i | 0 <= i < |Normals(s)| && Normals(s)[i].action == Error)
        == (set i | 0 <= i < |s| && s[i].action == Error && s[i].score != 0.0);
  }
}
