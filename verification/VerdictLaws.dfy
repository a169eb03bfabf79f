/** Laws of the verdict: it does not depend on the order of the answers, it is well
    defined exactly for ordered thresholds, groups conserve their weight, and an
    early stop is sound (message.go, lines 189-399). */
module VerdictLaws {
  import opened VerdictSpec

  // ----- Order independence -----

  lemma GroupPermutes(g: Group, s: seq<Answer>, t: seq<Answer>)
    requires multiset(s) == multiset(t)
    ensures Answered(g, s) == Answered(g, t) && Failed(g, s) == Failed(g, t)
  {
    SumPermutes(s, t, Share(g.members), ErrorShare(g.members));
  }

  lemma {:induction false} WeighedPermutes(groups: seq<Group>, s: seq<Answer>, t: seq<Answer>, a: Answer)
    requires multiset(s) == multiset(t)
    ensures Weighed(groups, s, a) == Weighed(groups, t, a)
    decreases |groups|
  {
    if groups != [] {
      WeighedPermutes(groups[..|groups| - 1], s, t, a);
      GroupPermutes(groups[|groups| - 1], s, t);
    }
  }

  lemma {:induction false} IgnoredPermutes(groups: seq<Group>, s: seq<Answer>, t: seq<Answer>)
    requires multiset(s) == multiset(t)
    ensures Ignored(groups, s) == Ignored(groups, t)
    decreases |groups|
  {
    if groups != [] {
      IgnoredPermutes(groups[..|groups| - 1], s, t);
      GroupPermutes(groups[|groups| - 1], s, t);
    }
  }

  lemma HasPermutes(s: seq<Answer>, t: seq<Answer>, x: Action)
    requires multiset(s) == multiset(t)
    ensures Has(s, x) ==> Has(t, x)
  {
    if Has(s, x) {
      var i :| 0 <= i < |s| && s[i].action == x;
      assert s[i] in multiset(t);
      var j :| 0 <= j < |t| && t[j] == s[i];
    }
  }

  lemma TotalPermutes(groups: seq<Group>, s: seq<Answer>, t: seq<Answer>, x: Action)
    requires multiset(s) == multiset(t)
    ensures Total(groups, s, x) == Total(groups, t, x) && (Has(s, x) <==> Has(t, x))
  {
    forall a | a in s ensures ScoreOf(groups, s, x)(a) == ScoreOf(groups, t, x)(a) {
      WeighedPermutes(groups, s, t, a);
    }
    SumSame(s, ScoreOf(groups, s, x), ScoreOf(groups, t, x));
    SumPermutes(s, t, ScoreOf(groups, t, x), IsError());
    HasPermutes(s, t, x);
    HasPermutes(t, s, x);
  }

  lemma DecidePermutes(c: Config, groups: seq<Group>, s: seq<Answer>, t: seq<Answer>)
    requires multiset(s) == multiset(t)
    ensures Decide(c, groups, s) == Decide(c, groups, t)
    ensures Total(groups, s, Reject) == Total(groups, t, Reject)
    ensures Total(groups, s, TempFail) == Total(groups, t, TempFail)
  {
    hide Total, Has, Ignored, Cascade;
    TotalPermutes(groups, s, t, Discard);
    TotalPermutes(groups, s, t, Reject);
    TotalPermutes(groups, s, t, TempFail);
    IgnoredPermutes(groups, s, t);
    SumPermutes(s, t, Nothing(), IsError());
  }

  ghost predicate NeverTrips(c: Config, s: seq<Answer>) {
    forall i :: 0 < i <= |s| ==> !Trips(c, s[..i])
  }

  lemma AllRead(c: Config, s: seq<Answer>)
    requires NeverTrips(c, s)
    ensures Read(c, s) == s
  {
    hide Trips;
    assert s[..|s|] == s;
  }

  /** Two arrival orders of the same answers that do not trip the breaker give the
      same verdict and the same two scores. */
  lemma OrderIndependent(c: Config, groups: seq<Group>, s: seq<Answer>, t: seq<Answer>)
    requires multiset(s) == multiset(t) && NeverTrips(c, s) && NeverTrips(c, t)
    ensures Decide(c, groups, Read(c, s)) == Decide(c, groups, Read(c, t))
    ensures Total(groups, Read(c, s), Reject) == Total(groups, Read(c, t), Reject)
    ensures Total(groups, Read(c, s), TempFail) == Total(groups, Read(c, t), TempFail)
  {
    hide Trips, Decide, Total;
    AllRead(c, s);
    AllRead(c, t);
    DecidePermutes(c, groups, s, t);
  }

  ghost predicate NonNegative(s: seq<Answer>) {
    forall a :: a in s ==> a.score >= 0.0
  }

  lemma SumPrefix(s: seq<Answer>, k: nat, f: Answer -> real, n: Answer -> nat)
    requires k <= |s| && forall a :: a in s ==> f(a) >= 0.0
    ensures Sum(s[..k], f) <= Sum(s, f) && Number(s[..k], n) <= Number(s, n)
  {
    assert s == s[..k] + s[k..];
    SumAppend(s[..k], s[k..], f, n);
    SumMonotone(s[k..], Nothing(), f);
    SumNothing(s[k..]);
  }

  /** No order trips the breaker when the score of each action stays below it. */
  lemma LowScoresNeverTrip(c: Config, s: seq<Answer>)
    requires NonNegative(s)
    requires forall x: Action :: x != Error ==> Sum(s, RawScore(x)) < c.breaker
    ensures NeverTrips(c, s)
  {
    forall i | 0 < i <= |s| ensures !Trips(c, s[..i]) {
      SumPrefix(s, i, RawScore(s[i - 1].action), IsError());
    }
  }

  lemma {:induction false} ReadFromIs(c: Config, s: seq<Answer>, k: nat, n: nat)
    requires k <= n <= |s|
    requires forall i :: k < i < n ==> !Trips(c, s[..i])
    requires n < |s| ==> n > k
    requires n > k ==> Trips(c, s[..n]) || n == |s|
    ensures ReadFrom(c, s, k) == n
    decreases n - k
  {
    if k < n && !Trips(c, s[..k + 1]) {
      ReadFromIs(c, s, k + 1, n);
    }
  }

  // ----- When the deciding answer exists -----

  lemma {:induction false} NoneOfAction(s: seq<Answer>, f: Answer -> real, x: Action)
    requires !Has(s, x) && forall a: Answer :: a.action != x ==> f(a) == 0.0
    ensures Sum(s, f) == 0.0
    decreases |s|
  {
    if s != [] {
      var init := s[..|s| - 1];
      assert forall i :: 0 <= i < |init| ==> init[i] == s[i];
      NoneOfAction(init, f, x);
    }
  }

  ghost predicate NeverPanics(c: Config) {
    forall groups, s :: Decide(c, groups, s).Decided?
  }

  predicate Ordered(c: Config) {
    0.0 < c.breaker && 0.0 < c.reject <= c.tempfail
  }

  lemma OrderedDecides(c: Config, groups: seq<Group>, s: seq<Answer>)
    requires Ordered(c)
    ensures Decide(c, groups, s).Decided? && Verdict(Decide(c, groups, s)) != Error
  {
    forall x: Action | !Has(s, x) ensures Total(groups, s, x) == 0.0 {
      NoneOfAction(s, ScoreOf(groups, s, x), x);
    }
    hide Total, Has, Ignored, Errors;
  }

  function Just(x: Action, score: real): Answer {
    Answer("", x, "", score, [])
  }

  lemma SumJust(x: Action, score: real, f: Answer -> real, n: Answer -> nat)
    ensures Sum([Just(x, score)], f) == f(Just(x, score)) && Number([Just(x, score)], n) == n(Just(x, score))
  {
    var s := [Just(x, score)];
    assert s[..0] == [];
  }

  lemma UnorderedPanics(c: Config)
    requires !Ordered(c)
    ensures !NeverPanics(c)
  {
    if c.breaker <= 0.0 || c.reject <= 0.0 {
      assert Decide(c, [], []).Panicked?;
    } else {
      var s := [Just(Reject, c.tempfail)];
      SumJust(Reject, c.tempfail, ScoreOf([], s, Discard), IsError());
      SumJust(Reject, c.tempfail, ScoreOf([], s, Reject), IsError());
      SumJust(Reject, c.tempfail, ScoreOf([], s, TempFail), IsError());
      assert Decide(c, [], s).Panicked?;
    }
  }

  /** The answer whose message is reported always exists, and the verdict is never
      Error, exactly when 0 < breaker and 0 < reject <= tempfail. */
  lemma NeverPanicsIff(c: Config)
    ensures NeverPanics(c) <==> Ordered(c)
  {
    if Ordered(c) {
      forall groups, s ensures Decide(c, groups, s).Decided? {
        OrderedDecides(c, groups, s);
      }
    } else {
      UnorderedPanics(c);
    }
  }

  // ----- Stopping early -----

  function Severity(x: Action): nat {
    match x case Permit => 0 case TempFail => 1 case Reject => 2 case Error => 1 case Discard => 3
  }

  function SeverityOf(c: Config, s: seq<Answer>): nat {
    Severity(Verdict(Decide(c, [], s)))
  }

  lemma NoGroupsTotal(s: seq<Answer>, x: Action)
    ensures Total([], s, x) == Sum(s, RawScore(x))
    ensures !Has(s, x) ==> Total([], s, x) == 0.0
  {
    SumSame(s, ScoreOf([], s, x), RawScore(x));
    if !Has(s, x) {
      NoneOfAction(s, RawScore(x), x);
    }
  }

  lemma NoGroupsPrefix(s: seq<Answer>, k: nat, x: Action)
    requires k <= |s| && NonNegative(s)
    ensures 0.0 <= Total([], s[..k], x) <= Total([], s, x)
    ensures Has(s[..k], x) ==> Has(s, x)
    ensures Errors(s[..k]) <= Errors(s)
  {
    NoGroupsTotal(s, x);
    NoGroupsTotal(s[..k], x);
    SumPrefix(s, k, RawScore(x), IsError());
    SumPrefix(s[..k], 0, RawScore(x), IsError());
    assert s[..k][..0] == [];
    if i :| 0 <= i < |s[..k]| && s[..k][i].action == x {
      assert s[i].action == x;
    }
  }

  /** Reading fewer answers never gives a more severe verdict. */
  lemma MoreReadMoreSevere(c: Config, s: seq<Answer>, k: nat)
    requires k <= |s| && NonNegative(s) && 0.0 < c.breaker
    ensures SeverityOf(c, s[..k]) <= SeverityOf(c, s)
  {
    NoGroupsPrefix(s, k, Discard);
    NoGroupsPrefix(s, k, Reject);
    NoGroupsPrefix(s, k, TempFail);
    NoGroupsTotal(s, Discard);
    NoGroupsTotal(s[..k], Discard);
    hide Total, Has, Errors;
  }

  /** The breaker stopped the reading, on this action. */
  ghost predicate StoppedOn(c: Config, s: seq<Answer>, x: Action) {
    var read := Read(c, s);
    Trips(c, read) && read[|read| - 1].action == x
  }

  ghost predicate AbortSound(c: Config) {
    forall s, x :: NonNegative(s) && StoppedOn(c, s, x) && x in {TempFail, Reject, Discard} ==>
      Severity(x) <= SeverityOf(c, Read(c, s)) <= SeverityOf(c, s)
  }

  lemma StopIsSevere(c: Config, s: seq<Answer>, x: Action)
    requires NonNegative(s) && StoppedOn(c, s, x) && x in {TempFail, Reject, Discard}
    requires 0.0 < c.breaker && c.reject <= c.breaker && c.tempfail <= c.breaker
    ensures Severity(x) <= SeverityOf(c, Read(c, s))
  {
    var read := Read(c, s);
    assert read[..|read|] == read;
    NoGroupsTotal(read, x);
    NoGroupsTotal(read, Discard);
    NoGroupsPrefix(read, |read|, Reject);
    assert Has(read, x);
    hide Total, Has, Errors, Read;
  }

  lemma SingleRead(c: Config, x: Action)
    requires x != Error && 0.0 < c.breaker
    ensures var s := [Just(x, c.breaker)]; Read(c, s) == s && StoppedOn(c, s, x) && NonNegative(s)
    ensures forall y :: Total([], [Just(x, c.breaker)], y) == if x == y then c.breaker else 0.0
    ensures Errors([Just(x, c.breaker)]) == 0
  {
    var s := [Just(x, c.breaker)];
    forall y ensures Total([], s, y) == if x == y then c.breaker else 0.0 {
      SumJust(x, c.breaker, ScoreOf([], s, y), IsError());
    }
    SumJust(x, c.breaker, RawScore(x), IsError());
    assert s[..1] == s;
    assert Trips(c, s);
  }

  lemma ReadIsPrefix(c: Config, s: seq<Answer>)
    ensures |Read(c, s)| <= |s| && Read(c, s) == s[..|Read(c, s)|]
  {
  }

  lemma HighThresholdUnsound(c: Config)
    requires 0.0 < c.breaker && 0.0 < c.reject && (c.breaker < c.reject || c.breaker < c.tempfail)
    ensures !AbortSound(c)
  {
    var x := if c.breaker < c.reject then Reject else TempFail;
    var s := [Just(x, c.breaker)];
    SingleRead(c, x);
    hide Total, Read, StoppedOn, NonNegative;
    assert SeverityOf(c, s) < Severity(x);
  }

  /** A stop on TempFail, Reject or Discard gives at least that action and at most
      what all the answers would have given, exactly when no threshold is above
      the breaker. */
  lemma AbortSoundIff(c: Config)
    requires 0.0 < c.breaker && 0.0 < c.reject
    ensures AbortSound(c) <==> c.reject <= c.breaker && c.tempfail <= c.breaker
  {
    hide StoppedOn, SeverityOf, Read;
    if c.reject <= c.breaker && c.tempfail <= c.breaker {
      forall s, x | NonNegative(s) && StoppedOn(c, s, x) && x in {TempFail, Reject, Discard}
        ensures Severity(x) <= SeverityOf(c, Read(c, s)) <= SeverityOf(c, s)
      {
        StopIsSevere(c, s, x);
        ReadIsPrefix(c, s);
        MoreReadMoreSevere(c, s, |Read(c, s)|);
      }
    } else {
      HighThresholdUnsound(c);
    }
  }

  /** A stop on Permit may hide a rejection, whatever the thresholds. */
  lemma PermitStopHides(c: Config) returns (s: seq<Answer>)
    requires Ordered(c)
    ensures NonNegative(s) && StoppedOn(c, s, Permit)
    ensures Verdict(Decide(c, [], Read(c, s))) == Permit && Verdict(Decide(c, [], s)) == Reject
  {
    var first, second := Just(Permit, c.breaker), Just(Reject, c.reject);
    s := [first, second];
    assert s[..1] == [first] && s == [first] + [second];
    SumJust(Permit, c.breaker, RawScore(Permit), IsError());
    assert Trips(c, s[..1]);
    assert Read(c, s) == [first];
    SingleRead(c, Permit);
    forall y ensures Total([], s, y) == if y == Permit then c.breaker else if y == Reject then c.reject else 0.0 {
      SumAppend([first], [second], ScoreOf([], s, y), IsError());
      SumJust(Permit, c.breaker, ScoreOf([], s, y), IsError());
      SumJust(Reject, c.reject, ScoreOf([], s, y), IsError());
    }
    assert s[1].action == Reject;
    hide Total, Read, StoppedOn, NonNegative;
  }
}
