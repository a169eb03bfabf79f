/** What the verdict on a message is meant to be: the weighing of answers by module
    groups, the threshold cascade and the early stop, as functions of the answers
    (message.go, lines 237-399). Scores are reals. */
module VerdictSpec {

  datatype Action = Permit | TempFail | Reject | Error | Discard

  /** What a module said, with what is to be called once the verdict is known. */
  datatype Answer = Answer(name: string, action: Action, message: string, score: real, callbacks: seq<nat>)

  datatype Member = Member(name: string, weight: real)

  datatype Group = Group(name: string, members: seq<Member>, total: real)

  datatype Config = Config(breaker: real, reject: real, tempfail: real)

  /** An answer without a score permits, whatever it suggests. */
  function Normal(a: Answer): Answer {
    if a.score == 0.0 then a.(action := Permit) else a
  }

  function Normals(s: seq<Answer>): (r: seq<Answer>)
    ensures |r| == |s| && forall i :: 0 <= i < |s| ==> r[i] == Normal(s[i])
  {
    if s == [] then [] else Normals(s[..|s| - 1]) + [Normal(s[|s| - 1])]
  }

  // ----- Sums over answers -----

  function Sum(s: seq<Answer>, f: Answer -> real): real {
    if s == [] then 0.0 else Sum(s[..|s| - 1], f) + f(s[|s| - 1])
  }

  function Number(s: seq<Answer>, f: Answer -> nat): nat {
    if s == [] then 0 else Number(s[..|s| - 1], f) + f(s[|s| - 1])
  }

  function Without(s: seq<Answer>, j: nat): (r: seq<Answer>)
    requires j < |s|
  {
    s[..j] + s[j + 1..]
  }

  lemma {:induction false} SumWithout(s: seq<Answer>, j: nat, f: Answer -> real, n: Answer -> nat)
    requires j < |s|
    ensures Sum(s, f) == Sum(Without(s, j), f) + f(s[j])
    ensures Number(s, n) == Number(Without(s, j), n) + n(s[j])
    decreases |s|
  {
    var init, last := s[..|s| - 1], s[|s| - 1];
    if j < |s| - 1 {
      SumWithout(init, j, f, n);
      var rest := Without(s, j);
      assert rest[..|rest| - 1] == Without(init, j) && rest[|rest| - 1] == last;
    } else {
      assert Without(s, j) == init;
    }
  }

  lemma MultisetWithout(s: seq<Answer>, j: nat)
    requires j < |s|
    ensures multiset(s) == multiset(Without(s, j)) + multiset{s[j]}
  {
    assert s == s[..j] + [s[j]] + s[j + 1..];
  }

  lemma Cancel<T>(a: multiset<T>, b: multiset<T>, x: T)
    requires a + multiset{x} == b + multiset{x}
    ensures a == b
  {
    assert a == (a + multiset{x}) - multiset{x};
    assert b == (b + multiset{x}) - multiset{x};
  }

  /** Sums do not depend on the order of the answers. */
  lemma {:induction false} SumPermutes(s: seq<Answer>, t: seq<Answer>, f: Answer -> real, n: Answer -> nat)
    requires multiset(s) == multiset(t)
    ensures Sum(s, f) == Sum(t, f) && Number(s, n) == Number(t, n)
    decreases |s|
  {
    if s == [] {
      assert |t| == |multiset(t)| == 0;
    } else {
      var init, last := s[..|s| - 1], s[|s| - 1];
      assert s == init + [last];
      assert last in multiset(t);
      var j :| 0 <= j < |t| && t[j] == last;
      MultisetWithout(t, j);
      assert multiset(s) == multiset(init) + multiset{last};
      Cancel(multiset(init), multiset(Without(t, j)), last);
      SumPermutes(init, Without(t, j), f, n);
      SumWithout(t, j, f, n);
    }
  }

  lemma {:induction false} SumMonotone(s: seq<Answer>, f: Answer -> real, g: Answer -> real)
    requires forall a :: a in s ==> f(a) <= g(a)
    ensures Sum(s, f) <= Sum(s, g)
    decreases |s|
  {
    if s != [] {
      SumMonotone(s[..|s| - 1], f, g);
    }
  }

  lemma SumSame(s: seq<Answer>, f: Answer -> real, g: Answer -> real)
    requires forall a :: a in s ==> f(a) == g(a)
    ensures Sum(s, f) == Sum(s, g)
  {
    SumMonotone(s, f, g);
    SumMonotone(s, g, f);
  }

  function Scaled(c: real, f: Answer -> real): Answer -> real {
    (a: Answer) => c * f(a)
  }

  lemma {:induction false} SumScaled(s: seq<Answer>, c: real, f: Answer -> real)
    ensures Sum(s, Scaled(c, f)) == c * Sum(s, f)
    decreases |s|
  {
    if s != [] {
      SumScaled(s[..|s| - 1], c, f);
    }
  }

  lemma {:induction false} SumAppend(s: seq<Answer>, t: seq<Answer>, f: Answer -> real, n: Answer -> nat)
    ensures Sum(s + t, f) == Sum(s, f) + Sum(t, f) && Number(s + t, n) == Number(s, n) + Number(t, n)
    decreases |t|
  {
    if t == [] {
      assert s + t == s;
    } else {
      SumAppend(s, t[..|t| - 1], f, n);
      assert (s + t)[..|s + t| - 1] == s + t[..|t| - 1];
    }
  }

  function Nothing(): Answer -> real { (a: Answer) => 0.0 }

  lemma {:induction false} SumNothing(s: seq<Answer>)
    ensures Sum(s, Nothing()) == 0.0
    decreases |s|
  {
    if s != [] {
      SumNothing(s[..|s| - 1]);
    }
  }

  // ----- Module groups -----

  /** The members of a list that bear a name: how many, and their weight. */
  function Matches(ms: seq<Member>, name: string): nat {
    if ms == [] then 0 else Matches(ms[..|ms| - 1], name) + if ms[|ms| - 1].name == name then 1 else 0
  }

  function Weight(ms: seq<Member>, name: string): real {
    if ms == [] then 0.0
    else Weight(ms[..|ms| - 1], name) + if ms[|ms| - 1].name == name then ms[|ms| - 1].weight else 0.0
  }

  function WeightOf(ms: seq<Member>): real {
    if ms == [] then 0.0 else WeightOf(ms[..|ms| - 1]) + ms[|ms| - 1].weight
  }

  /** A score after the members that bear the name have weighed it. */
  function Multiplied(ms: seq<Member>, name: string, score: real, factor: real): real {
    if ms == [] then score
    else
      var sofar := Multiplied(ms[..|ms| - 1], name, score, factor);
      if ms[|ms| - 1].name == name then sofar * ms[|ms| - 1].weight * factor else sofar
  }

  function Share(ms: seq<Member>): Answer -> real {
    (a: Answer) => if a.action == Error then 0.0 else Weight(ms, a.name)
  }

  function ErrorShare(ms: seq<Member>): Answer -> nat {
    (a: Answer) => if a.action == Error then Matches(ms, a.name) else 0
  }

  /** The weight of the members that answered, and the number that failed. */
  function Answered(g: Group, s: seq<Answer>): real {
    Sum(s, Share(g.members))
  }

  function Failed(g: Group, s: seq<Answer>): nat {
    Number(s, ErrorShare(g.members))
  }

  /** A group counts as failed only when as many failed as it has members. */
  predicate AllFailed(g: Group, s: seq<Answer>) {
    Failed(g, s) == |g.members|
  }

  function Multiplier(g: Group, s: seq<Answer>): real {
    if Answered(g, s) == 0.0 then 0.0 else g.total / Answered(g, s)
  }

  function WeighedBy(g: Group, s: seq<Answer>, a: Answer, score: real): real {
    if a.action == Error || AllFailed(g, s) then score
    else Multiplied(g.members, a.name, score, Multiplier(g, s))
  }

  /** The score of an answer after all the groups. */
  function Weighed(groups: seq<Group>, s: seq<Answer>, a: Answer): real {
    if groups == [] then a.score
    else WeighedBy(groups[|groups| - 1], s, a, Weighed(groups[..|groups| - 1], s, a))
  }

  /** The number of errors that do not count, because a sibling may still answer. */
  function Ignored(groups: seq<Group>, s: seq<Answer>): nat {
    if groups == [] then 0
    else
      var g := groups[|groups| - 1];
      Ignored(groups[..|groups| - 1], s) + if AllFailed(g, s) then 0 else Failed(g, s)
  }

  function IsError(): Answer -> nat {
    (a: Answer) => if a.action == Error then 1 else 0
  }

  function Errors(s: seq<Answer>): nat {
    Number(s, IsError())
  }

  // ----- The cascade -----

  function ScoreOf(groups: seq<Group>, s: seq<Answer>, action: Action): Answer -> real {
    (a: Answer) => if a.action == action then Weighed(groups, s, a) else 0.0
  }

  function Total(groups: seq<Group>, s: seq<Answer>, action: Action): real {
    Sum(s, ScoreOf(groups, s, action))
  }

  predicate Has(s: seq<Answer>, action: Action) {
    exists i :: 0 <= i < |s| && s[i].action == action
  }

  /** What the four sums decide. The branch with a message reads the first answer
      of its own action; when there is none it panics, and the recovery defers. */
  datatype Decision = Decided(verdict: Action) | Panicked

  function Cascade(c: Config, discard: real, reject: real, tempfail: real, errors: int,
                   hasDiscard: bool, hasReject: bool, hasTempfail: bool): Decision {
    if discard >= c.breaker then (if hasDiscard then Decided(Discard) else Panicked)
    else if reject >= c.reject then (if hasReject then Decided(Reject) else Panicked)
    else if errors > 0 then Decided(TempFail)
    else if tempfail + reject >= c.tempfail then (if hasTempfail then Decided(TempFail) else Panicked)
    else Decided(Permit)
  }

  function Decide(c: Config, groups: seq<Group>, s: seq<Answer>): Decision {
    Cascade(c, Total(groups, s, Discard), Total(groups, s, Reject), Total(groups, s, TempFail),
            Errors(s) - Ignored(groups, s), Has(s, Discard), Has(s, Reject), Has(s, TempFail))
  }

  function Verdict(d: Decision): Action {
    if d.Decided? then d.verdict else TempFail
  }

  // ----- The early stop -----

  function RawScore(action: Action): Answer -> real {
    (a: Answer) => if a.action == action then a.score else 0.0
  }

  /** The last of the answers read brings the score of its action to the breaker. */
  predicate Trips(c: Config, read: seq<Answer>) {
    && read != []
    && var last := read[|read| - 1];
       last.action != Error && Sum(read, RawScore(last.action)) >= c.breaker
  }

  /** How many answers are read: up to the first that trips the breaker. */
  function ReadFrom(c: Config, s: seq<Answer>, k: nat): (n: nat)
    requires k <= |s|
    ensures k <= n <= |s|
    ensures forall i :: k < i < n ==> !Trips(c, s[..i])
    ensures n < |s| ==> n > k && Trips(c, s[..n])
    decreases |s| - k
  {
    if k == |s| then k else if Trips(c, s[..k + 1]) then k + 1 else ReadFrom(c, s, k + 1)
  }

  function Read(c: Config, s: seq<Answer>): seq<Answer> {
    s[..ReadFrom(c, s, 0)]
  }
}
