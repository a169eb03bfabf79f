/** The verdict engine as it runs: starting the module groups, reading answers until
    the breaker, weighing them in place, and the cascade (message.go, lines 142-399). */
module VerdictEngine {
  import opened VerdictSpec
  import opened VerdictLaws
  import opened GroupLaws

  class CheckResult {
    const name: string
    const message: string
    const score: real
    const callbacks: seq<nat>
    var action: Action
    var weightedScore: real

    function Value(): Answer
      reads `action
    {
      Answer(name, action, message, score, callbacks)
    }

    constructor (name: string, action: Action, message: string, score: real, callbacks: seq<nat>)
      ensures Value() == Answer(name, action, message, score, callbacks) && weightedScore == 0.0
    {
      this.name, this.action, this.message, this.score, this.callbacks := name, action, message, score, callbacks;
      weightedScore := 0.0;
    }
  }

  function View(results: seq<CheckResult>): (s: seq<Answer>)
    reads results`action
    ensures |s| == |results| && forall i :: 0 <= i < |s| ==> s[i] == results[i].Value()
  {
    if results == [] then [] else View(results[..|results| - 1]) + [results[|results| - 1].Value()]
  }

  ghost predicate Distinct<T>(s: seq<T>) {
    forall i, j :: 0 <= i < j < |s| ==> s[i] != s[j]
  }

  lemma ViewIs(results: seq<CheckResult>, s: seq<Answer>)
    requires |s| == |results| && forall i :: 0 <= i < |s| ==> s[i] == results[i].Value()
    ensures View(results) == s
  {
  }

  // ----- Weighing -----

  /** The first loop over a group: the weight that answered and the failures. */
  method TallyGroup(g: Group, results: seq<CheckResult>) returns (totalWeight: real, errorCount: nat)
    ensures totalWeight == Answered(g, View(results)) && errorCount == Failed(g, View(results))
  {
    var s := View(results);
    totalWeight, errorCount := 0.0, 0;
    for i := 0 to |results|
      invariant totalWeight == Sum(s[..i], Share(g.members)) && errorCount == Number(s[..i], ErrorShare(g.members))
    {
      var r, weightWas, errorsWas := results[i], totalWeight, errorCount;
      for j := 0 to |g.members|
        invariant totalWeight == weightWas + if r.action == Error then 0.0 else Weight(g.members[..j], r.name)
        invariant errorCount == errorsWas + if r.action == Error then Matches(g.members[..j], r.name) else 0
      {
        assert g.members[..j + 1][..j] == g.members[..j];
        if r.name == g.members[j].name {
          if r.action == Error {
            errorCount := errorCount + 1;
          } else {
            totalWeight := totalWeight + g.members[j].weight;
          }
        }
      }
      assert g.members[..|g.members|] == g.members;
      assert s[..i + 1][..i] == s[..i] && s[i] == r.Value();
    }
    assert s[..|results|] == s;
  }

  method MultiplyOne(g: Group, r: CheckResult, factor: real)
    modifies r`weightedScore
    ensures r.weightedScore == if r.action == Error then old(r.weightedScore)
                               else Multiplied(g.members, r.name, old(r.weightedScore), factor)
  {
    for j := 0 to |g.members|
      invariant r.weightedScore == if r.action == Error then old(r.weightedScore)
                                   else Multiplied(g.members[..j], r.name, old(r.weightedScore), factor)
    {
      assert g.members[..j + 1][..j] == g.members[..j];
      if r.name != g.members[j].name || r.action == Error {
        continue;
      }
      r.weightedScore := r.weightedScore * g.members[j].weight * factor;
    }
    assert g.members[..|g.members|] == g.members;
  }

  /** The second loop over a group: each answer of a member is multiplied in place. */
  method Multiply(g: Group, results: seq<CheckResult>, factor: real)
    requires Distinct(results)
    modifies results`weightedScore
    ensures forall i :: 0 <= i < |results| ==>
              results[i].weightedScore == if results[i].action == Error then old(results[i].weightedScore)
                                          else Multiplied(g.members, results[i].name,
                                                          old(results[i].weightedScore), factor)
  {
    for i := 0 to |results|
      invariant forall k :: i <= k < |results| ==> results[k].weightedScore == old(results[k].weightedScore)
      invariant forall k :: 0 <= k < i ==>
                  results[k].weightedScore == if results[k].action == Error then old(results[k].weightedScore)
                                              else Multiplied(g.members, results[k].name,
                                                              old(results[k].weightedScore), factor)
    {
      MultiplyOne(g, results[i], factor);
    }
  }

  /** messageWeighResults */
  method WeighResults(groups: seq<Group>, results: seq<CheckResult>) returns (ignored: nat)
    requires Distinct(results) && forall g :: g in groups ==> Divides(g, View(results))
    requires forall r :: r in results ==> r.weightedScore == r.score
    modifies results`weightedScore
    ensures ignored == Ignored(groups, View(results))
    ensures forall i :: 0 <= i < |results| ==>
              results[i].weightedScore == Weighed(groups, View(results), results[i].Value())
  {
    hide Multiplied, Answered, Failed, Divides;
    ghost var s := View(results);
    ignored := 0;
    for k := 0 to |groups|
      invariant ignored == Ignored(groups[..k], s)
      invariant forall i :: 0 <= i < |results| ==>
                  results[i].weightedScore == Weighed(groups[..k], s, results[i].Value())
    {
      var g := groups[k];
      assert groups[..k + 1][..k] == groups[..k];
      var totalWeight, errorCount := TallyGroup(g, results);
      if errorCount == |g.members| {
        continue;
      }
      ignored := ignored + errorCount;
      // Without an answered weight the quotient is not a number, and multiplies nothing.
      var factor := if totalWeight == 0.0 then 0.0 else g.total / totalWeight;
      Multiply(g, results, factor);
    }
    assert groups[..|groups|] == groups;
  }

  // ----- Reading -----

  /** The arrays of five that are indexed by an action. */
  datatype Five<T> = Five(permit: T, tempfail: T, reject: T, error: T, discard: T) {
    function At(x: Action): T {
      match x
      case Permit => permit
      case TempFail => tempfail
      case Reject => reject
      case Error => error
      case Discard => discard
    }

    function Put(x: Action, v: T): (r: Five<T>)
      ensures forall y :: r.At(y) == if y == x then v else At(y)
    {
      match x
      case Permit => this.(permit := v)
      case TempFail => this.(tempfail := v)
      case Reject => this.(reject := v)
      case Error => this.(error := v)
      case Discard => this.(discard := v)
    }
  }

  type Lists = Five<seq<CheckResult>>

  /** The answers of one action, in their order. */
  ghost function Only(flat: seq<CheckResult>, x: Action): seq<CheckResult>
    reads flat`action
  {
    if flat == [] then []
    else
      var last := flat[|flat| - 1];
      Only(flat[..|flat| - 1], x) + if last.action == x then [last] else []
  }

  ghost predicate Sorted(lists: Lists, flat: seq<CheckResult>)
    reads flat`action
  {
    forall x: Action :: lists.At(x) == Only(flat, x)
  }

  /** Where the answers of one action are. */
  lemma {:induction false} OnlyAt(flat: seq<CheckResult>, x: Action) returns (places: seq<nat>)
    ensures |places| == |Only(flat, x)|
    ensures forall k :: 0 <= k < |places| ==> places[k] < |flat| && flat[places[k]] == Only(flat, x)[k]
    ensures forall j, k :: 0 <= j < k < |places| ==> places[j] < places[k]
    ensures forall i: nat :: i in places <==> i < |flat| && flat[i].action == x
    decreases |flat|
  {
    if flat == [] {
      places := [];
    } else {
      var n := |flat| - 1;
      places := OnlyAt(flat[..n], x);
      if flat[n].action == x {
        places := places + [n];
      }
    }
  }

  const NO_LISTS: Lists := Five([], [], [], [], [])
  const NO_SCORES: Five<real> := Five(0.0, 0.0, 0.0, 0.0, 0.0)

  /** The first i answers are taken in, and the others are as they arrived. */
  ghost predicate TakenIn(arrivals: seq<CheckResult>, i: nat, s: seq<Answer>)
    reads arrivals`action, arrivals`weightedScore
  {
    && i <= |arrivals| == |s|
    && (forall k :: i <= k < |arrivals| ==> Normal(arrivals[k].Value()) == s[k])
    && (forall k :: 0 <= k < i ==> arrivals[k].Value() == s[k] && arrivals[k].weightedScore == arrivals[k].score)
  }

  /** An answer is taken in: without a score it permits. */
  method TakeIn(result: CheckResult, flat: seq<CheckResult>, lists: Lists,
                ghost arrivals: seq<CheckResult>, ghost s: seq<Answer>)
    returns (flat2: seq<CheckResult>, lists2: Lists)
    requires |flat| < |arrivals| && flat == arrivals[..|flat|] && result == arrivals[|flat|]
    requires Distinct(arrivals) && TakenIn(arrivals, |flat|, s) && Sorted(lists, flat)
    modifies result`action, result`weightedScore
    ensures flat2 == flat + [result] == arrivals[..|flat| + 1] && Sorted(lists2, flat2)
    ensures TakenIn(arrivals, |flat2|, s) && result.Value() == s[|flat|]
  {
    if result.score == 0.0 {
      result.action := Permit;
    }
    var x := result.action;
    lists2 := lists.Put(x, lists.At(x) + [result]);
    flat2 := flat + [result];
    assert flat2[..|flat|] == flat;
    result.weightedScore := result.score;
  }

  lemma TakenView(arrivals: seq<CheckResult>, i: nat, s: seq<Answer>)
    requires TakenIn(arrivals, i, s)
    ensures View(arrivals[..i]) == s[..i] && forall r :: r in arrivals[..i] ==> r.weightedScore == r.score
  {
    ViewIs(arrivals[..i], s[..i]);
  }

  /** The first i answers are read: the running sums, and whether the last of
      them is the first to trip the breaker. */
  ghost predicate Reading(c: Config, s: seq<Answer>, i: nat, breakerScore: Five<real>, errorCount: nat, stopped: bool) {
    && i <= |s|
    && (forall x: Action :: breakerScore.At(x) == Sum(s[..i], RawScore(x)))
    && errorCount == Errors(s[..i])
    && (forall k :: 0 < k < i ==> !Trips(c, s[..k]))
    && (stopped <==> i > 0 && Trips(c, s[..i]))
  }

  lemma OneMore(c: Config, s: seq<Answer>, i: nat, breakerScore: Five<real>, errorCount: nat)
    requires i < |s| && Reading(c, s, i, breakerScore, errorCount, false)
    ensures var x := s[i].action;
            var more := breakerScore.Put(x, breakerScore.At(x) + s[i].score);
            Reading(c, s, i + 1, more, errorCount + if x == Error then 1 else 0, x != Error && more.At(x) >= c.breaker)
  {
    assert s[..i + 1][..i] == s[..i];
  }

  lemma ReadingEnds(c: Config, s: seq<Answer>, i: nat, breakerScore: Five<real>, errorCount: nat, stopped: bool)
    requires Reading(c, s, i, breakerScore, errorCount, stopped) && (stopped || i == |s|)
    ensures Read(c, s) == s[..i] && errorCount == Errors(s[..i])
  {
    ReadFromIs(c, s, 0, i);
  }

  lemma NothingTaken(arrivals: seq<CheckResult>, s: seq<Answer>)
    requires s == Normals(View(arrivals))
    ensures TakenIn(arrivals, 0, s)
  {
  }

  lemma NoneRead(c: Config, s: seq<Answer>)
    ensures Sorted(NO_LISTS, []) && Reading(c, s, 0, NO_SCORES, 0, false)
  {
  }

  /** The loop that reads the channel, with the answers in the order they arrive. */
  method ReadResults(c: Config, arrivals: seq<CheckResult>)
    returns (flat: seq<CheckResult>, lists: Lists, errorCount: nat)
    requires Distinct(arrivals)
    modifies arrivals`action, arrivals`weightedScore
    ensures |flat| <= |arrivals| && flat == arrivals[..|flat|]
    ensures View(flat) == Read(c, Normals(old(View(arrivals))))
    ensures Sorted(lists, flat) && errorCount == Errors(View(flat))
    ensures forall r :: r in flat ==> r.weightedScore == r.score
  {
    hide Reading, Normal, Sorted, TakenIn, Read, Errors, View, Normals, Distinct, Five.At, Five.Put;
    ghost var s := Normals(View(arrivals));
    NoneRead(c, s);
    assert TakenIn(arrivals, 0, s) by {
      NothingTaken(arrivals, s);
    }
    var breakerScore := NO_SCORES;
    flat, lists, errorCount := [], NO_LISTS, 0;
    var i, stopped := 0, false;
    while i < |arrivals| && !stopped
      invariant i <= |arrivals| && flat == arrivals[..i]
      invariant TakenIn(arrivals, i, s) && Sorted(lists, flat)
      invariant Reading(c, s, i, breakerScore, errorCount, stopped)
      decreases |arrivals| - i
    {
      var result := arrivals[i];
      flat, lists := TakeIn(result, flat, lists, arrivals, s);
      var x := result.action;
      OneMore(c, s, i, breakerScore, errorCount);
      breakerScore := breakerScore.Put(x, breakerScore.At(x) + result.score);
      if x == Error {
        errorCount := errorCount + 1;
      } else if breakerScore.At(x) >= c.breaker {
        stopped := true;
      }
      i := i + 1;
    }
    assert flat == arrivals[..i];
    ReadingEnds(c, s, i, breakerScore, errorCount, stopped);
    TakenView(arrivals, i, s);
  }

  // ----- Deciding -----

  /** No other answer with a message has a higher positive score than this one,
      which has a message too if any of those has. */
  ghost predicate Decides(r: CheckResult, results: seq<CheckResult>)
    reads results`weightedScore, r`weightedScore
  {
    && r in results
    && forall q :: q in results && q.message != "" && q.weightedScore > 0.0 ==>
         r.message != "" && r.weightedScore >= q.weightedScore
  }

  /** The answer has something to say about its score. */
  predicate Speaks(r: CheckResult)
    reads r`weightedScore
  {
    r.message != "" && r.weightedScore > 0.0
  }

  /** The first of the highest among the answers that speak, or the first of all when
      none does. */
  ghost predicate FirstBest(results: seq<CheckResult>, k: nat)
    reads results`weightedScore
  {
    && k < |results|
    && (Speaks(results[k]) || (k == 0 && forall j :: 0 <= j < |results| ==> !Speaks(results[j])))
    && (forall j :: 0 <= j < k ==> Speaks(results[j]) ==> results[j].weightedScore < results[k].weightedScore)
    && (forall j :: k < j < |results| ==> Speaks(results[j]) ==> results[j].weightedScore <= results[k].weightedScore)
  }

  /** getDecidingResultWithMessage, where the source panics on an empty list. */
  method DecidingResult(results: seq<CheckResult>) returns (out: CheckResult)
    requires results != []
    ensures Decides(out, results)
    ensures exists k: nat :: FirstBest(results, k) && out == results[k]
  {
    out := results[0];
    var maxScore := 0.0;
    ghost var best := 0;
    for i := 0 to |results|
      invariant best < |results| && out == results[best] && maxScore >= 0.0 && (maxScore == 0.0 ==> best == 0)
      invariant maxScore == 0.0 || (best < i && out.message != "" && out.weightedScore == maxScore)
      invariant forall k :: 0 <= k < i && results[k].message != "" ==> results[k].weightedScore <= maxScore
      invariant forall k :: 0 <= k < best && Speaks(results[k]) ==> results[k].weightedScore < maxScore
    {
      if results[i].weightedScore > maxScore && results[i].message != "" {
        out, best := results[i], i;
        maxScore := results[i].weightedScore;
      }
    }
    assert FirstBest(results, best);
  }

  method TotalScores(flat: seq<CheckResult>, ghost groups: seq<Group>) returns (totals: Five<real>)
    requires forall i :: 0 <= i < |flat| ==> flat[i].weightedScore == Weighed(groups, View(flat), flat[i].Value())
    ensures forall x: Action :: totals.At(x) == Total(groups, View(flat), x)
  {
    hide Weighed;
    ghost var s := View(flat);
    totals := NO_SCORES;
    for i := 0 to |flat|
      invariant forall x: Action :: totals.At(x) == Sum(s[..i], ScoreOf(groups, s, x))
    {
      assert s[..i + 1][..i] == s[..i];
      totals := totals.Put(flat[i].action, totals.At(flat[i].action) + flat[i].weightedScore);
    }
    assert s[..|s|] == s;
  }

  /** The k-th answer decides: of those of the verdict's action that speak it is the
      first with the highest score, and when none speaks the first of that action. */
  ghost predicate DecidesFor(k: nat, verdict: Action, flat: seq<CheckResult>)
    reads flat`action, flat`weightedScore
  {
    && k < |flat| && flat[k].action == verdict
    && (Speaks(flat[k])
        || forall j :: 0 <= j < |flat| && flat[j].action == verdict ==> j >= k && !Speaks(flat[j]))
    && (forall j :: 0 <= j < k && flat[j].action == verdict && Speaks(flat[j]) ==>
          flat[j].weightedScore < flat[k].weightedScore)
    && (forall j :: k < j < |flat| && flat[j].action == verdict && Speaks(flat[j]) ==>
          flat[j].weightedScore <= flat[k].weightedScore)
  }

  lemma BestDecides(flat: seq<CheckResult>, x: Action, i: nat) returns (k: nat)
    requires FirstBest(Only(flat, x), i)
    ensures DecidesFor(k, x, flat) && flat[k] == Only(flat, x)[i]
  {
    var places := OnlyAt(flat, x);
    k := places[i];
    var list := Only(flat, x);
    assert k in places;
    hide Only, Speaks;
    forall j: nat | j < |flat| && flat[j].action == x
      ensures exists l :: 0 <= l < |places| && places[l] == j && flat[j] == list[l] && (j < k <==> l < i)
                            && (j == k <==> l == i)
    {
      assert j in places;
      var l :| 0 <= l < |places| && places[l] == j;
      assert l < i || l == i || l > i;
    }
  }

  /** The reported text: empty for a permit, fixed for a deferral while some error is
      not ignored, and else that of a deciding answer of the verdict's own action. */
  ghost predicate Explains(status: string, verdict: Action, flat: seq<CheckResult>, failed: bool)
    reads flat`action, flat`weightedScore
  {
    if verdict == Permit then status == ""
    else if verdict == TempFail && failed then status == "An internal server error ocurred"
    else
      && verdict in {TempFail, Reject, Discard}
      && exists k: nat :: DecidesFor(k, verdict, flat)
           && status == if flat[k].message == "" then "Reason Unspecified" else flat[k].message
  }

  method Choose(c: Config, totals: Five<real>, errorCount: int, lists: Lists, ghost flat: seq<CheckResult>)
    returns (d: Decision, status: string)
    requires Sorted(lists, flat)
    ensures d == Cascade(c, totals.discard, totals.reject, totals.tempfail, errorCount,
                         lists.discard != [], lists.reject != [], lists.tempfail != [])
    ensures d.Decided? ==> Explains(status, d.verdict, flat, errorCount > 0)
    ensures d.Panicked? ==> status == "An internal error occurred."
  {
    var verdict, list := Permit, [];
    status := "";
    if totals.discard >= c.breaker {
      verdict, list := Discard, lists.discard;
    } else if totals.reject >= c.reject {
      verdict, list := Reject, lists.reject;
    } else if errorCount > 0 {
      return Decided(TempFail), "An internal server error ocurred";
    } else if totals.tempfail + totals.reject >= c.tempfail {
      verdict, list := TempFail, lists.tempfail;
    } else {
      return Decided(Permit), "";
    }
    if list == [] {
      return Panicked, "An internal error occurred.";
    }
    var r := DecidingResult(list);
    assert list == lists.At(verdict) == Only(flat, verdict);
    ghost var i: nat :| FirstBest(list, i) && r == list[i];
    ghost var k := BestDecides(flat, verdict, i);
    d, status := Decided(verdict), if r.message == "" then "Reason Unspecified" else r.message;
  }

  /** The fields of a message that the verdict sets. */
  class Message {
    var verdict: Action
    var verdictMsg: string
    var rejectScore: real
    var rejectScoreThreshold: real
    var tempfailScore: real
    var tempfailScoreThreshold: real
    var checkResults: seq<CheckResult>
    var saved: bool

    constructor ()
      ensures !saved && checkResults == []
    {
      verdict, verdictMsg, checkResults, saved := Permit, "", [], false;
      rejectScore, rejectScoreThreshold, tempfailScore, tempfailScoreThreshold := 0.0, 0.0, 0.0, 0.0;
    }
  }

  function CallbacksOf(flat: seq<CheckResult>): seq<nat> {
    if flat == [] then [] else CallbacksOf(flat[..|flat| - 1]) + flat[|flat| - 1].callbacks
  }

  /** Every callback of every answer is called once, in the order of the answers. */
  lemma {:induction false} CallbacksAre(flat: seq<CheckResult>, i: nat)
    requires i < |flat|
    ensures CallbacksOf(flat[..0]) == []
    ensures CallbacksOf(flat[..i + 1]) == CallbacksOf(flat[..i]) + flat[i].callbacks
    ensures CallbacksOf(flat[..i + 1]) <= CallbacksOf(flat)
    decreases |flat| - i
  {
    assert flat[..i + 1][..i] == flat[..i];
    if i < |flat| - 1 {
      CallbacksAre(flat, i + 1);
    } else {
      assert flat[..i + 1] == flat;
    }
  }

  lemma Fields<T>(five: Five<T>)
    ensures five.At(Discard) == five.discard && five.At(Reject) == five.reject && five.At(TempFail) == five.tempfail
  {
  }

  lemma {:induction false} OnlyHas(flat: seq<CheckResult>, x: Action)
    ensures Only(flat, x) != [] <==> Has(View(flat), x)
  {
    var places := OnlyAt(flat, x);
    hide Only;
    if places != [] {
      assert places[0] in places;
      assert View(flat)[places[0]].action == x;
    }
    if Has(View(flat), x) {
      var i :| 0 <= i < |flat| && View(flat)[i].action == x;
      assert i in places;
    }
  }

  lemma SortedHas(lists: Lists, flat: seq<CheckResult>)
    requires Sorted(lists, flat)
    ensures forall x: Action :: lists.At(x) != [] <==> Has(View(flat), x)
  {
    forall x: Action ensures lists.At(x) != [] <==> Has(View(flat), x) {
      OnlyHas(flat, x);
    }
  }

  /** The answers that were read are weighed, added up and judged. */
  method DecideOn(c: Config, groups: seq<Group>, flat: seq<CheckResult>, lists: Lists, errorCount: nat)
    returns (d: Decision, status: string, totals: Five<real>)
    requires Distinct(flat) && forall g :: g in groups ==> Divides(g, View(flat))
    requires Sorted(lists, flat) && errorCount == Errors(View(flat))
    requires forall r :: r in flat ==> r.weightedScore == r.score
    modifies flat`weightedScore
    ensures d == Decide(c, groups, View(flat))
    ensures totals.reject == Total(groups, View(flat), Reject) && totals.tempfail == Total(groups, View(flat), TempFail)
    ensures forall i :: 0 <= i < |flat| ==> flat[i].weightedScore == Weighed(groups, View(flat), flat[i].Value())
    ensures d.Decided? ==>
              Explains(status, d.verdict, flat, Errors(View(flat)) > Ignored(groups, View(flat)))
    ensures d.Panicked? ==> status == "An internal error occurred."
  {
    hide Total, Weighed, Ignored, Errors, Cascade, View, Divides, Explains, Sorted, Has, Five.At;
    var ignored := WeighResults(groups, flat);
    totals := TotalScores(flat, groups);
    SortedHas(lists, flat);
    Fields(totals);
    Fields(lists);
    var left: int := errorCount as int - ignored as int;
    d, status := Choose(c, totals, left, lists, flat);
  }

  /** The end of messageGetVerdict, after a decision. */
  method Conclude(c: Config, msg: Message, verdict: Action, status: string, totals: Five<real>,
                  flat: seq<CheckResult>)
    returns (called: seq<nat>)
    modifies msg
    ensures called == CallbacksOf(flat)
    ensures msg.saved && msg.verdict == verdict && msg.verdictMsg == status && msg.checkResults == flat
    ensures msg.rejectScore == totals.reject && msg.tempfailScore == totals.tempfail
    ensures msg.rejectScoreThreshold == c.reject && msg.tempfailScoreThreshold == c.tempfail
  {
    called := [];
    for i := 0 to |flat|
      invariant called == CallbacksOf(flat[..i])
    {
      assert flat[..i + 1][..i] == flat[..i];
      called := called + flat[i].callbacks;
    }
    assert flat[..|flat|] == flat;
    msg.verdict, msg.verdictMsg := verdict, status;
    msg.rejectScore, msg.tempfailScore := totals.reject, totals.tempfail;
    msg.rejectScoreThreshold, msg.tempfailScoreThreshold := c.reject, c.tempfail;
    msg.checkResults := flat;
    msg.saved := true;
  }

  lemma FlatDistinct(arrivals: seq<CheckResult>, flat: seq<CheckResult>)
    requires Distinct(arrivals) && |flat| <= |arrivals| && flat == arrivals[..|flat|]
    ensures Distinct(flat) && forall r :: r in flat ==> r in arrivals
  {
  }

  /** messageGetVerdict, with the answers in the order in which they arrive. The
      callbacks of the answers that were read, and of no others, are called with
      the verdict; after a panic the message is neither changed nor saved. */
  method GetVerdict(c: Config, groups: seq<Group>, msg: Message, arrivals: seq<CheckResult>)
    returns (verdict: Action, status: string, called: seq<nat>)
    requires Distinct(arrivals)
    requires forall g :: g in groups ==> Divides(g, Read(c, Normals(View(arrivals))))
    modifies arrivals`action, arrivals`weightedScore, msg
    ensures var read := Read(c, Normals(old(View(arrivals))));
            var d := Decide(c, groups, read);
            && verdict == Verdict(d)
            && (d.Decided? ==>
                  && msg.saved && msg.verdict == verdict && msg.verdictMsg == status
                  && msg.rejectScore == Total(groups, read, Reject)
                  && msg.tempfailScore == Total(groups, read, TempFail)
                  && msg.rejectScoreThreshold == c.reject && msg.tempfailScoreThreshold == c.tempfail
                  && |read| <= |arrivals| && msg.checkResults == arrivals[..|read|]
                  && View(msg.checkResults) == read
                  && Explains(status, verdict, msg.checkResults, Errors(read) > Ignored(groups, read))
                  && (forall i :: 0 <= i < |read| ==> arrivals[i].weightedScore == Weighed(groups, read, read[i]))
                  && called == CallbacksOf(msg.checkResults))
            && (d.Panicked? ==>
                  && status == "An internal error occurred." && called == []
                  && unchanged(msg))
  {
    hide Decide, Total, Read, View, Normals, Divides, Explains, Sorted, CallbacksOf;
    var flat, lists, errorCount := ReadResults(c, arrivals);
    FlatDistinct(arrivals, flat);
    var d, text, totals := DecideOn(c, groups, flat, lists, errorCount);
    verdict, status := Verdict(d), text;
    called := [];
    if d.Decided? {
      called := Conclude(c, msg, d.verdict, text, totals, flat);
    }
  }
}
