/** The sliding window of the quota limiter: the count that prunes lazily and the
    key that expires after a day, against a log that forgets nothing
    (quotas.go, lines 469-514). */
module QuotaWindow {

  const DAY: int := 86400

  /** A member of a sorted set: `<queue id>-<n>`, the n-th count of a message. */
  datatype Member = Member(message: nat, n: nat)

  /** One sorted set of the store and the time at which its key expires. */
  datatype ZSet = ZSet(scores: map<Member, int>, expiresAt: int)

  const NO_KEY := ZSet(map[], 0)

  /** What the store holds under the key at a time. */
  function Live(w: ZSet, now: int): map<Member, int> {
    if now < w.expiresAt then w.scores else map[]
  }

  function Between(scores: map<Member, int>, lo: int, hi: int): set<Member> {
    set m | m in scores && lo <= scores[m] <= hi
  }

  /** ZCOUNT: both bounds are inclusive. */
  function ZCount(scores: map<Member, int>, lo: int, hi: int): nat {
    |Between(scores, lo, hi)|
  }

  /** ZREMRANGEBYSCORE from minus infinity: the bound is inclusive. */
  function ZRemUpTo(scores: map<Member, int>, hi: int): map<Member, int> {
    map m | m in scores && scores[m] > hi :: scores[m]
  }

  /** The window that the quota speaks of: the scores in (now - period, now]. */
  function Exact(scores: map<Member, int>, now: int, period: nat): nat {
    ZCount(scores, now - period + 1, now)
  }

  /** The scores left by a poll, which prunes only when the count is over. */
  function PolledScores(scores: map<Member, int>, now: int, period: nat, curb: nat, extra: nat): map<Member, int> {
    if ZCount(scores, now - period, now) + extra > curb then ZRemUpTo(scores, now - period) else scores
  }

  function PolledCount(scores: map<Member, int>, now: int, period: nat, curb: nat, extra: nat): nat {
    ZCount(PolledScores(scores, now, period, curb, extra), now - period, now)
  }

  function Poll(w: ZSet, now: int, period: nat, curb: nat, extra: nat): ZSet {
    ZSet(PolledScores(Live(w, now), now, period, curb, extra), w.expiresAt)
  }

  /** Whether a poll finds the quota exceeded. */
  predicate Over(w: ZSet, now: int, period: nat, curb: nat, extra: nat) {
    PolledCount(Live(w, now), now, period, curb, extra) + extra > curb
  }

  function Tally(w: ZSet, now: int, m: Member): ZSet {
    ZSet(Live(w, now)[m := now], now + DAY)
  }

  /** It counts the scores after now - period, up to and with now. */
  lemma ExactIs(scores: map<Member, int>, now: int, period: nat)
    ensures Exact(scores, now, period) == |set m | m in scores && now - period < scores[m] <= now|
  {
    assert (set m | m in scores && now - period < scores[m] <= now) == Between(scores, now - period + 1, now);
  }

  // ----- One poll -----

  lemma SubsetCount<T>(a: set<T>, b: set<T>)
    requires a <= b
    ensures |a| <= |b|
  {
    assert b == a + (b - a);
  }

  /** The pruned recount is the exact window; an unpruned count may add scores
      that are just one period old, and only when it does not decide. */
  lemma PollDecides(scores: map<Member, int>, now: int, period: nat, curb: nat, extra: nat)
    ensures var count := PolledCount(scores, now, period, curb, extra);
            && (count + extra > curb <==> Exact(scores, now, period) + extra > curb)
            && Exact(scores, now, period) <= count <= ZCount(scores, now - period, now)
            && (count + extra > curb ==> count == Exact(scores, now, period))
  {
    var lo := now - period;
    SubsetCount(Between(scores, lo + 1, now), Between(scores, lo, now));
    var pruned := ZRemUpTo(scores, lo);
    assert Between(pruned, lo, now) == Between(scores, lo + 1, now);
  }

  // ----- Whole runs -----

  datatype Event = Tick(seconds: nat) | PollEvent(curb: nat, extra: nat) | TallyEvent(member: Member)

  /** The decisions of a run, taken by the store. */
  function Decisions(run: seq<Event>, w: ZSet, now: int, period: nat): seq<bool>
    decreases |run|
  {
    if run == [] then []
    else match run[0]
      case Tick(s) => Decisions(run[1..], w, now + s, period)
      case PollEvent(curb, extra) =>
        [Over(w, now, period, curb, extra)]
        + Decisions(run[1..], Poll(w, now, period, curb, extra), now, period)
      case TallyEvent(m) => Decisions(run[1..], Tally(w, now, m), now, period)
  }

  /** The decisions of the same run, taken on a log that is never pruned and
      never expires. */
  function ExactDecisions(run: seq<Event>, log: map<Member, int>, now: int, period: nat): seq<bool>
    decreases |run|
  {
    if run == [] then []
    else match run[0]
      case Tick(s) => ExactDecisions(run[1..], log, now + s, period)
      case PollEvent(curb, extra) =>
        [Exact(log, now, period) + extra > curb] + ExactDecisions(run[1..], log, now, period)
      case TallyEvent(m) => ExactDecisions(run[1..], log[m := now], now, period)
  }

  /** The store and the log agree on everything younger than the period. */
  ghost predicate Tracks(w: ZSet, log: map<Member, int>, now: int, period: nat) {
    && (forall m :: m in log ==> log[m] <= now && log[m] + DAY <= w.expiresAt)
    && (forall m :: m in Live(w, now) ==> m in log && Live(w, now)[m] == log[m])
    && (forall m :: m in log && log[m] > now - period ==> m in Live(w, now))
  }

  lemma TracksDecides(w: ZSet, log: map<Member, int>, now: int, period: nat, curb: nat, extra: nat)
    requires Tracks(w, log, now, period)
    ensures Over(w, now, period, curb, extra) <==> Exact(log, now, period) + extra > curb
  {
    PollDecides(Live(w, now), now, period, curb, extra);
    assert Between(Live(w, now), now - period + 1, now) == Between(log, now - period + 1, now);
  }

  lemma TracksTick(w: ZSet, log: map<Member, int>, now: int, period: nat, s: nat)
    requires Tracks(w, log, now, period) && period <= DAY
    ensures Tracks(w, log, now + s, period)
  {
  }

  lemma TracksPoll(w: ZSet, log: map<Member, int>, now: int, period: nat, curb: nat, extra: nat)
    requires Tracks(w, log, now, period)
    ensures Tracks(Poll(w, now, period, curb, extra), log, now, period)
  {
  }

  lemma TracksTally(w: ZSet, log: map<Member, int>, now: int, period: nat, m: Member)
    requires Tracks(w, log, now, period)
    ensures Tracks(Tally(w, now, m), log[m := now], now, period)
  {
  }

  lemma {:induction false} TrackedRun(run: seq<Event>, w: ZSet, log: map<Member, int>, now: int, period: nat)
    requires Tracks(w, log, now, period) && period <= DAY
    ensures Decisions(run, w, now, period) == ExactDecisions(run, log, now, period)
    decreases |run|
  {
    if run != [] {
      match run[0]
      case Tick(s) =>
        TracksTick(w, log, now, period, s);
        TrackedRun(run[1..], w, log, now + s, period);
      case PollEvent(curb, extra) =>
        TracksDecides(w, log, now, period, curb, extra);
        TracksPoll(w, log, now, period, curb, extra);
        TrackedRun(run[1..], Poll(w, now, period, curb, extra), log, now, period);
      case TallyEvent(m) =>
        TracksTally(w, log, now, period, m);
        TrackedRun(run[1..], Tally(w, now, m), log[m := now], now, period);
    }
  }

  ghost predicate AlwaysExact(period: nat) {
    forall run: seq<Event>, start: int ::
      Decisions(run, NO_KEY, start, period) == ExactDecisions(run, map[], start, period)
  }

  /** With a longer period, a count of one day ago is forgotten with its key. */
  lemma LongPeriodForgets(period: nat)
    requires period > DAY
    ensures !AlwaysExact(period)
  {
    var m := Member(0, 1);
    var run := [TallyEvent(m), Tick(DAY), PollEvent(1, 1)];
    var w, log := Tally(NO_KEY, 0, m), map[m := 0];
    assert run[1..] == [Tick(DAY), PollEvent(1, 1)] && run[1..][1..] == [PollEvent(1, 1)];
    var none: map<Member, int> := map[];
    assert none[m := 0] == log && Live(NO_KEY, 0) == none;
    assert Live(w, DAY) == map[];
    assert Between(Live(w, DAY), DAY - period, DAY) == {};
    assert Between(ZRemUpTo(Live(w, DAY), DAY - period), DAY - period, DAY) == {};
    assert !Over(w, DAY, period, 1, 1);
    assert Between(log, DAY - period + 1, DAY) == {m};
    assert Decisions(run[1..][1..], w, DAY, period)[0] == false;
    assert ExactDecisions(run[1..][1..], log, DAY, period)[0] == true;
    assert Decisions(run, NO_KEY, 0, period) != ExactDecisions(run, map[], 0, period);
  }

  /** Lazy pruning and the day-long key never change a decision, in any run,
      exactly when the period is at most a day. */
  lemma LazyWindowIsExactIff(period: nat)
    ensures AlwaysExact(period) <==> period <= 86_400
  {
    if period <= DAY {
      forall run: seq<Event>, start: int
        ensures Decisions(run, NO_KEY, start, period) == ExactDecisions(run, map[], start, period)
      {
        TrackedRun(run, NO_KEY, map[], start, period);
      }
    } else {
      LongPeriodForgets(period);
    }
  }
}
