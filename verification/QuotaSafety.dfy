/** Safety of one quota over whole runs of the check-now, tally-later protocol
    (quotas.go, lines 280-365 and 469-514): however checks, tallies and other
    messages interleave, no window holds more than the curb and what was in
    flight at the last check. The decisions are those of the lazily pruned,
    expiring store. */
module QuotaSafety {
  import opened QuotaWindow

  /** A message that passed its check: what it counts, when it was checked, what
      other messages had in flight then, and which of its counts are to come. */
  datatype Message = Message(extra: nat, checkedAt: int, slack: nat, pending: set<nat>)

  datatype State = State(now: int, store: ZSet, log: map<Member, int>, messages: seq<Message>)

  /** Queue ids are unique: a message is named by its place among the checked ones.
      A message over its quota gets a TempFail whose score keeps the verdict off
      permit, so none of its callbacks tallies. Finish stands for a verdict that
      is not tallied. */
  datatype Step = Pass(seconds: nat) | Check(extra: nat) | TallyOne(message: nat, n: nat) | Finish(message: nat)

  function Start(now: int): State {
    State(now, NO_KEY, map[], [])
  }

  function InFlight(ms: seq<Message>): nat {
    if ms == [] then 0 else InFlight(ms[..|ms| - 1]) + |ms[|ms| - 1].pending|
  }

  /** The counts that are to come, of all messages. */
  ghost function Pending(ms: seq<Message>): set<(int, nat)> {
    set i, n | 0 <= i < |ms| && n in ms[i].pending :: (i, n)
  }

  ghost function PendingOf(k: int, s: set<nat>): set<(int, nat)> {
    set n | n in s :: (k, n)
  }

  lemma {:induction false} SameSize(k: int, s: set<nat>)
    ensures |PendingOf(k, s)| == |s|
    decreases |s|
  {
    if s != {} {
      var x :| x in s;
      SameSize(k, s - {x});
      assert PendingOf(k, s) == PendingOf(k, s - {x}) + {(k, x)};
    }
  }

  lemma {:induction false} InFlightIs(ms: seq<Message>)
    ensures InFlight(ms) == |Pending(ms)|
    decreases |ms|
  {
    if ms == [] {
      assert Pending(ms) == {};
    } else {
      var k := |ms| - 1;
      var last := PendingOf(k, ms[k].pending);
      InFlightIs(ms[..k]);
      SameSize(k, ms[k].pending);
      assert Pending(ms) == Pending(ms[..k]) + last && Pending(ms[..k]) !! last;
    }
  }

  /** The numbers 1 to n of the callbacks of one message. */
  function UpTo(n: nat): (r: set<nat>)
    ensures |r| == n && forall i :: i in r ==> 1 <= i <= n
  {
    if n == 0 then {} else UpTo(n - 1) + {n}
  }

  function Without(ms: seq<Message>, i: nat, gone: set<nat>): seq<Message>
    requires i < |ms|
  {
    ms[i := ms[i].(pending := ms[i].pending - gone)]
  }

  function Next(s: State, step: Step, period: nat, curb: nat): State {
    match step
    case Pass(seconds) => s.(now := s.now + seconds)
    case Check(extra) =>
      var polled := s.(store := Poll(s.store, s.now, period, curb, extra));
      if Over(s.store, s.now, period, curb, extra) then polled
      else polled.(messages := s.messages + [Message(extra, s.now, InFlight(s.messages), UpTo(extra))])
    case TallyOne(i, n) =>
      if i < |s.messages| && n in s.messages[i].pending then
        State(s.now, Tally(s.store, s.now, Member(i, n)), s.log[Member(i, n) := s.now], Without(s.messages, i, {n}))
      else s
    case Finish(i) =>
      if i < |s.messages| then s.(messages := Without(s.messages, i, s.messages[i].pending)) else s
  }

  function Run(s: State, steps: seq<Step>, period: nat, curb: nat): State
    decreases |steps|
  {
    if steps == [] then s else Run(Next(s, steps[0], period, curb), steps[1..], period, curb)
  }

  /** The counts after a time of the messages up to the k-th. */
  function After(log: map<Member, int>, k: nat, time: int): set<Member> {
    set m | m in log && m.message <= k && log[m] > time
  }

  /** For the k-th message: what it and earlier ones counted since its window
      began, and what they may yet count, is within the curb and its slack. */
  ghost predicate Bounded(log: map<Member, int>, ms: seq<Message>, k: nat, period: nat, curb: nat)
    requires k < |ms|
  {
    |After(log, k, ms[k].checkedAt - period)| + InFlight(ms[..k + 1]) <= curb + ms[k].slack
  }

  ghost predicate AllBounded(log: map<Member, int>, ms: seq<Message>, period: nat, curb: nat) {
    forall k :: 0 <= k < |ms| ==> Bounded(log, ms, k, period, curb)
  }

  /** Every count is of a checked message and not before its check. */
  ghost predicate Dated(log: map<Member, int>, ms: seq<Message>, now: int) {
    && (forall m :: m in log ==> m.message < |ms| && ms[m.message].checkedAt <= log[m])
    && (forall k :: 0 <= k < |ms| ==> ms[k].checkedAt <= now)
  }

  ghost predicate Inv(s: State, period: nat, curb: nat) {
    && Tracks(s.store, s.log, s.now, period)
    && Dated(s.log, s.messages, s.now)
    && AllBounded(s.log, s.messages, period, curb)
  }

  lemma {:induction false} InFlightWithout(ms: seq<Message>, i: nat, gone: set<nat>, k: nat)
    requires i < |ms| && k <= |ms| && gone <= ms[i].pending
    ensures InFlight(Without(ms, i, gone)[..k]) == InFlight(ms[..k]) - (if i < k then |gone| else 0)
    decreases k
  {
    if k > 0 {
      InFlightWithout(ms, i, gone, k - 1);
      var after := Without(ms, i, gone);
      assert after[..k][..k - 1] == after[..k - 1] && ms[..k][..k - 1] == ms[..k - 1];
      if i == k - 1 {
        assert ms[i].pending == (ms[i].pending - gone) + gone;
      }
    }
  }

  lemma InFlightSnoc(ms: seq<Message>, m: Message)
    ensures InFlight(ms + [m]) == InFlight(ms) + |m.pending|
  {
    assert (ms + [m])[..|ms|] == ms;
  }

  /** The check that admits a message establishes its bound. */
  lemma CheckBound(log: map<Member, int>, ms: seq<Message>, now: int, m: Message, period: nat, curb: nat)
    requires Dated(log, ms, now) && (forall x :: x in log ==> log[x] <= now)
    requires m.checkedAt == now && m.slack == InFlight(ms) && |m.pending| == m.extra
    requires Exact(log, now, period) + m.extra <= curb
    ensures Bounded(log, ms + [m], |ms|, period, curb)
  {
    hide InFlight;
    InFlightSnoc(ms, m);
    var more := ms + [m];
    assert more[..|ms| + 1] == more && more[|ms|] == m;
    SubsetCount(After(log, |ms|, now - period), Between(log, now - period + 1, now));
  }

  lemma EarlierBound(log: map<Member, int>, ms: seq<Message>, m: Message, k: nat, period: nat, curb: nat)
    requires k < |ms| && Bounded(log, ms, k, period, curb)
    ensures Bounded(log, ms + [m], k, period, curb)
  {
    hide InFlight;
    assert (ms + [m])[..k + 1] == ms[..k + 1];
  }

  lemma CheckBounds(log: map<Member, int>, ms: seq<Message>, now: int, m: Message, period: nat, curb: nat)
    requires Dated(log, ms, now) && AllBounded(log, ms, period, curb)
    requires forall x :: x in log ==> log[x] <= now
    requires m.checkedAt == now && m.slack == InFlight(ms) && |m.pending| == m.extra
    requires Exact(log, now, period) + m.extra <= curb
    ensures AllBounded(log, ms + [m], period, curb)
  {
    hide InFlight, Exact, Bounded;
    CheckBound(log, ms, now, m, period, curb);
    var more := ms + [m];
    forall k | 0 <= k < |more| ensures Bounded(log, more, k, period, curb) {
      if k < |ms| {
        EarlierBound(log, ms, m, k, period, curb);
      }
    }
  }

  lemma TallyBound(log: map<Member, int>, ms: seq<Message>, now: int, i: nat, n: nat, k: nat, period: nat, curb: nat)
    requires i < |ms| && n in ms[i].pending && k < |ms| && Bounded(log, ms, k, period, curb)
    ensures Bounded(log[Member(i, n) := now], Without(ms, i, {n}), k, period, curb)
  {
    hide InFlight;
    InFlightWithout(ms, i, {n}, k + 1);
    var m, time := Member(i, n), ms[k].checkedAt - period;
    var was, later := After(log, k, time), After(log[m := now], k, time);
    if i <= k {
      SubsetCount(later, was + {m});
    } else {
      assert later == was;
    }
  }

  lemma FinishBound(log: map<Member, int>, ms: seq<Message>, i: nat, k: nat, period: nat, curb: nat)
    requires i < |ms| && k < |ms| && Bounded(log, ms, k, period, curb)
    ensures Bounded(log, Without(ms, i, ms[i].pending), k, period, curb)
  {
    InFlightWithout(ms, i, ms[i].pending, k + 1);
  }

  lemma TracksDated(w: ZSet, log: map<Member, int>, now: int, period: nat)
    requires Tracks(w, log, now, period)
    ensures forall m :: m in log ==> log[m] <= now
  {
  }

  lemma CheckKeepsInv(s: State, extra: nat, period: nat, curb: nat)
    requires Inv(s, period, curb) && period <= DAY
    ensures Inv(Next(s, Check(extra), period, curb), period, curb)
  {
    hide Tracks, Bounded, Over, Poll, Tally, InFlight;
    var ms := s.messages;
    TracksPoll(s.store, s.log, s.now, period, curb, extra);
    TracksDecides(s.store, s.log, s.now, period, curb, extra);
    if !Over(s.store, s.now, period, curb, extra) {
      TracksDated(s.store, s.log, s.now, period);
      CheckBounds(s.log, ms, s.now, Message(extra, s.now, InFlight(ms), UpTo(extra)), period, curb);
    }
  }

  lemma TallyKeepsInv(s: State, i: nat, n: nat, period: nat, curb: nat)
    requires Inv(s, period, curb) && period <= DAY
    ensures Inv(Next(s, TallyOne(i, n), period, curb), period, curb)
  {
    hide Tracks, Bounded, Over, Poll, Tally, InFlight;
    var ms := s.messages;
    if i < |ms| && n in ms[i].pending {
      TracksTally(s.store, s.log, s.now, period, Member(i, n));
      var log2, ms2 := s.log[Member(i, n) := s.now], Without(ms, i, {n});
      forall k | 0 <= k < |ms2| ensures Bounded(log2, ms2, k, period, curb) {
        TallyBound(s.log, ms, s.now, i, n, k, period, curb);
      }
    }
  }

  lemma FinishKeepsInv(s: State, i: nat, period: nat, curb: nat)
    requires Inv(s, period, curb)
    ensures Inv(Next(s, Finish(i), period, curb), period, curb)
  {
    hide Tracks, Bounded, InFlight;
    var ms := s.messages;
    if i < |ms| {
      forall k | 0 <= k < |ms| ensures Bounded(s.log, Without(ms, i, ms[i].pending), k, period, curb) {
        FinishBound(s.log, ms, i, k, period, curb);
      }
    }
  }

  lemma NextKeepsInv(s: State, step: Step, period: nat, curb: nat)
    requires Inv(s, period, curb) && period <= DAY
    ensures Inv(Next(s, step, period, curb), period, curb)
  {
    hide Tracks, Bounded, Poll, Tally, InFlight;
    match step
    case Pass(seconds) => TracksTick(s.store, s.log, s.now, period, seconds);
    case Check(extra) => CheckKeepsInv(s, extra, period, curb);
    case TallyOne(i, n) => TallyKeepsInv(s, i, n, period, curb);
    case Finish(i) => FinishKeepsInv(s, i, period, curb);
  }

  lemma {:induction false} RunKeepsInv(s: State, steps: seq<Step>, period: nat, curb: nat)
    requires Inv(s, period, curb) && period <= DAY
    ensures Inv(Run(s, steps, period, curb), period, curb)
    decreases |steps|
  {
    if steps != [] {
      NextKeepsInv(s, steps[0], period, curb);
      RunKeepsInv(Next(s, steps[0], period, curb), steps[1..], period, curb);
    }
  }

  // ----- The windows of the final log -----

  /** The last of the messages that have a count in a non-empty window. */
  lemma {:induction false} LastIn(window: set<Member>) returns (last: Member)
    requires window != {}
    ensures last in window && forall m :: m in window ==> m.message <= last.message
    decreases |window|
  {
    last :| last in window;
    var rest := window - {last};
    if rest != {} {
      var other := LastIn(rest);
      if other.message > last.message {
        last := other;
      }
    }
  }

  /** The window (t - period, t] holds at most the curb and what was in flight when
      the last-checked of its messages was checked. */
  ghost predicate WindowBounded(s: State, period: nat, curb: nat, t: int) {
    var count := Exact(s.log, t, period);
    count == 0
    || exists last :: last in Between(s.log, t - period + 1, t)
         && (forall m :: m in Between(s.log, t - period + 1, t) ==> m.message <= last.message)
         && last.message < |s.messages|
         && count <= curb + s.messages[last.message].slack
  }

  /** So it is in every reachable state. */
  lemma WindowBound(start: int, steps: seq<Step>, period: nat, curb: nat, t: int)
    requires period <= DAY
    ensures WindowBounded(Run(Start(start), steps, period, curb), period, curb, t)
  {
    var s := Run(Start(start), steps, period, curb);
    RunKeepsInv(Start(start), steps, period, curb);
    hide Run, InFlight;
    var window := Between(s.log, t - period + 1, t);
    if window != {} {
      var last := LastIn(window);
      var k := last.message;
      assert Bounded(s.log, s.messages, k, period, curb);
      SubsetCount(window, After(s.log, k, s.messages[k].checkedAt - period));
    }
  }

  ghost predicate NoOverlap(s: State) {
    forall k :: 0 <= k < |s.messages| ==> s.messages[k].slack == 0
  }

  /** When no message was checked while another was in flight, no window ever
      holds more than the curb. */
  lemma NoOverlapNoExcess(start: int, steps: seq<Step>, period: nat, curb: nat, t: int)
    requires period <= DAY && NoOverlap(Run(Start(start), steps, period, curb))
    ensures Exact(Run(Start(start), steps, period, curb).log, t, period) <= curb
  {
    WindowBound(start, steps, period, curb, t);
  }

  lemma EmptyPoll(period: nat)
    ensures !Over(NO_KEY, 0, period, 1, 1) && Poll(NO_KEY, 0, period, 1, 1) == NO_KEY
  {
    assert Live(NO_KEY, 0) == map[];
    assert Between(Live(NO_KEY, 0), 0 - period, 0) == {};
  }

  lemma RunFour(s: State, a: Step, b: Step, c: Step, d: Step, period: nat, curb: nat)
    ensures Run(s, [a, b, c, d], period, curb)
         == Next(Next(Next(Next(s, a, period, curb), b, period, curb), c, period, curb), d, period, curb)
  {
    hide Next;
    assert [a, b, c, d][1..] == [b, c, d] && [b, c, d][1..] == [c, d] && [c, d][1..] == [d];
    var s2 := Next(Next(s, a, period, curb), b, period, curb);
    assert Run(s2, [c, d], period, curb) == Run(Next(s2, c, period, curb), [d], period, curb);
  }

  /** The slack is needed: two overlapping messages of one count each go one over
      a curb of one, which is the bound. */
  lemma OverlapReachesBound(period: nat)
    requires 1 <= period
    ensures var s := Run(Start(0), [Check(1), Check(1), TallyOne(0, 1), TallyOne(1, 1)], period, 1);
            Exact(s.log, 0, period) == 2 == 1 + s.messages[1].slack
  {
    var s0 := Start(0);
    var s1 := Next(s0, Check(1), period, 1);
    EmptyPoll(period);
    var s2 := Next(s1, Check(1), period, 1);
    assert UpTo(1) == {1};
    assert s1.messages == [Message(1, 0, 0, UpTo(1))] && s1.messages[..0] == [];
    var s3 := Next(s2, TallyOne(0, 1), period, 1);
    var s4 := Next(s3, TallyOne(1, 1), period, 1);
    assert Between(s4.log, 1 - period, 0) == {Member(0, 1), Member(1, 1)};
    RunFour(s0, Check(1), Check(1), TallyOne(0, 1), TallyOne(1, 1), period, 1);
  }

  // ----- Periods above a day -----

  /** Without overlap, no window of any run ever holds more than the curb. */
  ghost predicate NeverExcess(period: nat) {
    forall start: int, steps: seq<Step>, curb: nat, t: int ::
      NoOverlap(Run(Start(start), steps, period, curb)) ==>
        Exact(Run(Start(start), steps, period, curb).log, t, period) <= curb
  }

  const DAY_APART: seq<Step> := [Check(1), TallyOne(0, 1), Pass(DAY), Check(1), TallyOne(1, 1)]

  /** The first message is checked and counted, and nothing of it is in flight. */
  lemma FirstCounted(period: nat) returns (s: State)
    ensures s == Next(Next(Start(0), Check(1), period, 1), TallyOne(0, 1), period, 1)
    ensures s == State(0, ZSet(map[Member(0, 1) := 0], DAY), map[Member(0, 1) := 0], [Message(1, 0, 0, {})])
  {
    EmptyPoll(period);
    assert UpTo(1) == {1} && {1} - {1} == {};
    assert Live(NO_KEY, 0) == map[];
    s := Next(Next(Start(0), Check(1), period, 1), TallyOne(0, 1), period, 1);
  }

  /** A day later its key is gone, and the second message passes. */
  lemma SecondPasses(s: State, period: nat) returns (r: State)
    requires s == State(DAY, ZSet(map[Member(0, 1) := 0], DAY), map[Member(0, 1) := 0], [Message(1, 0, 0, {})])
    ensures r == Next(s, Check(1), period, 1)
    ensures r.now == DAY && r.log == s.log && r.messages == s.messages + [Message(1, DAY, 0, UpTo(1))]
  {
    assert Live(s.store, DAY) == map[];
    assert Between(Live(s.store, DAY), DAY - period, DAY) == {};
    assert !Over(s.store, DAY, period, 1, 1);
    assert s.messages[..0] == [];
    r := Next(s, Check(1), period, 1);
  }

  lemma RunFive(s: State, a: Step, b: Step, c: Step, d: Step, e: Step, period: nat, curb: nat)
    ensures Run(s, [a, b, c, d, e], period, curb)
         == Next(Next(Next(Next(Next(s, a, period, curb), b, period, curb), c, period, curb), d, period, curb),
                 e, period, curb)
  {
    hide Next;
    assert [a, b, c, d, e][1..] == [b, c, d, e];
    RunFour(Next(s, a, period, curb), b, c, d, e, period, curb);
  }

  /** With a longer period, two messages of one count that are a day apart both pass
      a curb of one: the first one's key has expired when the second is checked. */
  lemma LongPeriodExceeds(period: nat)
    requires period > DAY
    ensures var s := Run(Start(0), DAY_APART, period, 1);
            NoOverlap(s) && Exact(s.log, DAY, period) == 2
  {
    var s1 := FirstCounted(period);
    var s2 := Next(s1, Pass(DAY), period, 1);
    var s3 := SecondPasses(s2, period);
    var s4 := Next(s3, TallyOne(1, 1), period, 1);
    assert UpTo(1) == {1};
    assert s4.log == map[Member(0, 1) := 0, Member(1, 1) := DAY];
    assert Between(s4.log, DAY - period + 1, DAY) == {Member(0, 1), Member(1, 1)};
    RunFive(Start(0), Check(1), TallyOne(0, 1), Pass(DAY), Check(1), TallyOne(1, 1), period, 1);
  }

  ghost predicate AlwaysBounded(period: nat) {
    forall start: int, steps: seq<Step>, curb: nat, t: int ::
      WindowBounded(Run(Start(start), steps, period, curb), period, curb, t)
  }

  /** Both bounds hold, for all starts, runs, curbs and windows, if and only if the
      period is at most a day. */
  lemma NeverExcessIff(period: nat)
    ensures NeverExcess(period) <==> period <= 86_400
    ensures AlwaysBounded(period) <==> period <= 86_400
  {
    if period <= DAY {
      forall start: int, steps: seq<Step>, curb: nat, t: int
        ensures WindowBounded(Run(Start(start), steps, period, curb), period, curb, t)
      {
        WindowBound(start, steps, period, curb, t);
      }
      forall start: int, steps: seq<Step>, curb: nat, t: int | NoOverlap(Run(Start(start), steps, period, curb))
        ensures Exact(Run(Start(start), steps, period, curb).log, t, period) <= curb
      {
        NoOverlapNoExcess(start, steps, period, curb, t);
      }
    } else {
      LongPeriodExceeds(period);
      assert !WindowBounded(Run(Start(0), DAY_APART, period, 1), period, 1, DAY);
    }
  }
}
