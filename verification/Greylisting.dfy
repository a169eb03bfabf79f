/** Greylisting as a state machine over a store whose keys expire, and over whole
    runs of attempts (greylisting.go, lines 52-164). */
module Greylisting {

  const MINUTE: nat := 60
  const KEY_SECONDS: nat := 90 * MINUTE
  const VALIDITY_SECONDS: nat := 40 * 24 * 60 * MINUTE

  /** The sender's address, the envelope sender and the recipients: the key of a
      message. */
  datatype Triple = Triple(ip: string, sender: string, recipients: string)

  /** The store: when the key of a whitelisted address expires, and for a deferred
      message the time it was first deferred and when that key expires. */
  datatype Record = Record(firstSeen: int, expiresAt: int)
  datatype Store = Store(now: int, ips: map<string, int>, messages: map<Triple, Record>)

  datatype Decision = Permitted | Deferred

  predicate Whitelisted(s: Store, ip: string) {
    ip in s.ips && s.now < s.ips[ip]
  }

  predicate Known(s: Store, t: Triple) {
    t in s.messages && s.now < s.messages[t].expiresAt
  }

  /** The decision on an attempt: an SPF hit and a whitelisted address permit, and
      so does a message that was first deferred more than the initial period ago. */
  function Decide(s: Store, t: Triple, spf: bool, period: nat): Decision {
    if spf || Whitelisted(s, t.ip) || (Known(s, t) && s.messages[t].firstSeen + period * MINUTE < s.now)
    then Permitted else Deferred
  }

  /** A permit whitelists the address anew; a first deferral starts the clock. */
  function Next(s: Store, t: Triple, spf: bool, period: nat): Store {
    if Decide(s, t, spf, period).Permitted? then s.(ips := s.ips[t.ip := s.now + VALIDITY_SECONDS])
    else if Known(s, t) then s
    else s.(messages := s.messages[t := Record(s.now, s.now + KEY_SECONDS)])
  }

  // ----- The module -----

  datatype SpfAnswer = SpfFailed(error: string) | SpfPass | SpfOther

  /** The error of the last query that failed, and empty when none did. */
  function LastError(answers: seq<SpfAnswer>): string {
    if answers == [] then ""
    else if answers[|answers| - 1].SpfFailed? then answers[|answers| - 1].error
    else LastError(answers[..|answers| - 1])
  }

  /** The last of the answers that are errors is the one whose text is given. */
  lemma {:induction false} LastErrorIs(answers: seq<SpfAnswer>, i: nat)
    requires i <= |answers| && forall j :: i <= j < |answers| ==> !answers[j].SpfFailed?
    ensures i == 0 ==> LastError(answers) == ""
    ensures i > 0 && answers[i - 1].SpfFailed? ==> LastError(answers) == answers[i - 1].error
    decreases |answers|
  {
    if i < |answers| {
      LastErrorIs(answers[..|answers| - 1], i);
    }
  }

  class Module {
    var now: int
    var ips: map<string, int>
    var messages: map<Triple, Record>
    const initialPeriod: nat
    const initialScore: real

    function View(): Store
      reads this
    {
      Store(now, ips, messages)
    }

    constructor (now: int, initialPeriod: nat, initialScore: real)
      ensures View() == Store(now, map[], map[]) && this.initialPeriod == initialPeriod
    {
      this.now, ips, messages := now, map[], map[];
      this.initialPeriod, this.initialScore := initialPeriod, initialScore;
    }

    method IpIsWhitelisted(ip: string) returns (found: bool)
      ensures found == Whitelisted(View(), ip)
    {
      found := ip in ips && now < ips[ip];
    }

    method UpdateWhitelist(ip: string)
      modifies this`ips
      ensures ips == old(ips)[ip := now + VALIDITY_SECONDS]
    {
      ips := ips[ip := now + VALIDITY_SECONDS];
    }

    /** getVerdict: a key that is alive is read and never written again. */
    method GetVerdict(t: Triple) returns (d: Decision, score: real)
      modifies this`messages
      ensures d == if Known(old(View()), t) && old(messages)[t].firstSeen + initialPeriod * MINUTE < now
                   then Permitted else Deferred
      ensures score == if d.Permitted? then 1.0 else initialScore
      ensures messages == if Known(old(View()), t) then old(messages)
                          else old(messages)[t := Record(now, now + KEY_SECONDS)]
    {
      if t in messages && now < messages[t].expiresAt {
        if messages[t].firstSeen + initialPeriod * 60 < now {
          return Permitted, 1.0;
        }
      } else {
        messages := messages[t := Record(now, now + KEY_SECONDS)];
      }
      return Deferred, initialScore;
    }

    /** ipIsSpfWhitelisted, with the answers to the queries for the listed domains:
        the first domain that passes, and the last error before it. */
    method IpIsSpfWhitelisted(domains: seq<string>, answers: seq<SpfAnswer>)
      returns (hit: bool, domain: string, error: string)
      requires |answers| == |domains|
      ensures hit <==> SpfPass in answers
      ensures hit ==> exists i :: 0 <= i < |domains| && answers[i] == SpfPass && domain == domains[i]
                        && SpfPass !in answers[..i] && error == LastError(answers[..i])
      ensures !hit ==> domain == "" && error == LastError(answers)
    {
      error := "";
      for i := 0 to |domains|
        invariant SpfPass !in answers[..i] && error == LastError(answers[..i])
      {
        assert answers[..i + 1][..i] == answers[..i];
        match answers[i]
        case SpfFailed(e) => error := e;
        case SpfPass => return true, domains[i], error;
        case SpfOther =>
      }
      assert answers[..|domains|] == answers;
      return false, "", error;
    }

    method MessageCheck(t: Triple, domains: seq<string>, answers: seq<SpfAnswer>)
      returns (d: Decision, score: real)
      requires |answers| == |domains|
      modifies this`ips, this`messages
      ensures d == Decide(old(View()), t, SpfPass in answers, initialPeriod)
      ensures View() == Next(old(View()), t, SpfPass in answers, initialPeriod)
      ensures score == if d.Permitted? then 1.0 else initialScore
    {
      var spf, _, _ := IpIsSpfWhitelisted(domains, answers);
      if spf {
        UpdateWhitelist(t.ip);
        return Permitted, 1.0;
      }
      var whitelisted := IpIsWhitelisted(t.ip);
      if whitelisted {
        UpdateWhitelist(t.ip);
        return Permitted, 1.0;
      }
      d, score := GetVerdict(t);
      if d.Permitted? {
        UpdateWhitelist(t.ip);
      }
    }
  }

  // ----- Whole runs -----

  /** The clock moves by some seconds and then a message is tried. */
  datatype Try = Try(seconds: nat, triple: Triple, spf: bool)

  datatype Attempt = Attempt(time: int, triple: Triple, decision: Decision)

  datatype History = History(store: Store, attempts: seq<Attempt>)

  function At(s: Store, t: Try): Store {
    s.(now := s.now + t.seconds)
  }

  function Run(start: int, tries: seq<Try>, period: nat): History {
    if tries == [] then History(Store(start, map[], map[]), [])
    else
      var before, t := Run(start, tries[..|tries| - 1], period), tries[|tries| - 1];
      var s := At(before.store, t);
      History(Next(s, t.triple, t.spf, period),
              before.attempts + [Attempt(s.now, t.triple, Decide(s, t.triple, t.spf, period))])
  }

  /** The address was permitted less than the validity before this time. */
  ghost predicate RecentPermit(attempts: seq<Attempt>, ip: string, now: int) {
    exists j :: 0 <= j < |attempts| && attempts[j].triple.ip == ip && attempts[j].decision.Permitted?
      && now < attempts[j].time + 3_456_000
  }

  /** This attempt started a clock: it was deferred, and no clock of the same
      message that an earlier attempt started was running. */
  ghost predicate Starts(attempts: seq<Attempt>, k: nat)
    requires k < |attempts|
    decreases k
  {
    && attempts[k].decision.Deferred?
    && forall j: nat :: j < k && attempts[j].triple == attempts[k].triple && Starts(attempts, j) ==>
         attempts[j].time + 5_400 <= attempts[k].time
  }

  ghost predicate Running(attempts: seq<Attempt>, k: nat, t: Triple, now: int)
    requires k < |attempts|
  {
    attempts[k].triple == t && Starts(attempts, k) && now < attempts[k].time + 5_400
  }

  /** A clock of this message is running and has passed the initial period. */
  ghost predicate WaitedLongEnough(attempts: seq<Attempt>, t: Triple, now: int, period: nat) {
    exists k: nat :: k < |attempts| && Running(attempts, k, t, now) && attempts[k].time + period * 60 < now
  }

  lemma {:induction false} StartsLocal(attempts: seq<Attempt>, more: Attempt, k: nat)
    requires k < |attempts|
    ensures Starts(attempts + [more], k) <==> Starts(attempts, k)
    decreases k
  {
    forall j: nat | j < k ensures Starts(attempts + [more], j) <==> Starts(attempts, j) {
      StartsLocal(attempts, more, j);
    }
  }

  /** The store says who was permitted recently. */
  ghost predicate PermitsAgree(store: Store, attempts: seq<Attempt>) {
    forall ip: string, now: int :: now >= store.now ==>
      (Whitelisted(store.(now := now), ip) <==> RecentPermit(attempts, ip, now))
  }

  ghost predicate IsRecordOf(r: Record, a: Attempt) {
    r == Record(a.time, a.time + KEY_SECONDS)
  }

  /** The store says which clock is running. */
  ghost predicate ClocksAgree(store: Store, attempts: seq<Attempt>) {
    && (forall t :: t in store.messages ==>
          exists k: nat :: k < |attempts| && attempts[k].triple == t && Starts(attempts, k)
            && IsRecordOf(store.messages[t], attempts[k]))
    && (forall k: nat :: k < |attempts| && Running(attempts, k, attempts[k].triple, store.now) ==>
          attempts[k].triple in store.messages && IsRecordOf(store.messages[attempts[k].triple], attempts[k]))
  }

  ghost predicate Past(attempts: seq<Attempt>, now: int) {
    forall i :: 0 <= i < |attempts| ==> attempts[i].time <= now
  }

  ghost predicate Agrees(h: History) {
    PermitsAgree(h.store, h.attempts) && ClocksAgree(h.store, h.attempts) && Past(h.attempts, h.store.now)
  }

  lemma TimePasses(h: History, seconds: nat)
    requires Agrees(h)
    ensures Agrees(h.(store := h.store.(now := h.store.now + seconds)))
  {
    hide RecentPermit, Starts;
    var later := h.store.(now := h.store.now + seconds);
    forall ip: string, now: int | now >= later.now
      ensures Whitelisted(later.(now := now), ip) <==> RecentPermit(h.attempts, ip, now)
    {
      assert Whitelisted(h.store.(now := now), ip) <==> RecentPermit(h.attempts, ip, now);
    }
    forall k: nat | k < |h.attempts| && Running(h.attempts, k, h.attempts[k].triple, later.now)
      ensures Running(h.attempts, k, h.attempts[k].triple, h.store.now)
    {
    }
  }

  lemma KnownIff(h: History, t: Triple)
    requires Agrees(h)
    ensures Known(h.store, t) <==> exists k: nat :: k < |h.attempts| && Running(h.attempts, k, t, h.store.now)
  {
    hide RecentPermit, Starts, PermitsAgree;
    if Known(h.store, t) {
      var k: nat :| k < |h.attempts| && h.attempts[k].triple == t && Starts(h.attempts, k)
        && IsRecordOf(h.store.messages[t], h.attempts[k]);
      assert Running(h.attempts, k, t, h.store.now);
    }
    if k: nat :| k < |h.attempts| && Running(h.attempts, k, t, h.store.now) {
      assert IsRecordOf(h.store.messages[h.attempts[k].triple], h.attempts[k]);
    }
  }

  /** The store decides what the history says. */
  lemma DecideIff(h: History, t: Triple, spf: bool, period: nat)
    requires Agrees(h)
    ensures Decide(h.store, t, spf, period).Permitted? <==>
            spf || RecentPermit(h.attempts, t.ip, h.store.now)
            || WaitedLongEnough(h.attempts, t, h.store.now, period)
  {
    hide RecentPermit, Starts;
    assert Whitelisted(h.store.(now := h.store.now), t.ip) <==> RecentPermit(h.attempts, t.ip, h.store.now);
    KnownIff(h, t);
    if Known(h.store, t) {
      var k: nat :| k < |h.attempts| && h.attempts[k].triple == t && Starts(h.attempts, k)
        && IsRecordOf(h.store.messages[t], h.attempts[k]);
      assert Running(h.attempts, k, t, h.store.now);
    }
    if k: nat :| k < |h.attempts| && Running(h.attempts, k, t, h.store.now)
                 && h.attempts[k].time + period * MINUTE < h.store.now {
      assert IsRecordOf(h.store.messages[h.attempts[k].triple], h.attempts[k]);
    }
  }

  lemma RecentPermitMore(attempts: seq<Attempt>, a: Attempt, ip: string, now: int)
    ensures RecentPermit(attempts + [a], ip, now)
        <==> RecentPermit(attempts, ip, now)
             || (a.triple.ip == ip && a.decision.Permitted? && now < a.time + VALIDITY_SECONDS)
  {
    var more := attempts + [a];
    if j :| 0 <= j < |attempts| && attempts[j].triple.ip == ip && attempts[j].decision.Permitted?
            && now < attempts[j].time + VALIDITY_SECONDS {
      assert more[j] == attempts[j];
    }
    assert more[|attempts|] == a;
  }

  lemma PermitsStillAgree(h: History, t: Triple, spf: bool, period: nat)
    requires Agrees(h)
    ensures var s := h.store;
            PermitsAgree(Next(s, t, spf, period), h.attempts + [Attempt(s.now, t, Decide(s, t, spf, period))])
  {
    hide Starts, ClocksAgree, Known;
    var s, d := h.store, Decide(h.store, t, spf, period);
    var a := Attempt(s.now, t, d);
    var attempts, next := h.attempts + [a], Next(s, t, spf, period);
    forall ip: string, now: int | now >= next.now
      ensures Whitelisted(next.(now := now), ip) <==> RecentPermit(attempts, ip, now)
    {
      assert Whitelisted(s.(now := now), ip) <==> RecentPermit(h.attempts, ip, now);
      RecentPermitMore(h.attempts, a, ip, now);
    }
  }

  lemma StartsNow(h: History, a: Attempt)
    requires Agrees(h) && a.time == h.store.now
    ensures Starts(h.attempts + [a], |h.attempts|) <==> a.decision.Deferred? && !Known(h.store, a.triple)
  {
    KnownIff(h, a.triple);
    var n := |h.attempts|;
    forall j: nat | j < n ensures Starts(h.attempts + [a], j) <==> Starts(h.attempts, j) {
      StartsLocal(h.attempts, a, j);
    }
  }

  lemma StartsMore(attempts: seq<Attempt>, a: Attempt)
    ensures forall k: nat :: k < |attempts| ==>
              (attempts + [a])[k] == attempts[k] && (Starts(attempts + [a], k) <==> Starts(attempts, k))
  {
    forall k: nat | k < |attempts|
      ensures (attempts + [a])[k] == attempts[k] && (Starts(attempts + [a], k) <==> Starts(attempts, k))
    {
      StartsLocal(attempts, a, k);
    }
  }

  /** Every record is of a clock that was started. */
  ghost predicate RecordsStarted(store: Store, attempts: seq<Attempt>) {
    forall t :: t in store.messages ==>
      exists k: nat :: k < |attempts| && attempts[k].triple == t && Starts(attempts, k)
        && IsRecordOf(store.messages[t], attempts[k])
  }

  lemma RecordsStillStarted(h: History, t: Triple, spf: bool, period: nat)
    requires Agrees(h)
    ensures var s := h.store;
            RecordsStarted(Next(s, t, spf, period), h.attempts + [Attempt(s.now, t, Decide(s, t, spf, period))])
  {
    var s, n := h.store, |h.attempts|;
    var a := Attempt(s.now, t, Decide(s, t, spf, period));
    var attempts, next := h.attempts + [a], Next(s, t, spf, period);
    StartsNow(h, a);
    StartsMore(h.attempts, a);
    hide RecentPermit, PermitsAgree, Starts, Decide, Known;
    forall u | u in next.messages
      ensures exists k: nat :: k < |attempts| && attempts[k].triple == u && Starts(attempts, k)
                && IsRecordOf(next.messages[u], attempts[k])
    {
      if u in s.messages && next.messages[u] == s.messages[u] {
        var k: nat :| k < n && h.attempts[k].triple == u && Starts(h.attempts, k)
          && IsRecordOf(s.messages[u], h.attempts[k]);
        assert attempts[k] == h.attempts[k] && Starts(attempts, k);
      } else {
        assert attempts[n] == a && Starts(attempts, n);
      }
    }
  }

  lemma RunningStillRecorded(h: History, t: Triple, spf: bool, period: nat, k: nat)
    requires Agrees(h) && k <= |h.attempts|
    requires var attempts := h.attempts + [Attempt(h.store.now, t, Decide(h.store, t, spf, period))];
             Running(attempts, k, attempts[k].triple, h.store.now)
    ensures var attempts := h.attempts + [Attempt(h.store.now, t, Decide(h.store, t, spf, period))];
            var next, u := Next(h.store, t, spf, period), attempts[k].triple;
            u in next.messages && IsRecordOf(next.messages[u], attempts[k])
  {
    var s := h.store;
    var a := Attempt(s.now, t, Decide(s, t, spf, period));
    StartsNow(h, a);
    StartsMore(h.attempts, a);
    KnownIff(h, t);
    hide RecentPermit, PermitsAgree, Starts, Decide;
    if k < |h.attempts| {
      assert Running(h.attempts, k, h.attempts[k].triple, s.now);
    }
  }

  lemma NowIs(s: Store, t: Triple, spf: bool, period: nat)
    ensures Next(s, t, spf, period).now == s.now
  {
  }

  lemma ClocksStillAgree(h: History, t: Triple, spf: bool, period: nat)
    requires Agrees(h)
    ensures var s := h.store;
            ClocksAgree(Next(s, t, spf, period), h.attempts + [Attempt(s.now, t, Decide(s, t, spf, period))])
  {
    RecordsStillStarted(h, t, spf, period);
    NowIs(h.store, t, spf, period);
    hide RecentPermit, PermitsAgree, Starts, Decide, Next, Running;
    var s := h.store;
    var attempts, next := h.attempts + [Attempt(s.now, t, Decide(s, t, spf, period))], Next(s, t, spf, period);
    forall k: nat | k < |attempts| && Running(attempts, k, attempts[k].triple, next.now)
      ensures attempts[k].triple in next.messages && IsRecordOf(next.messages[attempts[k].triple], attempts[k])
    {
      RunningStillRecorded(h, t, spf, period, k);
    }
  }

  lemma NothingAgrees(start: int)
    ensures Agrees(History(Store(start, map[], map[]), []))
  {
  }

  lemma {:induction false} RunAgrees(start: int, tries: seq<Try>, period: nat)
    ensures Agrees(Run(start, tries, period))
    decreases |tries|
  {
    if tries != [] {
      hide Starts, RecentPermit, PermitsAgree, ClocksAgree, Decide, Next;
      var before, t := Run(start, tries[..|tries| - 1], period), tries[|tries| - 1];
      RunAgrees(start, tries[..|tries| - 1], period);
      TimePasses(before, t.seconds);
      var h := before.(store := At(before.store, t));
      PermitsStillAgree(h, t.triple, t.spf, period);
      ClocksStillAgree(h, t.triple, t.spf, period);
      NowIs(h.store, t.triple, t.spf, period);
    } else {
      NothingAgrees(start);
    }
  }

  // ----- What holds for every run -----

  lemma RunMore(start: int, tries: seq<Try>, t: Try, period: nat)
    ensures var h := Run(start, tries, period);
            var s := At(h.store, t);
            Run(start, tries + [t], period).attempts
            == h.attempts + [Attempt(s.now, t.triple, Decide(s, t.triple, t.spf, period))]
  {
    assert (tries + [t])[..|tries|] == tries;
  }

  /** In every run a message is permitted exactly for an SPF hit, a permit of its
      address within forty days, or a first deferral more than the initial period
      ago whose ninety minutes are not over. */
  lemma PermittedIff(start: int, tries: seq<Try>, t: Try, period: nat)
    ensures var h := Run(start, tries, period);
            var now := h.store.now + t.seconds;
            var after := Run(start, tries + [t], period).attempts;
            && |after| == |h.attempts| + 1
            && (after[|h.attempts|].decision.Permitted? <==>
                || t.spf
                || (exists j :: 0 <= j < |h.attempts| && h.attempts[j].triple.ip == t.triple.ip
                      && h.attempts[j].decision.Permitted? && now < h.attempts[j].time + 3_456_000)
                || (exists k: nat :: k < |h.attempts| && h.attempts[k].triple == t.triple && Starts(h.attempts, k)
                      && h.attempts[k].time + period * 60 < now < h.attempts[k].time + 5_400))
  {
    var h := Run(start, tries, period);
    RunMore(start, tries, t, period);
    hide Run, Starts, PermitsAgree, ClocksAgree, Decide, Next;
    RunAgrees(start, tries, period);
    TimePasses(h, t.seconds);
    DecideIff(h.(store := At(h.store, t)), t.triple, t.spf, period);
  }

  /** The record of a message is the earlier one until that expires. */
  ghost predicate KeepsClock(a: Store, b: Store, t: Triple)
    requires t in a.messages
  {
    b.now < a.messages[t].expiresAt ==> t in b.messages && b.messages[t] == a.messages[t]
  }

  lemma NextKeepsClock(a: Store, s: Store, next: Try, t: Triple, period: nat)
    requires Known(a, t) && a.now <= s.now && KeepsClock(a, s, t)
    ensures KeepsClock(a, Next(At(s, next), next.triple, next.spf, period), t)
  {
  }

  /** Retries never restart the clock: whatever is tried after a first deferral, its
      record stays in the store unchanged until it expires. */
  lemma {:induction false} RetriesKeepClock(start: int, tries: seq<Try>, more: seq<Try>, t: Triple, period: nat)
    requires Known(Run(start, tries, period).store, t)
    ensures var a, b := Run(start, tries, period).store, Run(start, tries + more, period).store;
            a.now <= b.now && KeepsClock(a, b, t)
    decreases |more|
  {
    if more == [] {
      assert tries + more == tries;
    } else {
      var init, next := more[..|more| - 1], more[|more| - 1];
      RetriesKeepClock(start, tries, init, t, period);
      assert (tries + more)[..|tries + more| - 1] == tries + init && (tries + more)[|tries + more| - 1] == next;
      NextKeepsClock(Run(start, tries, period).store, Run(start, tries + init, period).store, next, t, period);
      hide KeepsClock, Known;
    }
  }

  /** And the next attempt at the message restarts it exactly when it is deferred and
      comes after the clock has run out. */
  lemma RestartsIff(start: int, tries: seq<Try>, next: Try, period: nat)
    requires Known(Run(start, tries, period).store, next.triple)
    ensures var t, a := next.triple, Run(start, tries, period).store;
            var s, b := At(a, next), Run(start, tries + [next], period).store;
            && t in b.messages
            && (b.messages[t] != a.messages[t]
                <==> a.messages[t].expiresAt <= s.now && !next.spf && !Whitelisted(s, t.ip))
  {
    RunAgrees(start, tries, period);
    assert (tries + [next])[..|tries|] == tries;
    hide PermitsAgree, Whitelisted, Starts;
  }

  ghost predicate InTime(first: int, now: int, period: nat) {
    first + period * MINUTE < now < first + KEY_SECONDS
  }

  /** A retry can be late enough and yet in time exactly for a period below 90. */
  lemma RetryTimeIff(first: int, period: nat)
    ensures (exists now: int :: InTime(first, now, period)) <==> period < 90
  {
    if period < 90 {
      assert InTime(first, first + period * MINUTE + 1, period);
    }
  }

  ghost predicate PermitsSomeone(attempts: seq<Attempt>) {
    exists i :: 0 <= i < |attempts| && attempts[i].decision.Permitted?
  }

  ghost predicate EverPermits(period: nat) {
    exists start: int, tries: seq<Try> ::
      (forall i :: 0 <= i < |tries| ==> !tries[i].spf) && PermitsSomeone(Run(start, tries, period).attempts)
  }

  lemma {:induction false} LongPeriodDefers(start: int, tries: seq<Try>, period: nat)
    requires period >= 90 && forall i :: 0 <= i < |tries| ==> !tries[i].spf
    ensures !PermitsSomeone(Run(start, tries, period).attempts)
    decreases |tries|
  {
    if tries != [] {
      var init, t := tries[..|tries| - 1], tries[|tries| - 1];
      LongPeriodDefers(start, init, period);
      assert init + [t] == tries;
      PermittedIff(start, init, t, period);
      hide Starts, Decide;
      var h := Run(start, init, period);
      var now := h.store.now + t.seconds;
      assert !WaitedLongEnough(h.attempts, t.triple, now, period);
    }
  }

  lemma ShortPeriodPermits(period: nat)
    requires period < 90
    ensures EverPermits(period)
  {
    var t := Triple("", "", "");
    var first, retry := Try(0, t, false), Try(period * MINUTE + 1, t, false);
    assert [first][..0] == [] && [first, retry][..1] == [first];
    var h := Run(0, [first], period);
    var s := Store(0, map[], map[]);
    assert Run(0, [], period) == History(s, []);
    assert h == History(Next(s, t, false, period), [Attempt(0, t, Decide(s, t, false, period))]);
    var after := Run(0, [first, retry], period).attempts;
    assert after[1].decision == Decide(At(h.store, retry), t, false, period);
    assert PermitsSomeone(Run(0, [first, retry], period).attempts);
  }

  /** Without SPF hits, anyone is ever permitted exactly for a period below 90. */
  lemma EverPermitsIff(period: nat)
    ensures EverPermits(period) <==> period < 90
  {
    if period < 90 {
      ShortPeriodPermits(period);
    } else {
      forall start: int, tries: seq<Try> | forall i :: 0 <= i < |tries| ==> !tries[i].spf
        ensures !PermitsSomeone(Run(start, tries, period).attempts)
      {
        LongPeriodDefers(start, tries, period);
      }
    }
  }
}
