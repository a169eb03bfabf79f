/** The fan-in of the check modules over one unbuffered channel, as a state machine
    over every interleaving: one goroutine for each module, one that closes the
    channel, the loop that reads until the breaker, and the goroutine that drains
    what is left (message.go, lines 262-291 and 401-448). */
module FanIn {
  import opened VerdictSpec
  import opened VerdictLaws

  /** A module's goroutine: in the callback, at the send, past it with its wait
      group still to be told, and finished. A recovered panic sends an error answer. */
  datatype Worker = Running | Sending(answer: Answer) | Sent | Finished

  datatype Outcome = Returns(answer: Answer) | ReturnsNil | Panics(name: string)

  /** Who reads the channel: the loop, then the drainer if the breaker tripped, and
      nobody once the channel was seen closed. */
  datatype Reader = Looping | Draining | Ended

  datatype Arrival = Arrival(worker: nat, answer: Answer)

  /** `produced` and `arrivals` record what was sent and, in order, received;
      the loop accepted the first `accepted` of the arrivals. */
  datatype State = State(workers: seq<Worker>, closed: bool, reader: Reader,
                         arrivals: seq<Arrival>, accepted: nat, produced: map<nat, Answer>)

  datatype Step = CallbackEnds(worker: nat, outcome: Outcome) | Receive(worker: nat) | Tell(worker: nat)
                | Close | SeeClosed

  const PANICKED := "An internal error ocurred"

  function AnswerOf(outcome: Outcome): Answer
    requires !outcome.ReturnsNil?
  {
    match outcome
    case Returns(answer) => answer
    case Panics(name) => Answer(name, Error, PANICKED, 25.0, [])
  }

  function Answers(arrivals: seq<Arrival>): (s: seq<Answer>)
    ensures |s| == |arrivals| && forall i :: 0 <= i < |s| ==> s[i] == Normal(arrivals[i].answer)
  {
    if arrivals == [] then []
    else Answers(arrivals[..|arrivals| - 1]) + [Normal(arrivals[|arrivals| - 1].answer)]
  }

  function Start(n: nat): State {
    State(seq(n, i => Running), false, Looping, [], 0, map[])
  }

  predicate AllFinished(s: State) {
    forall i :: 0 <= i < |s.workers| ==> s.workers[i].Finished?
  }

  predicate Enabled(s: State, step: Step) {
    match step
    case CallbackEnds(i, _) => i < |s.workers| && s.workers[i].Running?
    case Receive(i) => i < |s.workers| && s.workers[i].Sending? && !s.closed && !s.reader.Ended?
    case Tell(i) => i < |s.workers| && s.workers[i].Sent?
    case Close => AllFinished(s) && !s.closed
    case SeeClosed => s.closed && !s.reader.Ended?
  }

  function Next(c: Config, s: State, step: Step): State
    requires Enabled(s, step)
  {
    match step
    case CallbackEnds(i, outcome) =>
      if outcome.ReturnsNil? then s.(workers := s.workers[i := Sent])
      else
        var a := AnswerOf(outcome);
        s.(workers := s.workers[i := Sending(a)], produced := s.produced[i := a])
    case Receive(i) =>
      var arrivals := s.arrivals + [Arrival(i, s.workers[i].answer)];
      var received := s.(workers := s.workers[i := Sent], arrivals := arrivals);
      if s.reader.Looping? then
        received.(accepted := |arrivals|, reader := if Trips(c, Answers(arrivals)) then Draining else Looping)
      else received
    case Tell(i) => s.(workers := s.workers[i := Finished])
    case Close => s.(closed := true)
    case SeeClosed => s.(reader := Ended)
  }

  ghost predicate IsRun(c: Config, s: State, steps: seq<Step>)
    decreases |steps|
  {
    steps == [] || (Enabled(s, steps[0]) && IsRun(c, Next(c, s, steps[0]), steps[1..]))
  }

  function After(c: Config, s: State, steps: seq<Step>): State
    requires IsRun(c, s, steps)
    decreases |steps|
  {
    if steps == [] then s else After(c, Next(c, s, steps[0]), steps[1..])
  }

  // ----- What every interleaving keeps -----

  ghost predicate Received(s: State, i: nat) {
    exists k :: 0 <= k < |s.arrivals| && s.arrivals[k].worker == i
  }

  /** A worker's answer is produced once, and received at most once, at the send. */
  ghost predicate WorkerInv(s: State, i: nat)
    requires i < |s.workers|
  {
    match s.workers[i]
    case Running => i !in s.produced && !Received(s, i)
    case Sending(a) => i in s.produced && s.produced[i] == a && !Received(s, i)
    case _ => i in s.produced <==> Received(s, i)
  }

  ghost predicate ArrivalsInv(s: State) {
    && (forall k :: 0 <= k < |s.arrivals| ==>
          s.arrivals[k].worker < |s.workers|
          && s.arrivals[k].worker in s.produced && s.produced[s.arrivals[k].worker] == s.arrivals[k].answer)
    && (forall j, k :: 0 <= j < k < |s.arrivals| ==> s.arrivals[j].worker != s.arrivals[k].worker)
    && (forall i :: i in s.produced ==> i < |s.workers|)
  }

  /** The accepted answers are the arrivals up to the first breaker trip. */
  ghost predicate ReaderInv(c: Config, s: State) {
    && s.accepted <= |s.arrivals|
    && (forall k :: 0 < k < s.accepted ==> !Trips(c, Answers(s.arrivals[..k])))
    && (s.accepted < |s.arrivals| ==> s.accepted > 0 && Trips(c, Answers(s.arrivals[..s.accepted])))
    && (s.reader.Looping? ==> s.accepted == |s.arrivals|
                              && (s.accepted > 0 ==> !Trips(c, Answers(s.arrivals))))
    && (s.reader.Draining? ==> s.accepted > 0 && Trips(c, Answers(s.arrivals[..s.accepted])))
    && (s.reader.Ended? ==> s.closed)
  }

  ghost predicate Inv(c: Config, s: State) {
    && (forall i :: 0 <= i < |s.workers| ==> WorkerInv(s, i))
    && ArrivalsInv(s) && ReaderInv(c, s)
    && (s.closed ==> AllFinished(s))
  }

  lemma StartInv(c: Config, n: nat)
    ensures Inv(c, Start(n))
  {
  }

  lemma ReceiveKeepsReader(c: Config, s: State, i: nat)
    requires Inv(c, s) && Enabled(s, Receive(i))
    ensures ReaderInv(c, Next(c, s, Receive(i)))
  {
    hide Trips, Answers, WorkerInv, ArrivalsInv;
    var t := Next(c, s, Receive(i));
    assert t.arrivals[..|s.arrivals|] == s.arrivals;
    assert t.arrivals[..|t.arrivals|] == t.arrivals;
    forall k | 0 <= k <= |s.arrivals| ensures t.arrivals[..k] == s.arrivals[..k] {
    }
    assert s.arrivals[..|s.arrivals|] == s.arrivals;
  }

  lemma ReceiveKeepsWorkers(c: Config, s: State, i: nat)
    requires Inv(c, s) && Enabled(s, Receive(i))
    ensures var t := Next(c, s, Receive(i));
            ArrivalsInv(t) && forall j :: 0 <= j < |t.workers| ==> WorkerInv(t, j)
  {
    hide ReaderInv, Trips, Answers;
    var t := Next(c, s, Receive(i));
    var n := |s.arrivals|;
    assert t.arrivals == s.arrivals + [Arrival(i, s.workers[i].answer)];
    assert WorkerInv(s, i);
    forall j | 0 <= j < |t.workers| ensures WorkerInv(t, j) {
      assert WorkerInv(s, j);
      assert t.arrivals[n].worker == i;
      assert forall k :: 0 <= k < n ==> t.arrivals[k] == s.arrivals[k];
    }
  }

  lemma CallbackKeeps(c: Config, s: State, i: nat, o: Outcome)
    requires Inv(c, s) && Enabled(s, CallbackEnds(i, o))
    ensures Inv(c, Next(c, s, CallbackEnds(i, o)))
  {
    hide Trips, Answers;
    var t := Next(c, s, CallbackEnds(i, o));
    assert WorkerInv(s, i) && !s.closed;
    forall j | 0 <= j < |t.workers| ensures WorkerInv(t, j) {
      assert WorkerInv(s, j);
    }
    forall k | 0 <= k < |t.arrivals| ensures t.arrivals[k].worker != i {
    }
  }

  lemma TellKeeps(c: Config, s: State, i: nat)
    requires Inv(c, s) && Enabled(s, Tell(i))
    ensures Inv(c, Next(c, s, Tell(i)))
  {
    hide Trips, Answers;
    var t := Next(c, s, Tell(i));
    assert !s.closed;
    forall j | 0 <= j < |t.workers| ensures WorkerInv(t, j) {
      assert WorkerInv(s, j);
    }
  }

  lemma NextKeepsInv(c: Config, s: State, step: Step)
    requires Inv(c, s) && Enabled(s, step)
    ensures Inv(c, Next(c, s, step))
  {
    hide Trips, Answers;
    match step
    case Receive(i) =>
      ReceiveKeepsReader(c, s, i);
      ReceiveKeepsWorkers(c, s, i);
    case CallbackEnds(i, o) => CallbackKeeps(c, s, i, o);
    case Tell(i) => TellKeeps(c, s, i);
    case Close =>
      var t := Next(c, s, step);
      forall j | 0 <= j < |t.workers| ensures WorkerInv(t, j) {
        assert WorkerInv(s, j);
      }
    case SeeClosed =>
      var t := Next(c, s, step);
      forall j | 0 <= j < |t.workers| ensures WorkerInv(t, j) {
        assert WorkerInv(s, j);
      }
  }

  lemma {:induction false} RunKeepsInv(c: Config, s: State, steps: seq<Step>)
    requires Inv(c, s) && IsRun(c, s, steps)
    ensures Inv(c, After(c, s, steps))
    decreases |steps|
  {
    if steps != [] {
      NextKeepsInv(c, s, steps[0]);
      RunKeepsInv(c, Next(c, s, steps[0]), steps[1..]);
    }
  }

  // ----- What follows for every run -----

  /** The channel is closed only after the last send: no goroutine is before or at
      its send then, and none ever will be. */
  lemma ClosedAfterLastSend(c: Config, n: nat, steps: seq<Step>, i: nat)
    requires IsRun(c, Start(n), steps) && i < |After(c, Start(n), steps).workers|
    ensures var s := After(c, Start(n), steps);
            s.closed ==> s.workers[i].Finished? && (i in s.produced <==> Received(s, i))
  {
    StartInv(c, n);
    RunKeepsInv(c, Start(n), steps);
    assert WorkerInv(After(c, Start(n), steps), i);
  }

  predicate Over(s: State) {
    s.closed && s.reader.Ended?
  }

  /** Nobody waits for ever: whatever happened, some step is possible until the
      channel is closed and its reader has seen it. In particular a goroutine at
      its send always has a reader. */
  lemma NeverStuck(c: Config, n: nat, steps: seq<Step>) returns (step: Step)
    requires IsRun(c, Start(n), steps) && !Over(After(c, Start(n), steps))
    ensures Enabled(After(c, Start(n), steps), step)
    ensures var s := After(c, Start(n), steps);
            forall i :: 0 <= i < |s.workers| && s.workers[i].Sending? ==> Enabled(s, Receive(i))
    ensures var s := After(c, Start(n), steps);
            forall i, o :: 0 <= i < |s.workers| && s.workers[i].Running? ==> Enabled(s, CallbackEnds(i, o))
  {
    var s := After(c, Start(n), steps);
    StartInv(c, n);
    RunKeepsInv(c, Start(n), steps);
    hide WorkerInv, ArrivalsInv;
    if i :| 0 <= i < |s.workers| && !s.workers[i].Finished? {
      if s.workers[i].Running? {
        step := CallbackEnds(i, ReturnsNil);
      } else if s.workers[i].Sending? {
        step := Receive(i);
      } else {
        step := Tell(i);
      }
    } else {
      step := if s.closed then SeeClosed else Close;
    }
  }

  function Work(w: Worker): nat {
    match w case Running => 3 case Sending(_) => 2 case Sent => 1 case Finished => 0
  }

  function WorkLeft(ws: seq<Worker>): nat {
    if ws == [] then 0 else WorkLeft(ws[..|ws| - 1]) + Work(ws[|ws| - 1])
  }

  function StepsLeft(s: State): nat {
    WorkLeft(s.workers) + (if s.closed then 0 else 1) + if s.reader.Ended? then 0 else 1
  }

  lemma {:induction false} WorkAfter(ws: seq<Worker>, i: nat, w: Worker)
    requires i < |ws|
    ensures WorkLeft(ws[i := w]) == WorkLeft(ws) - Work(ws[i]) + Work(w)
    decreases |ws|
  {
    var init, last := ws[..|ws| - 1], ws[|ws| - 1];
    if i < |ws| - 1 {
      WorkAfter(init, i, w);
      assert ws[i := w][..|ws| - 1] == init[i := w];
    } else {
      assert ws[i := w][..|ws| - 1] == init;
    }
  }

  lemma StepWorks(c: Config, s: State, step: Step)
    requires Enabled(s, step)
    ensures StepsLeft(Next(c, s, step)) < StepsLeft(s)
  {
    hide Trips, Answers, WorkLeft;
    match step
    case CallbackEnds(i, o) =>
      WorkAfter(s.workers, i, Next(c, s, step).workers[i]);
    case Receive(i) => WorkAfter(s.workers, i, Sent);
    case Tell(i) => WorkAfter(s.workers, i, Finished);
    case Close =>
    case SeeClosed =>
  }

  lemma {:induction false} RunIsFinite(c: Config, s: State, steps: seq<Step>)
    requires IsRun(c, s, steps)
    ensures |steps| + StepsLeft(After(c, s, steps)) <= StepsLeft(s)
    decreases |steps|
  {
    if steps != [] {
      StepWorks(c, s, steps[0]);
      RunIsFinite(c, Next(c, s, steps[0]), steps[1..]);
    }
  }

  lemma {:induction false} WorkAtStart(n: nat)
    ensures WorkLeft(seq(n, i => Running)) == 3 * n
  {
    if n > 0 {
      WorkAtStart(n - 1);
      assert seq(n, i => Running)[..n - 1] == seq(n - 1, i => Running);
    }
  }

  /** So every interleaving of n modules ends, after at most 3n + 2 steps. */
  lemma RunBound(c: Config, n: nat, steps: seq<Step>)
    requires IsRun(c, Start(n), steps)
    ensures |steps| <= 3 * n + 2
  {
    RunIsFinite(c, Start(n), steps);
    WorkAtStart(n);
  }

  lemma AnswersPrefix(arrivals: seq<Arrival>, k: nat)
    requires k <= |arrivals|
    ensures Answers(arrivals)[..k] == Answers(arrivals[..k])
  {
  }

  lemma AcceptedIsRead(c: Config, s: State)
    requires ReaderInv(c, s)
    ensures Answers(s.arrivals[..s.accepted]) == Read(c, Answers(s.arrivals))
  {
    hide Trips;
    var all := Answers(s.arrivals);
    AnswersPrefix(s.arrivals, s.accepted);
    forall k | 0 < k <= s.accepted ensures all[..k] == Answers(s.arrivals[..k]) {
      AnswersPrefix(s.arrivals, k);
    }
    ReadFromIs(c, all, 0, s.accepted);
  }

  /** At the end every produced answer was received exactly once, by the loop or by
      the drainer, and the loop accepted the arrivals up to the breaker's first
      trip: what the verdict reads. */
  lemma AllReceivedOnce(c: Config, n: nat, steps: seq<Step>)
    requires IsRun(c, Start(n), steps) && Over(After(c, Start(n), steps))
    ensures var s := After(c, Start(n), steps);
            && (forall i :: i in s.produced ==>
                  exists k :: 0 <= k < |s.arrivals| && s.arrivals[k] == Arrival(i, s.produced[i])
                    && forall j :: 0 <= j < |s.arrivals| && s.arrivals[j].worker == i ==> j == k)
            && (forall k :: 0 <= k < |s.arrivals| ==> s.arrivals[k].worker in s.produced)
            && s.accepted <= |s.arrivals|
            && Answers(s.arrivals[..s.accepted]) == Read(c, Answers(s.arrivals))
  {
    var s := After(c, Start(n), steps);
    StartInv(c, n);
    RunKeepsInv(c, Start(n), steps);
    forall i | i in s.produced
      ensures exists k :: 0 <= k < |s.arrivals| && s.arrivals[k] == Arrival(i, s.produced[i])
                && forall j :: 0 <= j < |s.arrivals| && s.arrivals[j].worker == i ==> j == k
    {
      assert WorkerInv(s, i);
      var k :| 0 <= k < |s.arrivals| && s.arrivals[k].worker == i;
      assert s.arrivals[k] == Arrival(i, s.produced[i]);
    }
    AcceptedIsRead(c, s);
  }

  // ----- What each module's callback leads to -----

  /** Once a callback has ended, what it produced stays. */
  lemma {:induction false} ProducedStays(c: Config, s: State, steps: seq<Step>, i: nat)
    requires IsRun(c, s, steps) && i < |s.workers| && !s.workers[i].Running?
    ensures var t := After(c, s, steps);
            (i in t.produced <==> i in s.produced) && (i in s.produced ==> t.produced[i] == s.produced[i])
    decreases |steps|
  {
    hide Trips, Answers;
    if steps != [] {
      ProducedStays(c, Next(c, s, steps[0]), steps[1..], i);
    }
  }

  lemma {:induction false} OutcomeProduced(c: Config, s: State, steps: seq<Step>, k: nat)
    requires Inv(c, s) && IsRun(c, s, steps) && k < |steps| && steps[k].CallbackEnds?
    ensures var t, i, o := After(c, s, steps), steps[k].worker, steps[k].outcome;
            if o.ReturnsNil? then i !in t.produced else i in t.produced && t.produced[i] == AnswerOf(o)
    decreases |steps|
  {
    hide Trips, Answers, ReaderInv, ArrivalsInv;
    var next := Next(c, s, steps[0]);
    if k == 0 {
      assert WorkerInv(s, steps[0].worker);
      ProducedStays(c, next, steps[1..], steps[0].worker);
    } else {
      NextKeepsInv(c, s, steps[0]);
      hide Inv, WorkerInv;
      OutcomeProduced(c, next, steps[1..], k - 1);
    }
  }

  lemma {:induction false} WorkersStay(c: Config, s: State, steps: seq<Step>)
    requires IsRun(c, s, steps)
    ensures |After(c, s, steps).workers| == |s.workers|
    decreases |steps|
  {
    hide Trips, Answers;
    if steps != [] {
      WorkersStay(c, Next(c, s, steps[0]), steps[1..]);
    }
  }

  /** The callback of a module ends at this step and at no other. */
  ghost predicate EndsHere(steps: seq<Step>, k: nat, i: nat)
    requires k < |steps|
  {
    && steps[k].CallbackEnds? && steps[k].worker == i
    && forall j :: 0 <= j < |steps| && j != k && steps[j].CallbackEnds? ==> steps[j].worker != i
  }

  lemma EndsLater(steps: seq<Step>, k: nat, i: nat)
    requires steps != [] && k < |steps[1..]| && EndsHere(steps[1..], k, i)
    requires steps[0].CallbackEnds? ==> steps[0].worker != i
    ensures EndsHere(steps, k + 1, i)
  {
    forall j | 0 <= j < |steps| && j != k + 1 && steps[j].CallbackEnds? ensures steps[j].worker != i {
      assert j > 0 ==> steps[1..][j - 1] == steps[j];
    }
  }

  lemma {:induction false} EndsOnce(c: Config, s: State, steps: seq<Step>, i: nat)
    requires IsRun(c, s, steps) && i < |s.workers| == |After(c, s, steps).workers|
    ensures !s.workers[i].Running? ==> forall k :: 0 <= k < |steps| && steps[k].CallbackEnds? ==> steps[k].worker != i
    ensures s.workers[i].Running? && !After(c, s, steps).workers[i].Running? ==>
              exists k: nat :: k < |steps| && EndsHere(steps, k, i)
    decreases |steps|
  {
    hide Trips, Answers;
    if steps != [] {
      var next, rest := Next(c, s, steps[0]), steps[1..];
      EndsOnce(c, next, rest, i);
      forall k | 0 <= k < |steps| && steps[k].CallbackEnds? && !s.workers[i].Running? ensures steps[k].worker != i {
        assert k > 0 ==> rest[k - 1] == steps[k];
      }
      if s.workers[i].Running? && !After(c, s, steps).workers[i].Running? {
        if next.workers[i].Running? {
          var k: nat :| k < |rest| && EndsHere(rest, k, i);
          EndsLater(steps, k, i);
        } else {
          assert EndsHere(steps, 0, i);
        }
      }
    }
  }

  /** What came of a module's callback in a complete run: its answer arrived, and after
      a panic an error with score 25 under the module's name; nil left nothing. */
  ghost predicate Came(s: State, i: nat, o: Outcome) {
    match o
    case Returns(answer) => Arrival(i, answer) in s.arrivals
    case Panics(name) => Arrival(i, Answer(name, Error, "An internal error ocurred", 25.0, [])) in s.arrivals
    case ReturnsNil => !exists k :: 0 <= k < |s.arrivals| && s.arrivals[k].worker == i
  }

  /** In a complete run the callback of each of the n modules ends once. */
  lemma EachEndsOnce(c: Config, n: nat, steps: seq<Step>, i: nat)
    requires IsRun(c, Start(n), steps) && Over(After(c, Start(n), steps)) && i < n
    ensures exists k: nat :: k < |steps| && EndsHere(steps, k, i)
  {
    StartInv(c, n);
    RunKeepsInv(c, Start(n), steps);
    WorkersStay(c, Start(n), steps);
    EndsOnce(c, Start(n), steps, i);
  }

  lemma OutcomeComes(c: Config, n: nat, steps: seq<Step>, k: nat)
    requires IsRun(c, Start(n), steps) && Over(After(c, Start(n), steps))
    requires k < |steps| && steps[k].CallbackEnds?
    ensures Came(After(c, Start(n), steps), steps[k].worker, steps[k].outcome)
  {
    StartInv(c, n);
    OutcomeProduced(c, Start(n), steps, k);
    AllReceivedOnce(c, n, steps);
    hide After, Over, IsRun;
  }

  // ----- Order independence of the interleavings -----

  /** Runs that received each of the same answers once received them in two orders. */
  ghost predicate ReceivedAll(s: State) {
    && (forall j, k :: 0 <= j < k < |s.arrivals| ==> s.arrivals[j].worker != s.arrivals[k].worker)
    && (forall a :: a in s.arrivals <==> a.worker in s.produced && s.produced[a.worker] == a.answer)
  }

  lemma {:induction false} CountOnce(s: seq<Arrival>, a: Arrival)
    requires forall j, k :: 0 <= j < k < |s| ==> s[j] != s[k]
    ensures multiset(s)[a] == if a in s then 1 else 0
    decreases |s|
  {
    if s != [] {
      var init, last := s[..|s| - 1], s[|s| - 1];
      CountOnce(init, a);
      assert s == init + [last];
    }
  }

  lemma {:induction false} SameArrivals(s: seq<Arrival>, t: seq<Arrival>)
    requires forall j, k :: 0 <= j < k < |s| ==> s[j] != s[k]
    requires forall j, k :: 0 <= j < k < |t| ==> t[j] != t[k]
    requires forall a :: a in s <==> a in t
    ensures multiset(s) == multiset(t)
  {
    forall a ensures multiset(s)[a] == multiset(t)[a] {
      CountOnce(s, a);
      CountOnce(t, a);
    }
  }

  lemma AroundOne(t: seq<Arrival>, x: Arrival) returns (front: seq<Arrival>, back: seq<Arrival>)
    requires x in multiset(t)
    ensures t == front + [x] + back && multiset(t) == multiset(front + back) + multiset{x}
  {
    hide *;
    var j :| 0 <= j < |t| && t[j] == x;
    front, back := t[..j], t[j + 1..];
    assert t == front + [x] + back;
  }

  lemma MiddleOut(front: seq<Answer>, x: Answer, back: seq<Answer>)
    ensures multiset(front + [x] + back) == multiset(front + back) + multiset{x}
  {
  }

  lemma AnswersConcat(s: seq<Arrival>, t: seq<Arrival>)
    ensures Answers(s + t) == Answers(s) + Answers(t)
  {
    hide Answers, Normal;
  }

  lemma AnswersAround(front: seq<Arrival>, x: Arrival, back: seq<Arrival>)
    ensures multiset(Answers(front + [x] + back)) == multiset(Answers(front + back)) + multiset{Normal(x.answer)}
  {
    hide *;
    AnswersConcat(front, back);
    AnswersConcat(front + [x], back);
    AnswersConcat(front, [x]);
    assert Answers([x]) == [Normal(x.answer)];
    MiddleOut(Answers(front), Normal(x.answer), Answers(back));
  }

  lemma {:induction false} AnswersPermute(s: seq<Arrival>, t: seq<Arrival>)
    requires multiset(s) == multiset(t)
    ensures multiset(Answers(s)) == multiset(Answers(t))
    decreases |s|
  {
    if s == [] {
      assert |t| == |multiset(t)| == 0;
    } else {
      var init, last := s[..|s| - 1], s[|s| - 1];
      assert s == init + [last] && last in multiset(t);
      var front, back := AroundOne(t, last);
      Cancel(multiset(init), multiset(front + back), last);
      AnswersPermute(init, front + back);
      hide *;
      AnswersAround(front, last, back);
      AnswersAround(init, last, []);
      assert init + [last] + [] == s && init + [] == init;
    }
  }

  /** The answers that the loop accepted. */
  function Accepted(s: State): seq<Answer> {
    if s.accepted <= |s.arrivals| then Answers(s.arrivals[..s.accepted]) else []
  }

  lemma ArrivedWasProduced(s: State, a: Arrival)
    requires ArrivalsInv(s) && a in s.arrivals
    ensures a.worker in s.produced && s.produced[a.worker] == a.answer
  {
    var k :| 0 <= k < |s.arrivals| && s.arrivals[k] == a;
  }

  lemma ProducedHasArrived(s: State, a: Arrival)
    requires ArrivalsInv(s) && forall i :: 0 <= i < |s.workers| ==> WorkerInv(s, i) && s.workers[i].Finished?
    requires a.worker in s.produced && s.produced[a.worker] == a.answer
    ensures a in s.arrivals
  {
    assert WorkerInv(s, a.worker);
    var k :| 0 <= k < |s.arrivals| && s.arrivals[k].worker == a.worker;
    assert s.arrivals[k] == a;
  }

  lemma ArrivedOnce(s: State)
    requires ArrivalsInv(s)
    requires forall a :: a in s.arrivals <==> a.worker in s.produced && s.produced[a.worker] == a.answer
    ensures ReceivedAll(s)
  {
  }

  lemma InvReceivedAll(c: Config, s: State)
    requires Inv(c, s) && Over(s)
    ensures ReceivedAll(s) && Accepted(s) == Read(c, Answers(s.arrivals))
  {
    AcceptedIsRead(c, s);
    assert s.accepted <= |s.arrivals|;
    assert Accepted(s) == Answers(s.arrivals[..s.accepted]);
    assert ArrivalsInv(s) && forall i :: 0 <= i < |s.workers| ==> WorkerInv(s, i) && s.workers[i].Finished?;
    hide *;
    forall a | a in s.arrivals ensures a.worker in s.produced && s.produced[a.worker] == a.answer {
      ArrivedWasProduced(s, a);
    }
    forall a: Arrival | a.worker in s.produced && s.produced[a.worker] == a.answer ensures a in s.arrivals {
      ProducedHasArrived(s, a);
    }
    ArrivedOnce(s);
  }

  lemma OverReceivedAll(c: Config, n: nat, steps: seq<Step>)
    requires IsRun(c, Start(n), steps) && Over(After(c, Start(n), steps))
    ensures var s := After(c, Start(n), steps); ReceivedAll(s) && Accepted(s) == Read(c, Answers(s.arrivals))
  {
    hide *;
    StartInv(c, n);
    RunKeepsInv(c, Start(n), steps);
    InvReceivedAll(c, After(c, Start(n), steps));
  }

  lemma SameReceived(s: State, t: State)
    requires ReceivedAll(s) && ReceivedAll(t) && s.produced == t.produced
    ensures multiset(s.arrivals) == multiset(t.arrivals)
  {
    SameArrivals(s.arrivals, t.arrivals);
  }

  lemma EndStatesAgree(c: Config, groups: seq<Group>, s: State, t: State)
    requires ReceivedAll(s) && ReceivedAll(t) && s.produced == t.produced
    requires NeverTrips(c, Answers(s.arrivals)) && NeverTrips(c, Answers(t.arrivals))
    requires Accepted(s) == Read(c, Answers(s.arrivals)) && Accepted(t) == Read(c, Answers(t.arrivals))
    ensures var x, y := Accepted(s), Accepted(t);
            && Decide(c, groups, x) == Decide(c, groups, y)
            && Total(groups, x, Reject) == Total(groups, y, Reject)
            && Total(groups, x, TempFail) == Total(groups, y, TempFail)
  {
    hide *;
    SameReceived(s, t);
    AnswersPermute(s.arrivals, t.arrivals);
    OrderIndependent(c, groups, Answers(s.arrivals), Answers(t.arrivals));
  }

  /** Two complete interleavings in which the modules produce the same answers, and
      no order of arrival trips the breaker, lead to the same verdict and scores. */
  lemma InterleavingsAgree(c: Config, groups: seq<Group>, n: nat, steps: seq<Step>, others: seq<Step>)
    requires IsRun(c, Start(n), steps) && Over(After(c, Start(n), steps))
    requires IsRun(c, Start(n), others) && Over(After(c, Start(n), others))
    requires var s, t := After(c, Start(n), steps), After(c, Start(n), others);
             && s.produced == t.produced
             && NeverTrips(c, Answers(s.arrivals)) && NeverTrips(c, Answers(t.arrivals))
    ensures var s, t := After(c, Start(n), steps), After(c, Start(n), others);
            var x, y := Accepted(s), Accepted(t);
            && Decide(c, groups, x) == Decide(c, groups, y)
            && Total(groups, x, Reject) == Total(groups, y, Reject)
            && Total(groups, x, TempFail) == Total(groups, y, TempFail)
  {
    hide *;
    OverReceivedAll(c, n, steps);
    OverReceivedAll(c, n, others);
    EndStatesAgree(c, groups, After(c, Start(n), steps), After(c, Start(n), others));
  }
}
