/** The quota module on its store: polling the definitions of a selector, pruning
    duplicate definitions, checking a message and tallying it later (quotas.go,
    lines 243-250, 280-365, 367-434, 469-514). */
module QuotaModule {
  import opened QuotaWindow

  datatype Selector = Selector(name: string, value: string)

  /** A stored definition, `<period>_<curb>`. */
  datatype Definition = Definition(period: nat, curb: nat)

  datatype CountKey = CountKey(selector: Selector, period: nat)

  datatype QuotaResult = QuotaResult(key: CountKey, definition: Definition, extra: nat, futureTotal: nat)

  datatype Verdict = Permit | TempFail | Reject | VerdictError | Discard

  predicate Exceeded(r: QuotaResult) {
    r.futureTotal > r.definition.curb
  }

  /** The first occurrences of a list, in order. */
  function Distinct(s: seq<Definition>): (r: seq<Definition>)
    ensures forall x :: x in r <==> x in s
    ensures forall i, j :: 0 <= i < j < |r| ==> r[i] != r[j]
  {
    if s == [] then []
    else
      var init, last := Distinct(s[..|s| - 1]), s[|s| - 1];
      assert s == s[..|s| - 1] + [last];
      if last in init then init else init + [last]
  }

  ghost predicate NoDuplicates(s: seq<Definition>) {
    forall i, j :: 0 <= i < j < |s| ==> s[i] != s[j]
  }

  function Reverse(s: seq<Definition>): (r: seq<Definition>)
    ensures |r| == |s| && forall i :: 0 <= i < |s| ==> r[i] == s[|s| - 1 - i]
  {
    if s == [] then [] else [s[|s| - 1]] + Reverse(s[..|s| - 1])
  }

  lemma {:induction false} DistinctNotLonger(s: seq<Definition>)
    ensures |Distinct(s)| <= |s|
    decreases |s|
  {
    if s != [] {
      DistinctNotLonger(s[..|s| - 1]);
    }
  }

  lemma {:induction false} DistinctOfDistinct(s: seq<Definition>)
    ensures NoDuplicates(s) <==> Distinct(s) == s
    decreases |s|
  {
    if s != [] {
      var init, last := s[..|s| - 1], s[|s| - 1];
      DistinctOfDistinct(init);
      assert s == init + [last];
      DistinctNotLonger(init);
      if NoDuplicates(s) {
        assert last !in init;
      }
    }
  }

  lemma ReverseHas(s: seq<Definition>, d: Definition)
    ensures d in Reverse(s) <==> d in s
  {
    if d in s {
      var x :| 0 <= x < |s| && s[x] == d;
      assert Reverse(s)[|s| - 1 - x] == d;
    }
  }

  /** What is polled for a selector: its stored definitions, or else those of the
      matching regexes, which a push at the front has turned around. */
  function Effective(stored: seq<Definition>, regexes: seq<Definition>): seq<Definition> {
    if stored != [] then stored else Reverse(regexes)
  }

  function Lookup(regexes: map<Selector, seq<Definition>>, s: Selector): seq<Definition> {
    if s in regexes then regexes[s] else []
  }

  /** The exact count of each key's window, and what is polled for each selector. */
  type Windows = CountKey -> nat
  type Asked = Selector -> seq<Definition>

  /** A factor of a message: a selector and the counts that the message adds. */
  datatype Factor = Factor(selector: Selector, extra: nat)

  ghost predicate Exceeds(f: Factor, d: Definition, windows: Windows) {
    windows(CountKey(f.selector, d.period)) + f.extra > d.curb
  }

  /** Some definition that is polled for some factor is exceeded. */
  ghost predicate AnyExceeds(factors: seq<Factor>, asked: Asked, windows: Windows) {
    exists f, d :: f in factors && d in asked(f.selector) && Exceeds(f, d, windows)
  }

  /** The result of polling a definition for a factor. */
  ghost predicate ResultFor(r: QuotaResult, f: Factor, d: Definition, windows: Windows) {
    && r.key == CountKey(f.selector, d.period) && r.definition == d && r.extra == f.extra
    && (Exceeded(r) <==> Exceeds(f, d, windows))
  }

  ghost predicate FromFactor(r: QuotaResult, f: Factor, asked: Asked, windows: Windows) {
    r.definition in asked(f.selector) && ResultFor(r, f, r.definition, windows)
  }

  /** Every result is of a polled definition, and every polled definition has one. */
  ghost predicate Sound(results: seq<QuotaResult>, factors: seq<Factor>, asked: Asked, windows: Windows) {
    forall r :: r in results ==> exists f :: f in factors && FromFactor(r, f, asked, windows)
  }

  ghost predicate Complete(results: seq<QuotaResult>, factors: seq<Factor>, asked: Asked, windows: Windows) {
    forall f, d :: f in factors && d in asked(f.selector) ==>
      exists r :: r in results && ResultFor(r, f, d, windows)
  }

  lemma SoundMore(results: seq<QuotaResult>, more: seq<QuotaResult>, factors: seq<Factor>, f: Factor,
                  asked: Asked, windows: Windows)
    requires Sound(results, factors, asked, windows)
    requires forall r :: r in more ==> FromFactor(r, f, asked, windows)
    ensures Sound(results + more, factors + [f], asked, windows)
  {
    hide FromFactor;
    forall r | r in results + more ensures exists g :: g in factors + [f] && FromFactor(r, g, asked, windows) {
      if r in more {
        assert f in factors + [f];
      } else {
        var g :| g in factors && FromFactor(r, g, asked, windows);
        assert g in factors + [f];
      }
    }
  }

  lemma CompleteMore(results: seq<QuotaResult>, more: seq<QuotaResult>, factors: seq<Factor>, f: Factor,
                     asked: Asked, windows: Windows)
    requires Complete(results, factors, asked, windows)
    requires forall d :: d in asked(f.selector) ==> exists r :: r in more && ResultFor(r, f, d, windows)
    ensures Complete(results + more, factors + [f], asked, windows)
  {
    hide ResultFor;
    forall g, d | g in factors + [f] && d in asked(g.selector)
      ensures exists r :: r in results + more && ResultFor(r, g, d, windows)
    {
      if g in factors {
        var r :| r in results && ResultFor(r, g, d, windows);
        assert r in results + more;
      } else {
        var r :| r in more && ResultFor(r, f, d, windows);
        assert r in results + more;
      }
    }
  }

  /** The results of polling definitions, each once, against the exact windows. */
  ghost predicate Polled(results: seq<QuotaResult>, s: Selector, extra: nat, polled: seq<Definition>,
                         windows: Windows)
  {
    && |results| == |polled|
    && forall i :: 0 <= i < |polled| ==> ResultFor(results[i], Factor(s, extra), polled[i], windows)
  }

  /** Some result is of this definition. */
  ghost predicate PolledOf(results: seq<QuotaResult>, d: Definition) {
    exists r :: r in results && r.definition == d
  }

  /** Stored definitions are polled, and all those of the matching regexes when there
      are none. */
  lemma PolledAre(results: seq<QuotaResult>, s: Selector, extra: nat, stored: seq<Definition>,
                  regexes: seq<Definition>, windows: Windows)
    requires Polled(results, s, extra, Distinct(Effective(stored, regexes)), windows)
    ensures forall d :: PolledOf(results, d) <==> if stored != [] then d in stored else d in regexes
  {
    hide Exceeds, Exceeded;
    var polled := Distinct(Effective(stored, regexes));
    forall d ensures PolledOf(results, d) <==> if stored != [] then d in stored else d in regexes {
      ReverseHas(regexes, d);
      if d in polled {
        var i :| 0 <= i < |polled| && polled[i] == d;
        assert results[i].definition == d && results[i] in results;
      }
      if r :| r in results && r.definition == d {
        var i :| 0 <= i < |results| && results[i] == r;
        assert polled[i] == d;
      }
    }
  }

  ghost predicate SomeExceeded(results: seq<QuotaResult>) {
    exists r :: r in results && Exceeded(r)
  }

  /** The results decide what the exact windows decide. */
  lemma ResultsDecide(results: seq<QuotaResult>, factors: seq<Factor>, asked: Asked, windows: Windows)
    requires Sound(results, factors, asked, windows) && Complete(results, factors, asked, windows)
    ensures SomeExceeded(results) <==> AnyExceeds(factors, asked, windows)
  {
    if SomeExceeded(results) {
      var r :| r in results && Exceeded(r);
      var f :| f in factors && FromFactor(r, f, asked, windows);
      assert Exceeds(f, r.definition, windows);
    }
    if AnyExceeds(factors, asked, windows) {
      var f, d :| f in factors && d in asked(f.selector) && Exceeds(f, d, windows);
      var r :| r in results && ResultFor(r, f, d, windows);
    }
  }

  /** The callbacks are those of the counts that the polled definitions ask for. */
  ghost predicate Counts(c: (CountKey, nat), factors: seq<Factor>, asked: Asked) {
    exists f, d :: f in factors && d in asked(f.selector)
      && c.0 == CountKey(f.selector, d.period) && 1 <= c.1 <= f.extra
  }

  ghost predicate CallbackOf(c: (CountKey, nat), r: QuotaResult) {
    c.0 == r.key && 1 <= c.1 <= r.extra
  }

  lemma CallbacksCount(c: (CountKey, nat), results: seq<QuotaResult>, factors: seq<Factor>,
                       asked: Asked, windows: Windows)
    requires Sound(results, factors, asked, windows) && Complete(results, factors, asked, windows)
    ensures (exists r :: r in results && CallbackOf(c, r)) <==> Counts(c, factors, asked)
  {
    hide Exceeded, Exceeds;
    if r :| r in results && CallbackOf(c, r) {
      var f :| f in factors && FromFactor(r, f, asked, windows);
      assert r.definition in asked(f.selector);
    }
    if Counts(c, factors, asked) {
      var f, d :| f in factors && d in asked(f.selector)
        && c.0 == CountKey(f.selector, d.period) && 1 <= c.1 <= f.extra;
      var r :| r in results && ResultFor(r, f, d, windows);
      assert CallbackOf(c, r);
    }
  }

  /** Once polled, a selector is asked the same definitions again. */
  lemma AskedAgain(before: seq<Definition>, after: seq<Definition>, regexes: seq<Definition>)
    requires forall d :: d in after <==> d in Effective(before, regexes)
    ensures forall d :: d in Effective(after, regexes) <==> d in Effective(before, regexes)
  {
    var asked := Effective(before, regexes);
    if asked != [] {
      assert asked[0] in after;
    }
  }

  function ScoresIn(counts: map<CountKey, ZSet>, now: int, key: CountKey): map<Member, int> {
    Live(if key in counts then counts[key] else NO_KEY, now)
  }

  function DefinitionsIn(defs: map<Selector, seq<Definition>>, expireAt: map<Selector, int>, now: int, s: Selector):
    seq<Definition>
  {
    if s in defs && s in expireAt && now < expireAt[s] then defs[s] else []
  }

  /** The part of the store that the module uses; time is the store's own. */
  class Store {
    var now: int
    var counts: map<CountKey, ZSet>
    var definitions: map<Selector, seq<Definition>>
    var definitionsExpireAt: map<Selector, int>

    constructor (now: int)
      ensures this.now == now && counts == map[] && definitions == map[] && definitionsExpireAt == map[]
    {
      this.now, counts, definitions, definitionsExpireAt := now, map[], map[], map[];
    }

    /** The sorted set under the key, empty when there is none. */
    function At(key: CountKey): ZSet
      reads `counts
    {
      if key in counts then counts[key] else NO_KEY
    }

    function Scores(key: CountKey): map<Member, int>
      reads `counts, `now
    {
      Live(At(key), now)
    }

    /** LRANGE 0 -1 on the definitions of a selector. */
    function DefinitionsOf(s: Selector): seq<Definition>
      reads `definitions, `definitionsExpireAt, `now
    {
      DefinitionsIn(definitions, definitionsExpireAt, now, s)
    }

    method Count(key: CountKey, lo: int, hi: int) returns (n: nat)
      ensures n == ZCount(Scores(key), lo, hi)
    {
      n := ZCount(Scores(key), lo, hi);
    }

    method RemoveUpTo(key: CountKey, hi: int)
      modifies this`counts
      ensures counts == old(counts)[key := ZSet(ZRemUpTo(old(Scores(key)), hi), old(At(key)).expiresAt)]
    {
      counts := counts[key := ZSet(ZRemUpTo(Scores(key), hi), At(key).expiresAt)];
    }

    /** ZADD followed by EXPIRE. */
    method Add(key: CountKey, score: int, m: Member, seconds: nat)
      modifies this`counts
      ensures counts == old(counts)[key := ZSet(old(Scores(key))[m := score], now + seconds)]
    {
      counts := counts[key := ZSet(Scores(key)[m := score], now + seconds)];
    }

    /** insertQuotaDefinitions: DEL, LPUSH, which puts each value in front, EXPIRE. */
    method InsertDefinitions(s: Selector, values: seq<Definition>)
      modifies this`definitions, this`definitionsExpireAt
      ensures definitions == old(definitions)[s := Reverse(values)]
      ensures definitionsExpireAt == old(definitionsExpireAt)[s := now + DAY]
    {
      definitions := definitions - {s};
      var pushed: seq<Definition> := [];
      var i := 0;
      while i < |values|
        invariant i <= |values| && pushed == Reverse(values[..i])
      {
        assert values[..i + 1][..i] == values[..i];
        pushed := [values[i]] + pushed;
        i := i + 1;
      }
      assert values[..i] == values;
      definitions := definitions[s := pushed];
      definitionsExpireAt := definitionsExpireAt[s := now + DAY];
      assert definitions == old(definitions)[s := Reverse(values)];
    }
  }

  lemma NoneYet(asked: Asked, windows: Windows)
    ensures Sound([], [], asked, windows) && Complete([], [], asked, windows)
  {
  }

  lemma NoneDuplicate()
    ensures NoDuplicates([])
  {
  }

  lemma MoreDuplicates(s: seq<Definition>, x: Definition)
    requires x in s
    ensures !NoDuplicates(s + [x])
  {
    var i :| 0 <= i < |s| && s[i] == x;
    assert (s + [x])[i] == (s + [x])[|s|];
  }

  /** A poll does not change the exact window. */
  lemma PollKeepsExact(scores: map<Member, int>, now: int, period: nat, curb: nat, extra: nat)
    ensures Exact(PolledScores(scores, now, period, curb, extra), now, period) == Exact(scores, now, period)
  {
    var after := PolledScores(scores, now, period, curb, extra);
    assert Between(after, now - period + 1, now) == Between(scores, now - period + 1, now);
  }

  class Module {
    const store: Store
    const tallyStatuses: seq<Verdict>

    constructor (store: Store, tallyStatuses: seq<Verdict>)
      ensures this.store == store
      ensures this.tallyStatuses == if tallyStatuses == [] then [Permit] else tallyStatuses
    {
      this.store := store;
      this.tallyStatuses := if tallyStatuses == [] then [Permit] else tallyStatuses;
    }

    /** quotasRedisPollQuotasBySelectorAndPeriod */
    method PollPeriod(s: Selector, d: Definition, extra: nat) returns (r: QuotaResult)
      modifies store`counts
      ensures r.key == CountKey(s, d.period) && r.definition == d && r.extra == extra
      ensures r.futureTotal == PolledCount(old(store.Scores(r.key)), store.now, d.period, d.curb, extra) + extra
      ensures store.Scores(r.key) == PolledScores(old(store.Scores(r.key)), store.now, d.period, d.curb, extra)
      ensures store.At(r.key).expiresAt == old(store.At(r.key).expiresAt)
      ensures forall k :: k != r.key ==> store.At(k) == old(store.At(k))
    {
      var now, key := store.now, CountKey(s, d.period);
      var startPeriod := now - d.period;
      var count := store.Count(key, startPeriod, now);
      if count + extra > d.curb {
        store.RemoveUpTo(key, startPeriod);
        count := store.Count(key, startPeriod, now);
      }
      r := QuotaResult(key, d, extra, count + extra);
    }

    ghost predicate WindowsAre(windows: Windows)
      reads store`counts, store`now
    {
      forall k :: Exact(store.Scores(k), store.now, k.period) == windows(k)
    }

    /** The members of the sorted set, while its key lives. */
    ghost function LiveScores(key: CountKey): map<Member, int>
      reads store
    {
      if key in store.counts && store.now < store.counts[key].expiresAt then store.counts[key].scores else map[]
    }

    /** A poll tells whether the exact window has room, and changes no window. */
    method PollOne(s: Selector, d: Definition, extra: nat, ghost windows: Windows) returns (r: QuotaResult)
      requires WindowsAre(windows)
      modifies store`counts
      ensures ResultFor(r, Factor(s, extra), d, windows) && WindowsAre(windows)
    {
      ghost var key := CountKey(s, d.period);
      ghost var before := store.Scores(key);
      PollDecides(before, store.now, d.period, d.curb, extra);
      PollKeepsExact(before, store.now, d.period, d.curb, extra);
      r := PollPeriod(s, d, extra);
      forall k ensures Exact(store.Scores(k), store.now, k.period) == windows(k) {
        if k != key {
          assert store.At(k) == old(store.At(k));
        }
      }
    }

    /** One pass over a list of definitions: each distinct one is polled once. */
    method PollList(s: Selector, list: seq<Definition>, extra: nat, ghost windows: Windows)
      returns (results: seq<QuotaResult>, distinct: seq<Definition>, duplicates: bool)
      requires WindowsAre(windows)
      modifies store`counts
      ensures distinct == Distinct(list) && duplicates == !NoDuplicates(list)
      ensures Polled(results, s, extra, distinct, windows) && WindowsAre(windows)
    {
      hide WindowsAre, ResultFor;
      results, distinct, duplicates := [], [], false;
      var i := 0;
      while i < |list|
        invariant i <= |list| && distinct == Distinct(list[..i]) && duplicates == !NoDuplicates(list[..i])
        invariant Polled(results, s, extra, distinct, windows) && WindowsAre(windows)
      {
        var d := list[i];
        assert list[..i + 1] == list[..i] + [d];
        assert list[..i + 1][..i] == list[..i];
        if d in distinct {
          duplicates := true;
          MoreDuplicates(list[..i], d);
        } else {
          distinct := distinct + [d];
          var r := PollOne(s, d, extra, windows);
          results := results + [r];
        }
        i := i + 1;
      }
      assert list[..i] == list;
    }

    /** pruneDuplicateDefinitions: the set, in the order of a map's iteration. */
    method PruneDuplicates(s: Selector, distinct: seq<Definition>)
      modifies store`definitions, store`definitionsExpireAt
      ensures NoDuplicates(store.DefinitionsOf(s))
      ensures forall d :: d in store.DefinitionsOf(s) <==> d in distinct
      ensures store.definitionsExpireAt == old(store.definitionsExpireAt)[s := store.now + DAY]
      ensures forall t :: t != s ==> store.DefinitionsOf(t) == old(store.DefinitionsOf(t))
    {
      var rest := set d | d in distinct;
      var slice: seq<Definition> := [];
      while rest != {}
        invariant NoDuplicates(slice) && (forall d :: d in slice ==> d !in rest)
        invariant forall d :: d in distinct <==> d in slice || d in rest
        decreases rest
      {
        var d :| d in rest;
        slice := slice + [d];
        rest := rest - {d};
      }
      store.InsertDefinitions(s, slice);
      var now := Reverse(slice);
      assert store.DefinitionsOf(s) == now;
      forall d ensures d in now <==> d in slice {
        if d in slice {
          var x :| 0 <= x < |slice| && slice[x] == d;
          assert now[|slice| - 1 - x] == d;
        }
      }
    }

    /** The loop over the stored definitions, and the pruning of duplicates after it. */
    method PollStored(s: Selector, extra: nat, ghost windows: Windows) returns (results: seq<QuotaResult>)
      requires WindowsAre(windows)
      modifies store`counts, store`definitions, store`definitionsExpireAt
      ensures Polled(results, s, extra, Distinct(old(store.DefinitionsOf(s))), windows)
      ensures results == [] <==> old(store.DefinitionsOf(s)) == []
      ensures WindowsAre(windows)
      ensures NoDuplicates(store.DefinitionsOf(s))
      ensures forall d :: d in store.DefinitionsOf(s) <==> d in old(store.DefinitionsOf(s))
      ensures forall t :: t != s ==> store.DefinitionsOf(t) == old(store.DefinitionsOf(t))
      ensures if NoDuplicates(old(store.DefinitionsOf(s)))
              then store.definitions == old(store.definitions)
                   && store.definitionsExpireAt == old(store.definitionsExpireAt)
              else store.definitionsExpireAt == old(store.definitionsExpireAt)[s := store.now + DAY]
    {
      hide ResultFor, NoDuplicates;
      var distinct, duplicates;
      ghost var stored := store.DefinitionsOf(s);
      results, distinct, duplicates := PollList(s, store.DefinitionsOf(s), extra, windows);
      assert stored != [] ==> stored[0] in distinct;
      if duplicates {
        PruneDuplicates(s, distinct);
      }
    }

    /** quotasRedisPollQuotasBySelector, with the definitions of the regexes that
        match the selector's value: they are stored, and then polled, only when
        the selector has no definitions of its own. */
    method PollSelector(s: Selector, extra: nat, regexes: seq<Definition>, ghost windows: Windows)
      returns (results: seq<QuotaResult>)
      requires WindowsAre(windows)
      modifies store`counts, store`definitions, store`definitionsExpireAt
      ensures Polled(results, s, extra, Distinct(Effective(old(store.DefinitionsOf(s)), regexes)), windows)
      ensures var stored := old(store.DefinitionsOf(s));
              forall d :: PolledOf(results, d) <==> if stored != [] then d in stored else d in regexes
      ensures old(store.DefinitionsOf(s)) == [] ==> forall d :: d in store.DefinitionsOf(s) <==> d in regexes
      ensures WindowsAre(windows)
      ensures NoDuplicates(store.DefinitionsOf(s))
      ensures forall d :: d in store.DefinitionsOf(s) <==> d in Effective(old(store.DefinitionsOf(s)), regexes)
      ensures forall t :: t != s ==> store.DefinitionsOf(t) == old(store.DefinitionsOf(t))
      ensures var stored := old(store.DefinitionsOf(s));
              if (if stored != [] then NoDuplicates(stored) else regexes == [])
              then store.definitions == old(store.definitions)
                   && store.definitionsExpireAt == old(store.definitionsExpireAt)
              else store.definitionsExpireAt == old(store.definitionsExpireAt)[s := store.now + DAY]
    {
      hide WindowsAre, Polled, PolledOf, ResultFor, Distinct, NoDuplicates;
      NoneDuplicate();
      results := PollStored(s, extra, windows);
      if results == [] && regexes != [] {
        store.InsertDefinitions(s, regexes);
        assert store.DefinitionsOf(s) == Reverse(regexes);
        results := PollStored(s, extra, windows);
      }
      PolledAre(results, s, extra, old(store.DefinitionsOf(s)), regexes, windows);
      forall d: Definition ensures d in Reverse(regexes) <==> d in regexes {
        ReverseHas(regexes, d);
      }
    }

    /** The callback of quotasRedisAddMsg, run with the verdict on the message. */
    method Callback(key: CountKey, message: nat, n: nat, verdict: Verdict)
      modifies store`counts
      ensures verdict in tallyStatuses ==>
                store.counts == old(store.counts)[key := Tally(old(store.At(key)), store.now, Member(message, n))]
      ensures verdict in tallyStatuses ==>
                store.At(key) == ZSet(old(LiveScores(key))[Member(message, n) := store.now], store.now + 86_400)
      ensures verdict !in tallyStatuses ==> store.counts == old(store.counts)
    {
      var doTally := false;
      var i := 0;
      while i < |tallyStatuses|
        invariant i <= |tallyStatuses| && doTally == (verdict in tallyStatuses[..i])
      {
        if verdict == tallyStatuses[i] {
          doTally := true;
        }
        i := i + 1;
      }
      assert tallyStatuses[..i] == tallyStatuses;
      if !doTally {
        return;
      }
      store.Add(key, store.now, Member(message, n), DAY);
    }

    /** The exact windows and the polled definitions as the store has them now. */
    ghost function WindowsNow(): Windows
      reads store
    {
      var (counts, now) := (store.counts, store.now);
      k => Exact(ScoresIn(counts, now, k), now, k.period)
    }

    ghost function AskedNow(regexes: map<Selector, seq<Definition>>): Asked
      reads store
    {
      var (defs, expire, now) := (store.definitions, store.definitionsExpireAt, store.now);
      s => Effective(DefinitionsIn(defs, expire, now, s), Lookup(regexes, s))
    }

    ghost predicate Same(regexes: map<Selector, seq<Definition>>, asked: Asked, windows: Windows)
      reads store
    {
      && (forall k :: Exact(store.Scores(k), store.now, k.period) == windows(k))
      && (forall s, d :: d in Effective(store.DefinitionsOf(s), Lookup(regexes, s)) <==> d in asked(s))
    }

    method PollFactor(f: Factor, regexes: map<Selector, seq<Definition>>, ghost asked: Asked, ghost windows: Windows)
      returns (results: seq<QuotaResult>)
      requires Same(regexes, asked, windows)
      modifies store`counts, store`definitions, store`definitionsExpireAt
      ensures Same(regexes, asked, windows)
      ensures forall r :: r in results ==> FromFactor(r, f, asked, windows)
      ensures forall d :: d in asked(f.selector) ==> exists r :: r in results && ResultFor(r, f, d, windows)
    {
      ghost var s, before := f.selector, store.DefinitionsOf(f.selector);
      ghost var polled := Distinct(Effective(before, Lookup(regexes, s)));
      results := PollSelector(f.selector, f.extra, Lookup(regexes, f.selector), windows);
      AskedAgain(before, store.DefinitionsOf(s), Lookup(regexes, s));
      forall i | 0 <= i < |results| ensures ResultFor(results[i], f, polled[i], windows) {
      }
      forall d | d in asked(s) ensures exists r :: r in results && ResultFor(r, f, d, windows) {
        var i :| 0 <= i < |polled| && polled[i] == d;
        assert results[i] in results;
      }
    }

    method PollFactors(factors: seq<Factor>, regexes: map<Selector, seq<Definition>>,
                       ghost asked: Asked, ghost windows: Windows)
      returns (results: seq<QuotaResult>)
      requires Same(regexes, asked, windows)
      modifies store`counts, store`definitions, store`definitionsExpireAt
      ensures Sound(results, factors, asked, windows) && Complete(results, factors, asked, windows)
      ensures Same(regexes, asked, windows)
    {
      hide Same, Sound, Complete, FromFactor, ResultFor;
      results := [];
      var i := 0;
      NoneYet(asked, windows);
      while i < |factors|
        invariant i <= |factors| && Same(regexes, asked, windows)
        invariant Sound(results, factors[..i], asked, windows) && Complete(results, factors[..i], asked, windows)
      {
        var more := PollFactor(factors[i], regexes, asked, windows);
        SoundMore(results, more, factors[..i], factors[i], asked, windows);
        CompleteMore(results, more, factors[..i], factors[i], asked, windows);
        results := results + more;
        assert factors[..i + 1] == factors[..i] + [factors[i]];
        i := i + 1;
      }
      assert factors[..i] == factors;
    }

    /** One callback for each count of each result. */
    method CallbacksFor(results: seq<QuotaResult>) returns (callbacks: seq<(CountKey, nat)>)
      ensures forall c :: c in callbacks <==> exists r :: r in results && CallbackOf(c, r)
    {
      callbacks := [];
      for j := 0 to |results|
        invariant forall c :: c in callbacks <==> exists r :: r in results[..j] && CallbackOf(c, r)
      {
        ghost var before := callbacks;
        var r := results[j];
        for i := 1 to r.extra + 1
          invariant forall c :: c in callbacks <==> c in before || (c.0 == r.key && 1 <= c.1 < i)
        {
          callbacks := callbacks + [(r.key, i)];
        }
        assert results[..j + 1] == results[..j] + [r];
        assert forall c :: c in callbacks <==> c in before || CallbackOf(c, r);
      }
      assert results[..|results|] == results;
    }

    method AnyOver(results: seq<QuotaResult>) returns (over: bool)
      ensures over <==> SomeExceeded(results)
    {
      over := false;
      for j := 0 to |results|
        invariant over <==> exists x :: 0 <= x < j && Exceeded(results[x])
      {
        if Exceeded(results[j]) {
          over := true;
        }
      }
    }

    /** A definition is asked for: one of those that the store has for the selector
        and, only when it has none, any of those of the matching regexes. */
    ghost predicate AskedFor(s: Selector, d: Definition, regexes: map<Selector, seq<Definition>>)
      reads store
    {
      if s in store.definitions && s in store.definitionsExpireAt && store.now < store.definitionsExpireAt[s]
         && store.definitions[s] != []
      then d in store.definitions[s]
      else s in regexes && d in regexes[s]
    }

    /** The counts in (now - period, now] and those of the message are over the curb. */
    ghost predicate NoRoom(f: Factor, d: Definition)
      reads store
    {
      var scores := LiveScores(CountKey(f.selector, d.period));
      |set m | m in scores && store.now - d.period < scores[m] <= store.now| + f.extra > d.curb
    }

    /** Some definition asked for a factor has no room for it. */
    ghost predicate SomeFull(factors: seq<Factor>, regexes: map<Selector, seq<Definition>>)
      reads store
    {
      exists f, d :: f in factors && AskedFor(f.selector, d, regexes) && NoRoom(f, d)
    }

    lemma AskedForIff(regexes: map<Selector, seq<Definition>>, s: Selector, d: Definition)
      ensures AskedFor(s, d, regexes) <==> d in AskedNow(regexes)(s)
    {
      ReverseHas(Lookup(regexes, s), d);
    }

    lemma NoRoomIff(f: Factor, d: Definition)
      ensures NoRoom(f, d) <==> Exceeds(f, d, WindowsNow())
    {
      var key := CountKey(f.selector, d.period);
      var scores := LiveScores(key);
      assert scores == ScoresIn(store.counts, store.now, key);
      assert (set m | m in scores && store.now - d.period < scores[m] <= store.now)
          == Between(scores, store.now - d.period + 1, store.now);
    }

    lemma ExceedsIff(factors: seq<Factor>, regexes: map<Selector, seq<Definition>>)
      ensures AnyExceeds(factors, AskedNow(regexes), WindowsNow())
         <==> SomeFull(factors, regexes)
    {
      hide AskedFor, NoRoom, Exceeds;
      forall f: Factor, d: Definition
        ensures AskedFor(f.selector, d, regexes) <==> d in AskedNow(regexes)(f.selector)
        ensures NoRoom(f, d) <==> Exceeds(f, d, WindowsNow())
      {
        AskedForIff(regexes, f.selector, d);
        NoRoomIff(f, d);
      }
    }

    lemma CountsIff(c: (CountKey, nat), factors: seq<Factor>, regexes: map<Selector, seq<Definition>>)
      ensures Counts(c, factors, AskedNow(regexes))
         <==> exists f, d :: f in factors && AskedFor(f.selector, d, regexes)
                && c.0 == CountKey(f.selector, d.period) && 1 <= c.1 <= f.extra
    {
      hide AskedFor;
      forall f: Factor, d: Definition ensures AskedFor(f.selector, d, regexes) <==> d in AskedNow(regexes)(f.selector) {
        AskedForIff(regexes, f.selector, d);
      }
    }

    lemma SameNow(regexes: map<Selector, seq<Definition>>)
      ensures Same(regexes, AskedNow(regexes), WindowsNow())
    {
    }

    /** MessageCheck: a message is deferred when the exact window of any definition
        asked for it has no room, and its callbacks are one for each of its counts
        under each such definition. */
    method MessageCheck(factors: seq<Factor>, regexes: map<Selector, seq<Definition>>)
      returns (action: Verdict, score: int, callbacks: seq<(CountKey, nat)>)
      modifies store`counts, store`definitions, store`definitionsExpireAt
      ensures if old(AnyExceeds(factors, AskedNow(regexes), WindowsNow()))
              then action == TempFail && score == 100
              else action == Permit && score == 1
      ensures action == TempFail <==> old(SomeFull(factors, regexes))
      ensures forall c :: c in callbacks <==> Counts(c, factors, old(AskedNow(regexes)))
      ensures forall c :: c in callbacks <==>
                old(exists f, d :: f in factors && AskedFor(f.selector, d, regexes)
                      && c.0 == CountKey(f.selector, d.period) && 1 <= c.1 <= f.extra)
      ensures Same(regexes, old(AskedNow(regexes)), old(WindowsNow()))
    {
      ghost var asked, windows := AskedNow(regexes), WindowsNow();
      SameNow(regexes);
      ExceedsIff(factors, regexes);
      forall c: (CountKey, nat)
        ensures Counts(c, factors, asked)
           <==> exists f, d :: f in factors && AskedFor(f.selector, d, regexes)
                  && c.0 == CountKey(f.selector, d.period) && 1 <= c.1 <= f.extra
      {
        CountsIff(c, factors, regexes);
      }
      hide SomeFull, AskedFor;
      hide Same, Sound, Complete, AnyExceeds, Counts, Exceeded, CallbackOf;
      var results := PollFactors(factors, regexes, asked, windows);
      ResultsDecide(results, factors, asked, windows);
      callbacks := CallbacksFor(results);
      forall c ensures c in callbacks <==> Counts(c, factors, asked) {
        CallbacksCount(c, results, factors, asked, windows);
      }
      var over := AnyOver(results);
      if over {
        return TempFail, 100, callbacks;
      }
      return Permit, 1, callbacks;
    }
  }
}
