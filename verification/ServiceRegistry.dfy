/** The registry of running services: sets in one-minute buckets whose keys expire
    (redis.go, lines 221-262). */
module ServiceRegistry {

  datatype Service = Service(hostname: string, instance: nat)

  const BUCKET: nat := 60
  const KEY_SECONDS: nat := 120

  /** The bucket of a time, which is never before 1970. */
  function StartOf(now: nat): nat {
    now - now % BUCKET
  }

  /** A set of the store and the time at which its key expires. */
  datatype Key = Key(members: set<Service>, expiresAt: int)

  function Members(keys: map<int, Key>, b: int, now: int): set<Service> {
    if b in keys && now < keys[b].expiresAt then keys[b].members else {}
  }

  /** SADD and EXPIRE. */
  function Added(keys: map<int, Key>, b: int, s: Service, now: int): map<int, Key> {
    keys[b := Key(Members(keys, b, now) + {s}, now + KEY_SECONDS)]
  }

  function Updated(keys: map<int, Key>, s: Service, now: nat): map<int, Key> {
    var start := StartOf(now) as int;
    Added(Added(Added(keys, start - BUCKET, s, now), start, s, now), start + BUCKET, s, now)
  }

  /** A hash of one instance's bucket: the service of each host. */
  datatype HashKey = HashKey(instance: nat, bucket: int)
  datatype Hash = Hash(fields: map<string, Service>, expiresAt: int)

  function Fields(hashes: map<HashKey, Hash>, k: HashKey, now: int): map<string, Service> {
    if k in hashes && now < hashes[k].expiresAt then hashes[k].fields else map[]
  }

  /** HSET and EXPIRE. */
  function HashSet(hashes: map<HashKey, Hash>, b: int, s: Service, now: int): map<HashKey, Hash> {
    var k := HashKey(s.instance, b);
    hashes[k := Hash(Fields(hashes, k, now)[s.hostname := s], now + KEY_SECONDS)]
  }

  function HashesUpdated(hashes: map<HashKey, Hash>, s: Service, now: nat): map<HashKey, Hash> {
    var start := StartOf(now) as int;
    HashSet(HashSet(HashSet(hashes, start - BUCKET, s, now), start, s, now), start + BUCKET, s, now)
  }

  class Registry {
    var now: nat
    var keys: map<int, Key>
    var hashes: map<HashKey, Hash>

    constructor (now: nat)
      ensures this.now == now && keys == map[] && hashes == map[]
    {
      this.now, keys, hashes := now, map[], map[];
    }

    /** redisUpdateRunningList, with its loop over three buckets. */
    method UpdateRunningList(s: Service)
      modifies this`keys, this`hashes
      ensures keys == Updated(old(keys), s, now) && hashes == HashesUpdated(old(hashes), s, now)
    {
      hide Added, HashSet;
      var start: int := now - now % 60;
      var i := -1;
      while i <= 1
        invariant -1 <= i <= 2
        invariant i == -1 ==> keys == old(keys)
        invariant i == 0 ==> keys == Added(old(keys), start - 60, s, now)
        invariant i == 1 ==> keys == Added(Added(old(keys), start - 60, s, now), start, s, now)
        invariant i == 2 ==> keys == Updated(old(keys), s, now)
        invariant i == -1 ==> hashes == old(hashes)
        invariant i == 0 ==> hashes == HashSet(old(hashes), start - 60, s, now)
        invariant i == 1 ==> hashes == HashSet(HashSet(old(hashes), start - 60, s, now), start, s, now)
        invariant i == 2 ==> hashes == HashesUpdated(old(hashes), s, now)
      {
        var b := start + i * 60;
        hashes := HashSet(hashes, b, s, now);
        keys := Added(keys, b, s, now);
        i := i + 1;
      }
    }

    /** redisGetServices, in the order in which the store gives the members. */
    method GetServices() returns (out: seq<Service>)
      ensures forall s :: s in out <==> s in Members(keys, StartOf(now), now)
      ensures forall i, j :: 0 <= i < j < |out| ==> out[i] != out[j]
    {
      var start := now - now % 60;
      out := [];
      var rest := Members(keys, start, now);
      while rest != {}
        invariant forall s :: s in Members(keys, start, now) <==> s in rest || s in out
        invariant forall s :: s in out ==> s !in rest
        invariant forall i, j :: 0 <= i < j < |out| ==> out[i] != out[j]
        decreases rest
      {
        var s :| s in rest;
        out := out + [s];
        rest := rest - {s};
      }
    }
  }

  // ----- Whole runs -----

  datatype Event = Pass(seconds: nat) | Update(service: Service)

  datatype Done = Done(service: Service, time: nat)

  /** The state after a run, and the updates it made. */
  datatype State = State(now: nat, keys: map<int, Key>, updates: seq<Done>)

  function Next(s: State, e: Event): State {
    match e
    case Pass(seconds) => s.(now := s.now + seconds)
    case Update(service) =>
      State(s.now, Updated(s.keys, service, s.now), s.updates + [Done(service, s.now)])
  }

  function Run(start: nat, events: seq<Event>): State {
    if events == [] then State(start, map[], [])
    else Next(Run(start, events[..|events| - 1]), events[|events| - 1])
  }

  ghost predicate Writes(d: Done, b: int) {
    var start := StartOf(d.time) as int;
    b == start - BUCKET || b == start || b == start + BUCKET
  }

  ghost predicate WroteTo(updates: seq<Done>, s: Service, b: int) {
    exists i :: 0 <= i < |updates| && updates[i].service == s && Writes(updates[i], b)
  }

  /** A bucket that is not over holds exactly the services that wrote to it, and its
      key lives at least as long as the bucket. */
  ghost predicate BucketInv(s: State, b: int) {
    && (forall x: Service :: (b in s.keys && x in s.keys[b].members) <==> WroteTo(s.updates, x, b))
    && (b in s.keys ==> s.keys[b].expiresAt >= b + BUCKET)
  }

  ghost predicate Inv(s: State) {
    && (forall b: int :: b + BUCKET > s.now ==> BucketInv(s, b))
    && forall i :: 0 <= i < |s.updates| ==> s.updates[i].time <= s.now
  }

  lemma WroteToMore(updates: seq<Done>, d: Done, s: Service, b: int)
    ensures WroteTo(updates + [d], s, b) <==> WroteTo(updates, s, b) || (d.service == s && Writes(d, b))
  {
    var more := updates + [d];
    if i :| 0 <= i < |updates| && updates[i].service == s && Writes(updates[i], b) {
      assert more[i] == updates[i];
    }
    assert more[|updates|] == d;
  }

  lemma UpdatedBucket(keys: map<int, Key>, s: Service, now: nat, b: int)
    ensures var after := Updated(keys, s, now);
            if Writes(Done(s, now), b)
            then b in after && after[b] == Key(Members(keys, b, now) + {s}, now + KEY_SECONDS)
            else (b in after <==> b in keys) && (b in keys ==> after[b] == keys[b])
  {
  }

  lemma UpdateKeepsBucket(s: State, x: Service, b: int)
    requires BucketInv(s, b) && b + BUCKET > s.now
    ensures BucketInv(Next(s, Update(x)), b)
  {
    var t := Next(s, Update(x));
    UpdatedBucket(s.keys, x, s.now, b);
    hide WroteTo, Updated;
    forall y: Service ensures (b in t.keys && y in t.keys[b].members) <==> WroteTo(t.updates, y, b) {
      WroteToMore(s.updates, Done(x, s.now), y, b);
      assert (b in s.keys && y in s.keys[b].members) <==> WroteTo(s.updates, y, b);
    }
  }

  lemma RunStep(start: nat, events: seq<Event>)
    requires events != []
    ensures Run(start, events) == Next(Run(start, events[..|events| - 1]), events[|events| - 1])
  {
  }

  lemma EmptyInv(start: nat)
    ensures Inv(State(start, map[], [])) && Run(start, []) == State(start, map[], [])
  {
  }

  lemma SameBucket(s: State, t: State, b: int)
    requires BucketInv(s, b) && t.keys == s.keys && t.updates == s.updates
    ensures BucketInv(t, b)
  {
  }

  lemma {:induction false} RunKeepsInv(start: nat, events: seq<Event>)
    ensures Inv(Run(start, events))
    decreases |events|
  {
    if events != [] {
      var init, e := events[..|events| - 1], events[|events| - 1];
      RunKeepsInv(start, init);
      var s := Run(start, init);
      var t := Next(s, e);
      hide BucketInv, Updated, Run;
      forall b: int | b + BUCKET > t.now ensures BucketInv(t, b) {
        match e
        case Pass(seconds) => SameBucket(s, t, b);
        case Update(x) => UpdateKeepsBucket(s, x, b);
      }
      RunStep(start, events);
    } else {
      EmptyInv(start);
    }
  }

  /** An update writes to the bucket before, of and after now, each for 120 seconds:
      the service to its set, and under its host to the hash of its instance. */
  lemma UpdateWrites(keys: map<int, Key>, hashes: map<HashKey, Hash>, s: Service, now: nat, b: int)
    ensures var start: int := now - now % 60;
            var k, h := Updated(keys, s, now), HashesUpdated(hashes, s, now);
            var key := HashKey(s.instance, b);
            if b in {start - 60, start, start + 60}
            then b in k && k[b] == Key(Members(keys, b, now) + {s}, now + 120)
                 && key in h && h[key] == Hash(Fields(hashes, key, now)[s.hostname := s], now + 120)
            else (b in k <==> b in keys) && (b in keys ==> k[b] == keys[b])
                 && (key in h <==> key in hashes) && (key in hashes ==> h[key] == hashes[key])
  {
  }

  /** An update at a time is in sight until the end of the bucket after its own. */
  ghost predicate InSight(d: Done, now: nat) {
    d.time <= now < StartOf(d.time) + 2 * BUCKET
  }

  ghost predicate Listed(s: State, x: Service) {
    x in Members(s.keys, StartOf(s.now), s.now)
  }

  lemma SightIff(d: Done, now: nat)
    requires d.time <= now
    ensures Writes(d, StartOf(now)) <==> InSight(d, now)
  {
    var u, t := d.time / BUCKET, now / BUCKET;
    assert StartOf(d.time) == BUCKET * u && StartOf(now) == BUCKET * t;
    assert u <= t;
  }

  /** Whatever other services do, a service is listed exactly when one of its updates
      is in sight: of an update at u, while u <= now < u - u % 60 + 120. */
  lemma ListedIff(start: nat, events: seq<Event>, x: Service)
    ensures var s := Run(start, events);
            Listed(s, x)
            <==> exists i :: 0 <= i < |s.updates| && s.updates[i].service == x
                   && s.updates[i].time <= s.now < s.updates[i].time - s.updates[i].time % 60 + 120
  {
    var s := Run(start, events);
    RunKeepsInv(start, events);
    hide Run;
    var b := StartOf(s.now);
    assert BucketInv(s, b);
    assert Listed(s, x) <==> WroteTo(s.updates, x, b);
    forall i | 0 <= i < |s.updates| ensures Writes(s.updates[i], b) <==> InSight(s.updates[i], s.now) {
      SightIff(s.updates[i], s.now);
    }
  }

  /** So updates at most d seconds apart keep a service always in sight, whenever
      they fall in the minute, exactly for d up to sixty. */
  lemma StaysInSightIff(d: nat)
    ensures (forall x, u: nat, t: nat :: u <= t <= u + d ==> InSight(Done(x, u), t)) <==> d <= 60
  {
    if d > 60 {
      var x := Service("", 0);
      assert !InSight(Done(x, 59), 120);
    }
  }

  ghost predicate UpdatedWithin(s: State, x: Service, i: nat, d: nat) {
    i < |s.updates| && s.updates[i].service == x && s.now <= s.updates[i].time + d
  }

  /** In every run a service is listed for d seconds after each of its updates. */
  ghost predicate StaysListed(d: nat) {
    forall start: nat, events: seq<Event>, x: Service, i: nat ::
      UpdatedWithin(Run(start, events), x, i, d) ==> Listed(Run(start, events), x)
  }

  /** Updates that are d seconds apart, in the last second of a minute. */
  function Late(x: Service, d: nat): seq<Event>
    requires d > 60
  {
    [Update(x), Pass(61), Pass(d - 61), Update(x)]
  }

  lemma LateRun(x: Service, d: nat)
    requires d > 60
    ensures Run(59, Late(x, d)[..2]).now == 120 && Run(59, Late(x, d)[..2]).updates == [Done(x, 59)]
    ensures Run(59, Late(x, d)).updates == [Done(x, 59), Done(x, 59 + d)]
  {
    var e := Late(x, d);
    hide Updated;
    assert e[..4] == e && e[..4][..3] == e[..3] && e[..3][..2] == e[..2] && e[..2][..1] == e[..1] && e[..1][..0] == [];
    assert Run(59, e[..1]) == Next(Run(59, []), e[0]);
    assert Run(59, e[..2]) == Next(Run(59, e[..1]), e[1]);
    assert Run(59, e[..3]) == Next(Run(59, e[..2]), e[2]);
    assert Run(59, e[..4]) == Next(Run(59, e[..3]), e[3]);
  }

  /** With any longer time between two updates there is a moment without listing. */
  lemma LateUpdatesAreMissed(x: Service, d: nat)
    requires d > 60
    ensures var s := Run(59, Late(x, d));
            |s.updates| == 2 && s.updates[1].time == s.updates[0].time + d
    ensures var s := Run(59, Late(x, d)[..2]);
            UpdatedWithin(s, x, 0, d) && !Listed(s, x)
  {
    LateRun(x, d);
    ListedIff(59, Late(x, d)[..2], x);
    hide Run, Late, Listed;
  }

  lemma FrequentUpdatesStayListed(start: nat, events: seq<Event>, x: Service, i: nat)
    requires var s := Run(start, events);
             i < |s.updates| && s.updates[i].service == x && s.now <= s.updates[i].time + 60
    ensures Listed(Run(start, events), x)
  {
    RunKeepsInv(start, events);
    ListedIff(start, events, x);
  }

  /** So a service that updates every d seconds is listed throughout every run exactly
      for d up to sixty. */
  lemma StaysListedIff(d: nat)
    ensures StaysListed(d) <==> d <= 60
  {
    hide Listed, Run;
    if d <= 60 {
      forall start: nat, events: seq<Event>, x: Service, i: nat | UpdatedWithin(Run(start, events), x, i, d)
        ensures Listed(Run(start, events), x)
      {
        FrequentUpdatesStayListed(start, events, x, i);
      }
    } else {
      LateUpdatesAreMissed(Service("", 0), d);
    }
  }
}
