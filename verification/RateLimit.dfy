/** The relay's fixed-window rate limiter over an expiring key-value store.
    Models services/relay/src/rateLimit.ts, handled serially with a clock that never goes back. Any of the
    four writes of a request may fail; a request is accepted when all of them land. */
module RateLimit {
  import opened Wrappers
  import opened Powers

  const MAX_SAFE_INTEGER: int := 9_007_199_254_740_991

  datatype Scope = PerIp | PerDestination | PerNullifier | Global

  datatype Config = Config(windowSeconds: int, perIp: int, perDestination: int, perNullifier: int, total: int) {

    predicate IsPositive() {
      && 0 < windowSeconds <= MAX_SAFE_INTEGER && 0 < perIp <= MAX_SAFE_INTEGER && 0 < perDestination <= MAX_SAFE_INTEGER
      && 0 < perNullifier <= MAX_SAFE_INTEGER && 0 < total <= MAX_SAFE_INTEGER
    }

    function Limit(scope: Scope): int {
      match scope
      case PerIp => perIp
      case PerDestination => perDestination
      case PerNullifier => perNullifier
      case Global => total
    }
  }

  /** A request, with its key parts already normalised. */
  datatype Request = Request(chainId: nat, pool: nat, ip: nat, destination: nat, nullifier: nat) {

    function Part(scope: Scope): nat {
      match scope
      case PerIp => ip
      case PerDestination => destination
      case PerNullifier => nullifier
      case Global => 0
    }
  }

  datatype CounterKey = CounterKey(chainId: nat, pool: nat, bucket: int, scope: Scope, part: nat)

  datatype Counter = Counter(count: nat, expiresAt: int)

  datatype Decision = Decision(allowed: bool, exceeded: seq<Scope>)

  datatype LimitError = NotPositive | WriteFailed

  const SCOPES := [PerIp, PerDestination, PerNullifier, Global]
  const ALL_SCOPES: set<Scope> := {PerIp, PerDestination, PerNullifier, Global}

  function KeyOf(request: Request, bucket: int, scope: Scope): CounterKey {
    CounterKey(request.chainId, request.pool, bucket, scope, request.Part(scope))
  }

  /** A request within its limits, when it came, and which of its counters were written. */
  datatype Attempt = Attempt(time: int, request: Request, landed: set<Scope>)

  function Bucket(time: int, windowSeconds: int): int
    requires windowSeconds > 0
  {
    time / windowSeconds
  }

  predicate CountsFor(a: Attempt, key: CounterKey, windowSeconds: int)
    requires windowSeconds > 0
  {
    key.scope in a.landed && KeyOf(a.request, Bucket(a.time, windowSeconds), key.scope) == key
  }

  /** How many writes a counter has seen. */
  function CountOf(log: seq<Attempt>, key: CounterKey, windowSeconds: int): nat
    requires windowSeconds > 0
  {
    if log == [] then 0
    else CountOf(log[..|log| - 1], key, windowSeconds) + if CountsFor(log[|log| - 1], key, windowSeconds) then 1 else 0
  }

  /** The attempts that were accepted: all of their counters were written. */
  function AcceptedOf(log: seq<Attempt>): seq<Attempt> {
    if log == [] then []
    else
      var last := log[|log| - 1];
      AcceptedOf(log[..|log| - 1]) + if last.landed == ALL_SCOPES then [last] else []
  }

  lemma {:induction false} AcceptedAreCounted(log: seq<Attempt>, key: CounterKey, windowSeconds: int)
    requires windowSeconds > 0
    ensures CountOf(AcceptedOf(log), key, windowSeconds) <= CountOf(log, key, windowSeconds)
  {
    if log != [] {
      var last, accepted := log[|log| - 1], AcceptedOf(log[..|log| - 1]);
      AcceptedAreCounted(log[..|log| - 1], key, windowSeconds);
      if last.landed == ALL_SCOPES {
        assert AcceptedOf(log) == accepted + [last] && (accepted + [last])[..|accepted|] == accepted;
      } else {
        assert AcceptedOf(log) == accepted;
      }
    }
  }

  lemma AcceptedStep(log: seq<Attempt>, attempt: Attempt)
    ensures AcceptedOf(log + [attempt]) == AcceptedOf(log) + if attempt.landed == ALL_SCOPES then [attempt] else []
  {
    assert (log + [attempt])[..|log|] == log;
  }

  lemma AllLandedIffNoneFails(failing: set<Scope>)
    ensures ALL_SCOPES - failing == ALL_SCOPES <==> failing == {}
  {
    forall scope: Scope
      ensures scope in ALL_SCOPES
    {
      assert SCOPES[IndexOf(scope)] == scope;
    }
  }

  /** Every counter equals the writes for its key in its bucket, stays within its limit, and outlives its
      bucket; a key without writes has no counter. */
  ghost predicate CountersHold(counters: map<CounterKey, Counter>, log: seq<Attempt>, config: Config)
    requires config.windowSeconds > 0
  {
    forall k :: CounterHolds(counters, log, config, k)
  }

  ghost predicate CounterHolds(counters: map<CounterKey, Counter>, log: seq<Attempt>, config: Config, key: CounterKey)
    requires config.windowSeconds > 0
  {
    if key in counters then
      && counters[key].count == CountOf(log, key, config.windowSeconds)
      && counters[key].count <= config.Limit(key.scope)
      && (key.bucket + 1) * config.windowSeconds <= counters[key].expiresAt
    else
      CountOf(log, key, config.windowSeconds) == 0
  }

  /** The counters after the first writes of one more request in a bucket, as far as they landed. */
  ghost predicate RecordedIn(
    before: map<CounterKey, Counter>, after: map<CounterKey, Counter>, request: Request, bucket: int, n: nat,
    landed: set<Scope>, counts: seq<nat>, expiresAt: int)
    requires |counts| == |SCOPES|
  {
    && (forall k :: k in after <==> k in before || WrittenBy(request, bucket, n, landed, k))
    && (forall k :: k in after ==>
          after[k] == if WrittenBy(request, bucket, n, landed, k) then Counter(counts[IndexOf(k.scope)] + 1, expiresAt)
                      else before[k])
  }

  /** One more write, landed or failed. */
  lemma RecordOne(
    before: map<CounterKey, Counter>, middle: map<CounterKey, Counter>, request: Request, bucket: int, n: nat,
    landed: set<Scope>, counts: seq<nat>, expiresAt: int)
    requires n < |SCOPES| == |counts| && RecordedIn(before, middle, request, bucket, n, landed, counts, expiresAt)
    ensures var after :=
        if SCOPES[n] in landed then middle[KeyOf(request, bucket, SCOPES[n]) := Counter(counts[n] + 1, expiresAt)]
        else middle;
      RecordedIn(before, after, request, bucket, n + 1, landed, counts, expiresAt)
  {
    forall k
      ensures WrittenBy(request, bucket, n + 1, landed, k)
         <==> WrittenBy(request, bucket, n, landed, k)
              || (SCOPES[n] in landed && k == KeyOf(request, bucket, SCOPES[n]))
    {
      assert IndexOf(SCOPES[n]) == n;
    }
  }

  lemma RecordingKeepsCounters(
    before: map<CounterKey, Counter>, after: map<CounterKey, Counter>, log: seq<Attempt>, config: Config,
    attempt: Attempt, counts: seq<nat>)
    requires config.windowSeconds > 0 && CountersHold(before, log, config) && |counts| == |SCOPES|
    requires var bucket := Bucket(attempt.time, config.windowSeconds);
      && RecordedIn(before, after, attempt.request, bucket, 4, attempt.landed, counts,
                    attempt.time + config.windowSeconds * 2)
      && forall scope ::
        var count := CountOf(log, KeyOf(attempt.request, bucket, scope), config.windowSeconds);
        counts[IndexOf(scope)] == count < config.Limit(scope)
    ensures CountersHold(after, log + [attempt], config)
  {
    var w, bucket := config.windowSeconds, Bucket(attempt.time, config.windowSeconds);
    InBlock(attempt.time, w, bucket);
    NextBlock(bucket, w);
    forall k
      ensures CounterHolds(after, log + [attempt], config, k)
    {
      assert (log + [attempt])[..|log|] == log;
      assert CounterHolds(before, log, config, k);
      assert WrittenBy(attempt.request, bucket, 4, attempt.landed, k) <==> CountsFor(attempt, k, w);
    }
  }

  class RelayRateLimiter {
    const config: Config
    var counters: map<CounterKey, Counter>
    var now: int
    ghost var log: seq<Attempt>

    constructor (config: Config, now: int)
      ensures Valid() && log == [] && this.config == config && this.now == now
    {
      this.config, this.now, counters, log := config, now, map[], [];
    }

    ghost predicate Valid()
      reads this
    {
      && (config.IsPositive() ==> CountersHold(counters, log, config))
      && (forall i :: 0 <= i < |log| ==> log[i].time <= now)
    }

    method AdvanceTo(time: int)
      requires Valid() && now <= time
      modifies this`now
      ensures Valid() && now == time
    {
      now := time;
    }

    /** A counter is read until it expires; a missing one counts as zero. */
    function ReadCount(key: CounterKey): nat
      reads this
    {
      if key in counters && now < counters[key].expiresAt then counters[key].count else 0
    }

    /** Throws on a configuration that is not positive. Otherwise finds a request within its limits exactly when
        all four of its counters are, and then writes those counters whose writes do not fail; it is allowed when
        none does, and throws when some do. A refused request changes no counter. */
    method CheckAndRecord(request: Request, failing: set<Scope>) returns (r: Result<Decision, LimitError>)
      requires Valid()
      modifies this`counters, this`log
      ensures Valid()
      ensures r == Failure(NotPositive) <==> !config.IsPositive()
      ensures !config.IsPositive() ==> counters == old(counters) && log == old(log)
      ensures config.IsPositive() ==>
        if exists scope :: !Fits(old(log), request, scope) then
          && r.Success? && !r.value.allowed && counters == old(counters) && log == old(log)
          && forall scope :: scope in r.value.exceeded <==> !Fits(old(log), request, scope)
        else
          && log == old(log) + [Attempt(now, request, ALL_SCOPES - failing)]
          && r == if failing == {} then Success(Decision(true, [])) else Failure(WriteFailed)
    {
      if !config.IsPositive() {
        return Failure(NotPositive);
      }
      var bucket := Bucket(now, config.windowSeconds);
      var counts, exceeded := [], [];
      for i := 0 to |SCOPES|
        invariant Valid() && counters == old(counters) && log == old(log) && |counts| == i
        invariant forall j :: 0 <= j < i ==>
          counts[j] == CountOf(log, KeyOf(request, bucket, SCOPES[j]), config.windowSeconds)
        invariant forall scope :: scope in exceeded <==> IndexOf(scope) < i && !Fits(log, request, scope)
      {
        CurrentCount(request, SCOPES[i]);
        var count := ReadCount(KeyOf(request, bucket, SCOPES[i]));
        if count + 1 > config.Limit(SCOPES[i]) {
          exceeded := exceeded + [SCOPES[i]];
        }
        counts := counts + [count];
      }
      if exceeded != [] {
        assert exceeded[0] in exceeded;
        return Success(Decision(false, exceeded));
      }
      var landed := RecordAll(request, counts, failing);
      if !landed {
        return Failure(WriteFailed);
      }
      r := Success(Decision(true, []));
    }

    /** Whether one more request stays within a counter's limit in the present bucket. */
    ghost predicate Fits(log: seq<Attempt>, request: Request, scope: Scope)
      requires config.windowSeconds > 0
      reads this`now
    {
      CountOf(log, KeyOf(request, Bucket(now, config.windowSeconds), scope), config.windowSeconds) < config.Limit(scope)
    }

    /** Inside its bucket a counter is always read live. */
    lemma CurrentCount(request: Request, scope: Scope)
      requires Valid() && config.IsPositive()
      ensures var key := KeyOf(request, Bucket(now, config.windowSeconds), scope);
              ReadCount(key) == CountOf(log, key, config.windowSeconds)
    {
      var key := KeyOf(request, Bucket(now, config.windowSeconds), scope);
      InBlock(now, config.windowSeconds, key.bucket);
      NextBlock(key.bucket, config.windowSeconds);
      assert CounterHolds(counters, log, config, key);
    }

    /** Writes the four incremented counters, except those whose writes fail. */
    method RecordAll(request: Request, counts: seq<nat>, failing: set<Scope>) returns (landed: bool)
      requires Valid() && config.IsPositive() && |counts| == |SCOPES|
      requires forall scope ::
        var key := KeyOf(request, Bucket(now, config.windowSeconds), scope);
        counts[IndexOf(scope)] == CountOf(log, key, config.windowSeconds) < config.Limit(scope)
      modifies this`counters, this`log
      ensures Valid() && log == old(log) + [Attempt(now, request, ALL_SCOPES - failing)]
      ensures landed <==> failing == {}
    {
      var bucket, expiresAt := Bucket(now, config.windowSeconds), now + config.windowSeconds * 2;
      ghost var written := ALL_SCOPES - failing;
      landed := true;
      for i := 0 to |SCOPES|
        invariant RecordedIn(old(counters), counters, request, bucket, i, written, counts, expiresAt) && log == old(log)
        invariant landed <==> forall scope :: IndexOf(scope) < i ==> scope !in failing
      {
        RecordOne(old(counters), counters, request, bucket, i, written, counts, expiresAt);
        if SCOPES[i] in failing {
          landed := false;
        } else {
          counters := counters[KeyOf(request, bucket, SCOPES[i]) := Counter(counts[i] + 1, expiresAt)];
        }
      }
      RecordingKeepsCounters(old(counters), counters, log, config, Attempt(now, request, written), counts);
      log := log + [Attempt(now, request, written)];
    }
  }

  function IndexOf(scope: Scope): (i: nat)
    ensures i < 4 && SCOPES[i] == scope
  {
    match scope
    case PerIp => 0
    case PerDestination => 1
    case PerNullifier => 2
    case Global => 3
  }

  /** Whether a key is among the first n counters of a request, and its write landed. */
  predicate WrittenBy(request: Request, bucket: int, n: nat, landed: set<Scope>, k: CounterKey) {
    KeyOf(request, bucket, k.scope) == k && IndexOf(k.scope) < n && k.scope in landed
  }

  lemma NextBlock(q: int, d: int)
    ensures (q + 1) * d == q * d + d
  {
  }

  /** How many writes to one sort of counter fall into an interval. */
  function CountIn(log: seq<Attempt>, like: CounterKey, from: int, to: int): nat {
    if log == [] then 0
    else
      var last := log[|log| - 1];
      CountIn(log[..|log| - 1], like, from, to)
        + if from <= last.time < to && like.scope in last.landed && KeyOf(last.request, like.bucket, like.scope) == like
          then 1 else 0
  }

  /** An interval of one window touches at most two buckets. */
  lemma {:induction false} WindowSpansTwoBuckets(log: seq<Attempt>, like: CounterKey, from: int, windowSeconds: int)
    requires windowSeconds > 0
    ensures var b := Bucket(from, windowSeconds);
      CountIn(log, like, from, from + windowSeconds)
      <= CountOf(log, like.(bucket := b), windowSeconds) + CountOf(log, like.(bucket := b + 1), windowSeconds)
  {
    if log != [] {
      var last, b := log[|log| - 1], Bucket(from, windowSeconds);
      WindowSpansTwoBuckets(log[..|log| - 1], like, from, windowSeconds);
      if from <= last.time < from + windowSeconds {
        InBlock(from, windowSeconds, b);
        NextBlock(b, windowSeconds);
        NextBlock(b + 1, windowSeconds);
        InBlock(last.time, windowSeconds, b);
        InBlock(last.time, windowSeconds, b + 1);
      }
    }
  }

  /** In any reachable state, any interval of one window has admitted at most twice the limit. */
  lemma AtMostTwiceTheLimit(limiter: RelayRateLimiter, like: CounterKey, from: int)
    requires limiter.Valid() && limiter.config.IsPositive()
    ensures WithinTwice(AcceptedOf(limiter.log), limiter.config, like, from)
  {
    var w, accepted := limiter.config.windowSeconds, AcceptedOf(limiter.log);
    var b := Bucket(from, w);
    WindowSpansTwoBuckets(accepted, like, from, w);
    AcceptedAreCounted(limiter.log, like.(bucket := b), w);
    AcceptedAreCounted(limiter.log, like.(bucket := b + 1), w);
    assert CounterHolds(limiter.counters, limiter.log, limiter.config, like.(bucket := b));
    assert CounterHolds(limiter.counters, limiter.log, limiter.config, like.(bucket := b + 1));
  }

  /** The window from a time on admitted at most twice the limit of a sort of request. */
  ghost predicate WithinTwice(accepted: seq<Attempt>, config: Config, like: CounterKey, from: int) {
    CountIn(accepted, like, from, from + config.windowSeconds) <= 2 * config.Limit(like.scope)
  }

  /** A request, and which of its writes will fail. */
  datatype Arrival = Arrival(time: int, request: Request, failing: set<Scope>)

  /** Whatever requests arrive, in whatever nondecreasing times, and whichever writes fail, every window admits
      at most twice the limit of every key; a configuration that is not positive admits nothing. */
  method ServeAll(config: Config, arrivals: seq<Arrival>) returns (outcomes: seq<Result<Decision, LimitError>>)
    requires forall i, j :: 0 <= i < j < |arrivals| ==> arrivals[i].time <= arrivals[j].time
    ensures |outcomes| == |arrivals|
    ensures config.IsPositive() ==> forall like, from :: WithinTwice(AllowedOf(arrivals, outcomes), config, like, from)
    ensures !config.IsPositive() ==> AllowedOf(arrivals, outcomes) == []
  {
    outcomes := [];
    var limiter := new RelayRateLimiter(config, if arrivals == [] then 0 else arrivals[0].time);
    for k := 0 to |arrivals|
      invariant fresh(limiter) && limiter.Valid() && limiter.config == config && |outcomes| == k
      invariant k < |arrivals| ==> limiter.now <= arrivals[k].time
      invariant AcceptedOf(limiter.log) == AllowedOf(arrivals[..k], outcomes)
      invariant !config.IsPositive() ==> limiter.log == []
    {
      limiter.AdvanceTo(arrivals[k].time);
      AcceptedStep(limiter.log, Attempt(limiter.now, arrivals[k].request, ALL_SCOPES - arrivals[k].failing));
      AllLandedIffNoneFails(arrivals[k].failing);
      var r := limiter.CheckAndRecord(arrivals[k].request, arrivals[k].failing);
      AllowedStep(arrivals[..k], outcomes, arrivals[k], r);
      assert arrivals[..k] + [arrivals[k]] == arrivals[..k + 1];
      outcomes := outcomes + [r];
    }
    assert arrivals[..|arrivals|] == arrivals;
    if config.IsPositive() {
      forall like, from
        ensures WithinTwice(AllowedOf(arrivals, outcomes), config, like, from)
      {
        AtMostTwiceTheLimit(limiter, like, from);
      }
    }
  }

  predicate IsAllowed(outcome: Result<Decision, LimitError>) {
    outcome.Success? && outcome.value.allowed
  }

  /** The accepted requests among arrivals, by their outcomes. */
  ghost function AllowedOf(arrivals: seq<Arrival>, outcomes: seq<Result<Decision, LimitError>>): seq<Attempt>
    requires |outcomes| == |arrivals|
  {
    if arrivals == [] then []
    else
      var n := |arrivals| - 1;
      AllowedOf(arrivals[..n], outcomes[..n])
        + if IsAllowed(outcomes[n]) then [Attempt(arrivals[n].time, arrivals[n].request, ALL_SCOPES)] else []
  }

  lemma AllowedStep(
    arrivals: seq<Arrival>, outcomes: seq<Result<Decision, LimitError>>, arrival: Arrival,
    outcome: Result<Decision, LimitError>)
    requires |outcomes| == |arrivals|
    ensures AllowedOf(arrivals + [arrival], outcomes + [outcome])
         == AllowedOf(arrivals, outcomes)
            + if IsAllowed(outcome) then [Attempt(arrival.time, arrival.request, ALL_SCOPES)] else []
  {
    assert (arrivals + [arrival])[..|arrivals|] == arrivals && (outcomes + [outcome])[..|outcomes|] == outcomes;
  }

  // The bound for each limit by its own name.

  /** How many attempts meet a condition. */
  function CountIf(log: seq<Attempt>, holds: Attempt -> bool): nat {
    if log == [] then 0 else CountIf(log[..|log| - 1], holds) + if holds(log[|log| - 1]) then 1 else 0
  }

  lemma {:induction false} CountInIsCountIf(log: seq<Attempt>, like: CounterKey, from: int, to: int, holds: Attempt -> bool)
    requires forall a :: holds(a) <==>
      from <= a.time < to && like.scope in a.landed && KeyOf(a.request, like.bucket, like.scope) == like
    ensures CountIf(log, holds) == CountIn(log, like, from, to)
  {
    if log != [] {
      CountInIsCountIf(log[..|log| - 1], like, from, to, holds);
    }
  }

  lemma {:induction false} CountIfSame(log: seq<Attempt>, p: Attempt -> bool, q: Attempt -> bool)
    requires forall i :: 0 <= i < |log| ==> p(log[i]) == q(log[i])
    ensures CountIf(log, p) == CountIf(log, q)
  {
    if log != [] {
      CountIfSame(log[..|log| - 1], p, q);
    }
  }

  lemma {:induction false} AcceptedAreLanded(log: seq<Attempt>)
    ensures forall i :: 0 <= i < |AcceptedOf(log)| ==> AcceptedOf(log)[i].landed == ALL_SCOPES
  {
    if log != [] {
      AcceptedAreLanded(log[..|log| - 1]);
    }
  }

  /** The accepted requests that meet a condition in a window stay within twice a limit, when the condition says what
      a key of that limit says. */
  lemma WithinTwiceBy(limiter: RelayRateLimiter, like: CounterKey, from: int, holds: Attempt -> bool)
    requires limiter.Valid() && limiter.config.IsPositive()
    requires forall a :: holds(a) <==>
      from <= a.time < from + limiter.config.windowSeconds && KeyOf(a.request, like.bucket, like.scope) == like
    ensures CountIf(AcceptedOf(limiter.log), holds) <= 2 * limiter.config.Limit(like.scope)
  {
    var accepted, to := AcceptedOf(limiter.log), from + limiter.config.windowSeconds;
    var landed := (a: Attempt) =>
      from <= a.time < to && like.scope in a.landed && KeyOf(a.request, like.bucket, like.scope) == like;
    AcceptedAreLanded(limiter.log);
    assert like.scope in ALL_SCOPES by {
      assert SCOPES[IndexOf(like.scope)] == like.scope;
    }
    CountIfSame(accepted, holds, landed);
    CountInIsCountIf(accepted, like, from, to, landed);
    AtMostTwiceTheLimit(limiter, like, from);
  }

  /** In any reachable state any interval of one window accepted, for one chain and pool: from one address at most
      twice the limit per address, to one destination at most twice the limit per destination, of one nullifier at
      most twice the limit per nullifier, and altogether at most twice the total limit. */
  lemma EachLimitHoldsTwice(limiter: RelayRateLimiter, of: Request, from: int)
    requires limiter.Valid() && limiter.config.IsPositive()
    ensures var accepted, to := AcceptedOf(limiter.log), from + limiter.config.windowSeconds;
      && CountIf(accepted, (a: Attempt) =>
           from <= a.time < to && a.request.chainId == of.chainId && a.request.pool == of.pool && a.request.ip == of.ip)
         <= 2 * limiter.config.perIp
      && CountIf(accepted, (a: Attempt) =>
           from <= a.time < to && a.request.chainId == of.chainId && a.request.pool == of.pool
           && a.request.destination == of.destination)
         <= 2 * limiter.config.perDestination
      && CountIf(accepted, (a: Attempt) =>
           from <= a.time < to && a.request.chainId == of.chainId && a.request.pool == of.pool
           && a.request.nullifier == of.nullifier)
         <= 2 * limiter.config.perNullifier
      && CountIf(accepted, (a: Attempt) =>
           from <= a.time < to && a.request.chainId == of.chainId && a.request.pool == of.pool)
         <= 2 * limiter.config.total
  {
    var to := from + limiter.config.windowSeconds;
    WithinTwiceBy(limiter, KeyOf(of, 0, PerIp), from, (a: Attempt) =>
      from <= a.time < to && a.request.chainId == of.chainId && a.request.pool == of.pool && a.request.ip == of.ip);
    WithinTwiceBy(limiter, KeyOf(of, 0, PerDestination), from, (a: Attempt) =>
      from <= a.time < to && a.request.chainId == of.chainId && a.request.pool == of.pool
      && a.request.destination == of.destination);
    WithinTwiceBy(limiter, KeyOf(of, 0, PerNullifier), from, (a: Attempt) =>
      from <= a.time < to && a.request.chainId == of.chainId && a.request.pool == of.pool
      && a.request.nullifier == of.nullifier);
    WithinTwiceBy(limiter, KeyOf(of, 0, Global), from, (a: Attempt) =>
      from <= a.time < to && a.request.chainId == of.chainId && a.request.pool == of.pool);
  }

  /** What a counter counts: the writes of its bucket for its chain, pool and part. */
  lemma {:induction false} CountersCount(log: seq<Attempt>, of: Request, bucket: int, windowSeconds: int)
    requires windowSeconds > 0
    ensures CountOf(log, KeyOf(of, bucket, PerIp), windowSeconds) == CountIf(log, (a: Attempt) =>
      PerIp in a.landed && a.time / windowSeconds == bucket && a.request.chainId == of.chainId
      && a.request.pool == of.pool && a.request.ip == of.ip)
    ensures CountOf(log, KeyOf(of, bucket, PerDestination), windowSeconds) == CountIf(log, (a: Attempt) =>
      PerDestination in a.landed && a.time / windowSeconds == bucket && a.request.chainId == of.chainId
      && a.request.pool == of.pool && a.request.destination == of.destination)
    ensures CountOf(log, KeyOf(of, bucket, PerNullifier), windowSeconds) == CountIf(log, (a: Attempt) =>
      PerNullifier in a.landed && a.time / windowSeconds == bucket && a.request.chainId == of.chainId
      && a.request.pool == of.pool && a.request.nullifier == of.nullifier)
    ensures CountOf(log, KeyOf(of, bucket, Global), windowSeconds) == CountIf(log, (a: Attempt) =>
      Global in a.landed && a.time / windowSeconds == bucket && a.request.chainId == of.chainId
      && a.request.pool == of.pool)
  {
    if log != [] {
      CountersCount(log[..|log| - 1], of, bucket, windowSeconds);
    }
  }
}
