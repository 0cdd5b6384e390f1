/** The decision logic of `fetchCat`: what one request's outcome means for
    the search, and what a whole run of up to six requests ends in. The
    network is abstracted as the sequence of outcomes the requests receive. */
module Discovery {
  import opened CatData
  import opened BanPredicate

  /** Retries allowed after the first request (`MAX_RETRIES`). */
  const MaxRetries: nat := 5

  /** What one request to the image-search endpoint comes back with: a
      response with an HTTP status and, for a successful status, the parsed
      body (an array of candidates, any of which may be null); or a thrown
      error (the transport failed, the body could not be parsed, or the
      parsed body is not an array, so that `data.find` is not a function). */
  datatype Outcome = Received(status: int, body: seq<Option<Cat>>) | Thrown(message: string)

  /** Why an attempt failed. */
  datatype Cause =
    | HttpStatus(status: int)   // `response.ok` was false
    | Network(message: string)  // the request, `response.json()` or `data.find` threw
    | Malformed                 // reading `data[0].breeds[0]` threw a TypeError

  /** The result of one attempt. */
  datatype Step = Picked(cat: Cat) | NoneUnbanned | Broke(cause: Cause)

  /** How a whole run ends. */
  datatype Ending = Found(cat: Cat) | Failed(cause: Cause) | GaveUp

  /** A run's ending and the number of requests it issued. */
  datatype Run = Run(ending: Ending, attempts: nat)

  /** `response.ok`: the status is in the 200-299 range. */
  predicate IsOk(status: int)
  {
    200 <= status <= 299
  }

  /** The diagnostic read of `data[0].breeds[0]?.name` throws when the first
      entry of a non-empty batch is null or has no `breeds` property. */
  predicate ProbeThrows(body: seq<Option<Cat>>)
  {
    |body| > 0 && (body[0].None? || body[0].value.breeds.None?)
  }

  /** The index `Array.find` stops at: the first entry the ban predicate
      does not ban, or `|body|` when every entry is banned. */
  function FirstUnbanned(body: seq<Option<Cat>>, bans: seq<BanRule>): (k: nat)
    ensures k <= |body|
    ensures forall j :: 0 <= j < k ==> IsCatBanned(body[j], bans)
    ensures k < |body| ==> !IsCatBanned(body[k], bans)
  {
    if body == [] then 0
    else if !IsCatBanned(body[0], bans) then 0
    else 1 + FirstUnbanned(body[1..], bans)
  }

  /** One attempt: errors first, then the first unbanned entry. An entry
      that `find` returns but that is null is falsy, so it counts as
      "nothing found". */
  function Attempt(bans: seq<BanRule>, o: Outcome): (s: Step)
    ensures s.Picked? ==>
      o.Received? && IsOk(o.status) && Some(s.cat) in o.body && !IsCatBanned(Some(s.cat), bans)
  {
    match o
    case Thrown(m) => Broke(Network(m))
    case Received(status, body) =>
      if !IsOk(status) then Broke(HttpStatus(status))
      else if ProbeThrows(body) then Broke(Malformed)
      else
        var k := FirstUnbanned(body, bans);
        if k < |body| && body[k].Some? then Picked(body[k].value) else NoneUnbanned
  }

  /** The steps the requests would produce, in request order. */
  function Steps(bans: seq<BanRule>, responses: seq<Outcome>): (steps: seq<Step>)
    ensures |steps| == |responses|
    ensures forall n :: 0 <= n < |responses| ==> steps[n] == Attempt(bans, responses[n])
  {
    seq(|responses|, n requires 0 <= n < |responses| => Attempt(bans, responses[n]))
  }

  /** The run that starts at retry number `retries`, given the step each
      request produces: on "nothing unbanned" it goes on while
      `retries < MaxRetries`, otherwise it stops. */
  function RunFrom(steps: seq<Step>, retries: nat): (r: Run)
    requires retries <= MaxRetries < |steps|
    ensures 1 <= r.attempts <= MaxRetries + 1 - retries
    decreases MaxRetries - retries
  {
    match steps[retries]
    case Picked(c) => Run(Found(c), 1)
    case Broke(e) => Run(Failed(e), 1)
    case NoneUnbanned =>
      if retries < MaxRetries then
        var r := RunFrom(steps, retries + 1);
        Run(r.ending, r.attempts + 1)
      else Run(GaveUp, 1)
  }

  /** A whole `fetchCat()` run from `retries = 0`, with the ban list it
      captured when it started. */
  function FetchRun(bans: seq<BanRule>, responses: seq<Outcome>): (r: Run)
    requires MaxRetries < |responses|
    ensures 1 <= r.attempts <= MaxRetries + 1
    ensures r.ending.Found? ==>
      var n := r.attempts - 1;
      responses[n].Received? && Some(r.ending.cat) in responses[n].body &&
      !IsCatBanned(Some(r.ending.cat), bans)
  {
    var steps := Steps(bans, responses);
    RunTrace(steps, 0);
    RunFrom(steps, 0)
  }

  /** The step an attempt ends a run with, as an ending. */
  function Conclude(s: Step): Ending
  {
    match s
    case Picked(c) => Found(c)
    case Broke(e) => Failed(e)
    case NoneUnbanned => GaveUp
  }

  /** The trace of a run: every attempt before the last found nothing
      unbanned, and the last one decides the ending; a run gives up only
      after the attempt with retry number `MaxRetries`. */
  lemma {:induction false} RunTrace(steps: seq<Step>, retries: nat)
    requires retries <= MaxRetries < |steps|
    ensures var r := RunFrom(steps, retries);
      var last := retries + r.attempts - 1;
      last <= MaxRetries &&
      (forall n :: retries <= n < last ==> steps[n] == NoneUnbanned) &&
      r.ending == Conclude(steps[last]) &&
      (r.ending == GaveUp ==> last == MaxRetries)
    decreases MaxRetries - retries
  {
    if steps[retries] == NoneUnbanned && retries < MaxRetries {
      RunTrace(steps, retries + 1);
    }
  }

  /** If every request finds nothing unbanned, the run issues all six
      requests and gives up. */
  lemma {:induction false} AllFruitlessGivesUp(steps: seq<Step>, retries: nat)
    requires retries <= MaxRetries < |steps|
    requires forall n :: retries <= n <= MaxRetries ==> steps[n] == NoneUnbanned
    ensures RunFrom(steps, retries) == Run(GaveUp, MaxRetries + 1 - retries)
    decreases MaxRetries - retries
  {
    if retries < MaxRetries {
      AllFruitlessGivesUp(steps, retries + 1);
    }
  }

  /** A failed attempt ends the run at once, with its cause. */
  lemma FailureStops(steps: seq<Step>, retries: nat)
    requires retries <= MaxRetries < |steps|
    requires steps[retries].Broke?
    ensures RunFrom(steps, retries) == Run(Failed(steps[retries].cause), 1)
  {
  }

  /** The diagnostic read cannot throw when the first entry is banned: the
      predicate never bans a null entry or one without `breeds`. */
  lemma BannedHeadNoProbe(bans: seq<BanRule>, body: seq<Option<Cat>>)
    requires |body| > 0 && IsCatBanned(body[0], bans)
    ensures !ProbeThrows(body)
  {
  }

  /** When every batch is a successful response whose entries are all
      banned, `fetchCat()` makes exactly six requests and gives up. */
  lemma EveryBatchBannedGivesUp(bans: seq<BanRule>, responses: seq<Outcome>)
    requires MaxRetries < |responses|
    requires forall n :: 0 <= n <= MaxRetries ==>
      responses[n].Received? && IsOk(responses[n].status) &&
      forall c :: c in responses[n].body ==> IsCatBanned(c, bans)
    ensures FetchRun(bans, responses) == Run(GaveUp, MaxRetries + 1)
  {
    var steps := Steps(bans, responses);
    forall n | 0 <= n <= MaxRetries ensures steps[n] == NoneUnbanned {
      FullyBannedBatch(bans, responses[n].status, responses[n].body);
    }
    AllFruitlessGivesUp(steps, 0);
  }

  /** A successful response whose entries are all banned finds nothing. */
  lemma FullyBannedBatch(bans: seq<BanRule>, status: int, body: seq<Option<Cat>>)
    requires IsOk(status)
    requires forall c :: c in body ==> IsCatBanned(c, bans)
    ensures Attempt(bans, Received(status, body)) == NoneUnbanned
  {
    if |body| > 0 {
      assert body[0] in body;
      BannedHeadNoProbe(bans, body);
    }
    forall j | 0 <= j < |body| ensures IsCatBanned(body[j], bans) {
      assert body[j] in body;
    }
  }

  /** An attempt picks `c` exactly when the response was successful, the
      diagnostic read did not throw, and `c` is the first entry of the batch
      the predicate does not ban. */
  lemma AttemptPicks(bans: seq<BanRule>, o: Outcome, c: Cat)
    ensures Attempt(bans, o) == Picked(c) <==>
      o.Received? && IsOk(o.status) && !ProbeThrows(o.body) &&
      exists k :: 0 <= k < |o.body| && o.body[k] == Some(c) && !IsCatBanned(o.body[k], bans) &&
        forall j :: 0 <= j < k ==> IsCatBanned(o.body[j], bans)
  {
    if o.Received? && IsOk(o.status) && !ProbeThrows(o.body) {
      var k := FirstUnbanned(o.body, bans);
      if k' :| 0 <= k' < |o.body| && o.body[k'] == Some(c) && !IsCatBanned(o.body[k'], bans) &&
               (forall j :: 0 <= j < k' ==> IsCatBanned(o.body[j], bans)) {
        assert k == k';
      }
    }
  }

  /** A null entry after the first one that `find` reaches ends the search
      of its batch: the unbanned cats after it are skipped and the run
      retries (or gives up after the last retry). */
  lemma NullEntryMasksLaterCats(bans: seq<BanRule>, status: int, body: seq<Option<Cat>>, k: nat)
    requires IsOk(status)
    requires 0 < k < |body| && body[k].None?
    requires forall j :: 0 <= j < k ==> IsCatBanned(body[j], bans)
    ensures Attempt(bans, Received(status, body)) == NoneUnbanned
  {
    BannedHeadNoProbe(bans, body);
    var i := FirstUnbanned(body, bans);
    assert !IsCatBanned(body[k], bans);
    assert i == k;
  }

  /** A null first entry never reaches `find`: the diagnostic read throws
      first and the attempt fails. */
  lemma NullHeadIsMalformed(bans: seq<BanRule>, status: int, body: seq<Option<Cat>>)
    requires IsOk(status)
    requires |body| > 0 && body[0].None?
    ensures Attempt(bans, Received(status, body)) == Broke(Malformed)
  {
  }

  /** Scenario: in a batch whose first six entries are banned
      (their breed is a banned "Persian") and whose seventh is unbanned, the
      run settles on the seventh after the first request. */
  lemma PicksSeventhWithoutRetry(bans: seq<BanRule>, responses: seq<Outcome>, c: Cat)
    requires MaxRetries < |responses|
    requires responses[0].Received? && IsOk(responses[0].status)
    requires |responses[0].body| >= 7 && responses[0].body[6] == Some(c)
    requires forall j :: 0 <= j < 6 ==> IsCatBanned(responses[0].body[j], bans)
    requires !IsCatBanned(Some(c), bans)
    ensures FetchRun(bans, responses) == Run(Found(c), 1)
  {
    BannedHeadNoProbe(bans, responses[0].body);
    AttemptPicks(bans, responses[0], c);
    assert Steps(bans, responses)[0] == Picked(c);
  }

  /** Scenario: with an empty ban list, a successful first
      batch whose first entry has breed data yields that entry at once. */
  lemma EmptyListTakesFirst(responses: seq<Outcome>, c: Cat)
    requires MaxRetries < |responses|
    requires responses[0].Received? && IsOk(responses[0].status)
    requires |responses[0].body| > 0 && responses[0].body[0] == Some(c) && c.breeds.Some?
    ensures FetchRun([], responses) == Run(Found(c), 1)
  {
    assert Steps([], responses)[0] == Attempt([], responses[0]);
  }
}
