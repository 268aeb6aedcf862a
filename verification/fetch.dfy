/** The retry loop of `get_good_practices` in scrape_ce.py.

    The network is an oracle: `respond(k)` is what the k-th request (counting
    from 1) yields. Sleeping is only counted. */
module Fetch {
  import opened Extract
  import opened Practice

  /** One request: a response with a status code and the cards of its body, or a
      request exception (connection error, timeout). */
  datatype Attempt = Response(status: int, page: seq<Card>) | RequestFailed

  /** What a call returns: its records, and how many requests and sleeps it made. */
  datatype Fetched = Fetched(records: seq<GoodPractice>, attempts: nat, sleeps: nat)

  /** Only a 200 response ends the loop. */
  predicate Succeeded(a: Attempt) {
    a.Response? && a.status == 200
  }


  /** The number of requests the loop may make: `range(1, retries + 1)`. */
  function Budget(retries: int): nat {
    if retries > 0 then retries else 0
  }

  /** `get_good_practices`: try up to `retries` times, return the parse of the
      first 200 response (even when it holds no cards), sleep only between
      attempts, and give up with no records. */
  method GetGoodPractices(respond: nat -> Attempt, retries: int) returns (r: Fetched)
    requires forall k: nat ::
               (1 <= k <= retries && Succeeded(respond(k)) && forall j :: 1 <= j < k ==> !Succeeded(respond(j)))
               ==> AllHrefsPresent(respond(k).page)
    ensures 0 <= r.attempts <= Budget(retries)
    ensures forall k :: 1 <= k < r.attempts ==> !Succeeded(respond(k))
    ensures 1 <= r.attempts <= retries && Succeeded(respond(r.attempts)) ==>
              r.records == ParsePractices(respond(r.attempts).page)
    ensures r.attempts == 0 || !Succeeded(respond(r.attempts)) ==>
              r.records == [] && r.attempts == Budget(retries)
    ensures r.sleeps == if r.attempts == 0 then 0 else r.attempts - 1
  {
    var attempt: nat := 1;
    var sleeps: nat := 0;
    while attempt <= retries
      invariant 1 <= attempt <= Budget(retries) + 1
      invariant forall k :: 1 <= k < attempt ==> !Succeeded(respond(k))
      invariant attempt <= retries ==> sleeps == attempt - 1
      invariant attempt > retries && attempt > 1 ==> sleeps == attempt - 2
      invariant attempt == 1 ==> sleeps == 0
      decreases retries - attempt
    {
      var outcome := respond(attempt);
      if outcome.Response? && outcome.status == 200 {
        return Fetched(ParsePractices(outcome.page), attempt, sleeps);
      }
      if attempt < retries {
        sleeps := sleeps + 1;
      }
      attempt := attempt + 1;
    }
    r := Fetched([], attempt - 1, sleeps);
  }
}
