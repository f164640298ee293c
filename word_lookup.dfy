/** The word-lookup hook: the query is enabled only for a word that is not
    blank, its fetch asks the lookup route for the trimmed word and rejects on a
    blank word or a status outside 200–299, and failed attempts are retried
    twice with a capped exponential back-off. */
module WordLookup {
  import opened Collections
  import opened Text
  import opened Lexicon
  import opened LookupTypes
  import opened LookupHandler

  /** `retry: 2`: a failed query is tried again at most twice. */
  const Retry: nat := 2

  /** `staleTime`, one day in milliseconds. */
  const StaleTime: nat := 1000 * 60 * 60 * 24

  /** The cap of the back-off, in milliseconds. */
  const MaxRetryDelay: nat := 30000

  /** `2 ** n`. */
  function Pow2(n: nat): (r: nat)
    ensures r >= 1
  {
    if n == 0 then 1 else 2 * Pow2(n - 1)
  }

  /** Powers of two grow with the exponent. */
  lemma {:induction false} Pow2Monotone(m: nat, n: nat)
    requires m <= n
    ensures Pow2(m) <= Pow2(n)
    decreases n
  {
    if m < n {
      Pow2Monotone(m, n - 1);
    }
  }

  /** `retryDelay`: the wait before the retry after `attemptIndex` failures,
      doubling from one second and never more than thirty. */
  function RetryDelay(attemptIndex: nat): (r: nat)
    ensures 1000 <= r <= MaxRetryDelay
    ensures r <= 1000 * Pow2(attemptIndex)
    ensures r < MaxRetryDelay ==> r == 1000 * Pow2(attemptIndex)
  {
    if 1000 * Pow2(attemptIndex) < MaxRetryDelay then 1000 * Pow2(attemptIndex) else MaxRetryDelay
  }

  /** A later attempt never waits less. */
  lemma RetryDelayMonotone(m: nat, n: nat)
    requires m <= n
    ensures RetryDelay(m) <= RetryDelay(n)
  {
    Pow2Monotone(m, n);
  }

  /** The waits are 1, 2, 4, 8 and 16 seconds, then 30 seconds from the sixth
      attempt index on. */
  lemma RetryDelayValues(n: nat)
    ensures RetryDelay(0) == 1000 && RetryDelay(1) == 2000 && RetryDelay(2) == 4000
    ensures RetryDelay(3) == 8000 && RetryDelay(4) == 16000
    ensures n >= 5 ==> RetryDelay(n) == MaxRetryDelay
  {
    assert Pow2(4) == 16 by {
      assert Pow2(1) == 2 && Pow2(2) == 4 && Pow2(3) == 8;
    }
    if n >= 5 {
      Pow2Monotone(5, n);
    }
  }

  /** `enabled`: the query runs only for a word with a character that is not
      white space. */
  function Enabled(word: string): (r: bool)
    ensures r <==> exists i :: 0 <= i < |word| && !IsJsSpace(word[i])
  {
    word != [] && Trim(word) != []
  }

  /** The decimal digits of `n`, as a template literal writes a non-negative
      integer. */
  function NatToString(n: nat): (s: string)
    ensures s != []
    ensures forall i :: 0 <= i < |s| ==> '0' <= s[i] <= '9'
    decreases n
  {
    var digit := ['0' + (n % 10) as char];
    if n < 10 then digit else NatToString(n / 10) + digit
  }

  /** The number a string of decimal digits denotes. */
  function DigitsValue(s: string): nat
    requires forall i :: 0 <= i < |s| ==> '0' <= s[i] <= '9'
    decreases |s|
  {
    if s == [] then 0
    else 10 * DigitsValue(s[..|s| - 1]) + (s[|s| - 1] - '0') as nat
  }

  /** Reading the digits back gives the number. */
  lemma {:induction false} NatToStringValue(n: nat)
    ensures DigitsValue(NatToString(n)) == n
    decreases n
  {
    var s := NatToString(n);
    assert s[|s| - 1] == '0' + (n % 10) as char;
    if n >= 10 {
      NatToStringValue(n / 10);
      assert s[..|s| - 1] == NatToString(n / 10);
    }
  }

  /** A status in a template literal: a minus sign before a negative number. */
  function IntToString(i: int): (s: string)
    ensures s != []
    ensures i < 0 <==> s[0] == '-'
  {
    if i < 0 then "-" + NatToString(-i) else NatToString(i)
  }

  /** The JSON body of the route's answer: the lookup response, or the
      `{ error }` object of a refusal. */
  datatype LookupData = Found(response: LookupResponse) | ErrorBody(error: string)

  /** What `fetch` resolves with: the status and the parsed body. */
  datatype HttpResponse = HttpResponse(status: int, data: LookupData)

  /** The HTTP response the lookup route sends for its answer. */
  function Served(a: RouteAnswer): (r: HttpResponse)
    ensures a.Ok? ==> r.status == 200 && r.data == Found(a.body)
    ensures a.Failure? ==> r.status == a.status && r.data == ErrorBody(a.error)
  {
    match a
    case Ok(body) => HttpResponse(200, Found(body))
    case Failure(status, error) => HttpResponse(status, ErrorBody(error))
  }

  /** `response.ok`. */
  predicate IsOk(r: HttpResponse) {
    200 <= r.status <= 299
  }

  /** One run of `fetchWordLookup`: the word sent to the route, if a request is
      made, and how the promise settles. */
  datatype FetchOutcome = FetchOutcome(requested: Option<string>, result: Settled<LookupData>)

  /** `fetchWordLookup(word)` when the request, if one is made, resolves with
      `response` (`None`: the request itself failed). A blank word is rejected
      with no request; otherwise the trimmed word is requested, a status
      outside 200–299 is rejected with that status in the message, and any
      other response settles with its body. */
  function FetchWordLookup(word: string, response: Option<HttpResponse>): (o: FetchOutcome)
    ensures o.requested.None? <==> IsBlank(word)
    ensures o.requested.None? ==> o.result == Rejected("Word is required")
    ensures o.requested.Some? ==> o.requested.value == Trim(word) && o.requested.value != []
    ensures o.result.Fulfilled? <==> !IsBlank(word) && response.Some? && IsOk(response.value)
    ensures o.result.Fulfilled? ==> o.result.value == response.value.data
    ensures !IsBlank(word) && response.Some? && !IsOk(response.value) ==>
      o.result == Rejected("HTTP error! status: " + IntToString(response.value.status))
  {
    if word == [] || Trim(word) == [] then FetchOutcome(None, Rejected("Word is required"))
    else
      var requested := Some(Trim(word));
      match response
      case None => FetchOutcome(requested, Rejected("Failed to fetch"))
      case Some(r) =>
        if !IsOk(r) then FetchOutcome(requested, Rejected("HTTP error! status: " + IntToString(r.status)))
        else FetchOutcome(requested, Fulfilled(r.data))
  }

  /** The query is enabled exactly for the words its fetch would send. */
  lemma EnabledMatchesGuard(word: string, response: Option<HttpResponse>)
    ensures Enabled(word) <==> FetchWordLookup(word, response).requested.Some?
  {
  }

  /** The route never refuses a word the hook sends: the request for the trimmed
      word is answered with status 200, so the fetch fulfils with the lookup
      response, which carries translations and, since the hook asks for none,
      no etymology. */
  lemma HookNeverRefused(jwn: WordTable, omw: SynsetTable, word: string, up: Upstream, now: string)
    requires !IsBlank(word)
    ensures var answer := Lookup(jwn, omw, FetchWordLookup(word, None).requested, None, up, now);
      && answer.Ok?
      && FetchWordLookup(word, Some(Served(answer))).result == Fulfilled(Found(answer.body))
      && answer.body.translations.Some?
      && answer.body.etymology == None
  {
  }

  /** A refusal of the route would surface as its status in the rejection. */
  lemma RefusalMessage(word: string, error: string)
    requires !IsBlank(word)
    ensures FetchWordLookup(word, Some(Served(Failure(400, error)))).result == Rejected("HTTP error! status: 400")
  {
    StatusText400();
  }

  /** The status 400 is written `400`. */
  lemma StatusText400()
    ensures IntToString(400) == "400"
  {
    assert NatToString(4) == "4";
    assert NatToString(40) == "40";
  }
}
