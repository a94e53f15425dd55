/** The translation service: two per-article caches, the stored API key,
    the classification of a chat-completion reply, and `translate` and
    `summarize` as pure state transitions. The remote model is an oracle
    the caller supplies: it answers the `n`-th request of one operation. */
module TranslationService {
  import opened Results
  import opened Text
  import Sanitizer
  import Chunker

  /** `AITranslationError`, plus the two errors Foundation throws through
      the service unchanged: a failed transfer and a body that is not JSON. */
  datatype ServiceError =
    | NoAPIKey
    | InvalidResponse
    | ApiError(statusCode: int, message: string)
    | Transport(reason: string)
    | MalformedJson

  /** What the chat-completion endpoint is asked for. */
  datatype Task = Translation | Summary

  /** One POST: its task (which fixes the system prompt and token limit),
      the bearer key and the user message. */
  datatype Request = Request(task: Task, key: string, content: string)

  /** What the JSON body holds: not JSON at all, JSON without
      `choices[0].message.content` as a string, or that content. */
  datatype Payload = NotJson | NoContent | Content(text: string)

  /** What came back from one request. `body` is the body decoded as UTF-8,
      `None` when it is not valid UTF-8. */
  datatype Reply =
    | TransportFailed(reason: string)
    | NotHttp
    | Http(status: int, body: Option<string>, payload: Payload)

  type Oracle = (nat, Request) -> Reply

  /** What the service makes of the answer to its `n`-th request. */
  type Asker = (nat, Request) -> Result<string, ServiceError>

  datatype Service = Service(
    translationCache: map<string, string>,
    summaryCache: map<string, string>,
    apiKey: Option<string>)

  /** The result of one operation: the new state, what the caller gets, and
      the requests sent, in order. */
  datatype Outcome = Outcome(service: Service, result: Result<string, ServiceError>, sent: seq<Request>)

  const UnknownError: string := "Unknown error"
  const Separator: string := "\n"

  // ---------------------------------------------------------------- errors

  /** Swift's decimal rendering of a non-negative `Int`. */
  function Digits(n: nat): (d: string)
    ensures d != []
    ensures forall i :: 0 <= i < |d| ==> '0' <= d[i] <= '9'
    ensures d[0] == '0' ==> n == 0
  {
    if n < 10 then ['0' + n as char]
    else Digits(n / 10) + ['0' + (n % 10) as char]
  }

  /** The value of a string of decimal digits. */
  function DigitsValue(d: string): nat
    requires forall i :: 0 <= i < |d| ==> '0' <= d[i] <= '9'
  {
    if d == [] then 0
    else DigitsValue(d[..|d| - 1]) * 10 + (d[|d| - 1] - '0') as nat
  }

  lemma {:induction false} DigitsRoundTrip(n: nat)
    ensures DigitsValue(Digits(n)) == n
    decreases n
  {
    var d := Digits(n);
    if n >= 10 {
      DigitsRoundTrip(n / 10);
      assert d[..|d| - 1] == Digits(n / 10);
    }
  }

  /** String interpolation of an `Int`: a minus sign, then the digits. */
  function DecimalString(n: int): (d: string)
    ensures d != [] && (n >= 0 <==> d[0] != '-')
    ensures forall i :: 0 <= i < |d| ==> d[i] == '-' || '0' <= d[i] <= '9'
  {
    if n < 0 then "-" + Digits(-n) else Digits(n)
  }

  /** Distinct status codes are written differently. */
  lemma DecimalStringInjective(a: int, b: int)
    requires DecimalString(a) == DecimalString(b)
    ensures a == b
  {
    var d := DecimalString(a);
    if a < 0 {
      assert b < 0;
      assert Digits(-a) == d[1..] by { assert d == "-" + Digits(-a); }
      assert Digits(-b) == d[1..] by { assert d == "-" + Digits(-b); }
      DigitsInjective(-a, -b);
    } else {
      assert b >= 0;
      DigitsInjective(a, b);
    }
  }

  lemma DigitsInjective(m: nat, n: nat)
    requires Digits(m) == Digits(n)
    ensures m == n
  {
    DigitsRoundTrip(m);
    DigitsRoundTrip(n);
  }

  /** `errorDescription`, which only `AITranslationError` provides; the
      errors Foundation throws carry their own description. */
  function ErrorDescription(e: ServiceError): (d: Option<string>)
    ensures d.Some? <==> (e.NoAPIKey? || e.InvalidResponse? || e.ApiError?)
    ensures e.ApiError? ==> d.Some? && |d.value| >= |e.message| && d.value[|d.value| - |e.message|..] == e.message
  {
    match e
    case NoAPIKey => Some("Please set your SiliconFlow API Key first.")
    case InvalidResponse => Some("Invalid response from translation API.")
    case ApiError(code, message) => Some("API Error (" + DecimalString(code) + "): " + message)
    case Transport(_) => None
    case MalformedJson => None
  }

  /** Two texts that agree after a common head agree. */
  lemma SameAfterHead(h: string, a: string, b: string)
    requires h + a == h + b
    ensures a == b
  {
    assert a == (h + a)[|h|..];
    assert b == (h + b)[|h|..];
  }

  /** A text without `)` followed by `)` is recovered from the whole: the
      first `)` ends it. */
  lemma UpToParenthesis(d1: string, t1: string, d2: string, t2: string)
    requires forall i :: 0 <= i < |d1| ==> d1[i] == '-' || '0' <= d1[i] <= '9'
    requires forall i :: 0 <= i < |d2| ==> d2[i] == '-' || '0' <= d2[i] <= '9'
    requires d1 + ")" + t1 == d2 + ")" + t2
    ensures d1 == d2 && t1 == t2
  {
    var y := d1 + ")" + t1;
    assert y[|d1|] == ')' && y[|d2|] == ')';
    assert d1 == y[..|d1|] && d2 == y[..|d2|];
    assert t1 == y[|d1| + 1..] && t2 == y[|d2| + 1..];
  }

  lemma ApiDescriptionsDiffer(c1: int, m1: string, c2: int, m2: string)
    requires "API Error (" + DecimalString(c1) + "): " + m1 == "API Error (" + DecimalString(c2) + "): " + m2
    ensures c1 == c2 && m1 == m2
  {
    var d1, d2 := DecimalString(c1), DecimalString(c2);
    var head := "API Error (";
    assert "API Error (" + d1 + "): " + m1 == head + (d1 + ")" + (": " + m1));
    assert "API Error (" + d2 + "): " + m2 == head + (d2 + ")" + (": " + m2));
    SameAfterHead(head, d1 + ")" + (": " + m1), d2 + ")" + (": " + m2));
    UpToParenthesis(d1, ": " + m1, d2, ": " + m2);
    DecimalStringInjective(c1, c2);
    SameAfterHead(": ", m1, m2);
  }

  lemma DescriptionHead(e: ServiceError)
    ensures var d := ErrorDescription(e);
      && (e.NoAPIKey? ==> d.value[0] == 'P')
      && (e.InvalidResponse? ==> d.value[0] == 'I')
      && (e.ApiError? ==> d.value[0] == 'A')
  {
  }

  /** The three described errors can be told apart by their text alone. */
  lemma DescriptionsDistinguishErrors(e1: ServiceError, e2: ServiceError)
    requires ErrorDescription(e1).Some? && ErrorDescription(e1) == ErrorDescription(e2)
    ensures e1 == e2
  {
    DescriptionHead(e1);
    DescriptionHead(e2);
    if e1.ApiError? && e2.ApiError? {
      ApiDescriptionsDiffer(e1.statusCode, e1.message, e2.statusCode, e2.message);
    }
  }

  // ------------------------------------------------------- reply handling

  /** How one reply becomes a text or an error: anything but status 200 is
      an API error carrying the body (or "Unknown error"); a body that is not
      JSON rethrows; a missing content is an invalid response; the content
      is trimmed of surrounding whitespace. */
  function Classify(reply: Reply): (r: Result<string, ServiceError>)
    ensures r.Success? <==> reply.Http? && reply.status == 200 && reply.payload.Content?
    ensures r.Success? ==> NoSpaceEnds(r.value)
    ensures r.Success? ==> exists lead :: TrimmedSlice(reply.payload.text, lead, r.value)
    ensures r == Failure(InvalidResponse) <==>
      reply.NotHttp? || (reply.Http? && reply.status == 200 && reply.payload.NoContent?)
    ensures r == Failure(MalformedJson) <==> reply.Http? && reply.status == 200 && reply.payload.NotJson?
    ensures (r.Failure? && r.error.Transport?) <==> reply.TransportFailed?
    ensures reply.TransportFailed? ==> r == Failure(Transport(reply.reason))
    ensures (r.Failure? && r.error.ApiError?) <==> reply.Http? && reply.status != 200
    ensures r.Failure? && r.error.ApiError? ==>
      r.error.statusCode == reply.status
      && (reply.body.Some? ==> r.error.message == reply.body.value)
      && (reply.body.None? ==> r.error.message == UnknownError)
  {
    match reply
    case TransportFailed(reason) => Failure(Transport(reason))
    case NotHttp => Failure(InvalidResponse)
    case Http(status, body, payload) =>
      if status != 200 then Failure(ApiError(status, body.GetOr(UnknownError)))
      else
        match payload
        case NotJson => Failure(MalformedJson)
        case NoContent => Failure(InvalidResponse)
        case Content(text) => Success(Trim(text))
  }

  /** Whitespace the model puts around its answer never reaches the caller. */
  lemma ClassifyIgnoresPadding(body: Option<string>, before: string, text: string, after: string)
    requires AllTrimSpace(before) && AllTrimSpace(after)
    ensures Classify(Http(200, body, Content(before + text + after)))
         == Classify(Http(200, body, Content(text)))
  {
    TrimIgnoresPadding(before, text, after);
  }

  /** A classified answer is already trimmed. */
  lemma ClassifiedTextIsTrimmed(reply: Reply)
    requires Classify(reply).Success?
    ensures Trim(Classify(reply).value) == Classify(reply).value
  {
    TrimIdempotent(reply.payload.text);
  }

  // ------------------------------------------------------- state and cache

  /** An API key is usable when one is stored and it is not empty. */
  function HasAPIKey(s: Service): (b: bool)
    ensures b <==> exists key :: s.apiKey == Some(key) && key != []
  {
    s.apiKey.Some? && s.apiKey.value != []
  }

  function SetAPIKey(s: Service, key: Option<string>): (r: Service)
    ensures r.apiKey == key
    ensures r.translationCache == s.translationCache && r.summaryCache == s.summaryCache
  {
    s.(apiKey := key)
  }

  lemma StoredKeyDecidesAccess(s: Service, key: string)
    ensures HasAPIKey(SetAPIKey(s, Some(key))) <==> key != []
    ensures !HasAPIKey(SetAPIKey(s, None))
  {
  }

  function CachedTranslation(s: Service, articleID: string): (r: Option<string>)
    ensures r.Some? <==> articleID in s.translationCache
    ensures r.Some? ==> r.value == s.translationCache[articleID]
  {
    if articleID in s.translationCache then Some(s.translationCache[articleID]) else None
  }

  function CachedSummary(s: Service, articleID: string): (r: Option<string>)
    ensures r.Some? <==> articleID in s.summaryCache
    ensures r.Some? ==> r.value == s.summaryCache[articleID]
  {
    if articleID in s.summaryCache then Some(s.summaryCache[articleID]) else None
  }

  /** Forget both the translation and the summary of one article. */
  function ClearCache(s: Service, articleID: string): (r: Service)
    ensures CachedTranslation(r, articleID) == None && CachedSummary(r, articleID) == None
    ensures forall other :: other != articleID ==>
      CachedTranslation(r, other) == CachedTranslation(s, other)
      && CachedSummary(r, other) == CachedSummary(s, other)
    ensures r.apiKey == s.apiKey
  {
    Service(s.translationCache - {articleID}, s.summaryCache - {articleID}, s.apiKey)
  }

  /** Clearing twice is clearing once, and clearing an article with nothing
      cached changes nothing. */
  lemma ClearCacheIdempotent(s: Service, articleID: string)
    ensures ClearCache(ClearCache(s, articleID), articleID) == ClearCache(s, articleID)
    ensures CachedTranslation(s, articleID) == None && CachedSummary(s, articleID) == None
      ==> ClearCache(s, articleID) == s
  {
    var r := ClearCache(s, articleID);
    assert ClearCache(r, articleID).translationCache == r.translationCache;
    assert ClearCache(r, articleID).summaryCache == r.summaryCache;
    if CachedTranslation(s, articleID) == None && CachedSummary(s, articleID) == None {
      assert r.translationCache == s.translationCache;
      assert r.summaryCache == s.summaryCache;
    }
  }

  // ------------------------------------------------------------ translate

  /** The requests the translation of `chunks` sends, one per chunk. */
  ghost predicate RequestsFor(sent: seq<Request>, key: string, chunks: seq<string>)
  {
    |sent| <= |chunks| && forall i {:trigger sent[i]} :: 0 <= i < |sent| ==> sent[i] == Request(Translation, key, chunks[i])
  }

  datatype Run = Run(sent: seq<Request>, outcome: Result<seq<string>, ServiceError>)

  /** The `for chunk in chunks` loop of `translate`: each chunk is sent in
      turn and the first error ends the loop. `from` numbers the requests. */
  function TranslateChunks(key: string, chunks: seq<string>, ask: Asker, from: nat): (run: Run)
    ensures RequestsFor(run.sent, key, chunks)
    ensures run.outcome.Success? ==> |run.sent| == |chunks| && |run.outcome.value| == |chunks|
    ensures run.outcome.Failure? ==> 1 <= |run.sent|
    decreases |chunks|
  {
    if chunks == [] then Run([], Success([]))
    else
      var request := Request(Translation, key, chunks[0]);
      match ask(from, request)
      case Failure(e) => Run([request], Failure(e))
      case Success(part) =>
        var rest := TranslateChunks(key, chunks[1..], ask, from + 1);
        var outcome := if rest.outcome.Failure? then Failure(rest.outcome.error)
                       else Success([part] + rest.outcome.value);
        Run([request] + rest.sent, outcome)
  }

  /** One turn of the loop after a successful answer: the request goes
      first and the rest of the loop decides the outcome. */
  lemma TranslateChunksStep(key: string, chunks: seq<string>, ask: Asker, from: nat)
    requires chunks != []
    requires ask(from, Request(Translation, key, chunks[0])).Success?
    ensures var run := TranslateChunks(key, chunks, ask, from);
      var rest := TranslateChunks(key, chunks[1..], ask, from + 1);
      var part := ask(from, Request(Translation, key, chunks[0])).value;
      && run.sent == [Request(Translation, key, chunks[0])] + rest.sent
      && (run.outcome.Success? <==> rest.outcome.Success?)
      && (run.outcome.Success? ==> run.outcome.value == [part] + rest.outcome.value)
      && (run.outcome.Failure? ==> run.outcome.error == rest.outcome.error)
  {
  }

  /** Every part of a completed loop is the answer to its chunk. */
  lemma {:induction false} CompletedLoopAnswers(key: string, chunks: seq<string>, ask: Asker, from: nat)
    requires TranslateChunks(key, chunks, ask, from).outcome.Success?
    ensures var run := TranslateChunks(key, chunks, ask, from);
      forall i :: 0 <= i < |chunks| ==>
        ask(from + i, run.sent[i]) == Success(run.outcome.value[i])
    decreases |chunks|
  {
    if chunks != [] {
      var run := TranslateChunks(key, chunks, ask, from);
      var rest := TranslateChunks(key, chunks[1..], ask, from + 1);
      TranslateChunksStep(key, chunks, ask, from);
      CompletedLoopAnswers(key, chunks[1..], ask, from + 1);
      forall i | 1 <= i < |chunks|
        ensures ask(from + i, run.sent[i]) == Success(run.outcome.value[i])
      {
        var j := i - 1;
        assert ask((from + 1) + j, rest.sent[j]) == Success(rest.outcome.value[j]);
        assert run.sent[i] == rest.sent[j];
        assert run.outcome.value[i] == rest.outcome.value[j];
        assert from + i == (from + 1) + j;
      }
    }
  }

  /** A failed loop stops at the first failing answer: every earlier answer
      was a success and nothing is sent after it. */
  lemma {:induction false} FailedLoopStops(key: string, chunks: seq<string>, ask: Asker, from: nat)
    requires TranslateChunks(key, chunks, ask, from).outcome.Failure?
    ensures var run := TranslateChunks(key, chunks, ask, from);
      && ask(from + |run.sent| - 1, run.sent[|run.sent| - 1]) == Failure(run.outcome.error)
      && forall i :: 0 <= i < |run.sent| - 1 ==> ask(from + i, run.sent[i]).Success?
    decreases |chunks|
  {
    var request := Request(Translation, key, chunks[0]);
    if ask(from, request).Success? {
      var run := TranslateChunks(key, chunks, ask, from);
      var rest := TranslateChunks(key, chunks[1..], ask, from + 1);
      TranslateChunksStep(key, chunks, ask, from);
      FailedLoopStops(key, chunks[1..], ask, from + 1);
      StopsAfter(ask, from, request, run.sent, rest.sent, run.outcome.error);
    }
  }

  /** A successful request put in front of a run that stops at its last
      request gives a run that stops at its last request. */
  lemma StopsAfter(ask: Asker, from: nat, request: Request, sent: seq<Request>,
                   rest: seq<Request>, e: ServiceError)
    requires sent == [request] + rest && ask(from, request).Success?
    requires rest != [] && ask(from + 1 + |rest| - 1, rest[|rest| - 1]) == Failure(e)
    requires forall i :: 0 <= i < |rest| - 1 ==> ask(from + 1 + i, rest[i]).Success?
    ensures ask(from + |sent| - 1, sent[|sent| - 1]) == Failure(e)
    ensures forall i :: 0 <= i < |sent| - 1 ==> ask(from + i, sent[i]).Success?
  {
    assert sent[|sent| - 1] == rest[|rest| - 1];
    forall i | 1 <= i < |sent| - 1
      ensures ask(from + i, sent[i]).Success?
    {
      assert sent[i] == rest[i - 1];
      assert from + i == from + 1 + (i - 1);
    }
  }

  /** The oracle's replies, classified. */
  function AskModel(oracle: Oracle): Asker
  {
    (n: nat, request: Request) => Classify(oracle(n, request))
  }

  /** The chunks `translate` sends for an article. */
  function TranslationChunks(html: string): (chunks: seq<string>)
    ensures |chunks| >= 1
  {
    Chunker.SplitIntoChunks(Sanitizer.CleanHTML(html), Chunker.MaxChunkLength)
  }

  /** `translate(articleID:html:)` once the article is cleaned and split:
      a cached translation wins even without a key; otherwise the chunks are
      translated in turn, the parts joined with a line feed and cached.
      `ask` sends one request and classifies the reply. */
  function TranslateChunked(s: Service, articleID: string, chunks: seq<string>, ask: Asker): (o: Outcome)
    ensures articleID in s.translationCache ==>
      o == Outcome(s, Success(s.translationCache[articleID]), [])
    ensures articleID !in s.translationCache && !HasAPIKey(s) ==>
      o == Outcome(s, Failure(NoAPIKey), [])
    ensures articleID !in s.translationCache && HasAPIKey(s) ==>
      && RequestsFor(o.sent, s.apiKey.value, chunks)
      && (o.result.Failure? ==> 1 <= |o.sent| && o.service == s)
      && (o.result.Success? ==>
            && |o.sent| == |chunks|
            && o.service == s.(translationCache := s.translationCache[articleID := o.result.value]))
    ensures o.service.summaryCache == s.summaryCache && o.service.apiKey == s.apiKey
  {
    if articleID in s.translationCache then Outcome(s, Success(s.translationCache[articleID]), [])
    else if !HasAPIKey(s) then Outcome(s, Failure(NoAPIKey), [])
    else
      var run := TranslateChunks(s.apiKey.value, chunks, ask, 0);
      match run.outcome
      case Failure(e) => Outcome(s, Failure(e), run.sent)
      case Success(parts) =>
        var text := Join(parts, Separator);
        Outcome(s.(translationCache := s.translationCache[articleID := text]), Success(text), run.sent)
  }

  /** `translate(articleID:html:)`: the article is cleaned and split into
      chunks at block starts before anything is sent. */
  function Translate(s: Service, articleID: string, html: string, oracle: Oracle): (o: Outcome)
    ensures articleID in s.translationCache ==>
      o == Outcome(s, Success(s.translationCache[articleID]), [])
    ensures articleID !in s.translationCache && !HasAPIKey(s) ==>
      o == Outcome(s, Failure(NoAPIKey), [])
    ensures articleID !in s.translationCache && HasAPIKey(s) ==>
      && 1 <= |o.sent|
      && RequestsFor(o.sent, s.apiKey.value, TranslationChunks(html))
      && (o.result.Failure? ==> o.service == s)
      && (o.result.Success? ==>
            && |o.sent| == |TranslationChunks(html)|
            && o.service == s.(translationCache := s.translationCache[articleID := o.result.value]))
    ensures o.service.summaryCache == s.summaryCache && o.service.apiKey == s.apiKey
  {
    TranslateChunked(s, articleID, TranslationChunks(html), AskModel(oracle))
  }

  /** On a miss, the translation is the answers to the chunks, in order,
      joined with line feeds; a failure is the answer to the last request
      sent, after which nothing more is asked. With `AskModel(oracle)` the
      answers are the oracle's replies, classified. */
  lemma TranslateAnswers(s: Service, articleID: string, chunks: seq<string>, ask: Asker)
    requires articleID !in s.translationCache && HasAPIKey(s)
    ensures var o := TranslateChunked(s, articleID, chunks, ask);
      && (o.result.Success? ==>
            exists parts: seq<string> ::
              && |parts| == |chunks|
              && (forall i :: 0 <= i < |chunks| ==>
                    ask(i, Request(Translation, s.apiKey.value, chunks[i])) == Success(parts[i]))
              && o.result.value == Join(parts, Separator))
      && (o.result.Failure? ==>
            && ask(|o.sent| - 1, o.sent[|o.sent| - 1]) == Failure(o.result.error)
            && forall i :: 0 <= i < |o.sent| - 1 ==> ask(i, o.sent[i]).Success?)
  {
    var run := TranslateChunks(s.apiKey.value, chunks, ask, 0);
    if run.outcome.Success? {
      SucceededAnswers(s.apiKey.value, chunks, ask, run);
    } else {
      FailedAnswers(s.apiKey.value, chunks, ask, run);
    }
  }

  /** `translate` with the remote model: on a miss with a usable key, a
      success is the classified replies to the chunks of the cleaned
      article, in order, joined with line feeds; a failure is the classified
      reply to the last request sent, after only successful replies. */
  lemma TranslateOracleAnswers(s: Service, articleID: string, html: string, oracle: Oracle)
    requires articleID !in s.translationCache && HasAPIKey(s)
    ensures var o := Translate(s, articleID, html, oracle);
      var chunks := TranslationChunks(html);
      && (o.result.Success? ==>
            exists parts: seq<string> ::
              && |parts| == |chunks|
              && (forall i :: 0 <= i < |chunks| ==>
                    Classify(oracle(i, Request(Translation, s.apiKey.value, chunks[i]))) == Success(parts[i]))
              && o.result.value == Join(parts, Separator))
      && (o.result.Failure? ==>
            && o.result == Classify(oracle(|o.sent| - 1, o.sent[|o.sent| - 1]))
            && forall i :: 0 <= i < |o.sent| - 1 ==> Classify(oracle(i, o.sent[i])).Success?)
  {
    TranslateAnswers(s, articleID, TranslationChunks(html), AskModel(oracle));
  }

  lemma SucceededAnswers(key: string, chunks: seq<string>, ask: Asker, run: Run)
    requires run == TranslateChunks(key, chunks, ask, 0) && run.outcome.Success?
    ensures |run.outcome.value| == |chunks|
    ensures forall i :: 0 <= i < |chunks| ==>
      ask(i, Request(Translation, key, chunks[i])) == Success(run.outcome.value[i])
  {
    CompletedLoopAnswers(key, chunks, ask, 0);
    forall i | 0 <= i < |chunks|
      ensures ask(i, Request(Translation, key, chunks[i])) == Success(run.outcome.value[i])
    {
      assert run.sent[i] == Request(Translation, key, chunks[i]);
      assert ask(0 + i, run.sent[i]) == Success(run.outcome.value[i]);
    }
  }

  lemma FailedAnswers(key: string, chunks: seq<string>, ask: Asker, run: Run)
    requires run == TranslateChunks(key, chunks, ask, 0) && run.outcome.Failure?
    ensures run.sent != []
    ensures ask(|run.sent| - 1, run.sent[|run.sent| - 1]) == Failure(run.outcome.error)
    ensures forall i :: 0 <= i < |run.sent| - 1 ==> ask(i, run.sent[i]).Success?
  {
    FailedLoopStops(key, chunks, ask, 0);
    var last := |run.sent| - 1;
    assert ask(0 + last, run.sent[last]) == Failure(run.outcome.error);
    forall i | 0 <= i < last
      ensures ask(i, run.sent[i]).Success?
    {
      assert ask(0 + i, run.sent[i]).Success?;
    }
  }

  /** A successful translation is served from the cache afterwards, whatever
      the article's text and whatever the oracle would answer. */
  lemma TranslateThenHit(s: Service, articleID: string, html: string, oracle: Oracle,
                         html2: string, oracle2: Oracle)
    requires Translate(s, articleID, html, oracle).result.Success?
    ensures var o := Translate(s, articleID, html, oracle);
      Translate(o.service, articleID, html2, oracle2) == Outcome(o.service, o.result, [])
  {
  }

  /** Translating one article leaves every other article's cached
      translation and summary as they were. */
  lemma TranslateLeavesOthers(s: Service, articleID: string, html: string, oracle: Oracle, other: string)
    requires other != articleID
    ensures var r := Translate(s, articleID, html, oracle).service;
      CachedTranslation(r, other) == CachedTranslation(s, other)
      && CachedSummary(r, other) == CachedSummary(s, other)
  {
  }

  /** After the cache is cleared, a translation with a key goes back to the
      model: at least one request is sent. */
  lemma ClearCacheForcesRequest(s: Service, articleID: string, html: string, oracle: Oracle)
    requires HasAPIKey(s)
    ensures |Translate(ClearCache(s, articleID), articleID, html, oracle).sent| >= 1
  {
    assert HasAPIKey(ClearCache(s, articleID));
  }

  // ------------------------------------------------------------ summarize

  /** `summarize(articleID:html:)`: a cached summary wins even without a
      key; otherwise the raw article, not the cleaned one, is sent in one
      request and the trimmed answer is cached. */
  function Summarize(s: Service, articleID: string, html: string, oracle: Oracle): (o: Outcome)
    ensures articleID in s.summaryCache ==>
      o == Outcome(s, Success(s.summaryCache[articleID]), [])
    ensures articleID !in s.summaryCache && !HasAPIKey(s) ==>
      o == Outcome(s, Failure(NoAPIKey), [])
    ensures articleID !in s.summaryCache && HasAPIKey(s) ==>
      && o.sent == [Request(Summary, s.apiKey.value, html)]
      && o.result == Classify(oracle(0, o.sent[0]))
      && (o.result.Failure? ==> o.service == s)
      && (o.result.Success? ==> o.service == s.(summaryCache := s.summaryCache[articleID := o.result.value]))
    ensures o.service.translationCache == s.translationCache && o.service.apiKey == s.apiKey
  {
    if articleID in s.summaryCache then Outcome(s, Success(s.summaryCache[articleID]), [])
    else if !HasAPIKey(s) then Outcome(s, Failure(NoAPIKey), [])
    else
      var request := Request(Summary, s.apiKey.value, html);
      match Classify(oracle(0, request))
      case Failure(e) => Outcome(s, Failure(e), [request])
      case Success(summary) =>
        Outcome(s.(summaryCache := s.summaryCache[articleID := summary]), Success(summary), [request])
  }

  /** A successful summary is served from the cache afterwards. */
  lemma SummarizeThenHit(s: Service, articleID: string, html: string, oracle: Oracle,
                         html2: string, oracle2: Oracle)
    requires Summarize(s, articleID, html, oracle).result.Success?
    ensures var o := Summarize(s, articleID, html, oracle);
      Summarize(o.service, articleID, html2, oracle2) == Outcome(o.service, o.result, [])
  {
  }

  /** A summary and a translation of the same article are cached apart:
      summarizing never answers a later translate, nor the other way. */
  lemma CachesAreIndependent(s: Service, articleID: string, html: string, oracle: Oracle)
    ensures CachedTranslation(Summarize(s, articleID, html, oracle).service, articleID)
         == CachedTranslation(s, articleID)
    ensures CachedSummary(Translate(s, articleID, html, oracle).service, articleID)
         == CachedSummary(s, articleID)
  {
  }
}
