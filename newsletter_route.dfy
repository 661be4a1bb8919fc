/** `POST /api/newsletter`: validate an e-mail address and subscribe it with
    the Buttondown API when an API key is configured. The request body, the
    key from the environment and Buttondown's answer are inputs. */
module NewsletterRoute {
  import opened SeqUtil
  import opened EmailFormat
  import opened HttpResponse

  datatype NewsletterRequest = NewsletterRequest(email: Option<string>)

  /** The body of a non-ok answer as `response.json()` reads it: unreadable
      (not JSON, or JSON `null`, so reading `data.email` throws), or a JSON
      value whose `email` member is truthy or not. */
  datatype ProviderBody = Unreadable | JsonBody(hasEmail: bool)

  /** What Buttondown does with the POST: answer, or fail to answer at all. */
  datatype ProviderOutcome = ProviderResponse(status: int, body: ProviderBody) | ProviderUnreachable

  /** The subscription request: URL, `Authorization` header and JSON body
      `{ email, tags }`. */
  datatype Subscription = Subscription(url: string, authorization: string, email: string, tags: seq<string>)

  const SubscribersUrl := "https://api.buttondown.email/v1/subscribers"
  const EmailRequired := "Email is required."
  const AlreadySubscribed := "You're already subscribed! Check your inbox."
  const Subscribed := "You're in! Check your inbox for a confirmation."

  function SubscriptionFor(email: string, apiKey: string): Subscription
  {
    Subscription(SubscribersUrl, "Token " + apiKey, email, ["website"])
  }

  /** Buttondown's answer mapped to the handler's response. */
  function ProviderAnswer(provider: ProviderOutcome): Response
  {
    match provider
    case ProviderUnreachable => Response(500, Error(GenericError))
    case ProviderResponse(status, body) =>
      if IsOk(status) then Response(200, Message(Subscribed))
      else if body.JsonBody? && status == 400 && body.hasEmail then Response(200, Message(AlreadySubscribed))
      else Response(500, Error(GenericError))
  }

  /** The handler. `body` is None when the request body cannot be read: it
      is not valid JSON (`request.json()` throws) or it is JSON `null` (the
      destructuring throws). Any other JSON value that is not an object (a
      number, a string, a boolean, an array) has no `email` member and is
      `NewsletterRequest(None)`. */
  function Post(body: Option<NewsletterRequest>, apiKey: Option<string>, provider: ProviderOutcome): (r: Handled<Subscription>)
    ensures r.response.status in {200, 400, 500}
    ensures r.response.status == 200 <==> r.response.body.Message?
    ensures body.None? ==> r == Handled(Response(500, Error(GenericError)), None)
    ensures r.call.Some? <==>
      body.Some? && Truthy(body.value.email) && MatchesEmailRegex(body.value.email.value) && Truthy(apiKey)
    ensures r.call.Some? ==> r.call.value.email == body.value.email.value && r.call.value.tags == ["website"]
    ensures r.response.status == 400 <==>
      body.Some? && !(Truthy(body.value.email) && MatchesEmailRegex(body.value.email.value))
  {
    match body
    case None => Handled(Response(500, Error(GenericError)), None)
    case Some(req) =>
      if !Truthy(req.email) then
        Handled(Response(400, Error(EmailRequired)), None)
      else if !MatchesEmailRegex(req.email.value) then
        Handled(Response(400, Error(InvalidEmail)), None)
      else if Truthy(apiKey) then
        Handled(ProviderAnswer(provider), Some(SubscriptionFor(req.email.value, apiKey.value)))
      else
        Handled(Response(200, Message(Subscribed)), None)
  }

  /** A missing or empty e-mail is refused and nothing is sent. */
  lemma MissingEmailIsRejected(req: NewsletterRequest, apiKey: Option<string>, provider: ProviderOutcome)
    requires !Truthy(req.email)
    ensures Post(Some(req), apiKey, provider) == Handled(Response(400, Error(EmailRequired)), None)
  {
  }

  /** A body such as `42`, `"x"`, `true` or `[]` has no `email` member: it
      is refused as a missing e-mail, not with the generic error. */
  lemma NonObjectBodyLacksEmail(apiKey: Option<string>, provider: ProviderOutcome)
    ensures Post(Some(NewsletterRequest(None)), apiKey, provider) == Handled(Response(400, Error(EmailRequired)), None)
  {
    MissingEmailIsRejected(NewsletterRequest(None), apiKey, provider);
  }

  /** A present e-mail is refused exactly when it is not a single-`@`
      address with a dotted domain. */
  lemma BadEmailIsRejected(req: NewsletterRequest, apiKey: Option<string>, provider: ProviderOutcome)
    requires Truthy(req.email)
    ensures !IsWellFormedEmail(req.email.value) <==>
      Post(Some(req), apiKey, provider) == Handled(Response(400, Error(InvalidEmail)), None)
  {
    EmailRegexCharacterisation(req.email.value);
  }

  /** Without an API key a valid address is welcomed and nothing is sent. */
  lemma UnconfiguredProviderStillWelcomes(req: NewsletterRequest, apiKey: Option<string>, provider: ProviderOutcome)
    requires Truthy(req.email) && IsWellFormedEmail(req.email.value) && !Truthy(apiKey)
    ensures Post(Some(req), apiKey, provider) == Handled(Response(200, Message(Subscribed)), None)
  {
    EmailRegexCharacterisation(req.email.value);
  }

  /** With a key, one subscription request is sent to Buttondown with the
      `Token` authorization, the address and the `website` tag. An ok answer
      welcomes the subscriber; a 400 whose body names the e-mail reports an
      existing subscription as a success; every other answer is the generic
      500 error, never Buttondown's own status. */
  lemma ConfiguredProviderDecides(req: NewsletterRequest, apiKey: Option<string>, provider: ProviderOutcome)
    requires Truthy(req.email) && IsWellFormedEmail(req.email.value) && Truthy(apiKey)
    ensures var r := Post(Some(req), apiKey, provider);
      && r.call == Some(Subscription("https://api.buttondown.email/v1/subscribers",
                                     "Token " + apiKey.value, req.email.value, ["website"]))
      && (r.response.status == 200 <==>
            (provider.ProviderResponse? &&
             (IsOk(provider.status) || (provider.status == 400 && provider.body == JsonBody(true)))))
      && (provider.ProviderResponse? && IsOk(provider.status) ==> r.response.body == Message(Subscribed))
      && (provider.ProviderResponse? && provider.status == 400 && provider.body == JsonBody(true) ==>
            r.response.body == Message(AlreadySubscribed))
      && (r.response.status != 200 ==> r.response == Response(500, Error(GenericError)))
  {
    EmailRegexCharacterisation(req.email.value);
  }

  /** An address without `@` is refused with a 400, whatever the
      configuration and the provider would do. */
  lemma NotAnEmailIsRejected(apiKey: Option<string>, provider: ProviderOutcome)
    ensures Post(Some(NewsletterRequest(Some("not-an-email"))), apiKey, provider).response ==
      Response(400, Error(InvalidEmail))
  {
    var s := "not-an-email";
    assert forall i :: 0 <= i < |s| ==> s[i] != '@';
  }
}
