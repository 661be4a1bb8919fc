/** `POST /api/contact`: validate a project inquiry and forward it to a
    spreadsheet webhook when one is configured. The request body, the
    webhook URL from the environment and the webhook's answer are inputs;
    the response and the forwarded request are the result. */
module ContactRoute {
  import opened SeqUtil
  import opened EmailFormat
  import opened HttpResponse

  /** The fields the handler reads from the parsed JSON body. */
  datatype ContactRequest = ContactRequest(
    name: Option<string>,
    email: Option<string>,
    company: Option<string>,
    projectType: Option<string>,
    budget: Option<string>,
    timeline: Option<string>,
    description: Option<string>)

  /** The JSON object posted to the webhook. */
  datatype SheetsPayload = SheetsPayload(
    name: string,
    email: string,
    company: string,
    projectType: string,
    budget: string,
    timeline: string,
    description: string)

  datatype SheetsPost = SheetsPost(url: string, payload: SheetsPayload)

  /** What the webhook does with the POST: answer with a status, or fail to
      answer at all (`fetch` rejects). */
  datatype WebhookOutcome = WebhookResponse(status: int) | WebhookUnreachable

  const RequiredFields := "Please fill in all required fields."
  const ThanksMessage := "Thanks for reaching out! We'll get back to you within 24 hours."

  predicate HasRequiredFields(req: ContactRequest)
  {
    Truthy(req.name) && Truthy(req.email) && Truthy(req.description) && Truthy(req.projectType)
  }

  predicate IsValid(req: ContactRequest)
  {
    HasRequiredFields(req) && MatchesEmailRegex(req.email.value)
  }

  /** `v || ""`. */
  function OrEmpty(v: Option<string>): string
  {
    if Truthy(v) then v.value else ""
  }

  function Payload(req: ContactRequest): SheetsPayload
    requires HasRequiredFields(req)
  {
    SheetsPayload(req.name.value, req.email.value, OrEmpty(req.company),
      req.projectType.value, OrEmpty(req.budget), OrEmpty(req.timeline),
      req.description.value)
  }

  /** The handler. `body` is None when the request body cannot be read: it
      is not valid JSON (`request.json()` throws) or it is JSON `null` (the
      destructuring throws). Any other JSON value that is not an object (a
      number, a string, a boolean, an array) destructures to `undefined` in
      every field and is the request with every field None. */
  function Post(body: Option<ContactRequest>, webhookUrl: Option<string>, webhook: WebhookOutcome): (r: Handled<SheetsPost>)
    ensures r.response.status in {200, 400, 500}
    ensures r.response.status == 200 <==> r.response.body.Message?
    ensures body.None? ==> r == Handled(Response(500, Error(GenericError)), None)
    ensures r.call.Some? <==> body.Some? && IsValid(body.value) && Truthy(webhookUrl)
    ensures r.call.Some? ==> r.call.value.url == webhookUrl.value
    ensures r.response.status == 400 <==> body.Some? && !IsValid(body.value)
  {
    match body
    case None => Handled(Response(500, Error(GenericError)), None)
    case Some(req) =>
      if !HasRequiredFields(req) then
        Handled(Response(400, Error(RequiredFields)), None)
      else if !MatchesEmailRegex(req.email.value) then
        Handled(Response(400, Error(InvalidEmail)), None)
      else if Truthy(webhookUrl) then
        var call := Some(SheetsPost(webhookUrl.value, Payload(req)));
        if webhook.WebhookResponse? && IsOk(webhook.status) then
          Handled(Response(200, Message(ThanksMessage)), call)
        else
          Handled(Response(500, Error(GenericError)), call)
      else
        Handled(Response(200, Message(ThanksMessage)), None)
  }

  /** A missing or empty required field is reported before anything else,
      whatever the e-mail looks like, and nothing is forwarded. */
  lemma MissingFieldIsRejectedFirst(req: ContactRequest, webhookUrl: Option<string>, webhook: WebhookOutcome)
    requires !Truthy(req.name) || !Truthy(req.email) || !Truthy(req.description) || !Truthy(req.projectType)
    ensures Post(Some(req), webhookUrl, webhook) == Handled(Response(400, Error(RequiredFields)), None)
  {
  }

  /** The request a JSON value other than an object or `null` destructures
      to: every field is `undefined`. */
  const NoFields := ContactRequest(None, None, None, None, None, None, None)

  /** A body such as `42`, `"x"`, `true` or `[]` is a request with no fields:
      it is refused for its missing fields, not with the generic error. */
  lemma NonObjectBodyLacksRequiredFields(webhookUrl: Option<string>, webhook: WebhookOutcome)
    ensures Post(Some(NoFields), webhookUrl, webhook) == Handled(Response(400, Error(RequiredFields)), None)
  {
    MissingFieldIsRejectedFirst(NoFields, webhookUrl, webhook);
  }

  /** With all required fields present, the e-mail is refused exactly when it
      is not a single-`@` address with a dotted domain. */
  lemma BadEmailIsRejected(req: ContactRequest, webhookUrl: Option<string>, webhook: WebhookOutcome)
    requires HasRequiredFields(req)
    ensures !IsWellFormedEmail(req.email.value) <==>
      Post(Some(req), webhookUrl, webhook) == Handled(Response(400, Error(InvalidEmail)), None)
  {
    EmailRegexCharacterisation(req.email.value);
  }

  /** A valid inquiry with a webhook configured is forwarded once, with the
      seven fields and `""` for each optional one that is absent or empty.
      Only an ok answer from the webhook gives the thank-you message; any
      other status, or no answer, gives the generic 500 error. */
  lemma ConfiguredWebhookReceivesInquiry(req: ContactRequest, webhookUrl: Option<string>, webhook: WebhookOutcome)
    requires HasRequiredFields(req) && IsWellFormedEmail(req.email.value) && Truthy(webhookUrl)
    ensures var r := Post(Some(req), webhookUrl, webhook);
      && r.call.Some?
      && r.call.value.url == webhookUrl.value
      && r.call.value.payload.name == req.name.value
      && r.call.value.payload.email == req.email.value
      && r.call.value.payload.projectType == req.projectType.value
      && r.call.value.payload.description == req.description.value
      && r.call.value.payload.company == (if Truthy(req.company) then req.company.value else "")
      && r.call.value.payload.budget == (if Truthy(req.budget) then req.budget.value else "")
      && r.call.value.payload.timeline == (if Truthy(req.timeline) then req.timeline.value else "")
      && (webhook.WebhookResponse? && IsOk(webhook.status) ==> r.response == Response(200, Message(ThanksMessage)))
      && (!(webhook.WebhookResponse? && IsOk(webhook.status)) ==> r.response == Response(500, Error(GenericError)))
  {
    EmailRegexCharacterisation(req.email.value);
  }

  /** Without a webhook a valid inquiry is acknowledged and nothing is sent. */
  lemma UnconfiguredWebhookStillThanks(req: ContactRequest, webhookUrl: Option<string>, webhook: WebhookOutcome)
    requires HasRequiredFields(req) && IsWellFormedEmail(req.email.value) && !Truthy(webhookUrl)
    ensures Post(Some(req), webhookUrl, webhook) == Handled(Response(200, Message(ThanksMessage)), None)
  {
    EmailRegexCharacterisation(req.email.value);
  }
}
