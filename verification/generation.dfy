/**
 * `generate_post_ajax_handler`: the ordered checks a generation request
 * passes (authorisation, the duplicate-topic ledger, capability, API key,
 * topic), the chat-completion request it sends, and the post it creates.
 *
 * The handler serves two callers. A manual request comes from the admin
 * page over AJAX and is answered with a JSON reply; a scheduled request is
 * built by the cron callback in the same request and gets a return value.
 */
module Generation {
  import opened Wrappers
  import Decimal
  import Php
  import Calendar
  import Placeholders
  import Settings

  /** The `$_POST` fields the handler reads. */
  datatype Param = Topic | Category | Status | AuthorId | IsScheduled | ScheduledSecret | CustomPrompt | Nonce

  /** A `$_POST` value: a submitted string, or the integer or boolean the cron callback puts there. */
  datatype Value = Str(s: string) | Int(i: int) | Bool(b: bool)

  type Request = map<Param, Value>

  /** What the chat-completion call gave back. */
  datatype ApiReply =
    | TransportError(message: string)    // cURL reported an error
    | Body(content: Option<string>)      // a response; `choices[0].message.content` if it has one

  /** What inserting the post came to. */
  datatype InsertResult = Inserted(id: nat) | InsertFailed(message: string)

  /** What `wp_insert_post` returns: a post ID (0 on failure without `$wp_error`) or a `WP_Error`. */
  datatype InsertReturn = PostId(id: int) | WpError(message: string)

  /**
   * Everything outside the request the handler consults: nonce and
   * capability checks, the current user, the UTC date `date('Ymd')` prints,
   * the site-local time the placeholders show, the API's reply and the
   * outcome of the insert.
   */
  datatype Env = Env(
    nonceValid: bool,
    canEditPosts: bool,
    currentUser: nat,
    utcDate: Calendar.Date,
    siteNow: Calendar.DateTime,
    reply: ApiReply,
    insert: InsertResult)

  /** The chat-completion request: model, system and user messages, token limit, and the bearer key. */
  datatype Payload = Payload(model: string, system: string, user: string, maxTokens: nat, apiKey: string)

  /** The post record handed to `wp_insert_post`. */
  datatype PostData = PostData(title: string, content: string, status: string, author: int, categories: seq<int>)

  /** How the handler ends: a return value (scheduled callers) or a JSON reply (AJAX callers). */
  datatype Outcome =
    | ReturnFalse
    | ReturnNull
    | ReturnPost(id: int)
    | JsonError(message: string)
    | JsonSuccess(postId: int)

  /** One call of the handler: how it ended, the ledger after it, what it sent and what it inserted. */
  datatype Run = Run(outcome: Outcome, ledger: seq<string>, sent: Option<Payload>, post: Option<PostData>)

  const SystemMessage: string := "You are a helpful assistant that writes blog posts."
  const DefaultStatus: string := "draft"

  const InvalidNonce: string := "Invalid nonce"
  const InsufficientPermissions: string := "Insufficient permissions"
  const NoApiKey: string := "OpenAI API key is not configured"
  const NoTopic: string := "Topic is required"
  const InvalidResponse: string := "Invalid response from OpenAI API"

  /** PHP's conversion of a value to a string. */
  function Stringify(v: Value): string {
    match v
    case Str(s) => s
    case Int(i) => if i < 0 then "-" + Decimal.Digits(-i) else Decimal.Digits(i)
    case Bool(b) => if b then "1" else ""
  }

  /** PHP truthiness of a value. */
  predicate Truthy(v: Value) {
    match v
    case Str(s) => !Php.Falsy(s)
    case Int(i) => i != 0
    case Bool(b) => b
  }

  /** `intval` of a value. */
  function IntOf(v: Value): int {
    match v
    case Str(s) => Php.IntVal(s)
    case Int(i) => i
    case Bool(b) => if b then 1 else 0
  }

  /** The secret a scheduled request carries: `openai_scheduled_` and the UTC date as `Ymd`. */
  function Secret(date: Calendar.Date): string {
    "openai_scheduled_" + Calendar.Compact(date)
  }

  /** `isset($_POST['is_scheduled']) && $_POST['is_scheduled']`. */
  predicate Scheduled(request: Request) {
    IsScheduled in request && Truthy(request[IsScheduled])
  }

  /** A scheduled request must carry today's secret; a manual one a valid nonce. */
  predicate Authorised(request: Request, env: Env) {
    if Scheduled(request) then ScheduledSecret in request && request[ScheduledSecret] == Str(Secret(env.utcDate))
    else Nonce in request && env.nonceValid
  }

  /** The sanitised topic, `''` when none was sent. */
  function TopicOf(request: Request): string {
    if Topic in request then Php.SanitizeText(Stringify(request[Topic])) else ""
  }

  /** `in_array($topic, $processed_topics)`, with PHP's loose comparison. */
  predicate Seen(ledger: seq<string>, topic: string) {
    exists i :: 0 <= i < |ledger| && Php.LooseEquals(topic, ledger[i])
  }

  /** `! empty($options['api_key'])`: the options exist and hold a key. */
  predicate HasApiKey(stored: Option<Settings.Options>) {
    stored.Some? && !Php.Falsy(stored.value.apiKey)
  }

  function CategoryOf(request: Request): int {
    if Category in request then IntOf(request[Category]) else 0
  }

  function StatusOf(request: Request): string {
    if Status in request then Php.SanitizeText(Stringify(request[Status])) else DefaultStatus
  }

  function AuthorOf(request: Request, env: Env): int {
    if AuthorId in request then IntOf(request[AuthorId]) else env.currentUser
  }

  /** The prompt before the topic: a custom prompt verbatim, otherwise the stored prompt with its placeholders filled in. */
  function BasePrompt(request: Request, o: Settings.Options, now: Calendar.DateTime): string {
    if CustomPrompt in request then Stringify(request[CustomPrompt]) else Placeholders.Render(o.prompt, now)
  }

  /** A failed check: `false` for a scheduled request, a JSON error for a manual one. */
  function Refuse(scheduled: bool, message: string): Outcome {
    if scheduled then ReturnFalse else JsonError(message)
  }

  /** `wp_insert_post($post_data, $wp_error)`. */
  function WpInsertPost(insert: InsertResult, wpError: bool): InsertReturn {
    match insert
    case Inserted(id) => PostId(id)
    case InsertFailed(message) => if wpError then WpError(message) else PostId(0)
  }

  /** The guards every request passes before the API is called. */
  predicate Admitted(request: Request, stored: Option<Settings.Options>, ledger: seq<string>, env: Env) {
    && Authorised(request, env)
    && !Seen(ledger, TopicOf(request))
    && (Scheduled(request) || env.canEditPosts)
    && HasApiKey(stored)
    && !Php.Falsy(TopicOf(request))
  }

  /**
   * The handler, with `wp_insert_post`'s `$wp_error` argument as a
   * parameter: the plugin passes none (`false`).
   */
  function Handler(request: Request, stored: Option<Settings.Options>, ledger: seq<string>, env: Env,
                   wpError: bool): (r: Run)
    ensures r.sent.Some? <==> Admitted(request, stored, ledger, env)
    ensures r.ledger == (if Authorised(request, env) && !Seen(ledger, TopicOf(request))
                         then ledger + [TopicOf(request)] else ledger)
    ensures r.post.Some? ==> r.sent.Some?
    ensures Scheduled(request) ==> r.outcome.ReturnFalse? || r.outcome.ReturnPost?
    ensures !Scheduled(request) ==> !r.outcome.ReturnPost?
    ensures r.outcome.ReturnPost? || r.outcome.JsonSuccess? ==> r.post.Some?
  {
    var scheduled := Scheduled(request);
    var topic := TopicOf(request);
    if !Authorised(request, env) then
      Run(Refuse(scheduled, InvalidNonce), ledger, None, None)
    else if Seen(ledger, topic) then
      Run(if scheduled then ReturnFalse else ReturnNull, ledger, None, None)
    else
      var noted := ledger + [topic];
      match Refusal(request, stored, env)
      case Some(outcome) => Run(outcome, noted, None, None)
      case None =>
        var o := stored.value;
        var payload := Payload(o.model, SystemMessage, BasePrompt(request, o, env.siteNow) + " " + topic,
                               o.maxTokens, o.apiKey);
        match Attempt(request, env, wpError)
        case Threw(message, post) => Run(Refuse(scheduled, "Error: " + message), noted, Some(payload), post)
        case Created(id, post) => Run(if scheduled then ReturnPost(id) else JsonSuccess(id), noted, Some(payload), Some(post))
  }

  /** The checks after the ledger, in order: capability (manual requests only), API key, topic. */
  function Refusal(request: Request, stored: Option<Settings.Options>, env: Env): (r: Option<Outcome>)
    ensures r.None? <==> (Scheduled(request) || env.canEditPosts) && HasApiKey(stored) && !Php.Falsy(TopicOf(request))
    ensures r.Some? && Scheduled(request) ==> r == Some(ReturnFalse)
    ensures !Scheduled(request) && !env.canEditPosts ==> r == Some(JsonError(InsufficientPermissions))
    ensures !Scheduled(request) && env.canEditPosts && !HasApiKey(stored) ==> r == Some(JsonError(NoApiKey))
    ensures !Scheduled(request) && env.canEditPosts && HasApiKey(stored) && Php.Falsy(TopicOf(request)) ==>
      r == Some(JsonError(NoTopic))
  {
    var scheduled := Scheduled(request);
    if !scheduled && !env.canEditPosts then Some(JsonError(InsufficientPermissions))
    else if !HasApiKey(stored) then Some(Refuse(scheduled, NoApiKey))
    else if Php.Falsy(TopicOf(request)) then Some(Refuse(scheduled, NoTopic))
    else None
  }

  /** What the `try` block comes to once the request is sent: an exception, or a created post. */
  datatype Try = Threw(message: string, attempted: Option<PostData>) | Created(id: int, post: PostData)

  /**
   * The `try` block after the request is sent: a transport error or a
   * reply without content throws; otherwise the post is inserted, and a
   * `WP_Error` from the insert throws too.
   */
  function Attempt(request: Request, env: Env, wpError: bool): (t: Try)
    ensures t.Created? ==> env.reply.Body? && env.reply.content.Some?
  {
    match env.reply
    case TransportError(message) => Threw(message, None)
    case Body(None) => Threw(InvalidResponse, None)
    case Body(Some(content)) =>
      var post := PostData(TopicOf(request), content, StatusOf(request), AuthorOf(request, env), [CategoryOf(request)]);
      match WpInsertPost(env.insert, wpError)
      case WpError(message) => Threw(message, Some(post))
      case PostId(id) => Created(id, post)
  }

  /** `generate_post_ajax_handler` as written: `wp_insert_post` is called without `$wp_error`. */
  function HandleAsWritten(request: Request, stored: Option<Settings.Options>, ledger: seq<string>, env: Env): Run {
    Handler(request, stored, ledger, env, false)
  }

  /** The handler with `wp_insert_post` asked for a `WP_Error`, so the failure branch it already has is taken. */
  function Handle(request: Request, stored: Option<Settings.Options>, ledger: seq<string>, env: Env): (r: Run)
    ensures env.insert.InsertFailed? ==> !r.outcome.JsonSuccess? && !r.outcome.ReturnPost?
  {
    Handler(request, stored, ledger, env, true)
  }

  /** A request that fails authorisation is turned away before the ledger is read or written. */
  lemma UnauthorisedTurnedAway(request: Request, stored: Option<Settings.Options>, ledger: seq<string>, env: Env,
                               wpError: bool)
    requires !Authorised(request, env)
    ensures var r := Handler(request, stored, ledger, env, wpError);
      && r.ledger == ledger && r.sent.None? && r.post.None?
      && r.outcome == (if Scheduled(request) then ReturnFalse else JsonError(InvalidNonce))
  {
  }

  /**
   * A topic already in the ledger (loosely equal to an entry) is
   * suppressed: `false` for a scheduled request, no reply for a manual
   * one, and the ledger stays as it was.
   */
  lemma DuplicateSuppressed(request: Request, stored: Option<Settings.Options>, ledger: seq<string>, env: Env,
                            wpError: bool)
    requires Authorised(request, env) && Seen(ledger, TopicOf(request))
    ensures var r := Handler(request, stored, ledger, env, wpError);
      && r.ledger == ledger && r.sent.None?
      && r.outcome == (if Scheduled(request) then ReturnFalse else ReturnNull)
  {
  }

  lemma LooseEqualsReflexive(a: string)
    ensures Php.LooseEquals(a, a)
  {
  }

  /** After an authorised request, its topic is in the ledger, whether it was new or not. */
  lemma TopicRemembered(request: Request, stored: Option<Settings.Options>, ledger: seq<string>, env: Env,
                        wpError: bool)
    requires Authorised(request, env)
    ensures Seen(Handler(request, stored, ledger, env, wpError).ledger, TopicOf(request))
  {
    var topic := TopicOf(request);
    var first := Handler(request, stored, ledger, env, wpError);
    LooseEqualsReflexive(topic);
    if !Seen(ledger, topic) {
      assert first.ledger[|ledger|] == topic;
    }
  }

  /**
   * Once an authorised request has been through the handler, the same
   * request later in the same PHP request is suppressed, whether or not
   * the first one succeeded. PHP empties the ledger when a request ends.
   */
  lemma RepeatSuppressed(request: Request, stored: Option<Settings.Options>, ledger: seq<string>, env: Env,
                         later: Env, wpError: bool)
    requires Authorised(request, env) && Authorised(request, later)
    ensures var first := Handler(request, stored, ledger, env, wpError);
      var second := Handler(request, stored, first.ledger, later, wpError);
      && second.sent.None? && second.ledger == first.ledger
      && second.outcome == (if Scheduled(request) then ReturnFalse else ReturnNull)
  {
    TopicRemembered(request, stored, ledger, env, wpError);
  }

  /**
   * The user message is the custom prompt verbatim, or else the stored
   * prompt with its placeholders filled in, then a space and the topic;
   * model, token limit and key come from the stored options.
   */
  lemma PromptSent(request: Request, stored: Option<Settings.Options>, ledger: seq<string>, env: Env, wpError: bool)
    requires Admitted(request, stored, ledger, env)
    ensures var p := Handler(request, stored, ledger, env, wpError).sent.value;
      var o := stored.value;
      && p.user == (if CustomPrompt in request then Stringify(request[CustomPrompt])
                    else Placeholders.Render(o.prompt, env.siteNow)) + " " + TopicOf(request)
      && p.system == SystemMessage && p.model == o.model && p.maxTokens == o.maxTokens && p.apiKey == o.apiKey
  {
  }

  /** A filled-in stored prompt has no placeholder left: filling it in again, at any time, changes nothing. */
  lemma StoredPromptIsFinal(request: Request, o: Settings.Options, now: Calendar.DateTime, later: Calendar.DateTime)
    requires CustomPrompt !in request
    ensures Placeholders.Render(BasePrompt(request, o, now), later) == BasePrompt(request, o, now)
  {
    Placeholders.RenderIsFinal(o.prompt, now, later);
  }

  /**
   * A reply with content becomes a post titled with the topic, holding the
   * content, with the requested status (`draft` by default), author and
   * single category.
   */
  lemma PostBuilt(request: Request, stored: Option<Settings.Options>, ledger: seq<string>, env: Env, wpError: bool)
    requires Admitted(request, stored, ledger, env) && env.reply.Body? && env.reply.content.Some?
    ensures Handler(request, stored, ledger, env, wpError).post
      == Some(PostData(TopicOf(request), env.reply.content.value, StatusOf(request),
                       AuthorOf(request, env), [CategoryOf(request)]))
  {
  }

  /** Without content in the reply, or on a transport error, nothing is inserted and the caller is told of failure. */
  lemma ReplyWithoutContent(request: Request, stored: Option<Settings.Options>, ledger: seq<string>, env: Env,
                            wpError: bool)
    requires Admitted(request, stored, ledger, env) && (env.reply.TransportError? || env.reply.content.None?)
    ensures var r := Handler(request, stored, ledger, env, wpError);
      && r.post.None?
      && r.outcome == Refuse(Scheduled(request),
                             "Error: " + if env.reply.TransportError? then env.reply.message
                                         else InvalidResponse)
  {
  }

  /**
   * A request that calls itself scheduled and carries the day's secret,
   * which anyone can compute from the date, is handled without a nonce and
   * without the `edit_posts` capability.
   */
  lemma ForgedScheduledRequest(topic: string, stored: Option<Settings.Options>, ledger: seq<string>, env: Env)
    requires !env.nonceValid && !env.canEditPosts
    requires HasApiKey(stored) && !Php.Falsy(Php.SanitizeText(topic)) && !Seen(ledger, Php.SanitizeText(topic))
    ensures var request := map[IsScheduled := Str("1"), ScheduledSecret := Str(Secret(env.utcDate)), Topic := Str(topic)];
      HandleAsWritten(request, stored, ledger, env).sent.Some?
  {
    var request := map[IsScheduled := Str("1"), ScheduledSecret := Str(Secret(env.utcDate)), Topic := Str(topic)];
    assert Scheduled(request);
    assert TopicOf(request) == Php.SanitizeText(topic);
  }

  /** A requested status that is one of the three allowed reaches the post as it is. */
  lemma RequestedStatusKept(request: Request, stored: Option<Settings.Options>, ledger: seq<string>, env: Env,
                            status: string)
    requires Admitted(request, stored, ledger, env) && env.reply.Body? && env.reply.content.Some?
    requires status in Settings.Statuses && Status in request && request[Status] == Str(status)
    ensures var r := HandleAsWritten(request, stored, ledger, env);
      r.post.Some? && r.post.value.status == status
  {
    PostBuilt(request, stored, ledger, env, false);
    assert StatusOf(request) == Php.SanitizeText(status);
    Settings.StatusesAreClean(status);
  }

  /**
   * When the insert fails, the handler as written reports post 0 as a
   * success to a manual caller (and returns 0 to a scheduled one); asking
   * `wp_insert_post` for a `WP_Error` reports the failure instead.
   */
  lemma InsertFailureReported(request: Request, stored: Option<Settings.Options>, ledger: seq<string>, env: Env)
    requires Admitted(request, stored, ledger, env)
    requires env.reply.Body? && env.reply.content.Some? && env.insert.InsertFailed?
    ensures HandleAsWritten(request, stored, ledger, env).outcome
      == (if Scheduled(request) then ReturnPost(0) else JsonSuccess(0))
    ensures Handle(request, stored, ledger, env).outcome
      == Refuse(Scheduled(request), "Error: " + env.insert.message)
  {
  }
}
