/**
 * `generate_post_on_schedule`, the cron callback: it reads the stored
 * options, fills in the title and prompt templates, and hands a request of
 * its own making to the generation handler.
 */
module ScheduledRun {
  import opened Wrappers
  import Php
  import Calendar
  import Placeholders
  import Settings
  import Generation

  /** How a scheduled run ends: skipped for missing configuration (`null`), failed (`false`), or the new post's ID. */
  datatype Result = Skipped | Failed | Published(id: int)

  /** A scheduled run: its result, the ledger after it, and the handler call it made, if any. */
  datatype Outcome = Outcome(result: Result, ledger: seq<string>, run: Option<Generation.Run>)

  /** The run goes ahead only with an API key and a prompt configured. */
  predicate Configured(stored: Option<Settings.Options>) {
    stored.Some? && !Php.Falsy(stored.value.apiKey) && !Php.Falsy(stored.value.prompt)
  }

  /**
   * The request the callback builds: the filled-in title as topic, the
   * stored category, status and author, the scheduled flag, the secret for
   * `today` (the UTC date when the request is built) and the filled-in
   * prompt as custom prompt.
   */
  function ScheduledRequest(o: Settings.Options, title: string, prompt: string, today: Calendar.Date): Generation.Request {
    map[
      Generation.Topic := Generation.Str(title),
      Generation.Category := Generation.Int(o.category),
      Generation.Status := Generation.Str(o.status),
      Generation.AuthorId := Generation.Int(o.author),
      Generation.IsScheduled := Generation.Bool(true),
      Generation.ScheduledSecret := Generation.Str(Generation.Secret(today)),
      Generation.CustomPrompt := Generation.Str(prompt)]
  }

  /** The title template filled in at `now`. */
  function Title(o: Settings.Options, now: Calendar.DateTime): string {
    Placeholders.Render(o.titleTemplate, now)
  }

  /** The prompt filled in at `now`. */
  function Prompt(o: Settings.Options, now: Calendar.DateTime): string {
    Placeholders.Render(o.prompt, now)
  }

  /** The request a configured run hands to the handler. */
  function RequestOf(stored: Option<Settings.Options>, env: Generation.Env, today: Calendar.Date): Generation.Request
    requires stored.Some?
  {
    ScheduledRequest(stored.value, Title(stored.value, env.siteNow), Prompt(stored.value, env.siteNow), today)
  }

  /**
   * `generate_post_on_schedule`. `today` is the UTC date when the secret is
   * built; the handler checks it against `env.utcDate`, read a moment
   * later. Only a truthy return of the handler counts as a post.
   */
  function GenerateOnSchedule(stored: Option<Settings.Options>, ledger: seq<string>, env: Generation.Env,
                              today: Calendar.Date): (r: Outcome)
    ensures r.result.Skipped? <==> !Configured(stored)
    ensures r.result.Skipped? ==> r.ledger == ledger && r.run.None?
    ensures r.result.Published? ==> r.result.id != 0 && r.run.Some? && r.run.value.post.Some?
  {
    if !Configured(stored) then Outcome(Skipped, ledger, None)
    else
      var o := stored.value;
      var request := RequestOf(stored, env, today);
      var run := Generation.HandleAsWritten(request, stored, ledger, env);
      var result := if run.outcome.ReturnPost? && run.outcome.id != 0 then Published(run.outcome.id) else Failed;
      Outcome(result, run.ledger, Some(run))
  }

  /** What the handler reads from the request the callback builds. */
  lemma RequestFields(o: Settings.Options, title: string, prompt: string, today: Calendar.Date, env: Generation.Env)
    ensures var request := ScheduledRequest(o, title, prompt, today);
      && Generation.Scheduled(request)
      && (Generation.Authorised(request, env) <==> Generation.Secret(today) == Generation.Secret(env.utcDate))
      && Generation.TopicOf(request) == Php.SanitizeText(title)
      && Generation.BasePrompt(request, o, env.siteNow) == prompt
      && Generation.StatusOf(request) == Php.SanitizeText(o.status)
      && Generation.AuthorOf(request, env) == o.author
      && Generation.CategoryOf(request) == o.category
  {
    var request := ScheduledRequest(o, title, prompt, today);
    RequestEntries(o, title, prompt, today);
    assert Generation.Scheduled(request);
    assert Generation.TopicOf(request) == Php.SanitizeText(title);
    assert Generation.BasePrompt(request, o, env.siteNow) == prompt;
    assert Generation.StatusOf(request) == Php.SanitizeText(o.status);
    assert Generation.AuthorOf(request, env) == o.author;
    assert Generation.CategoryOf(request) == o.category;
  }

  /** The entries of the request, one by one. */
  lemma RequestEntries(o: Settings.Options, title: string, prompt: string, today: Calendar.Date)
    ensures var request := ScheduledRequest(o, title, prompt, today);
      && Generation.Topic in request && request[Generation.Topic] == Generation.Str(title)
      && Generation.Category in request && request[Generation.Category] == Generation.Int(o.category)
      && Generation.Status in request && request[Generation.Status] == Generation.Str(o.status)
      && Generation.AuthorId in request && request[Generation.AuthorId] == Generation.Int(o.author)
      && Generation.IsScheduled in request && request[Generation.IsScheduled] == Generation.Bool(true)
      && Generation.ScheduledSecret in request && request[Generation.ScheduledSecret] == Generation.Str(Generation.Secret(today))
      && Generation.CustomPrompt in request && request[Generation.CustomPrompt] == Generation.Str(prompt)
  {
  }

  /** The secret built and the secret checked agree when both are read on the same UTC date. */
  lemma SecretAccepted(stored: Option<Settings.Options>, env: Generation.Env, today: Calendar.Date)
    requires stored.Some? && today == env.utcDate
    ensures Generation.Authorised(RequestOf(stored, env, today), env)
  {
    RequestFields(stored.value, Title(stored.value, env.siteNow), Prompt(stored.value, env.siteNow), today, env);
  }

  /** Distinct valid dates give distinct secrets. */
  lemma SecretInjective(a: Calendar.Date, b: Calendar.Date)
    requires Calendar.ValidDate(a) && Calendar.ValidDate(b) && a != b
    ensures Generation.Secret(a) != Generation.Secret(b)
  {
    var p := "openai_scheduled_";
    Calendar.CompactInjective(a, b);
    assert (p + Calendar.Compact(a))[|p|..] == Calendar.Compact(a);
    assert (p + Calendar.Compact(b))[|p|..] == Calendar.Compact(b);
  }

  /**
   * A run whose secret is built just before midnight UTC and checked just
   * after is refused by the handler: it fails without touching the ledger
   * or calling the API.
   */
  lemma SecretRejectedAcrossMidnight(stored: Option<Settings.Options>, ledger: seq<string>, env: Generation.Env,
                                     today: Calendar.Date)
    requires Configured(stored)
    requires Calendar.ValidDate(today) && Calendar.ValidDate(env.utcDate) && today != env.utcDate
    ensures var r := GenerateOnSchedule(stored, ledger, env, today);
      r.result == Failed && r.ledger == ledger && r.run.Some? && r.run.value.sent.None?
  {
    var o := stored.value;
    RequestFields(o, Title(o, env.siteNow), Prompt(o, env.siteNow), today, env);
    SecretInjective(today, env.utcDate);
    Generation.UnauthorisedTurnedAway(RequestOf(stored, env, today), stored, ledger, env, false);
  }

  /**
   * The scheduled prompt is the stored prompt filled in at the run's time,
   * then the topic; it is the prompt a manual request without a custom
   * prompt would send at that moment.
   */
  lemma ScheduledPrompt(stored: Option<Settings.Options>, ledger: seq<string>, env: Generation.Env,
                        today: Calendar.Date, manual: Generation.Request)
    requires Configured(stored)
    requires Generation.Admitted(RequestOf(stored, env, today), stored, ledger, env)
    requires Generation.CustomPrompt !in manual
    ensures var o, r := stored.value, GenerateOnSchedule(stored, ledger, env, today);
      && r.run.Some? && r.run.value.sent.Some?
      && var p := r.run.value.sent.value;
      && p.user == Prompt(o, env.siteNow) + " " + Php.SanitizeText(Title(o, env.siteNow))
      && Generation.BasePrompt(manual, o, env.siteNow) == Prompt(o, env.siteNow)
  {
    var o := stored.value;
    RequestFields(o, Title(o, env.siteNow), Prompt(o, env.siteNow), today, env);
    Generation.PromptSent(RequestOf(stored, env, today), stored, ledger, env, false);
  }

  /**
   * A post the run creates from validated options carries the filled-in
   * title, the configured status, author and category.
   */
  lemma ScheduledPost(stored: Option<Settings.Options>, ledger: seq<string>, env: Generation.Env,
                      today: Calendar.Date)
    requires Configured(stored) && stored.value.status in Settings.Statuses
    requires Generation.Admitted(RequestOf(stored, env, today), stored, ledger, env)
    requires env.reply.Body? && env.reply.content.Some?
    ensures var o, r := stored.value, GenerateOnSchedule(stored, ledger, env, today);
      && r.run.Some? && r.run.value.post.Some?
      && var post := r.run.value.post.value;
      && post.title == Php.SanitizeText(Title(o, env.siteNow))
      && post.content == env.reply.content.value
      && post.status == o.status && post.author == o.author && post.categories == [o.category]
  {
    var o := stored.value;
    RequestFields(o, Title(o, env.siteNow), Prompt(o, env.siteNow), today, env);
    Generation.PostBuilt(RequestOf(stored, env, today), stored, ledger, env, false);
    Settings.StatusesAreClean(o.status);
  }

  /**
   * A title template that fills in to nothing (or to `0`) makes every run
   * fail before the API is called, though the empty topic still enters the
   * ledger.
   */
  lemma EmptyTitleFails(stored: Option<Settings.Options>, ledger: seq<string>, env: Generation.Env)
    requires Configured(stored)
    requires Php.Falsy(Php.SanitizeText(Title(stored.value, env.siteNow)))
    ensures var r := GenerateOnSchedule(stored, ledger, env, env.utcDate);
      r.result == Failed && r.run.Some? && r.run.value.sent.None?
  {
    var o := stored.value;
    RequestFields(o, Title(o, env.siteNow), Prompt(o, env.siteNow), env.utcDate, env);
  }

  /**
   * Two runs that share one ledger, which happens only within one PHP
   * request, and whose titles fill in to the same topic at whatever times
   * and on whatever UTC dates they happen: the second is suppressed as a
   * duplicate and fails without calling the API.
   */
  lemma SecondRunSameTitleFails(stored: Option<Settings.Options>, ledger: seq<string>, env: Generation.Env,
                                later: Generation.Env)
    requires Configured(stored)
    requires Php.SanitizeText(Title(stored.value, env.siteNow)) == Php.SanitizeText(Title(stored.value, later.siteNow))
    ensures var first := GenerateOnSchedule(stored, ledger, env, env.utcDate);
      var second := GenerateOnSchedule(stored, first.ledger, later, later.utcDate);
      second.result == Failed && second.run.Some? && second.run.value.sent.None?
  {
    var o := stored.value;
    var request, again := RequestOf(stored, env, env.utcDate), RequestOf(stored, later, later.utcDate);
    SecretAccepted(stored, env, env.utcDate);
    SecretAccepted(stored, later, later.utcDate);
    RequestFields(o, Title(o, env.siteNow), Prompt(o, env.siteNow), env.utcDate, env);
    RequestFields(o, Title(o, later.siteNow), Prompt(o, later.siteNow), later.utcDate, later);
    Generation.TopicRemembered(request, stored, ledger, env, false);
    var first := Generation.HandleAsWritten(request, stored, ledger, env);
    Generation.DuplicateSuppressed(again, stored, first.ledger, later, false);
  }
}
