/**
 * The option record `openai_post_generator_options` and the `validate`
 * callback that WordPress runs on every save of the settings form.
 */
module Settings {
  import Decimal
  import Php
  import Cron

  /** The stored options, one field per key `validate` writes. */
  datatype Options = Options(
    apiKey: string,
    model: string,
    maxTokens: nat,
    prompt: string,
    titleTemplate: string,
    category: nat,
    author: nat,
    status: string,
    frequency: string,
    time: string)

  /** The post statuses a scheduled post may be given. */
  const Statuses: seq<string> := ["publish", "draft", "pending"]

  const DefaultTitle: string := "AI Post for {date}"
  const DefaultTime: string := "00:00"
  const DefaultStatus: string := "publish"
  const DefaultCategory: nat := 1

  /** The fields of the settings form, `openai_post_generator_options[<name>]`. */
  datatype Key =
    | ApiKey            // api_key
    | Model             // model
    | MaxTokens         // max_tokens
    | Prompt            // prompt
    | TitleTemplate     // scheduled_title_template
    | DefaultCategoryKey  // scheduled_default_category
    | DefaultAuthorKey  // scheduled_default_author
    | DefaultStatusKey  // scheduled_default_status
    | Frequency         // schedule_frequency
    | Time              // schedule_time

  /** A submitted field, or the empty string PHP reads for a missing key. */
  function Field(input: map<Key, string>, key: Key): string {
    if key in input then input[key] else ""
  }

  /**
   * A field that is present (`isset`) is sanitised as a line of text, a
   * missing one takes the default; either way a clean default gives a clean result.
   */
  function TextOr(input: map<Key, string>, key: Key, default: string): (r: string)
    ensures Php.SanitizeText(default) == default ==> Php.SanitizeText(r) == r
  {
    if key in input then
      Php.SanitizeTextIdempotent(input[key]);
      Php.SanitizeText(input[key])
    else default
  }

  /** A field that is present is read with `absint`, a missing one takes the default. */
  function NumberOr(input: map<Key, string>, key: Key, default: nat): nat {
    if key in input then Php.AbsInt(input[key]) else default
  }

  /**
   * `validate`: sanitises every field and fills in the defaults; the status
   * is kept only when it is one of the three allowed ones.
   */
  function Validate(input: map<Key, string>, currentUser: nat): (o: Options)
    ensures o.status in Statuses
    ensures DefaultStatusKey in input && input[DefaultStatusKey] in Statuses ==>
      o.status == input[DefaultStatusKey]
    ensures DefaultStatusKey !in input || input[DefaultStatusKey] !in Statuses ==>
      o.status == DefaultStatus
    ensures TitleTemplate !in input ==> o.titleTemplate == DefaultTitle
    ensures Time !in input ==> o.time == DefaultTime
    ensures DefaultCategoryKey !in input ==> o.category == DefaultCategory
    ensures DefaultAuthorKey !in input ==> o.author == currentUser
    ensures Frequency !in input ==> o.frequency == ""
    ensures TitleTemplate in input ==> o.titleTemplate == Php.SanitizeText(input[TitleTemplate])
    ensures Time in input ==> o.time == Php.SanitizeText(input[Time])
    ensures Frequency in input ==> o.frequency == Php.SanitizeText(input[Frequency])
    ensures DefaultCategoryKey in input ==> o.category == Php.AbsInt(input[DefaultCategoryKey])
    ensures DefaultAuthorKey in input ==> o.author == Php.AbsInt(input[DefaultAuthorKey])
    ensures o.maxTokens == Php.AbsInt(Field(input, MaxTokens))
    ensures o.apiKey == Php.SanitizeText(Field(input, ApiKey))
    ensures o.model == Php.SanitizeText(Field(input, Model))
    ensures o.prompt == Php.SanitizeTextarea(Field(input, Prompt))
  {
    Options(
      apiKey := Php.SanitizeText(Field(input, ApiKey)),
      model := Php.SanitizeText(Field(input, Model)),
      maxTokens := Php.AbsInt(Field(input, MaxTokens)),
      prompt := Php.SanitizeTextarea(Field(input, Prompt)),
      titleTemplate := TextOr(input, TitleTemplate, DefaultTitle),
      category := NumberOr(input, DefaultCategoryKey, DefaultCategory),
      author := NumberOr(input, DefaultAuthorKey, currentUser),
      status := if DefaultStatusKey in input && input[DefaultStatusKey] in Statuses then input[DefaultStatusKey] else DefaultStatus,
      frequency := TextOr(input, Frequency, ""),
      time := TextOr(input, Time, DefaultTime))
  }

  /** The form the stored options take when they are submitted again: every field present, numbers in decimal. */
  function Resubmitted(o: Options): map<Key, string> {
    map k: Key | true :: Shown(o, k)
  }

  /** How the settings form shows one stored field. */
  function Shown(o: Options, k: Key): string {
    match k
    case ApiKey => o.apiKey
    case Model => o.model
    case MaxTokens => Decimal.Digits(o.maxTokens)
    case Prompt => o.prompt
    case TitleTemplate => o.titleTemplate
    case DefaultCategoryKey => Decimal.Digits(o.category)
    case DefaultAuthorKey => Decimal.Digits(o.author)
    case DefaultStatusKey => o.status
    case Frequency => o.frequency
    case Time => o.time
  }

  /** Every sanitised field of validated options is a fixed point of its sanitiser. */
  predicate Clean(o: Options) {
    && Php.SanitizeText(o.apiKey) == o.apiKey
    && Php.SanitizeText(o.model) == o.model
    && Php.SanitizeTextarea(o.prompt) == o.prompt
    && Php.SanitizeText(o.titleTemplate) == o.titleTemplate
    && Php.SanitizeText(o.frequency) == o.frequency
    && Php.SanitizeText(o.time) == o.time
    && o.status in Statuses
  }

  /** Each of the three allowed statuses is already in sanitised form. */
  lemma StatusesAreClean(status: string)
    requires status in Statuses
    ensures Php.SanitizeText(status) == status
  {
    Php.CollapseOfCollapsed(status);
    Php.TrimOfTrimmed(status);
  }

  /** A token limit typed in scientific form is read as the number it denotes. */
  lemma MaxTokensScientific(input: map<Key, string>, currentUser: nat, m: nat, k: nat)
    requires MaxTokens in input && input[MaxTokens] == Decimal.Digits(m) + "e" + Decimal.Digits(k)
    ensures Validate(input, currentUser).maxTokens == m * Decimal.Pow10(k)
  {
    var text := input[MaxTokens];
    var n := m * Decimal.Pow10(k);
    Php.IntValOfScientific(m, k);
    assert Php.IntVal(text) == n;
    Php.AbsIntOfNatural(text, n);
    assert Validate(input, currentUser).maxTokens == Php.AbsInt(text);
  }

  /** Validated options are clean. */
  lemma ValidatedIsClean(input: map<Key, string>, currentUser: nat)
    ensures Clean(Validate(input, currentUser))
  {
    var o := Validate(input, currentUser);
    Php.SanitizeTextIdempotent(Field(input, ApiKey));
    Php.SanitizeTextIdempotent(Field(input, Model));
    Php.SanitizeTextareaIdempotent(Field(input, Prompt));
    Php.SanitizeTextIdempotent(Field(input, TitleTemplate));
    Php.SanitizeTextIdempotent(Field(input, Frequency));
    Php.SanitizeTextIdempotent(Field(input, Time));
    DefaultTitleIsClean();
    DefaultTimeIsClean();
    EmptyIsClean();
  }

  /** Text with no line breaks, no doubled spaces and no whitespace at either end is already sanitised. */
  lemma SanitizedAlready(s: string)
    requires Php.Collapsed(s)
    requires s == [] || (!Php.IsTrimChar(s[0]) && !Php.IsTrimChar(s[|s| - 1]))
    ensures Php.SanitizeText(s) == s
  {
    Php.CollapseOfCollapsed(s);
    Php.TrimOfTrimmed(s);
  }

  lemma DefaultTitleIsClean()
    ensures Php.SanitizeText(DefaultTitle) == DefaultTitle
  {
    var t := DefaultTitle;
    forall i | 0 <= i < |t| ensures !Php.IsBreak(t[i]) {
    }
    SanitizedAlready(t);
  }

  lemma DefaultTimeIsClean()
    ensures Php.SanitizeText(DefaultTime) == DefaultTime
  {
    SanitizedAlready(DefaultTime);
  }

  lemma EmptyIsClean()
    ensures Php.SanitizeText("") == ""
  {
    SanitizedAlready("");
  }

  /** Submitting clean options again gives back the same options, whoever saves them. */
  lemma ResubmitClean(o: Options, currentUser: nat)
    requires Clean(o)
    ensures Validate(Resubmitted(o), currentUser) == o
  {
    var m := Resubmitted(o);
    Php.AbsIntOfNumeral(o.maxTokens);
    Php.AbsIntOfNumeral(o.category);
    Php.AbsIntOfNumeral(o.author);
    ValidateComplete(m, o, currentUser);
  }

  /** The submission carries every field of `o`, numbers in decimal. */
  predicate Holds(m: map<Key, string>, o: Options) {
    && (forall k: Key :: k in m)
    && m[ApiKey] == o.apiKey && m[Model] == o.model && m[Prompt] == o.prompt
    && m[TitleTemplate] == o.titleTemplate && m[DefaultStatusKey] == o.status
    && m[Frequency] == o.frequency && m[Time] == o.time
    && Php.AbsInt(m[MaxTokens]) == o.maxTokens
    && Php.AbsInt(m[DefaultCategoryKey]) == o.category
    && Php.AbsInt(m[DefaultAuthorKey]) == o.author
  }

  lemma ValidateComplete(m: map<Key, string>, o: Options, currentUser: nat)
    requires Clean(o) && Holds(m, o)
    ensures Validate(m, currentUser) == o
  {
  }

  /** Saving the stored options again leaves them as they are. */
  lemma ValidateIdempotent(input: map<Key, string>, currentUser: nat, otherUser: nat)
    ensures var o := Validate(input, currentUser);
      Validate(Resubmitted(o), otherUser) == o
  {
    ValidatedIsClean(input, currentUser);
    ResubmitClean(Validate(input, currentUser), otherUser);
  }

  /**
   * A save of the settings form as the plugin performs it: `validate`
   * followed by `handle_scheduling` against the schedules WordPress offers
   * once the plugin has added its minute-based ones. The first run of a
   * daily schedule is taken on the site clock.
   */
  function SaveAsWritten(input: map<Key, string>, currentUser: nat, events: seq<Cron.Event>, clock: Cron.Clock,
                         core: map<string, Cron.Schedule>): (r: (Options, seq<Cron.Event>))
    ensures r.0 == Validate(input, currentUser)
    ensures forall e: Cron.Event :: e.hook != Cron.Hook ==> (e in r.1 <==> e in events)
    ensures Cron.Count(r.1, Cron.Hook) <= 1
  {
    var o := Validate(input, currentUser);
    (o, Cron.HandleSchedulingAsWritten(events, o.frequency, o.time, clock, Cron.AddCustomIntervals(core)))
  }

  /**
   * The same save with the corrected scheduling: the first run of a daily
   * schedule is the UTC instant at which the site clock shows the
   * configured time.
   */
  function Save(input: map<Key, string>, currentUser: nat, events: seq<Cron.Event>, clock: Cron.Clock,
                core: map<string, Cron.Schedule>): (r: (Options, seq<Cron.Event>))
    ensures r.0 == Validate(input, currentUser)
    ensures forall e: Cron.Event :: e.hook != Cron.Hook ==> (e in r.1 <==> e in events)
    ensures Cron.Count(r.1, Cron.Hook) <= 1
  {
    var o := Validate(input, currentUser);
    (o, Cron.HandleScheduling(events, o.frequency, o.time, clock, Cron.AddCustomIntervals(core)))
  }

  /** Saving a minute-based frequency, as written, always registers the event to run now, whatever schedules the core offers. */
  lemma SaveAsWrittenMinuteFrequency(input: map<Key, string>, currentUser: nat, events: seq<Cron.Event>,
                                     clock: Cron.Clock, core: map<string, Cron.Schedule>)
    requires clock.utc > 0
    requires Frequency in input && Php.SanitizeText(input[Frequency]) in Cron.CustomNames
    ensures var (o, after) := SaveAsWritten(input, currentUser, events, clock, core);
      Cron.Event(clock.utc, o.frequency, Cron.Hook) in after
  {
    var (o, after) := SaveAsWritten(input, currentUser, events, clock, core);
    var f := o.frequency;
    assert f == Php.SanitizeText(input[Frequency]);
    MinuteFrequencyRuns(f, core);
  }

  /** The same holds of the corrected save. */
  lemma SaveMinuteFrequency(input: map<Key, string>, currentUser: nat, events: seq<Cron.Event>,
                            clock: Cron.Clock, core: map<string, Cron.Schedule>)
    requires clock.utc > 0
    requires Frequency in input && Php.SanitizeText(input[Frequency]) in Cron.CustomNames
    ensures var (o, after) := Save(input, currentUser, events, clock, core);
      Cron.Event(clock.utc, o.frequency, Cron.Hook) in after
  {
    var (o, after) := Save(input, currentUser, events, clock, core);
    var f := o.frequency;
    assert f == Php.SanitizeText(input[Frequency]);
    MinuteFrequencyRuns(f, core);
  }

  /** A minute-based frequency is not empty and is one of the schedules offered once the plugin has added its own. */
  lemma MinuteFrequencyRuns(f: string, core: map<string, Cron.Schedule>)
    requires f in Cron.CustomNames
    ensures !Php.Falsy(f) && Cron.IsCustom(f) && f in Cron.AddCustomIntervals(core)
  {
  }

  /**
   * Saving with no frequency, either left out of the form or submitted as
   * the "None" option's empty value, leaves nothing registered for the
   * plugin's hook, as written and corrected alike.
   */
  lemma SaveWithoutFrequency(input: map<Key, string>, currentUser: nat, events: seq<Cron.Event>,
                             clock: Cron.Clock, core: map<string, Cron.Schedule>)
    requires Frequency !in input || Php.Falsy(Php.SanitizeText(input[Frequency]))
    ensures Cron.Count(SaveAsWritten(input, currentUser, events, clock, core).1, Cron.Hook) == 0
    ensures Cron.Count(Save(input, currentUser, events, clock, core).1, Cron.Hook) == 0
  {
  }
}
