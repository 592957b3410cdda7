# OpenAI Post Generator — a Dafny model of the settings class

The WordPress plugin "OpenAI Post Generator" writes blog posts from a prompt
by calling the OpenAI chat-completions API. Its logic lives in one class,
`OpenAI_Post_Generator_Settings`. This project models four parts of that
class as pure functions over immutable data, and proves what they promise:

- **The placeholder engine.** `replace_placeholders` and its static twin
  turn `{date}`, `{date_only}`, `{time_only}`, `{year}`, `{month}` and
  `{day}` into `date()` fields. These are modules `Placeholders`,
  `Substitution` and `Calendar`.
- **Saving the settings form.**
  - `validate` normalises the option record.
  - `handle_scheduling` and `get_next_scheduled_time` register the single
    cron event.
  - `add_custom_cron_intervals` adds four minute-based schedules.

  These are modules `Settings` and `Cron`. `Settings.SaveAsWritten` is the
  save as the plugin performs it; `Settings.Save` is the same save with the
  first run of a daily schedule corrected (see "## Findings").
- **The generation handler.** `generate_post_ajax_handler` is modelled as
  the ordered guards it runs:
  - the nonce or the date secret;
  - the ledger of topics seen earlier in the same PHP request;
  - the capability check;
  - the API-key check;
  - the empty-topic check.

  The model then builds the prompt and the API payload, reads the reply, and
  builds and inserts the post. This is module `Generation`.
- **The cron callback.** `generate_post_on_schedule` builds a request of its
  own and hands it to the handler. This is module `ScheduledRun`.

Modules `Php` and `Decimal` give PHP's and WordPress's string helpers the
meaning the plugin relies on:
- `empty`;
- `trim`;
- `sanitize_text_field`;
- `intval`, `absint`;
- `in_array`'s loose comparison;
- `str_replace`;
- decimal printing.

What the plugin reads from outside becomes an input. That covers the clock,
the stored options, nonce validity, the user's capability, the API reply and
the result of inserting the post. The handler returns a `Run`. A `Run`
records:
- the handler's return or JSON response;
- the ledger after the call;
- the payload it would send, if any;
- the post it would insert, if any.

Two clocks appear, because the plugin uses two:
- `time()` and `date('Ymd')` read UTC;
- `current_time('timestamp')` reads the site clock, which is UTC plus the
  site's offset.

The placeholders are filled from a calendar record of the site clock.
Scheduling works on integer timestamps with a fixed 86400-second day.

## Model

| member | source | states |
|---|---|---|
| Php.SanitizeTextSpec | includes/class-openai-post-generator-settings.php:436 | sanitised text has no tab, no line break, no doubled space and no whitespace at either end |
| Php.CollapseKeepsVisible | includes/class-openai-post-generator-settings.php:436 | collapsing whitespace keeps every non-whitespace character, in order |
| Php.SanitizeTextIdempotent | includes/class-openai-post-generator-settings.php:436-445 | sanitising a sanitised field changes nothing |
| Php.SanitizeTextareaIdempotent | includes/class-openai-post-generator-settings.php:439 | the same for the multi-line prompt field |
| Php.IntVal | includes/class-openai-post-generator-settings.php:438 | a plain run of digits reads as its decimal value (the other forms `intval` accepts are stated by the lemmas below) |
| Php.IntValSkipsSpace | includes/class-openai-post-generator-settings.php:438 | any run of leading whitespace (space, tab, line feed, carriage return, vertical tab, form feed) is skipped: the string reads the same with it or without it |
| Php.IntValOfNumeralPrefix | includes/class-openai-post-generator-settings.php:438 | a printed number followed by text that cannot continue it (no digit, `.` or exponent), such as `12px`, reads as that number |
| Php.IntValOfScientific | includes/class-openai-post-generator-settings.php:438 | a number typed as `<m>e<k>` or `<m>E+<k>` reads as m times 10 to the k, and `<m>e-<k>` as m divided by 10 to the k with the remainder dropped |
| Php.IntValOfFraction | includes/class-openai-post-generator-settings.php:438 | a fraction after the point is dropped, and a minus sign in front negates the whole |
| Php.AbsIntOfNumeral | includes/class-openai-post-generator-settings.php:438 | printing a number and reading it back with `intval` or `absint` gives the number back |
| Php.AbsIntOfNegativeNumeral | includes/class-openai-post-generator-settings.php:441 | `absint` of a negative numeral is its magnitude; `intval` keeps the sign |
| Php.LooseEqualsNumerals | includes/class-openai-post-generator-settings.php:539 | `in_array`'s loose comparison treats a numeral, its zero-padded form and its `+`-signed form as the same topic |
| Php.ReplaceAllWithoutNeedle | includes/class-openai-post-generator-settings.php:310 | `str_replace` leaves text that does not contain the needle unchanged |
| Decimal.ValueOfDigits | includes/class-openai-post-generator-settings.php:293-298 | a printed number reads back as itself |
| Decimal.FieldValue | includes/class-openai-post-generator-settings.php:293-298 | a zero-padded `date()` field reads back as its number |
| Calendar.ParseDateOnly | includes/class-openai-post-generator-settings.php:294 | `Y-m-d` of a valid date is four digits, `-`, two digits, `-`, two digits, and reads back as that date |
| Calendar.ParseTimeOnly | includes/class-openai-post-generator-settings.php:295 | `H:i` is two digits, `:`, two digits, and reads back as the hour and minute |
| Calendar.ParseStampOf | includes/class-openai-post-generator-settings.php:293 | `Y-m-d H:i` is the `Y-m-d` date, a space and the `H:i` time, and reads back as the moment |
| Calendar.ParseCompactDate | includes/class-openai-post-generator-settings.php:517 | the secret's `Ymd` date reads back as the date |
| Calendar.StampInjective | includes/class-openai-post-generator-settings.php:293 | distinct moments print distinct `{date}` values |
| Calendar.CompactInjective | includes/class-openai-post-generator-settings.php:806 | distinct dates give distinct `Ymd` strings |
| Calendar.Month | includes/class-openai-post-generator-settings.php:297 | `{month}` is two digits for a valid date |
| Calendar.Day | includes/class-openai-post-generator-settings.php:298 | `{day}` is two digits for a valid date |
| Substitution.InOrderEqualsSimultaneous | includes/class-openai-post-generator-settings.php:308-310 | `str_replace` with arrays replaces one token after the other; because no value contains a token character, this equals one left-to-right scan that replaces every token at once |
| Substitution.SubstituteLeavesNoToken | includes/class-openai-post-generator-settings.php:308-310 | after the scan no token is left anywhere in the text |
| Substitution.SubstituteSplit | includes/class-openai-post-generator-settings.php:308-310 | the scan of text cut just before a `{` is the scan of each piece, joined |
| Placeholders.ValuesAreDates | includes/class-openai-post-generator-settings.php:290-299 | every replacement is non-empty and made only of digits, `-`, `:` and space |
| Placeholders.ReplacementsWellFormed | includes/class-openai-post-generator-settings.php:290-299 | the six tokens are distinct `{name}` words that share no character with any value |
| Placeholders.RenderIsScan | includes/class-openai-post-generator-settings.php:308-311 | filling in placeholders equals the simultaneous scan |
| Placeholders.RenderPlainText | includes/class-openai-post-generator-settings.php:308-311 | text without `{` is returned unchanged |
| Placeholders.RenderWithoutTokens | includes/class-openai-post-generator-settings.php:308-311 | text in which none of the six tokens occurs comes back unchanged, so it fills in the same at every moment |
| Placeholders.RenderTokens | includes/class-openai-post-generator-settings.php:292-298 | each of the six tokens becomes its own `date()` field, and the rest of the text is filled in as before |
| Placeholders.RenderUnknownPlaceholder | includes/class-openai-post-generator-settings.php:308-311 | any other `{name}` word is copied through, braces included |
| Placeholders.RenderSplitsAtBrace | includes/class-openai-post-generator-settings.php:308-311 | filling in text cut just before a `{` fills in each piece |
| Placeholders.RenderIsFinal | includes/class-openai-post-generator-settings.php:756-758 | filled-in text has no placeholders left, so filling it in again, at any time, changes nothing |
| Placeholders.RenderLength | includes/class-openai-post-generator-settings.php:741-751 | the filled-in length of a template is the same at every valid moment |
| Placeholders.DifferentDaysRenderDifferently | includes/class-openai-post-generator-settings.php:294 | a template holding `{date_only}` fills in differently on two different days |
| Cron.AddCustomIntervals | includes/class-openai-post-generator-settings.php:52-70 | the schedules gain exactly the four minute-based names, and every other schedule is unchanged |
| Cron.CustomIntervalPeriods | includes/class-openai-post-generator-settings.php:52-70 | `every_5/10/30/60_minutes` repeat every 300, 600, 1800 and 3600 seconds |
| Cron.AddCustomIntervalsIdempotent | includes/class-openai-post-generator-settings.php:52-70 | running the filter twice gives the same schedules as running it once |
| Cron.ClearHook | includes/class-openai-post-generator-settings.php:460 | clearing the hook drops exactly its events and keeps every other event |
| Cron.NextRunSpec | includes/class-openai-post-generator-settings.php:489-497 | for a real hour and minute the next run is after now, at most a day later, at that hour and minute, and no earlier instant after now is |
| Cron.ParseFormattedClock | includes/class-openai-post-generator-settings.php:491 | a time in the form's `HH:MM` layout splits at `:` into its hour and minute |
| Cron.FirstRun | includes/class-openai-post-generator-settings.php:462-483 | corrected first run: none for an empty frequency; now for a minute-based one; otherwise a first run exactly when a time is set (the as-written choice, `FirstRunAsWritten`, makes the same three decisions) |
| Cron.FirstRunSpec | includes/class-openai-post-generator-settings.php:479-481 | the corrected first run of a daily schedule is the earliest UTC instant after now, within a day, whose site-clock time is the configured one |
| Cron.AsWrittenIsShifted | includes/class-openai-post-generator-settings.php:489-497 | the first run as written is the intended UTC instant plus the site's offset |
| Cron.DailyRunAnHourLate | includes/class-openai-post-generator-settings.php:480-481 | on a site one hour ahead of UTC, "08:00 daily" is registered for 09:00 site time as written and for 08:00 once corrected |
| Cron.Register | includes/class-openai-post-generator-settings.php:460-483 | after clearing and registering, other hooks' events are untouched and the hook has at most one event; it has one exactly when a positive first run is given with a known schedule, and that event carries the first run |
| Cron.HandleScheduling | includes/class-openai-post-generator-settings.php:453-487 | corrected scheduling: other hooks are untouched; at most one registration is left; none for an empty frequency; a minute-based frequency that WordPress knows is registered to run now; any other known frequency with a time is registered at the next site-clock occurrence of that time turned into UTC, when that is positive; without a time nothing is registered |
| Cron.HandleSchedulingIdempotent | includes/class-openai-post-generator-settings.php:453-487 | with the corrected first run, saving the same schedule twice leaves the registrations a single save leaves |
| Cron.HandleSchedulingAsWritten | includes/class-openai-post-generator-settings.php:453-487 | the scheduling as written: other hooks are untouched; at most one registration is left; none for an empty frequency; a minute-based frequency that WordPress knows is registered to run now; any other known frequency with a time is registered at `get_next_scheduled_time(time)`, the next site-clock occurrence, when that is positive; without a time nothing is registered |
| Cron.HandleSchedulingAsWrittenIdempotent | includes/class-openai-post-generator-settings.php:453-487 | as written, saving the same schedule twice leaves the registrations a single save leaves |
| Settings.Validate | includes/class-openai-post-generator-settings.php:434-451 | the status is always publish, draft or pending, and is the submitted one exactly when that is allowed; missing title, time, category, author and frequency take `AI Post for {date}`, `00:00`, 1, the current user and `''`; present ones are sanitised as text or read with `absint`; key, model, token limit and prompt are always sanitised or read, an absent one as the empty string |
| Settings.MaxTokensScientific | includes/class-openai-post-generator-settings.php:438 | a token limit submitted as `<m>e<k>` is stored as m times 10 to the k |
| Settings.StatusesAreClean | includes/class-openai-post-generator-settings.php:443 | the three allowed statuses are already in sanitised form |
| Settings.ValidatedIsClean | includes/class-openai-post-generator-settings.php:434-445 | every sanitised field of validated options is already in sanitised form |
| Settings.ResubmitClean | includes/class-openai-post-generator-settings.php:434-445 | clean options submitted again, numbers in decimal, validate to themselves, whoever saves them |
| Settings.ValidateIdempotent | includes/class-openai-post-generator-settings.php:434-451 | saving the stored options again leaves them as they are |
| Settings.Save | includes/class-openai-post-generator-settings.php:434-451 | a save with the corrected scheduling stores the validated options, leaves other cron hooks alone and leaves at most one registration |
| Settings.SaveAsWritten | includes/class-openai-post-generator-settings.php:434-451 | a save as the plugin performs it stores the validated options, leaves other cron hooks alone and leaves at most one registration |
| Settings.SaveMinuteFrequency | includes/class-openai-post-generator-settings.php:444-448 | with the corrected scheduling, saving a minute-based frequency registers the event to run now |
| Settings.SaveAsWrittenMinuteFrequency | includes/class-openai-post-generator-settings.php:444-448 | as written, saving a minute-based frequency registers the event to run now |
| Settings.SaveWithoutFrequency | includes/class-openai-post-generator-settings.php:444-448 | saving with no frequency, whether the key is absent or the "None" option's empty value is submitted (:386), leaves nothing registered for the plugin's hook, as written and corrected alike |
| Generation.Handler | includes/class-openai-post-generator-settings.php:504-709 | the API is called exactly when every guard passes; the topic enters the ledger exactly when the request is authorised and the topic is new; a post implies a call; a scheduled request only ever returns false or an ID, and a manual one never returns an ID; success implies a post |
| Generation.Refusal | includes/class-openai-post-generator-settings.php:547-581 | after the ledger, the request goes on exactly when it is scheduled or the user can edit posts, a key is stored and the topic is not empty; a scheduled refusal returns false; a manual request is refused by the first failing check in order — capability ("Insufficient permissions"), then API key ("OpenAI API key is not configured"), then topic ("Topic is required") |
| Generation.Attempt | includes/class-openai-post-generator-settings.php:635-682 | a post is created only from a reply that carries `choices[0].message.content` |
| Generation.Handle | includes/class-openai-post-generator-settings.php:678-682 | with the failure reported, a failed insert never ends in success |
| Generation.UnauthorisedTurnedAway | includes/class-openai-post-generator-settings.php:511-533 | a bad secret or nonce is refused before the ledger is touched: false when scheduled, "Invalid nonce" when manual |
| Generation.DuplicateSuppressed | includes/class-openai-post-generator-settings.php:536-545 | a topic already seen is refused without calling the API: false when scheduled, null when manual |
| Generation.TopicRemembered | includes/class-openai-post-generator-settings.php:536-545 | after an authorised request its topic is in the ledger, whether it was new or already there |
| Generation.RepeatSuppressed | includes/class-openai-post-generator-settings.php:536-545 | the same request handled twice within one PHP request (the second call given the ledger the first left) is suppressed the second time |
| Generation.PromptSent | includes/class-openai-post-generator-settings.php:585-603 | the user message is the custom prompt verbatim, or else the stored prompt filled in, then a space and the topic; the payload carries the fixed system message and the stored model, token limit and key |
| Generation.StoredPromptIsFinal | includes/class-openai-post-generator-settings.php:585-586 | a stored prompt once filled in has no placeholders left |
| Generation.PostBuilt | includes/class-openai-post-generator-settings.php:670-676 | the post's title is the topic, its content the reply's text, its status the requested one (default draft), its author the requested one (default the current user), and its categories the one requested |
| Generation.ReplyWithoutContent | includes/class-openai-post-generator-settings.php:655-660 | a transport error or a reply without content gives no post, and "Error: ..." with the reason |
| Generation.ForgedScheduledRequest | includes/class-openai-post-generator-settings.php:511-548 | a request carrying `is_scheduled` and `openai_scheduled_` plus today's UTC date reaches the API with no valid nonce and no edit capability |
| Generation.RequestedStatusKept | includes/class-openai-post-generator-settings.php:569 | a requested status of `publish`, `draft` or `pending` reaches the post as it is |
| Generation.InsertFailureReported | includes/class-openai-post-generator-settings.php:678-696 | as written, a failed insert reports success with ID 0; once corrected, it reports "Error: " and the insert's message |
| ScheduledRun.GenerateOnSchedule | includes/class-openai-post-generator-settings.php:761-842 | a run is skipped, with no call and the ledger untouched, exactly when the key or the prompt is missing; a published run has a nonzero ID and a post |
| ScheduledRun.RequestFields | includes/class-openai-post-generator-settings.php:800-808 | the request the callback builds is scheduled; it passes the secret check exactly when the two secrets agree; the handler reads from it the filled-in title, prompt, status, author and category |
| ScheduledRun.SecretAccepted | includes/class-openai-post-generator-settings.php:806 | the secret built equals the secret checked when both are read on the same UTC date |
| ScheduledRun.SecretInjective | includes/class-openai-post-generator-settings.php:517 | different dates give different secrets |
| ScheduledRun.SecretRejectedAcrossMidnight | includes/class-openai-post-generator-settings.php:806 | a run whose secret is built before midnight UTC and checked after it fails without touching the ledger or calling the API |
| ScheduledRun.ScheduledPrompt | includes/class-openai-post-generator-settings.php:781-807 | the scheduled user message is the stored prompt filled in at the run's time, then the filled-in title, which is the prompt a manual request without a custom prompt would use |
| ScheduledRun.ScheduledPost | includes/class-openai-post-generator-settings.php:789-808 | a scheduled post carries the filled-in title and the configured status, author and category |
| ScheduledRun.EmptyTitleFails | includes/class-openai-post-generator-settings.php:777-779 | a title template that fills in to nothing, or to `0`, makes every run fail before the API is called |
| ScheduledRun.SecondRunSameTitleFails | includes/class-openai-post-generator-settings.php:800-823 | two runs that share one ledger, which happens only within one PHP request, whose titles fill in to the same topic, at any times and on any UTC dates: the second is suppressed as a duplicate and makes no API call |

## Left out

- cURL, JSON and timeouts are not modelled. The API reply is an input: a transport error, or a body that does or does not hold `choices[0].message.content`. HTTP status codes, `curl_close` and the debug logging of the reply are left out.
- WordPress functions are not modelled; each becomes an input or a simple function:
  - `get_option` becomes the stored options (`None` when absent);
  - `wp_verify_nonce` and `current_user_can` become booleans;
  - `get_current_user_id` becomes a number;
  - `wp_insert_post` becomes an abstract success or failure;
  - `wp_clear_scheduled_hook` and `wp_schedule_event` become functions over a list of events;
  - `wp_send_json_*` becomes an outcome value.
- `wp_send_json_error` and `wp_send_json_success` end the request. In the model they are the handler's final outcome.
- What admin-ajax prints after a handler that returns nothing is not modelled.
- `wp_schedule_event` does more than the model: it runs the event through the `pre_schedule_event` and `schedule_event` filters, and an event with the same timestamp, hook and arguments takes the place of the stored one. Only the checks for a positive timestamp and a known recurrence are kept; `Cron.Register` starts from a cleared hook in any case.
- Epoch-to-calendar conversion, timezones and daylight saving are not modelled. The placeholders take a calendar record of the site clock. The scheduler takes integer timestamps, a fixed offset and a fixed 86400-second day. `Calendar.ValidDate` does not check month lengths, since no property depends on them.
- `Cron.ParseClock` reads each side of `explode(':')` with `intval`. On PHP 8, `mktime` throws a `TypeError` for a non-numeric string; that throw is not modelled.
- A time with no `:` leaves `$minute` unset; `mktime` then takes the current minute, and the model uses the minute of the UTC clock.
- `sanitize_text_field` is modelled as collapsing whitespace and trimming. It also strips tags, percent-encoded octets and invalid UTF-8; that stripping is left out.
- `sanitize_textarea_field` is modelled as a trim that keeps the inner line breaks.
- PHP integers are unbounded in the model, so 64-bit overflow in `intval` and `absint` is not modelled. Nor is it in `in_array`'s loose comparison (`Php.LooseEquals`, used by `Generation.Seen`): PHP 8 compares integer strings beyond the 64-bit range as doubles, so `"9223372036854775807" == "9223372036854775808"` holds in PHP, while the model compares exact values.
- `Php.IntVal`: a numeric prefix with a fraction or an exponent is read exactly, while PHP reads it as a double first; digit strings long enough to lose precision there (`0.99999999999999999` reads as 1 in PHP, 0 in the model) and exponents beyond the double range are not modelled.
- `in_array`'s loose comparison is modelled for plain integer strings only. Numeric strings with a fraction, an exponent or leading whitespace compare as strings in the model.
- The topic ledger is a function-level PHP `static` (:536). PHP empties it when each request ends, so every admin-ajax call and every wp-cron request starts with an empty ledger. A double-click's two AJAX posts are therefore not suppressed, and a constant title template is never suppressed on a later scheduled run. The model passes the ledger in and out explicitly, so `Generation.RepeatSuppressed` and `ScheduledRun.SecondRunSameTitleFails` apply only to calls within one PHP request.
- `ScheduledRun.GenerateOnSchedule` takes the stored options from `validate`, which always sets every key. The callback's `isset` defaults for the title, category, author and status are therefore never taken and are not modelled.
- The `absint` the callback applies to the stored category and author is not modelled. Those values are already non-negative integers.
- The scheduled callback reads the clock twice: once for the title (:779) and again for the prompt (:783, through :742). The model fills both from one site-clock reading, so a run that crosses a minute boundary between the two is not modelled.
- The callback's `try`/`catch` is not modelled, because the handler catches its own exceptions.
- `set_time_limit`, the `OPENAI_MANUAL_DEBUG_RUN` flag, the `temperature` of 0.7, the `edit_url` of the success response, and all debug logging are left out.
- The settings UI is left out: menus, field callbacks, `register_settings`, scripts and styles, the debug page and the other files of the plugin. They render HTML and wire hooks.
- Translations of the schedule labels (`__()`) are left out; the labels are kept in English.
- WordPress runs `validate` twice on the first save of the option. That is harmless, since `Settings.ValidateIdempotent` shows a second run changes nothing, and it is not modelled.
- The PHP dispatch of `generate_post_on_schedule` through `add_action` is not modelled.

## Findings

| source | as written | input that shows it | evidently intended | confidence | as-written member | corrected member |
|---|---|---|---|---|---|---|
| includes/class-openai-post-generator-settings.php:480-481 | `get_next_scheduled_time` computes the next slot on the site clock (`current_time('timestamp')`, UTC plus the offset) and passes it to `wp_schedule_event`, which takes a UTC timestamp | site offset +3600, UTC clock 86400 (midnight), "08:00" daily: the event is registered for 115200, which is 09:00 on the site clock | the first run at 08:00 site time, UTC 111600 | medium (not executed) | Cron.HandleSchedulingAsWritten (saved by Settings.SaveAsWritten), exhibited by Cron.DailyRunAnHourLate and Cron.AsWrittenIsShifted | Cron.HandleScheduling (saved by Settings.Save), with Cron.FirstRunSpec |
| includes/class-openai-post-generator-settings.php:678-682 | `wp_insert_post` is called without `$wp_error`, so a failed insert returns 0, never a `WP_Error`, and the `is_wp_error` branch cannot be taken | an admitted manual request whose API call succeeds but whose insert fails: the response is `wp_send_json_success` for post 0; a scheduled run returns 0 and is logged as failed without the reason | the failure reaches the catch block: "Error: " and the message for a manual request, false for a scheduled one | high (not executed) | Generation.HandleAsWritten, exhibited by Generation.InsertFailureReported | Generation.Handle, with Generation.InsertFailureReported |
