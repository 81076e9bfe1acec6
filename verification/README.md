# EasyBlog Auto Expire, modelled in Dafny

EasyBlog Auto Expire is a Joomla system plugin. On a cron request it walks a
list of expiry rules, each made of a title search term, an age in days and an
action. For each rule it finds the published EasyBlog posts that are at least
that old and whose title contains the term. It then disables (unpublishes) the
post, archives it (`state = 2`), or does both. The repository holds two
versions of the plugin:

- the namespaced plugin (`src/Extension/EasyBlogAutoExpire.php`). It has 9
  rule slots, validates the slots, escapes the `LIKE` term, checks each row
  and has a development mode that only reports. It catches a failed write for
  each post separately. When at least one post was processed it writes a
  summary block to EasyBlog's diagnostics file;
- the legacy plugin (`easyblogautoexpire.php`). It has 10 slots, weaker
  validation and an unescaped `LIKE` term. It does no error handling, so the
  first write that raises ends the run.

The model keeps the plugins' own structure:

| file | module | what it holds |
|---|---|---|
| `php.dfy` | `Php` | PHP's `empty()` and `trim`, MySQL's `real_escape_string`, string literals and `LIKE`, Joomla's `LIKE` escaping, `%d` formatting |
| `host.dfy` | `Host` | the stored plugin parameters with their defaults; the slot scan of `getRules`, given each plugin's slot test; the cron gate |
| `store.dfy` | `Store` | the `#__easyblog_post` table as a class `PostTable` changed in place by its two writes; which write attempts fail; a query as a filter over the rows |
| `diagnostics.dfy` | `Diagnostics` | the processed-post record and the diagnostics text block, built by a loop |
| `auto_expire.dfy` | `AutoExpire` | the namespaced plugin: `getRules`, the query, `validatePost`, the action switch, `processExpiredPosts`, `onAfterRoute` |
| `auto_expire_properties.dfy` | `AutoExpireProperties` | what a whole namespaced run guarantees |
| `legacy.dfy` | `Legacy` | the legacy plugin, with its properties |

Each loop of the source (`getRules`, the nested loops of
`processExpiredPosts`, the line loop of `logToEasyBlogDiagnostics`) is a
method. Each method is proved to compute a specification function, and the
run-level properties are proved as lemmas about those functions. The post
table is a sequence of rows in the order the database returns them. A write
applies to every row with the given id, as `WHERE id = …` does. Store failures
are an input: the set of positions, in the sequence of write attempts, at
which the database or EasyBlog raises. A failed write changes no row.

Behaviour that follows from the code and is easy to miss:

- The namespaced loader tests the title for emptiness *before* trimming it
  (src/Extension/EasyBlogAutoExpire.php:469-471). A title of spaces is
  therefore kept, as the empty term. An empty term adds no title filter
  (line 213), so such a rule selects every published post older than its
  cutoff. The same happens for " 0", which trims to "0", and PHP's `empty()`
  is true for "0".
- The namespaced term goes through `escape($term, true)` and `quote()`
  (src/Extension/EasyBlogAutoExpire.php:214-215). On MySQL the first is
  `real_escape_string` followed by a backslash before every `%` and `_`. The
  second escapes once more, and the database undoes that when it reads the
  literal. `LIKE` therefore sees a backslash before every `\`, `%` and `_` of
  the term, and selection is substring containment. The one exception:
  `real_escape_string` writes NUL, newline, carriage return and Ctrl-Z as `\0`,
  `\n`, `\r` and `\Z`, and `LIKE` reads these as the letters `0`, `n`, `r`
  and `Z`. A term holding a newline thus misses titles that contain it.
- The legacy term is only quoted (easyblogautoexpire.php:99). Its `%` and `_`
  stay wildcards, and a backslash in it escapes the character after it.
- A post disabled by one rule is not processed again by a later rule in the
  same run. Every query is run afresh with `published = 1`. A post is
  recorded and acted on twice only while it stays published: in development
  mode, under an `archive` rule, or after a failed disable.
- In the legacy plugin a failing write is not isolated. The exception leaves
  `processExpiredPosts`, and later posts and rules are not processed.

## Model

| member | source | states |
|---|---|---|
| AutoExpire.ParseAction | src/Extension/EasyBlogAutoExpire.php:474-476 | "archive" and "both" are kept; every other action string becomes disable |
| AutoExpire.LoadedRules | src/Extension/EasyBlogAutoExpire.php:460-489 | at most one rule per slot; every loaded rule is enabled with 1 ≤ days ≤ 3650 |
| Host.KeptSlots | src/Extension/EasyBlogAutoExpire.php:460-469 | a slot number is kept iff it lies in 1..n and the slot passes the plugin's test; kept numbers are in increasing order |
| Host.LoadedFollowsSlots | src/Extension/EasyBlogAutoExpire.php:460-489 | the k-th loaded rule is the rule made from the k-th kept slot, one per kept slot; with the namespaced test this is the trimmed title, the days and the coerced action |
| Host.LoadedFromValidSlots | easyblogautoexpire.php:183-196 | every loaded rule is made from a slot in 1..n that passes the plugin's test |
| AutoExpire.GetRules | src/Extension/EasyBlogAutoExpire.php:454-493 | the loop over slots 1..9 returns exactly the loaded rules: at most 9, all enabled, days in range |
| AutoExpire.WhitespaceTitleIsKept | src/Extension/EasyBlogAutoExpire.php:469-471 | an enabled, in-range slot whose title is only whitespace yields a rule whose term is "" |
| AutoExpire.EmptyTermSelectsAllOld | src/Extension/EasyBlogAutoExpire.php:213-217 | a rule with an `empty()` term selects every published post created on or before the cutoff |
| AutoExpire.TitlePattern | src/Extension/EasyBlogAutoExpire.php:214-215 | the pattern the database reads back from the quoted literal is the escaped term between two `%` |
| AutoExpire.Selects | src/Extension/EasyBlogAutoExpire.php:206-217 | the WHERE clause: published = 1, created on or before the cutoff, and the title `LIKE` the pattern when the term is not `empty()`; its meaning as containment is `SelectsByContainment` |
| AutoExpire.Select | src/Extension/EasyBlogAutoExpire.php:218-221 | the rows the query returns, in table order: `Store.Where` with the clause above |
| Store.Where | src/Extension/EasyBlogAutoExpire.php:206-221 | a row is returned iff it is in the table and meets the WHERE clause; no row is invented; the rows returned are a subsequence of the table, so they keep its order (both plugins' queries) |
| AutoExpire.SelectsByContainment | src/Extension/EasyBlogAutoExpire.php:209-215 | selected iff published = 1, created ≤ now − days·86400, and the title contains the term's literal text (or the term is `empty()`); that text is the term itself unless it holds NUL, newline, carriage return or Ctrl-Z |
| AutoExpire.NewlineInTermMatchesLetter | src/Extension/EasyBlogAutoExpire.php:214 | the term "a", newline, "b" selects the title "anb" and not a title holding the term, since `real_escape_string` writes the newline as `\n` |
| AutoExpire.ValidatePost | src/Extension/EasyBlogAutoExpire.php:383-390 | a row passes iff its id is positive and it is published; `Expired` and `RunTouchesOnlyExpired` carry this into the run |
| AutoExpire.LabelIdentifiesModeAndAction | src/Extension/EasyBlogAutoExpire.php:238-269 | no two (mode, action) pairs share a label; development labels, and only they, start with "would " |
| AutoExpire.Perform | src/Extension/EasyBlogAutoExpire.php:253-269 | the production switch: disable attempts one flagged unpublish, archive one state-2 update, both the update and then the unpublish; its effect is stated by the lemmas below |
| AutoExpire.PerformEffect | src/Extension/EasyBlogAutoExpire.php:253-269 | when its writes succeed, an action changes only rows with that id: archive sets state 2 and keeps published, disable sets published 0 and keeps state, both does the two |
| AutoExpire.FailedWriteChangesNoRow | src/Extension/EasyBlogAutoExpire.php:409-415 | a write that raises leaves every row unchanged; only the attempt is recorded |
| AutoExpire.BothArchivesBeforeDisabling | src/Extension/EasyBlogAutoExpire.php:264-267 | `both` attempts the archive first and the unpublish second, even after a failed archive |
| AutoExpire.PerformEvolves | src/Extension/EasyBlogAutoExpire.php:253-269 | an action only unpublishes or archives, and every unpublish it issues carries `isScheduleProcess` |
| AutoExpire.PerformChangesOnlyId | src/Extension/EasyBlogAutoExpire.php:253-269 | whichever writes fail, an action changes no row whose id differs from the post's |
| AutoExpire.RunTouchesOnlyExpired | src/Extension/EasyBlogAutoExpire.php:191-285 | over a run, every row that was unpublished or archived has the id of an original row that is published, created on or before the cutoff, titled with the term, with a positive id, for some enabled rule; every entry names such an original row (id and title) for the rule at its 1-based position |
| AutoExpire.DisablePost | src/Extension/EasyBlogAutoExpire.php:401-416 | the table afterwards is the unpublish attempt with `isScheduleProcess = true` on the table before; its error is swallowed |
| AutoExpire.ArchivePost | src/Extension/EasyBlogAutoExpire.php:427-445 | the table afterwards is the state-2 attempt on the table before; its error is swallowed |
| AutoExpire.ApplyAction | src/Extension/EasyBlogAutoExpire.php:236-270 | the label is the mode's label for the action; in development mode the table is unchanged, otherwise the action's writes are attempted |
| AutoExpire.ProcessRule | src/Extension/EasyBlogAutoExpire.php:224-284 | the loop over a rule's result leaves the table and entries that the specification of that rule gives; count = number of entries |
| AutoExpire.ProcessExpiredPosts | src/Extension/EasyBlogAutoExpire.php:153-301 | the final table and entries are those of the specified run over the loaded rules; count = number of entries; a summary exists iff count > 0 and is the diagnostics block of those entries; only rows of ids of expired, valid original rows were unpublished or archived, and every entry is about such a row under the rule it names |
| AutoExpire.OnAfterRoute | src/Extension/EasyBlogAutoExpire.php:118-144 | a run happens iff EasyBlog is ready, the request is a cron request (task "cron" or the cron flag) and it is a site request; otherwise nothing changes; after a run the table and the summary are those of the specified run |
| AutoExpireProperties.RunEvolves | src/Extension/EasyBlogAutoExpire.php:191-285 | over a run, rows keep id, title and creation time and may only become unpublished or archived; writes are only appended, and every unpublish has `isScheduleProcess` |
| AutoExpireProperties.DevelopmentModeChangesNothing | src/Extension/EasyBlogAutoExpire.php:238-250 | in development mode the run changes no row and attempts no write |
| AutoExpireProperties.RecordedNamesRule | src/Extension/EasyBlogAutoExpire.php:273-281 | every entry a rule records has a positive id, that rule's number, term and days, the mode's label for its action, and the mode flag; at most one entry per result row |
| AutoExpireProperties.RecordedEvolves | src/Extension/EasyBlogAutoExpire.php:230-234 | which rows of a result get recorded does not change as the table evolves during the run |
| AutoExpireProperties.FailuresDoNotDropEntries | src/Extension/EasyBlogAutoExpire.php:255-283 | a rule records an entry for every result row that validates and loads, whichever writes fail |
| AutoExpireProperties.EntriesDescribeRules | src/Extension/EasyBlogAutoExpire.php:191-285 | a run only appends entries, and each appended entry names, by its position in the loaded list, the rule whose term, days and label it carries |
| AutoExpireProperties.RunEntriesDescribeRules | src/Extension/EasyBlogAutoExpire.php:277 | in a whole run each entry's rule number is between 1 and the number of loaded rules (not the slot number), and the entry matches that rule |
| AutoExpireProperties.DevelopmentRunEntries | src/Extension/EasyBlogAutoExpire.php:191-250 | a development run records, rule after rule, every valid loaded row of each rule's result on the original table, so a post matched by two rules is recorded twice |
| AutoExpireProperties.UnpublishedIsNeverProcessed | src/Extension/EasyBlogAutoExpire.php:209 | for a post that is not published at some point of a run (for instance one an earlier rule unpublished and recorded), the rest of the run keeps the entries so far and appends none for it |
| Diagnostics.CutTitle | src/Extension/EasyBlogAutoExpire.php:338 | a title of at most 50 characters is shown whole; a longer one shows its first 50 characters followed by "..." |
| Diagnostics.Header | src/Extension/EasyBlogAutoExpire.php:330-332 | the rule line, the time stamp and plugin name, the count and the mode; `HeaderStatesCount` reads the count back |
| Diagnostics.EntryLine | src/Extension/EasyBlogAutoExpire.php:334-345 | one line per processed post: id, cut title, label, rule number, term, days and the test marker; `EntryLineMarksDevelopment` states the marker |
| Diagnostics.LogEntry | src/Extension/EasyBlogAutoExpire.php:330-351 | the block: header, lines, development banner only in development mode, closing rule; `BuildLogEntry` computes it |
| Diagnostics.EntryLineMarksDevelopment | src/Extension/EasyBlogAutoExpire.php:335-343 | a line ends in " [TEST ONLY]" and a newline exactly in development mode |
| Diagnostics.HeaderStatesCount | src/Extension/EasyBlogAutoExpire.php:330-332 | the header's decimal count after " - Processed " reads back as the number of processed posts |
| Diagnostics.LinesOfPrefix | src/Extension/EasyBlogAutoExpire.php:334-345 | the lines of a list extend the lines of each prefix: one line per entry, in entry order |
| Diagnostics.BuildLogEntry | src/Extension/EasyBlogAutoExpire.php:330-351 | the loop builds exactly header, one line per entry, the development banner only in development mode, and the closing rule |
| Store.ArchiveRows | src/Extension/EasyBlogAutoExpire.php:431-434 | rows with the id get state 2 and nothing else changes; other rows are unchanged |
| Store.UnpublishRows | src/Extension/EasyBlogAutoExpire.php:408 | rows with the id get published 0 and nothing else changes; other rows are unchanged |
| Store.HasPostEvolves | src/Extension/EasyBlogAutoExpire.php:230-234 | whether a post loads does not change as rows evolve |
| Store.AttemptEvolves | src/Extension/EasyBlogAutoExpire.php:401-445 | one archive attempt, or one unpublish attempt flagged as scheduled, keeps the table within how it may evolve |
| Store.AttemptChangesOnlyId | src/Extension/EasyBlogAutoExpire.php:431-434 | an attempted write, `WHERE id = …`, changes no row with another id, whether it succeeds or not |
| Store.ChangesWithinStep | src/Extension/EasyBlogAutoExpire.php:224-284 | a step that changes only rows of an admitted id keeps every change since the start on admitted ids |
| Store.PublishedRowWasThere | src/Extension/EasyBlogAutoExpire.php:209 | a published row the query finds later in a run was published in the original table, with the same id, title and creation time |
| Store.PostTable.SetArchived | src/Extension/EasyBlogAutoExpire.php:431-437 | reports whether the update succeeds and changes the table as one archive attempt |
| Store.PostTable.Unpublish | easyblogautoexpire.php:144-151 | reports whether unpublish succeeds and changes the table as one unpublish attempt |
| Php.Trim | src/Extension/EasyBlogAutoExpire.php:471 | the result is empty iff the input is all whitespace, and otherwise neither starts nor ends with whitespace |
| Php.TrimIsSlice | src/Extension/EasyBlogAutoExpire.php:471 | `trim()` returns the slice of its input left once the whitespace at both ends is cut off |
| Php.Like | src/Extension/EasyBlogAutoExpire.php:215 | MySQL `LIKE` on the pattern value: `%` any run, `_` any character, a backslash makes the next character literal; its properties are the `Like…` lemmas |
| Php.ReadLiteralRealEscape | src/Extension/EasyBlogAutoExpire.php:215 | reading back a literal written by `real_escape_string` gives the string itself, so `quote()` passes its argument to the database unchanged |
| Php.QuotedValue | easyblogautoexpire.php:99 | the value of `$db->quote($s)` as the database reads it is `$s` |
| Php.EscapeLike | src/Extension/EasyBlogAutoExpire.php:214 | `escape($text, true)` on MySQL: `real_escape_string`, then a backslash before every `%` and `_` |
| Php.LikeEscapedPrefix | src/Extension/EasyBlogAutoExpire.php:214 | an escaped term followed by a pattern matches iff the term's literal text is a prefix and the pattern matches the rest |
| Php.LikeEscapedContains | src/Extension/EasyBlogAutoExpire.php:214-215 | for every term, the escaped pattern `%term%` matches a title iff the title contains the term's literal text, which is the term unless it holds one of the four control characters |
| Php.LikeRawContains | easyblogautoexpire.php:99 | for a backslash-free term, the unescaped pattern `%term%` matches every title containing the term |
| Legacy.LoadedRules | easyblogautoexpire.php:183-196 | at most one rule per slot; every loaded rule is enabled and its term is not `empty()`; title, days and action are kept as stored, with no trim, range check or coercion |
| Legacy.GetRules | easyblogautoexpire.php:178-200 | the loop over slots 1..10 returns exactly the loaded rules, at most 10 |
| Legacy.TitlePattern | easyblogautoexpire.php:99 | the pattern the database reads back from the quoted literal is the unescaped term between two `%` |
| Legacy.Selects | easyblogautoexpire.php:94-99 | the WHERE clause: published = 1, created on or before the cutoff, and the title `LIKE` the unescaped pattern when the term is not `empty()` |
| Legacy.SelectsContaining | easyblogautoexpire.php:94-99 | a published, old-enough post whose title contains a backslash-free term is selected |
| Legacy.UnescapedWildcardsSelectMore | easyblogautoexpire.php:99 | the term "a_c" selects the title "abc", which does not contain it |
| Legacy.PerformWrites | easyblogautoexpire.php:113-126 | "disable" issues one scheduled unpublish, "archive" one state-2 update, "both" the update and then, unless it raised, the unpublish; any other action string writes nothing |
| Legacy.PerformStops | easyblogautoexpire.php:122-125 | an action stops at its first failing write and raises exactly when that write failed |
| Legacy.UnknownActionIsCounted | easyblogautoexpire.php:113-128 | a loaded post with an unknown action string is counted and changes nothing |
| Legacy.Perform | easyblogautoexpire.php:113-126 | the switch: "disable" and "archive" attempt one write, "both" the update and then, only if it did not raise, the unpublish; any other string nothing; it reports whether a write raised |
| Legacy.PerformChangesOnlyId | easyblogautoexpire.php:113-126 | whichever writes fail, an action changes no row whose id differs from the post's |
| Legacy.RunTouchesOnlySelected | easyblogautoexpire.php:82-130 | however a run ends, every row that was unpublished or archived has the id of an original row that an enabled rule's query selects: published, created on or before the cutoff, title `LIKE` the unescaped pattern |
| Legacy.RunPostsStops | easyblogautoexpire.php:105-129 | the loop over a result stops at its first failing write; the writes before it stay |
| Legacy.RunRulesStops | easyblogautoexpire.php:82-130 | a run attempts writes that all succeed except possibly the last; it throws exactly when that last write failed; rows only become unpublished or archived; every unpublish is scheduled |
| Legacy.NoFailureCompletes | easyblogautoexpire.php:70-136 | with no failing write ahead, the run completes |
| Legacy.CountsEveryLoadedPost | easyblogautoexpire.php:105-129 | a rule that does not throw adds to the count every result row whose post loads, whatever its action |
| Legacy.InfoMessage | easyblogautoexpire.php:133-135 | the info message reads back the count between its fixed prefix and " posts." |
| Legacy.DisablePost | easyblogautoexpire.php:144-151 | unpublish with `isScheduleProcess = true`; reports whether it raised |
| Legacy.ArchivePost | easyblogautoexpire.php:159-170 | the state-2 update of that id; reports whether it raised |
| Legacy.ApplyAction | easyblogautoexpire.php:113-126 | the switch performs the action's writes and reports whether an error escaped |
| Legacy.ProcessRule | easyblogautoexpire.php:91-129 | the loop over a rule's result leaves the table and count that the specification gives, and stops at the first error |
| Legacy.ProcessExpiredPosts | easyblogautoexpire.php:70-136 | the final table is that of the specified run; the outcome is a throw iff a write failed, otherwise the count, with the info message iff the count is positive; only rows of ids of original rows that an enabled rule's query selects were unpublished or archived |
| Legacy.OnAfterRoute | easyblogautoexpire.php:48-62 | a run happens iff EasyBlog is ready, the request is a cron request and it is a site request; otherwise nothing changes |
| Host.CronRun | src/Extension/EasyBlogAutoExpire.php:138 | the gate: EasyBlog ready, task "cron" or the cron flag, and a site request |
| AutoExpire.SlotValid | src/Extension/EasyBlogAutoExpire.php:469 | the slot test of `getRules`: enabled, title not `empty()` before trimming, and 1 ≤ days ≤ 3650; `KeptSlots` states which slots pass it |
| AutoExpire.SlotRule | src/Extension/EasyBlogAutoExpire.php:470-483 | the rule made from a passing slot: enabled, trimmed title, the days, the action coerced by `ParseAction`; `LoadedFollowsSlots` ties it to the k-th kept slot |
| AutoExpire.DevelopmentLabel | src/Extension/EasyBlogAutoExpire.php:238-250 | the "would …" label of each action in development mode |
| AutoExpire.ProductionLabel | src/Extension/EasyBlogAutoExpire.php:253-269 | the past-tense label of each action in production mode |
| AutoExpire.Label | src/Extension/EasyBlogAutoExpire.php:237-270 | the label the mode chooses; `LabelIdentifiesModeAndAction` shows it identifies mode and action |
| AutoExpire.EntryFor | src/Extension/EasyBlogAutoExpire.php:273-281 | the record of a processed post: its id, the title of the result row, the label, the 1-based rule number, the term, the days and the mode; `RecordedNamesRule` states it |
| AutoExpire.PostStep | src/Extension/EasyBlogAutoExpire.php:224-284 | one row of a rule's result: skipped unless it validates and loads, otherwise acted on in production and recorded in either mode; `FailuresDoNotDropEntries` and `PostStepTouchesExpired` state its effect |
| AutoExpire.RunPosts | src/Extension/EasyBlogAutoExpire.php:224-284 | the inner loop: the result rows in order, each on the state the previous one left; `ProcessRule` computes it |
| AutoExpire.RuleStep | src/Extension/EasyBlogAutoExpire.php:191-222 | one rule: skipped when disabled, otherwise its query runs on the table as it is now and every row returned goes through the inner loop |
| AutoExpire.RunRules | src/Extension/EasyBlogAutoExpire.php:191-285 | the outer loop: the loaded rules in order, numbered from 1; `RunEvolves`, `EntriesDescribeRules`, `UnpublishedIsNeverProcessed` and `RunTouchesOnlyExpired` state what it guarantees |
| AutoExpire.Run | src/Extension/EasyBlogAutoExpire.php:153-285 | the whole run over the loaded rules, from an empty list of records; `ProcessExpiredPosts` computes it |
| Legacy.SlotValid | easyblogautoexpire.php:189 | the legacy slot test: enabled and title not `empty()`, with no range check on days |
| Legacy.SlotRule | easyblogautoexpire.php:190-195 | the legacy rule: enabled, with title, days and action as read, with no trim, range check or coercion; an empty stored action reads as "disable" |
| Legacy.PostStep | easyblogautoexpire.php:105-129 | one row of a result: skipped unless its post loads, otherwise the switch runs and the post is counted, unless a write raised, which aborts the run; `PostStepTouchesSelected` states its effect |
| Legacy.RunPosts | easyblogautoexpire.php:105-129 | the inner loop, which stops once the run is aborted; `RunPostsStops` and `ProcessRule` state it |
| Legacy.RuleStep | easyblogautoexpire.php:82-103 | one rule: skipped when disabled, otherwise its query runs on the table as it is now and the result goes through the inner loop |
| Legacy.RunRules | easyblogautoexpire.php:82-130 | the outer loop, which stops once the run is aborted; `RunRulesStops` states it |
| Legacy.Run | easyblogautoexpire.php:79-130 | the whole run, from a count of 0; `ProcessExpiredPosts` computes it |
| Legacy.Result | easyblogautoexpire.php:132-135 | a throw if the run was aborted, otherwise the count, with the info message iff the count is positive |
| Store.HasPost | src/Extension/EasyBlogAutoExpire.php:230-234 | `EB::post($id)` yields a post with a non-zero id iff some row has that id (also easyblogautoexpire.php:106-110); `HasPostEvolves` keeps it stable over a run |
| Store.Attempt | src/Extension/EasyBlogAutoExpire.php:401-445 | a write attempt is logged and changes the rows only when it does not fail; `AttemptEvolves` and `AttemptChangesOnlyId` state its effect |
| Store.Cutoff | src/Extension/EasyBlogAutoExpire.php:202 | the cutoff of a rule: `now` minus its days in seconds |
| Php.IsEmpty | src/Extension/EasyBlogAutoExpire.php:469 | PHP's `empty()` on a string: true for "" and "0" |
| Php.RealEscape | src/Extension/EasyBlogAutoExpire.php:214 | MySQL `real_escape_string`: a backslash before backslash and both quotes; NUL, newline, carriage return and Ctrl-Z written as backslash 0, n, r, Z; `ReadLiteralRealEscape` shows the literal read undoes it |
| Php.ReadLiteral | src/Extension/EasyBlogAutoExpire.php:215 | how MySQL reads the backslash escapes of a quoted literal; `ReadLiteralRealEscape` states it undoes `real_escape_string` |
| Php.Contains | src/Extension/EasyBlogAutoExpire.php:215 | `w` occurs in `s`: the meaning `LikeEscapedContains` gives the escaped `LIKE` |
| Host.EnabledParam | src/Extension/EasyBlogAutoExpire.php:461 | a slot is enabled iff the value read (default 0) is not `empty()` |
| Host.TitleParam | src/Extension/EasyBlogAutoExpire.php:462 | the stored title, or "" when it is missing or empty |
| Host.DaysParam | src/Extension/EasyBlogAutoExpire.php:463 | the stored days, by default 30 |
| Host.ActionParam | src/Extension/EasyBlogAutoExpire.php:464 | the stored action, or "disable" when it is missing or stored as "" (also easyblogautoexpire.php:187); `Legacy.EmptyStoredActionDisables` shows the consequence |
| Host.DevelopmentMode | src/Extension/EasyBlogAutoExpire.php:160 | development mode iff the value read (default 0) is not `empty()` |
| Diagnostics.Lines | src/Extension/EasyBlogAutoExpire.php:334-345 | one entry line per processed post, in order; `LinesOfPrefix` states it |
| Diagnostics.Footer | src/Extension/EasyBlogAutoExpire.php:347-351 | the development banner only in development mode, then the closing rule |
| Host.StoredOr | src/Extension/EasyBlogAutoExpire.php:461-464 | `Registry::get($key, $default)`: the stored value, or the default when the key is missing or its value is "" (also easyblogautoexpire.php:184-187) |
| Legacy.EmptyStoredActionDisables | easyblogautoexpire.php:187 | a slot whose stored action is "" loads with the action "disable", so the switch unpublishes the post |
| Legacy.Select | easyblogautoexpire.php:91-103 | the rows the legacy query returns, in table order: `Store.Where` with the legacy clause |
| Php.EscapeWildcards | src/Extension/EasyBlogAutoExpire.php:214 | `addcslashes(…, '%_')`, the second step of `escape($text, true)`: a backslash before every `%` and `_`; `EscapeWildcardsAppend` shows it works character by character |
| Php.IntToString | src/Extension/EasyBlogAutoExpire.php:331-336 | PHP's decimal text of an integer (`%d`, string concatenation): non-empty, a leading `-` iff negative, and its digits read back as the absolute value |
| Php.Repeat | src/Extension/EasyBlogAutoExpire.php:330-332 | `str_repeat($c, $n)`: exactly `n` copies of `c` |
| Diagnostics.ClosingRule | src/Extension/EasyBlogAutoExpire.php:351 | the closing line of the block: 80 `=` and a newline |

## Left out

- `exists()` (the file check, `require_once`, `EB::isFoundryEnabled`, the static memo) is the boolean input `easyBlogReady`.
- Getting the database connection and its fallback (src/Extension/EasyBlogAutoExpire.php:170-184) is not modelled; the connection is assumed.
- The SQL text built with `quoteName` is not modelled: the WHERE clause is a predicate on rows. Of `quote` and `escape` the model keeps what reaches `LIKE`: `real_escape_string`, the wildcard escaping, and MySQL reading the literal back.
- `real_escape_string` is modelled for single-byte characters under the default SQL mode. Multi-byte character sets and the `NO_BACKSLASH_ESCAPES` mode, under which a backslash in a literal is an ordinary character, are not modelled. `Php.ReadLiteral` does not read the `''` form of a quote, which `real_escape_string` never writes.
- `LIKE` collation and case folding depend on the database. `Php.Like` compares characters exactly.
- Time: `Factory::getDate('-N days')`, time zones and SQL date formats are not modelled. Time is integer seconds, and the cutoff is `now − days·86400`. The time stamp of the diagnostics block is an input string.
- File I/O is not modelled: `debugLog`, the header written by `File::exists`/`File::write`, and the `file_put_contents` append. `AutoExpire.ProcessExpiredPosts` returns the block it would append.
- `Log::add`, the `Text::sprintf` language strings and the fallback warning are logging side channels and are not modelled. The text of `EB::info` is modelled as `Legacy.InfoMessage`.
- EasyBlog's `EB::post` is modelled as "some row has this non-zero id". `unpublish` is modelled as setting `published` to 0, or failing with no effect. A partial effect of a failing unpublish is not modelled.
- The top-level catch of the namespaced plugin (lines 302-308) guards only against failures outside the post writes (query, connection), and these are not modelled.
- `validatePost`'s `isset` and `is_numeric` checks hold of every modelled row, whose fields are typed.
- Parameter values are taken already typed: the `(int)` cast of a stored days string and PHP's loose comparisons are not modelled. A days value is an integer or missing, so a stored empty days string (which `Registry::get` also reads as the default 30) is the missing case. The third argument of `params->get` is not a filter in Joomla's Registry and is ignored.
- `Store.PostTable`: the class holds the table rows directly. It does not model EasyBlog's own post objects or caching.
- Strings are sequences of characters. `substr`/`strlen` count bytes in PHP, so a title with multi-byte characters may be cut at a different place.
- Concurrent cron runs are not modelled.
