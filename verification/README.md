# Birthday announcement bot — a Dafny model of its core

The bot keeps, per chat community (a Discord guild), a list of birthdays
and an announcement configuration: the channel to post in, a target time
stored in UTC, the UTC offset the time was entered in, and an optional
message template. Once a minute a task checks every configured community.
When the current UTC hour and minute are the community's target time, it
looks up the birthdays falling on today's date in Japan (UTC+9). It renders
a message naming the celebrants and sends it to the configured channel.

This project models that core as pure functions over immutable tables:

| file | module | what it models |
|---|---|---|
| `wrappers.dfy` | `Wrappers` | `Option` and `Result` |
| `textutil.dfy` | `TextUtil` | digits, two-digit padding, `str.join` |
| `collation.dfy` | `Collation` | SQLite's NOCASE folding (ASCII only) and BINARY order |
| `datetext.dfy` | `DateText` | `strptime(text, '%m/%d').strftime('%m/%d')`: which texts register, and the canonical date they store |
| `timeconversion.dfy` | `TimeConversion` | `convert_local_to_utc` and `convert_utc_to_local_str`, offsets in whole minutes |
| `templateformat.dfy` | `TemplateFormat` | `str.format` with three keyword arguments: literal text, `{{`/`}}`, field-name scanning, conversions, format specs with nested braces, the argument lookup, malformed fields |
| `renderer.dfy` | `Renderer` | the message: `<name>` replacement, `format`, fall back to the default template on `KeyError` |
| `announceconfig.dfy` | `AnnounceConfig` | the `server_settings` table and the three commands that write it |
| `birthdaystore.dfy` | `BirthdayStore` | the `birthdays` table: register, set mention, delete, celebrants of a date |
| `listing.dfy` | `BirthdayListing` | the listing query `ORDER BY birthday, display_name` |
| `scheduler.dfy` | `Scheduler` | one run of the minute task, over a platform oracle and a set of database faults |

Modelling choices:
- The settings table is a sequence strictly ascending by community id. `guild_id` is the `INTEGER PRIMARY KEY` there, so a plain scan returns rows in that order.
- The birthdays table is a sequence in insertion (rowid) order. No two rows of one community have names that are equal under NOCASE.
- `UPDATE` and `DELETE … WHERE guild_id = ? AND display_name = ?` are modelled literally: they touch every matching row. The key invariant makes that at most one row, which is proved.
- Offsets are integers in minutes: +9.0 hours is 540. `datetime.timezone` accepts an offset strictly inside one day, and so does `ValidOffset`.
- The chat platform is a `Platform` value for one run. It says which communities, channels and members resolve, and whether a send succeeds. Database failures are a `DbFaults` value. The current UTC hour and minute, and today's date, are parameters.
- One run yields every send it attempted (`Dispatch`, with whether it was delivered), the set of processed communities, and why it stopped early, if it did.

Behaviour of the code worth knowing:
- A community with celebrants is marked processed only after `channel.send` succeeds (main.py:670-679). A failed send leaves it unmarked.
- Only a `KeyError` during formatting falls back to the default template (main.py:662-668). A template with a positional field (`{}`, `{0}`), an unmatched brace or a malformed conversion raises a different exception. Neither that handler nor the announcement loop's `sqlite3.Error` handler catches it, so it ends the run (`Halt.FormatError`).
- The per-date celebrants query (main.py:621) has no `ORDER BY`. The model returns rows in table order.

## Model

| member | source | states |
|---|---|---|
| `Collation.Fold` | main.py:59 | NOCASE folding maps exactly the ASCII capitals to their lower-case letters, character by character, and keeps the length |
| `Collation.FoldIdempotent` | main.py:59 | a folded name is its own key |
| `Collation.LexLeTotal` | main.py:434 | BINARY text order compares any two strings |
| `Collation.LexLeTransitive` | main.py:434 | BINARY text order is transitive |
| `Collation.LexLeAntisymmetric` | main.py:434 | strings ordered both ways are equal |
| `TextUtil.Pad2` | main.py:138 | the two-digit rendering of n < 100 has two digits whose value is n |
| `TextUtil.Pad2Injective` | main.py:138 | different numbers below 100 render differently |
| `TextUtil.JoinAppend` | main.py:649 | joining a concatenation is joining each part with the separator between |
| `TextUtil.JoinLength` | main.py:649 | the joined length is the parts' total plus one separator between each pair |
| `DateText.MatchMonthSound` | main.py:375 | whatever `%m` consumes spells the month it returns |
| `DateText.MatchMonthComplete` | main.py:375 | every spelling of a month followed by `/` is consumed as that month |
| `DateText.MatchDaySound` | main.py:375 | a `%d` match covering the rest of the text spells the day it returns |
| `DateText.MatchDayComplete` | main.py:375 | every spelling of a day ("5", "05", " 5", "23") matches as that day |
| `DateText.DateAcceptance` | main.py:374-378 | a text is accepted if and only if it spells a month and a day that exist in 1900 |
| `DateText.AcceptedTextIsDate` | main.py:374-378 | an accepted text spells a real date, and the stored value is that date as "MM/DD" |
| `DateText.DateTextAccepted` | main.py:374-378 | every spelling of a real date is accepted and canonicalised to "MM/DD" |
| `DateText.NonexistentDayRefused` | main.py:376-378 | a well-formed but nonexistent day (04/31) is refused |
| `DateText.FormatDateIsDateText` | main.py:375 | the canonical form of a date spells that date |
| `DateText.CanonicalIdempotent` | main.py:375 | canonicalising a canonical date changes nothing |
| `DateText.FormatDateInjective` | main.py:375 | different dates have different canonical forms |
| `DateText.LeapDayRefused` | main.py:374-378 | "02/29" is refused and "2/28" is stored as "02/28" |
| `TimeConversion.LocalToUtc` | main.py:114-124 | a valid time and offset give local minutes minus offset modulo a day; invalid ones give 00:00 |
| `TimeConversion.UtcToLocalText` | main.py:126-141 | a missing offset means +9; a missing hour or minute means 00:00 UTC; stored values are shown as the local time; the result is "不明" exactly when a value is out of range |
| `TimeConversion.ShowLocal` | main.py:133-141 | the text is "不明" exactly when the stored time or offset is out of range; otherwise it is "HH:MM" of the UTC minute of the day plus the offset, modulo a day |
| `TimeConversion.UnsetScheduleShowsNine` | main.py:126-141 | a community with no stored time and no offset is shown "09:00" |
| `TimeConversion.UtcToLocal` | main.py:134-138 | local minutes are UTC minutes plus offset modulo a day |
| `TimeConversion.ClockRoundTrip` | main.py:114-141 | converting a local time to UTC and back gives the local time |
| `TimeConversion.ClockRoundTripBack` | main.py:114-141 | converting a UTC time to local and back gives the UTC time |
| `TimeConversion.LocalMatchesUtc` | main.py:114-141 | a UTC time shows as a local time exactly when it is that local time's conversion |
| `TimeConversion.RoundTrip` | main.py:114-141 | the stored UTC time and offset display as the entered "HH:MM" |
| `TemplateFormat.FieldValue` | main.py:657-661 | a field formats exactly when it is `names`, `mentions` or `today_date`; a `KeyError` names a prefix of the field that is neither one of those nor positional |
| `TemplateFormat.UnknownNameLookup` | main.py:657-662 | a field whose argument is not one of the three names fails on the lookup whatever spec, conversion, attribute or index follows: `KeyError` for a name, another error for a positional index |
| `TemplateFormat.ArgName` | main.py:657-661 | the argument name is the longest prefix of the field name without `.` or `[` |
| `TemplateFormat.ScanFieldName` | main.py:657-661 | when the field name ends, it ends at a `}`, `:` or `!` at or after the scan's start |
| `TemplateFormat.ScanToStop` | main.py:657-661 | the field name ends at the first `}`, `:` or `!`, passing over square brackets and the braces inside them |
| `TemplateFormat.ScanRunsOut` | main.py:657-661 | text without braces, `:` or `!` is all field name, whatever brackets it holds |
| `TemplateFormat.CloseBracket` | main.py:657-661 | after `[`, the name scan resumes at the next `]` or at the end |
| `TemplateFormat.SpecClose` | main.py:657-661 | the end of a format spec, when there is one, is a `}` at or after the spec's start |
| `TemplateFormat.SpecCloseSkip` | main.py:657-661 | the search for a spec's end passes over brace-free text |
| `TemplateFormat.SpecAt` | main.py:657-661 | a brace-free spec ends at the `}` after it |
| `TemplateFormat.FieldAt` | main.py:657-661 | a field that parses is a field and ends after where it starts |
| `TemplateFormat.FieldAtText` | main.py:657-661 | the printed form of a field with a plain name and a brace-free spec is read as that field, ending after its `}` |
| `TemplateFormat.ParseFieldText` | main.py:657-661 | parsing inverts printing a field: `{name}`, `{name!c}`, `{name:spec}` and `{name!c:spec}` read back as the field, whatever the conversion character |
| `TemplateFormat.PlaceholderFieldFormats` | main.py:657-661 | a bare `{names}`, `{mentions}` or `{today_date}` formats to that keyword argument's value |
| `TemplateFormat.NamesFieldFormats` | main.py:657-661 | `{names}` formats to the names text |
| `TemplateFormat.MentionsFieldFormats` | main.py:657-661 | `{mentions}` formats to the mentions text |
| `TemplateFormat.TodayDateFieldFormats` | main.py:657-661 | `{today_date}` formats to the date text |
| `TemplateFormat.FormatSingleField` | main.py:657-661 | a template that is one printed field formats to that field's value or error |
| `TemplateFormat.UnclosedFieldMalformed` | main.py:657-661 | a `{` whose name never meets `}`, `:` or `!` is a `ValueError` |
| `TemplateFormat.BracketHidesBraces` | main.py:657-662 | `{x[{]}` is a `KeyError` for `x`, because the braces sit inside brackets; `{x[}` is a `ValueError`, because the `}` does |
| `TemplateFormat.ConversionTakesAnyChar` | main.py:657-662 | in `{x!}}` the `}` is the conversion character, so the field is complete and fails on the lookup of `x` |
| `TemplateFormat.EvalSucceedsIff` | main.py:657-661 | formatting parsed segments succeeds exactly when none is malformed and every field is one of the three names |
| `TemplateFormat.EvalKeyError` | main.py:657-662 | a `KeyError` names a prefix of some field of the template that is neither one of the three names nor positional |
| `TemplateFormat.FormatSucceedsIff` | main.py:657-661 | formatting a template succeeds exactly when its parse is well formed |
| `TemplateFormat.FormatKeyError` | main.py:657-662 | a `KeyError` from a template names the argument of one of its fields, which is not one of the three names |
| `TemplateFormat.EvalChars` | main.py:657-661 | literal characters format to themselves |
| `TemplateFormat.ParseLiteral` | main.py:657-661 | text without braces parses to its characters |
| `TemplateFormat.ParseField` | main.py:657-661 | `{name}` with a plain name parses to one bare field |
| `TemplateFormat.FormatTextField` | main.py:657-661 | text, a field and a rest format to the text, the field's value and the rest's result |
| `TemplateFormat.EvalAppend` | main.py:657-661 | formatting concatenated segments is formatting each and stopping at the first error |
| `TemplateFormat.EscapeRoundTrip` | main.py:657-661 | any text with its braces doubled formats back to itself |
| `Renderer.BoldAll` | main.py:649 | each name is wrapped in `**` and in order |
| `Renderer.MentionsText` | main.py:650 | the text is empty exactly when there are no mentions, and otherwise ends in a space and is as long as the mentions plus one space each |
| `Renderer.MentionsTextAppend` | main.py:650 | the mentions text of a concatenation is the two texts one after the other |
| `Renderer.MentionsTextSingle` | main.py:650 | one mention is that mention followed by a space |
| `Renderer.NamesTextAppend` | main.py:649 | the names text of a concatenation is the two texts joined by ", " |
| `Renderer.NamesTextSingle` | main.py:649 | one celebrant's names text is the name in bold |
| `Renderer.ReplaceNameAbsent` | main.py:655 | a template without `<name>` is unchanged by the replacement |
| `Renderer.ReplaceNameByItself` | main.py:655 | replacing `<name>` with itself changes nothing |
| `Renderer.ReplaceNameSkip` | main.py:655 | text without `<` passes through the replacement unchanged |
| `Renderer.ReplaceNameTextField` | main.py:655 | a field without `<` passes through the replacement unchanged |
| `Renderer.DefaultTemplateHasNoToken` | main.py:32 | the default template contains no `<name>` |
| `Renderer.DefaultTemplateFormats` | main.py:32 | the default template always formats, to the date, the names and the mentions in their places |
| `Renderer.Render` | main.py:636-668 | an empty or missing template gives the default text; a successful format gives exactly its text; a `KeyError` gives the default text; the render raises exactly when formatting fails otherwise |
| `Renderer.FalsyTemplateRendersDefault` | main.py:652 | a missing or empty template renders the default message |
| `Renderer.SingleFieldTemplate` | main.py:655-661 | a template that is one field and holds no `<` passes the `<name>` replacement unchanged and formats to that field's value or error |
| `Renderer.UnknownPlaceholderFallsBack` | main.py:662-668 | a template whose one field names an unknown argument, with or without a spec, conversion, attribute or index, renders the default message with the same values |
| `Renderer.PositionalFieldRaises` | main.py:654-662 | a template `{}`, `{0}`, `{0!r}` or `{0:…}` raises an error the fallback does not catch |
| `Renderer.PositionalKeyRaises` | main.py:654-662 | the template `{` digits `}` raises an error the fallback does not catch |
| `Renderer.NameTokenReplaced` | main.py:655-661 | `<name>` followed by plain text renders as the bold name and that text |
| `Renderer.BracedNameFallsBack` | main.py:655-668 | a celebrant named `{x}` turns a `<name>` template into a `KeyError`, so the default message is sent |
| `AnnounceConfig.Find` | main.py:190-191 | a found configuration is the community's row; none is found only when no row has that id |
| `AnnounceConfig.Put` | main.py:196-202 | `INSERT OR REPLACE` keeps the table ascending, holds the new row, and keeps every other community's row |
| `AnnounceConfig.FindRow` | main.py:190-191 | every stored row is what a lookup of its id returns |
| `AnnounceConfig.PutFind` | main.py:196-202 | after a replace, the written community reads back the new row and every other community reads as before |
| `AnnounceConfig.PutFindAll` | main.py:196-202 | the same for all other communities at once |
| `AnnounceConfig.TableExtensional` | main.py:78-83 | two settings tables that answer every lookup alike are equal |
| `AnnounceConfig.PutExisting` | main.py:196-202 | replacing a row with itself leaves the table unchanged |
| `AnnounceConfig.PutPut` | main.py:196-202 | a second replace overrides the first |
| `AnnounceConfig.SetAnnounceChannel` | main.py:189-202 | sets the channel, keeps the stored time, offset and template, creates a row of NULLs when there was none, and leaves other communities alone |
| `AnnounceConfig.SetAnnounceTime` | main.py:221-244 | fails exactly when no non-zero channel is stored; otherwise stores the UTC conversion and the effective offset and keeps channel and template |
| `AnnounceConfig.SetAnnounceMessage` | main.py:267-297 | refuses a template over 1000 characters first, then a community without a channel; otherwise stores the template and keeps the rest |
| `AnnounceConfig.SetTimeShowsEnteredTime` | main.py:221-244 | after setting a valid time, the settings display show the time that was entered |
| `AnnounceConfig.ChannelKeepsSchedule` | main.py:189-244 | changing the channel and setting the time commute |
| `AnnounceConfig.SetTimeTwice` | main.py:221-244 | setting the time twice is setting it once to the second value |
| `AnnounceConfig.SetMessageUnchanged` | main.py:267-297 | storing the template already stored changes nothing |
| `BirthdayStore.Count` | main.py:387-388 | a key matches some row exactly when it is registered |
| `BirthdayStore.Others` | main.py:389-396 | the rows a keyed statement leaves alone are exactly those with another key |
| `BirthdayStore.Lookup` | main.py:387-388 | a lookup hits exactly when the key is registered, and returns a row with that key |
| `BirthdayStore.CountAtMostOne` | main.py:59-61 | the primary key means a keyed statement touches at most one row |
| `BirthdayStore.LookupUnique` | main.py:59-61 | any row with the key is the row the lookup returns |
| `BirthdayStore.UpdateMatching` | main.py:392-393 | the conflict update replaces date, mention and registrant on matching rows only |
| `BirthdayStore.SetMentionMatching` | main.py:527 | the mention update changes the mention of matching rows only |
| `BirthdayStore.SameKeysUnique` | main.py:59-61 | changing non-key columns keeps the primary key valid |
| `BirthdayStore.OthersOfUpdate` | main.py:392-393 | an update of the matching row leaves every other row in place |
| `BirthdayStore.Upsert` | main.py:389-399 | the key ends with exactly one row holding the new values and the first-written name; other rows are unchanged; it is an update exactly when the key was registered |
| `BirthdayStore.UpdateExisting` | main.py:392-393 | updating a registered key stores the new values and keeps the key unique |
| `BirthdayStore.InsertNew` | main.py:389-396 | appending a new key stores it and keeps the key unique |
| `BirthdayStore.AppendFacts` | main.py:389-396 | appending a row with a new key leaves one row with that key and the rest as before |
| `BirthdayStore.Register` | main.py:374-399 | fails exactly when the date text is refused; otherwise upserts the canonical date and reports whether it was an update |
| `BirthdayStore.SetMention` | main.py:522-527 | fails exactly when the name is not registered; otherwise changes only that row's mention |
| `BirthdayStore.Delete` | main.py:562-569 | removes exactly the key's row, reports whether one existed, and leaves every other row in its order |
| `BirthdayStore.OthersAppend` | main.py:389-396 | dropping a key's rows keeps the remaining rows in order |
| `BirthdayStore.OthersUnique` | main.py:59-61 | removing a key's rows keeps the primary key valid |
| `BirthdayStore.OthersAbsent` | main.py:562-569 | deleting an unregistered key changes nothing |
| `BirthdayStore.Celebrants` | main.py:621 | the celebrants are exactly the community's rows stored with that date, each as often as it is stored |
| `BirthdayStore.CelebrantsAppend` | main.py:621 | the celebrants of two stretches of rows are those of the first, then those of the second |
| `BirthdayStore.RegisterThenDelete` | main.py:374-399 | registering a new name and deleting it restores the table |
| `BirthdayStore.RegisterTwice` | main.py:374-399 | a second registration of a name is an update to the second date that leaves other rows alone |
| `BirthdayStore.CaseInsensitiveKey` | main.py:59 | a name registered in one case is registered and deletable under any other case |
| `BirthdayStore.CelebratedOnItsDay` | main.py:374-378 | a registered name is a celebrant on a date exactly when its text spelled that date |
| `BirthdayListing.RowLeTotal` | main.py:434 | the listing order compares any two rows |
| `BirthdayListing.RowLeTransitive` | main.py:434 | the listing order is transitive |
| `BirthdayListing.RowLeAntisymmetric` | main.py:434 | rows ordered both ways share date and NOCASE name |
| `BirthdayListing.GuildRows` | main.py:434 | the filtered rows are exactly the community's rows |
| `BirthdayListing.Insert` | main.py:434 | inserting into a sorted list keeps it sorted and adds exactly that row |
| `BirthdayListing.SortRows` | main.py:434 | the sort is ordered and a permutation of its input |
| `BirthdayListing.Listing` | main.py:434 | the listing is sorted by date then name and holds exactly the community's rows |
| `BirthdayListing.GuildRowsKeyDistinct` | main.py:59-61 | no two of a community's rows tie on date and name |
| `BirthdayListing.SortedUnique` | main.py:434 | two sorted lists of the same untied rows are equal |
| `BirthdayListing.ListingDetermined` | main.py:434 | the listing is the only order of the community's rows the query allows |
| `Scheduler.Names` | main.py:637-641 | the names are the celebrants' names in query order |
| `Scheduler.Mentions` | main.py:642-647 | a mention is present exactly when some celebrant has a non-zero user id that resolves to that member |
| `Scheduler.MentionsAppend` | main.py:642-647 | the mentions of two stretches of rows are those of the first, then those of the second |
| `Scheduler.MentionsSingle` | main.py:642-647 | one row gives its member's mention when the id is non-zero and resolves, and nothing otherwise |
| `Scheduler.Outcome` | main.py:606-682 | a send goes to the row's own community and its non-zero channel |
| `Scheduler.OutcomeTable` | main.py:606-682 | restates `Outcome`'s decision as one if-and-only-if per outcome, in the order the loop checks: not due, query failed, nobody, unreachable, sent, template failed |
| `Scheduler.Tick` | main.py:594-604 | no connection and a failed settings scan each end the run with nothing sent; an empty table sends nothing |
| `Scheduler.DueExactMinute` | main.py:615-619 | with a one-minute window a community is due at exactly its target hour and minute |
| `Scheduler.DueAtEnteredLocalTime` | main.py:221-244 | after setting a time, the community is due exactly when the UTC time shows as the entered local time |
| `Scheduler.HaltedStays` | main.py:683-684 | after a database or formatting error, later rows change nothing |
| `Scheduler.SentByLonger` | main.py:606 | a row's send stays attributed when more rows follow |
| `Scheduler.SentFromRows` | main.py:606-679 | every send of a run is some settings row's outcome |
| `Scheduler.RunFromRows` | main.py:606-682 | every send and every processed mark belongs to a row already read |
| `Scheduler.RunSentAscending` | main.py:606-679 | over an ascending table, sends go to strictly increasing communities |
| `Scheduler.AtMostOneDispatchPerGuild` | main.py:606-679 | no community receives two messages in one run |
| `Scheduler.DispatchEligible` | main.py:615-679 | a message goes only to a due community with celebrants whose community and channel resolve, with the rendered text |
| `Scheduler.ProcessedMeansHandled` | main.py:670-682 | a processed community had nobody today or had its message delivered |
| `Scheduler.LastNotProcessed` | main.py:606-609 | on an ascending table the processed check never skips a row |
| `Scheduler.StepApplies` | main.py:606-682 | a row that is read has its send made and its processed mark set as its outcome requires |
| `Scheduler.StepKeeps` | main.py:606-682 | a row never takes back an earlier send or processed mark |
| `Scheduler.RunAppliesLast` | main.py:606-682 | the last row of a run that did not stop had its outcome applied |
| `Scheduler.RunComplete` | main.py:606-682 | a run that did not stop made every row's send and set every processed mark its outcome requires |
| `Scheduler.DatabaseDownSendsNothing` | main.py:594-604 | with no connection or a failed scan nothing is sent |
| `Scheduler.AprilFoolsDate` | main.py:375 | "04/01" is accepted as itself |
| `Scheduler.ExampleTables` | main.py:189-202 | the channel command and one registration build the example's tables |
| `Scheduler.DefaultScheduleExample` | main.py:582-682 | in the example, 00:00 UTC sends the default message to channel 42 and 00:01 sends nothing |
| `Scheduler.PositionalTemplateFails` | main.py:654-662 | a due community with celebrants and a `{0}` template ends in a formatting failure |
| `Scheduler.TemplateFailureEndsRun` | main.py:654-662 | a formatting failure at the first row halts the run with nothing sent and no later community read |
| `Scheduler.TemplateFailureHaltsRun` | main.py:654-662 | a formatting failure at any row the loop reaches halts the run there, keeping earlier sends and marks and reading no later community |

## Left out

- `format_offset` and offsets that are not a whole number of minutes. Offsets are integer minutes, and the display of an offset is not modelled.
- The Discord client: slash-command registration, permission checks, replies and their wording, `escape_markdown`, and `on_ready`. These become the `Platform` oracle or are dropped.
- The display-only handlers `check_settings`, `check_mention` and the text of `list_birthdays`. Their queries are modelled: `Find`, `Lookup` and `Listing`.
- SQLite plumbing: `setup_database`, schema migration, connections, commits and rollbacks. A failed connection or statement in a command is not modelled; each command is its effect on the table when the statements succeed.
- `tasks.loop`, `before_loop` and wall-clock time. The current UTC hour and minute and today's date in Japan are parameters. What the loop does with an exception that escapes a run is not modelled.
- Logging.
- The Discord range checks on hour (0-23), minute (0-59) and offset (-12.0..+14.0) happen before the command body. The model accepts any integers and follows `datetime`'s own bounds.
- `interaction.guild_id` being `None` outside a community. Community ids are integers.
- DateText.CanonicalDate: `\d` in `strptime` also matches non-ASCII digits; the model accepts ASCII digits only.
- TemplateFormat.FieldValue: a field whose argument is `names`, `mentions` or `today_date` but which adds an attribute, index, conversion or non-empty spec (`{names:>10}`, `{names!r}`, `{names[0]}`, `{names:{x}}`) is an error other than `KeyError`. Python formats some of these and raises an exception other than `KeyError` (`ValueError`, `AttributeError`, `TypeError` or `IndexError`) for others, e.g. `TypeError` for `{names[x]}` and `IndexError` for `{names[99]}`. When the spec nests a field with an unknown argument (`{names:{x}}`), Python expands the spec and raises `KeyError('x')`, which the model does not. So the model's success cases are only the three bare names. A field whose own argument is unknown is a `KeyError` for that argument whatever follows the name, as in Python, because the lookup comes before the attribute, index, conversion and spec.
- TemplateFormat.FieldValue: numbered fields after named ones and automatic numbering are not distinguished; any empty or all-digit argument is an exception other than `KeyError`: an `IndexError`, since no positional arguments are passed, or a `ValueError` for an index too large for a machine integer (`{99999999999999999999}`). Only ASCII digits count as positional.
- BirthdayStore.Celebrants: SQLite gives no order for a query without `ORDER BY`. It is probably the order of the primary-key index, by community and NOCASE name. The model returns rows in insertion order, so the order of names and mentions in a message is the model's choice.
- AnnounceConfig.Put: the row count after a replace (one more for a new community, unchanged otherwise) is not stated.
- Scheduler.Tick: its own contract covers only the early exits. Sends and processed marks are stated by `DispatchEligible`, `RunComplete`, `ProcessedMeansHandled` and `AtMostOneDispatchPerGuild`.
