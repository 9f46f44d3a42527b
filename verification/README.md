# Discord bot core in Dafny

This project models the decision logic of a small Discord bot written in Rust:

- **Text utilities:**
  - `as_text` turns milliseconds into an English duration phrase.
  - `strip_str` limits a string to a byte length, optionally with an ellipsis.
  - `singular_or_plural` picks a unit name.
  - `get_wind_direction` maps a bearing to a compass point.
- **Message handler:** which messages are commands, which command they name, whether the author may run it, what arguments it gets, and the reply when it fails.
- **Developer list:** the seeding that happens when the bot connects.
- **Command registry:** the five commands, their names, aliases, categories and usages.
- **Command logic:** the pure parts of Help, Weather and Shutdown.

Discord, HTTP and the weather service never appear. Each call into them becomes an input: its result, or whether it failed. Each reply becomes a returned value.

## Modules

Everything is built from immutable datatypes and pure functions.

- `Wrappers`: `Option` and `Result`.
- `Config`:
  - the prefix `"<"`;
  - user ids as 64-bit unsigned values;
  - the default reply and embed field types.
- `Text`: string helpers.
  - joining, and splitting with Rust's `split` semantics;
  - ASCII lower-casing;
  - decimal rendering;
  - UTF-8 byte lengths.
- `Strings`:
  - `strip_str` as written, byte-accurate;
  - `Truncate`, a corrected truncation;
  - the plural helpers.
- `Duration`: `as_text` as written.
  - Rust's truncating `/` and `%`.
  - The flag-driven comma and "and" logic.
  - The clean English list, stated separately (`Intended`).
  - The malformed case where the two differ.
  - `AsTextIntended`, a corrected version.
  - The Uptime reply text.
- `Compass`:
  - `get_wind_direction` on whole degrees;
  - an independent sector reference (`Sector`) it is proved to agree with.
- `Sorting`:
  - byte-wise string order;
  - a stable insertion sort keyed by a function;
  - `GroupRuns`, the consecutive grouping of `itertools::group_by`.
- `Registry`:
  - the categories and their names;
  - the `Command` record and `is_developer`;
  - the `COMMANDS` list;
  - the first-match lookup by name or alias.
- `Help`: the pure part of the Help command.
  - The detail embed and the not-found reply.
  - The grouped and sorted listing.
- `Weather`: the pure part of the Weather command.
  - The argument check and the query.
  - The error replies.
  - The forecast embed's author line, link and fields.
- `Shutdown`: the Shutdown command's sequence of Discord calls and how it ends, as a function of each call's result.
- `Dispatcher`: `Handler::message` as a decision function, plus the replies it sends.
- `Seeding`: `Handler::ready` as a state machine over the connection counter and the developer list.

Two behaviours of the code are worth stating up front:

- **Wind bearing of 181 degrees.** The table arm `156..=200` names it "South", and `Compass.WindDirection` follows the arm.
- **Truncating an error reply.** `strip_str` compares against `limit - 3`, so text that already fits can still be cut. The model keeps this, and the difference from a clean truncation is logged under Findings.

## Model

| member | source | states |
|---|---|---|
| Duration.Decompose | src/utils.rs:12-17 | For a non-negative count, the components are days `ms/86400000`, hours `(ms/3600000)%24`, minutes `(ms/60000)%60` and seconds `(ms/1000)%60`, each within its range. For a negative count no component is positive. |
| Duration.Recompose | src/utils.rs:12-17 | The components, recombined with the leftover milliseconds, give back the count. |
| Duration.DecomposeRecompose | src/utils.rs:12-17 | Components within their ranges come back unchanged from the count they make up. |
| Duration.RenderIsListUnlessMalformed | src/utils.rs:21-73 | For non-negative components, the written phrase is the clean list ("X", "X and Y", "X, Y, and Z", "W, X, Y, and Z") exactly when the malformed combination does not hold. That combination is days and hours present with exactly one of minutes and seconds zero. |
| Duration.RenderAllFour | src/utils.rs:21-73 | All four components present: the phrase is "D, H, M, and S". |
| Duration.RenderDaysAndHoursOnly | src/utils.rs:21-43 | Only days and hours: the phrase is "D and H". |
| Duration.RenderWithDaysOnly | src/utils.rs:21-73 | No hours: the phrase is the clean list of what is present. |
| Duration.RenderWithHoursOnly | src/utils.rs:27-73 | No days: the phrase is the clean list of what is present. |
| Duration.RenderWithoutDaysOrHours | src/utils.rs:45-73 | Neither days nor hours: the phrase is the clean list of minutes and seconds. |
| Duration.RenderMalformed | src/utils.rs:27-61 | In the malformed combination the written phrase is six characters longer than the clean list. |
| Duration.RenderMalformedText | src/utils.rs:27-61 | In the malformed combination the phrase is "D, , and H, and X", where X is the one present part. |
| Duration.MalformedCommas | src/utils.rs:27-61 | In the malformed combination the written phrase has three commas, where the three-item list has two. |
| Duration.ZeroSecondsIff | src/utils.rs:75-77 | `as_text` is "0 seconds" exactly when no component is positive. |
| Duration.UnderASecond | src/utils.rs:75-77 | Every count from 0 to 999 reads "0 seconds". |
| Duration.AsTextOneSecond | src/utils.rs:21-73 | `as_text(1000)` is "1 second". |
| Duration.AsTextMinuteAndSecond | src/utils.rs:21-73 | `as_text(61000)` is "1 minute and 1 second". |
| Duration.AsTextOneOfEach | src/utils.rs:21-73 | `as_text(90061000)` is "1 day, 1 hour, 1 minute, and 1 second". |
| Duration.AsTextMalformedExample | src/utils.rs:27-61 | `as_text(90060000)` is "1 day, , and 1 hour, and 1 minute", while the corrected text is "1 day, 1 hour, and 1 minute". |
| Duration.AsTextIntended | src/utils.rs:9-80 | The corrected phrase has one comma per item but the last for three or more items, and none otherwise. It equals `as_text` whenever the count is non-negative and not malformed. It is "0 seconds" exactly when no component is positive. |
| Duration.AsText | src/utils.rs:9-80 | The text is "0 seconds" exactly when no component is positive. For a non-negative count it is the clean list of phrases exactly when the count is not of the malformed kind. |
| Duration.IntendedAgrees | src/utils.rs:9-80 | The clean list and the written phrase agree outside the malformed combination. |
| Duration.WrapI64 | src/cmds.rs:447 | The `as i64` cast agrees with its input modulo 2^64 and is the identity below 2^63. |
| Duration.UptimeText | src/cmds.rs:439-447 | The Uptime description is `as_text` of the elapsed milliseconds, and "0 seconds" within the first second. |
| Strings.StripStr | src/utils.rs:84-103 | There is no result exactly when the ellipsis is asked for with a limit below 4. With `k` the remaining limit (`lim - 3` under the flag, else `lim`): when some prefix is exactly `k` bytes, the result is that prefix, with "..." under the flag. When no prefix is, the text comes back whole. Text shorter than `k` comes back whole. |
| Strings.BytePrefix | src/utils.rs:93-94 | `s.get(..n)` exists exactly when `n` bytes end on a character boundary, and is that prefix. |
| Strings.StripStrAscii | src/utils.rs:85-100 | On ASCII text with the flag: text of at least `lim - 3` characters becomes its first `lim - 3` characters plus "...", exactly `lim` long. Shorter text is unchanged. |
| Strings.StripStrAsciiPlain | src/utils.rs:93-100 | Without the flag, ASCII text becomes its first `lim` characters, or stays whole when shorter. |
| Strings.StripStrExamples | src/utils.rs:84-103 | With limit 10 and the flag, 20 ASCII characters become 10 ending in "..." and 5 stay unchanged. With limit 3 there is no result. |
| Strings.StripStrCutsFittingText | src/utils.rs:90-100 | "abcdefgh" (8 bytes) with limit 10 becomes "abcdefg...", although it fits. |
| Strings.StripStrExceedsLimit | src/utils.rs:93-100 | "€€€€" (12 bytes) with limit 10 comes back whole, over the limit. |
| Strings.Truncate | src/utils.rs:84-103 | The corrected truncation has no result exactly when the limit is below 4. The result never exceeds the limit. It is the text itself exactly when the text fits. Otherwise it is a prefix plus "...", more than `limit - 4` bytes long. |
| Strings.TruncateAgreesWhenTooLong | src/utils.rs:84-103 | On ASCII text longer than the limit, the written and corrected truncations agree. |
| Strings.SingularOrPlural | src/utils.rs:105-111 | The word is returned unchanged exactly when the count is 1, and otherwise with "s" appended. |
| Strings.SingularOrPluralU64 | src/utils.rs:113-119 | The same for an unsigned 64-bit count. |
| Compass.WindDirection | src/utils.rs:192-212 | No direction exactly outside 0 to 360. Otherwise one of the eight point names, never empty. |
| Compass.WindDirectionIsSector | src/utils.rs:195-206 | The table agrees with the sector reference: the name is that of the last sector start passed, wrapping to North at 336. |
| Compass.SectorMonotone | src/utils.rs:196-204 | Below 336 degrees, the sector never moves backwards as the bearing grows. |
| Compass.CountAtMostSplits | src/utils.rs:196-204 | On ascending starts, the sector count separates the starts passed from those not yet passed. |
| Compass.CountAtMostMonotone | src/utils.rs:196-204 | A larger bearing has passed at least as many sector starts. |
| Compass.WindDirectionExamples | src/utils.rs:192-212 | The table arms at their ends: 0, 25, 360 and 336 give North; 26 gives Northeast; 181 and 200 give South; 201 gives Southwest; 335 gives Northwest. -1 and 361 give nothing. |
| Text.Split | src/main.rs:53 | Splitting on a space yields at least one token, and no token contains the separator. |
| Text.JoinSplit | src/main.rs:53 | Rejoining the tokens with the separator gives back the text. |
| Text.SplitJoin | src/main.rs:53 | Splitting the join of separator-free tokens gives back the tokens. |
| Text.Lower | src/main.rs:56 | Lower-casing keeps the length, leaves non-letters alone and lowers each upper-case ASCII letter. |
| Text.LowerIdempotent | src/cmds.rs:282 | Lower-casing twice is lower-casing once. |
| Text.DecimalValue | src/cmds.rs:518 | Reading a number's decimal rendering back gives the number. |
| Registry.CategoryName | src/cmds.rs:50-61 | A category's name starts with a capital letter and maps back to the category. |
| Registry.CategoryNameInjective | src/cmds.rs:57-61 | Different categories have different names. |
| Registry.IsDeveloper | src/cmds.rs:38-40 | A command is developer-only exactly when its category is the one named "Developer". |
| Registry.FirstMatch | src/cmds.rs:284-289 | The position found is the first command matching the token by name or alias. None is found exactly when no command matches. |
| Registry.Matches | src/cmds.rs:286 | A command matches a token exactly when the token is its name or one of its aliases. |
| Registry.Lookup | src/main.rs:57-61 | A command is found exactly when one matches, and the one found matches. |
| Registry.CommandKeys | src/cmds.rs:11-19 | The registry answers to "shutdown", "help", "ping", "latency", "uptime" and "weather", in that order. |
| Registry.CommandsWellFormed | src/cmds.rs:11-19 | The registry's names and aliases are distinct and lower case. |
| Registry.LookupUnique | src/main.rs:57-61 | With distinct keys, any command a token matches is the one lookup returns. |
| Registry.LookupByKey | src/cmds.rs:11-19 | Each name and alias finds its own command, and "latency" finds ping. |
| Registry.LookupIffKey | src/main.rs:57-61 | Lookup in the registry succeeds exactly for its six keys. |
| Registry.OnlyShutdownIsDeveloper | src/cmds.rs:11-19 | Of the registered commands, exactly shutdown is developer-only. |
| Sorting.SortBy | src/cmds.rs:350 | The sort's result is ordered by the key, with the same elements. |
| Sorting.SortByOfSorted | src/cmds.rs:350 | The stable sort leaves already ordered input unchanged. |
| Sorting.GroupRuns | src/cmds.rs:344-348 | The groups put back together are the input. Each group shares one key, and neighbouring groups have different keys. |
| Sorting.FlattenSortBy | src/cmds.rs:350 | Sorting the groups keeps the multiset of their members. |
| Help.Title | src/cmds.rs:290-294 | The title is the prefix and the name, with " (developer-only)" added exactly for developer commands. |
| Help.DetailFields | src/cmds.rs:300-324 | The Category field is always first. The sorted, comma-joined Aliases field is present only when there are aliases. The Usages field is present only when there are usages. |
| Help.UsageLines | src/cmds.rs:311-321 | There is one usage line per usage, each starting with the prefix, the name and a space. |
| Help.UsageLine | src/cmds.rs:311-316 | A usage line starts with the prefix, the command name and a space. |
| Help.OneLabelUsage | src/cmds.rs:311-316 | A usage with one label reads as the prefix, the name, a space and the label in angle brackets. |
| Help.UsagesFieldSplits | src/cmds.rs:318-321 | Splitting the Usages field at newlines gives back the usage lines. |
| Help.Sections | src/cmds.rs:344-362 | The sections are ordered by category name. Each has a non-empty, sorted list of names, and every name in it is a registered command of the section's category. |
| Help.ListingFields | src/cmds.rs:355-362 | There is one field per section, in order, titled "<Category> Commands", holding the names joined by ", ", and not inline. |
| Help.ListingCoversRegistry | src/cmds.rs:344-362 | The listing names every registered command exactly as often as it is registered. |
| Help.HelpCommand | src/cmds.rs:282-371 | A first argument naming no command gives the not-found failure reply. Failing to fetch the bot user is an error exactly when an embed is needed. A found command with a working fetch gives the detail embed of that command. No argument with a working fetch gives the listing headed by "<bot> Help". Any error is the fetch's own error. |
| Help.HelpReadsFirstArgumentOnly | src/cmds.rs:282 | Only the first argument is read, and its letter case does not matter. |
| Help.CommandSections | src/cmds.rs:344-362 | The registry's sections are Developer (shutdown), General (help, ping, uptime) and Utility (weather). |
| Help.CommandListing | src/cmds.rs:341-371 | The listing's fields are "Developer Commands: shutdown", "General Commands: help, ping, uptime" and "Utility Commands: weather". |
| Help.PingDetail | src/cmds.rs:289-332 | "ping" or "latency", in any case, gives ping's title, description, category and alias. |
| Help.ShutdownDetail | src/cmds.rs:289-332 | "shutdown" gives the developer-only title and only the Category field. |
| Help.HelpDetail | src/cmds.rs:289-332 | "help" gives its Category field and its one usage line. |
| Help.UnknownQuery | src/cmds.rs:282-339 | A query gets the not-found failure reply exactly when its lower-cased form is none of the six names and aliases, whatever the bot lookup does. |
| Weather.Query | src/cmds.rs:509-513 | There is no query exactly when there are no arguments. Otherwise the query is the arguments joined by single spaces. |
| Weather.QueryRoundTrip | src/cmds.rs:512 | For space-free arguments, splitting the query on spaces gives back the arguments. |
| Weather.Location | src/cmds.rs:519-523 | The author line is the city name, followed by ", country" exactly when the country part is reported. |
| Weather.WindText | src/cmds.rs:552-561 | The Wind field starts with the speed and " m/s". It stops there exactly when the bearing has no direction. |
| Weather.WindTextNamesSector | src/cmds.rs:552-561 | In range, the Wind field names the bearing's compass sector. Out of range it has only the speed. |
| Weather.WindTextSpeed | src/cmds.rs:554 | The speed can be read back from the digits in front of " m/s". |
| Weather.Percent | src/cmds.rs:563-571 | A percentage is digits followed by "%", and the digits read back as the value. |
| Weather.CityUrl | src/cmds.rs:518 | The link is the city-page prefix followed by digits that read back as the city id. |
| Weather.Fields | src/cmds.rs:525-603 | The field count depends on which optional parts are reported. The time fields come last. Every other field is inline. Condition comes first exactly when it is reported. |
| Weather.WeatherCommand | src/cmds.rs:509-621 | No arguments gives the failure reply "You have provided no arguments!". A missing location gives the error "No location has been found by the query!". A failed avatar fetch gives its error. When the location is found and the avatar fetched, the result is the forecast, carrying the location, the avatar, the city link, the fields and the footer. |
| Weather.FieldsOfFullReport | src/cmds.rs:525-603 | With every optional part reported and no time fields, the fields are exactly Condition, Temperature, Wind, Humidity, Cloudiness and Pressure, in that order. Each one carries its own quantity. |
| Weather.FieldsOfBareReport | src/cmds.rs:525-603 | Without condition and cloudiness, the fields are exactly Temperature, Wind, Humidity and Pressure, followed by the time fields. |
| Weather.NoServiceCallWithoutArguments | src/cmds.rs:509 | Without arguments, neither the weather service nor the avatar lookup affects the outcome. |
| Weather.ServiceSeesOnlyTheQuery | src/cmds.rs:512-513 | Two services that agree on the space-joined query give the same outcome. |
| Weather.LocationErrorFirst | src/cmds.rs:512-514 | When the location is not found, the outcome is that error even if the avatar lookup also fails. |
| Shutdown.ShutdownCommand | src/cmds.rs:99-142 | The command exits exactly when the prompt fails, or when the check mark arrives with every call succeeding. It returns an error exactly when the prompt was sent and a reaction or the delete failed. That error is the one of the first call to fail, in the order ✅ reaction, ❎ reaction, delete. The prompt is always the first call, and exiting is always the last. |
| Shutdown.DeleteBeforeExit | src/cmds.rs:114-141 | The prompt is deleted exactly when both reactions were added. After a prompt that was sent, an exit comes straight after the delete. |
| Shutdown.CrossMarkLikeTimeout | src/cmds.rs:128-141 | A cross mark and a timeout give the same calls and both end without exiting. |
| Shutdown.FailedDeleteKeepsRunning | src/cmds.rs:128-135 | A failed delete ends the command with its error even after a check mark, so the process keeps running. |
| Shutdown.ReactionOrder | src/cmds.rs:114-126 | After the prompt come the check-mark reaction, the cross-mark reaction and the 60-second wait, in that order. |
| Dispatcher.StripPrefix | src/main.rs:56 | The prefix is stripped exactly when present, and putting it back gives the text. |
| Dispatcher.CommandToken | src/main.rs:55-56 | The command token is the lower-cased first token with the prefix removed. It exists exactly when that token starts with the prefix. |
| Dispatcher.Eligible | src/main.rs:46-52 | An eligible message starts with "<" and does not come from a bot. |
| Dispatcher.Decide | src/main.rs:46-91 | Ineligible messages are ignored. A rejection happens exactly for a developer command and an author missing from the list. An invocation gets the command the token names and, as arguments, the remaining tokens verbatim. |
| Dispatcher.IgnoreIff | src/main.rs:46-61 | A message is ignored exactly when it is ineligible, has no command token, or names no command. |
| Dispatcher.NonDeveloperNeverRejected | src/main.rs:62-76 | A command outside the Developer category is run with the remaining tokens, whoever sends it. |
| Dispatcher.ArgumentsRebuildContent | src/main.rs:53-76 | The first token, followed by the arguments, joined by spaces, gives back the message text. |
| Dispatcher.CaseInsensitive | src/main.rs:56 | Lower-casing the first token changes neither the command nor the arguments. |
| Dispatcher.CaseInsensitiveSingle | src/main.rs:53-56 | A single-token message such as "<PING" is decided as its lower-cased form, for the same command and with no arguments. |
| Dispatcher.EmptyTokenIgnored | src/main.rs:55-61 | A message whose first token is just the prefix is ignored. |
| Dispatcher.OnlyShutdownRejected | src/main.rs:62-72 | Only shutdown can be rejected, and only for an author missing from the developer list. |
| Dispatcher.EmptyDevelopersRejectAll | src/main.rs:62-72 | With an empty developer list, an eligible message naming a developer command is rejected. |
| Dispatcher.Replies | src/main.rs:62-86 | A rejection sends exactly the permission failure reply. A failed command sends exactly one failure reply, its error text through `strip_str` with limit 2000. Nothing else sends a reply. |
| Dispatcher.ErrorReplyText | src/main.rs:76-86 | Short ASCII errors are sent whole. Errors over 2000 characters are cut to exactly 2000, matching the corrected truncation. |
| Seeding.OnReady | src/main.rs:93-108 | Every ready event advances the counter modulo 2^64. The owner is appended only when the counter was 0 and the lookup succeeded. |
| Seeding.RunCounts | src/main.rs:99 | The counter counts the ready events modulo 2^64. |
| Seeding.LaterReadiesKeepDevelopers | src/main.rs:99-105 | Until the counter wraps, later ready events leave the developer list alone. |
| Seeding.SeededOnce | src/main.rs:99-105 | From start-up, the developer list is the first lookup's owner, or empty when that lookup failed. |
| Seeding.CounterWraps | src/main.rs:99-105 | From 2^64 - 1 the counter wraps to 0, and the event after that looks the owner up again and appends them. |
| Seeding.FailedFirstLookupLocksOut | src/main.rs:62-72 | If the first lookup fails, every message reaching a developer command is rejected. |
| Seeding.ActivityNamesHelp | src/main.rs:94-97 | The activity text is an invocation of the help command. |

## Left out

- **Discord, HTTP and the weather service.**
  - Sending replies and embeds, adding reactions, the reaction collector, deleting messages, and fetching the current user or application info.
  - Each appears only as a result passed in.
  - Failures of the final `send_message`/`send_default_reply` calls are not modelled, since they only propagate an I/O error.
- **Concurrency.** The `AtomicUsize` counter and the `Mutex` around the developer list. Events form a sequential trace.
- **Floating point.**
  - The temperature conversion.
  - The wind speed rounding.
  - The `f32 as i32` cast before `get_wind_direction`: the model takes whole degrees.
  - The humidity and pressure casts.
  - Temperature and pressure text arrive pre-rendered. Wind speed, bearing and humidity arrive as integers.
- **Date and number formatting.**
  - The `chrono` sunrise, sunset and current-date fields arrive as ready-made fields. These include the sunset field labelled "Sunrise".
  - `num_format`'s grouping of the pressure.
- **Ping.** It measures wall-clock time; only its registry entry is modelled. Uptime's clock reading is an input to `Duration.UptimeText`.
- **Start-up and display.** Environment variables, the token decoding in `main`, the embed colours, and `EmbedType`'s author text.
- **Avatar URLs.** Help and Weather take the bot's name or avatar as an input string.
- **Unicode case mapping.** `to_lowercase` is ASCII lower-casing. The registry's keys and the prefix are ASCII.
- Weather.Fields: states the field count, that Condition comes first exactly when reported, that the time fields come last and that the others are inline. It does not state each value or the full order in general. `Weather.FieldsOfFullReport` and `Weather.FieldsOfBareReport` give the exact list for the cases with both optional parts and with neither.
- Dispatcher.Replies: describes the written `strip_str` call, which can exceed 2000 bytes off a character boundary (see Findings). Only for ASCII text does `Dispatcher.ErrorReplyText` bound the length.
- Seeding.SeededOnce: holds for traces of at most 2^64 events. After that the counter wraps and the owner is looked up again (`Seeding.CounterWraps`).

## Findings

| source | as written | input that shows it | evidently intended | confidence | as-written member | corrected member |
|---|---|---|---|---|---|---|
| src/utils.rs:27-61 | With days and hours present and exactly one of minutes and seconds zero, the hours step emits ", " and then ", and ". The phrase gains an empty item and an extra comma. | 90060000 ms (1 day, 1 hour, 1 minute) gives "1 day, , and 1 hour, and 1 minute" | "1 day, 1 hour, and 1 minute" | not executed | Duration.AsTextMalformedExample | Duration.AsTextIntended |
| src/utils.rs:90-100 | Text is cut whenever it is at least `lim - 3` bytes long, even when it already fits in `lim`. | "abcdefgh" with limit 10 gives "abcdefg..." | "abcdefgh" unchanged | not executed | Strings.StripStrCutsFittingText | Strings.Truncate |
| src/utils.rs:93-100 | When `lim - 3` falls inside a multi-byte character, `get` fails and the whole text comes back, however long. | "€€€€" (12 bytes) with limit 10 comes back whole | a cut at the last character boundary, within the limit | not executed | Strings.StripStrExceedsLimit | Strings.Truncate |

The handler and Uptime keep the written behaviour: `Dispatcher.Replies` uses `Strings.StripStr`, and `Duration.UptimeText` uses `Duration.AsText`. The corrected members are related to them by `Strings.TruncateAgreesWhenTooLong`, `Dispatcher.ErrorReplyText` and `Duration.IntendedAgrees`.
