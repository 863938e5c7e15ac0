# irc-slack-bridge, modelled in Dafny

This project models the bookkeeping and translation logic of the IRC–Slack
bridge and proves what it promises:

- **The mapping store** (`src/lib/db.ts`).
  - `Store.MappingTable` is one class for both `channel_mappings` and
    `user_mappings`. The two tables run the same code over a Slack id and an
    IRC name, both `UNIQUE`.
  - `Store.ThreadTable` is `thread_timestamps`.
  - Rows are a sequence in rowid order.
  - `INSERT OR REPLACE` is modelled exactly: every row that clashes with the
    new one on either unique column is deleted, then the row is appended.
  - The duplicate removal of the schema migration is modelled as a function
    over the rows.
- **The formatting transformer** (`src/parser.ts`).
  - Every global `replace` is a left-to-right, non-overlapping scan
    (`Scanner.ReplaceAll`) with a hand-written matcher per regex.
  - Each of the two functions is the fixed pipeline of those passes.
- **The mention resolver** (`src/lib/mentions.ts`).
  - The two loops run over match lists taken from the original text.
  - Each rewrite replaces the first occurrence of the match, as JavaScript's
    `String.prototype.replace` with a string pattern does.
  - The user-mapping lookups and Cachet are function parameters.
- **The thread mapper** (`src/lib/threads.ts`) and **the avatar selector**
  (`src/lib/avatars.ts`).
  - Both share the 32-bit string hash (`Hashing`).
  - The hash is modelled on UTF-16 code units, with ECMAScript ToInt32 written
    out.
- **The user-info cache** (`src/lib/user-cache.ts`). It is a class over a map,
  with the time and the answers of Cachet and Slack as parameters.
- **The command handlers** (`src/commands.ts`). Each of the four submit and
  confirm actions is a method that checks its guards in source order and
  returns an outcome. The table changes only when every guard passes.
  - Whether the IRC and Slack joins after a new channel bridge succeed is the
    parameter `joined`. When one throws, the reply is the failure message and
    the new row stays, as in the source.

`Date.now()` is the parameter `now` everywhere. Every `async` step is
sequential.

The emphasis regexes `\*((?:[^\*]|\\\*)+)\*` (and the `_` and `~` ones) are
modelled as "a delimiter, one or more non-delimiters, a delimiter". The two
agree on every input:

- The first alternative `[^\*]` already accepts a backslash.
- So the greedy loop stops only at the first `*`, which closes the match.
- The second alternative `\\\*` can never produce a different or longer match
  at a position.

Two places where the code does not do what its comments and tests evidently
intend are listed under Findings. Both are modelled as written, and the
intended behaviour is modelled beside them.

## Model

| member | source | states |
|---|---|---|
| Store.FindBySlack | src/lib/db.ts:161-165 | a lookup by Slack id is None exactly when no row has that id; otherwise it returns a row of the table with that id |
| Store.FindByIrc | src/lib/db.ts:167-171 | a lookup by IRC name is None exactly when no row has that name; otherwise it returns a row of the table with that name |
| Store.WithoutConflicts | src/lib/db.ts:173-178 | the delete step of INSERT OR REPLACE keeps exactly the rows that share neither the Slack id nor the IRC name of the new row |
| Store.WithoutSlack | src/lib/db.ts:180-184 | `DELETE ... WHERE slack_id = ?` keeps exactly the rows with another Slack id |
| Store.WithoutConflictsOneToOne | src/lib/db.ts:5-21 | the delete step keeps both UNIQUE constraints |
| Store.WithoutSlackOneToOne | src/lib/db.ts:180-184 | delete keeps both UNIQUE constraints |
| Store.CreateReplaces | src/lib/db.ts:173-178 | after create, a row is present iff it is the new row or an old row sharing no key with it, and the table stays one-to-one |
| Store.CreateFinds | src/lib/db.ts:161-178 | after create(s, i), the lookup by s and the lookup by i both return the new row |
| Store.CreateUpserts | src/lib/db.ts:173-178 | after create(s, i) there is exactly one row for s, and it maps to i, whatever was there before |
| Store.CreateFreshAppends | src/lib/db.ts:173-178 | when neither key is present, create only appends the row |
| Store.NoConflictsIdentity | src/lib/db.ts:173-178 | when no row shares a key with the new one, the delete step of INSERT OR REPLACE removes nothing |
| Store.InsertOrReplace | src/lib/db.ts:173-178 | `INSERT OR REPLACE`: the rows clashing with the new row on either key are deleted, then it is appended. Store.CreateReplaces, CreateFinds, CreateUpserts and CreateFreshAppends state its meaning |
| Store.DeleteLaws | src/lib/db.ts:180-184 | after delete(s) the lookup by s is None, every other row is kept, and deleting an absent id changes nothing |
| Store.KeepNewestFrom | src/lib/db.ts:43-56 | the duplicate removal keeps exactly the rows that are the newest for their IRC name (first in rowid order among equals) |
| Store.MigrationOneToOne | src/lib/db.ts:43-56 | after the duplicate removal, IRC names are unique, and with unique Slack ids the table meets the new schema |
| Store.MigrationKeepsEveryName | src/lib/db.ts:94-107 | every IRC name present before the removal is still present, on a row at least as recent |
| Store.MigrationIdentity | src/lib/db.ts:35-39 | without duplicate IRC names the removal changes nothing |
| Store.KeepNewestFromOneToOne | src/lib/db.ts:43-56 | every suffix kept by the duplicate removal is one-to-one when Slack ids are unique |
| Store.KeepNewest | src/lib/db.ts:43-56 | the duplicate removal over the whole table. Store.KeepNewestFrom, MigrationOneToOne, MigrationKeepsEveryName and MigrationIdentity state its meaning |
| Store.MappingTable.constructor | src/lib/db.ts:5-12 | a new table is empty and one-to-one |
| Store.MappingTable.GetAll | src/lib/db.ts:157-159 | getAll returns every row, in table order |
| Store.MappingTable.GetBySlack | src/lib/db.ts:161-165 | getBySlackChannel / getBySlackUser: None iff the id is absent, else the row with that id |
| Store.MappingTable.GetByIrc | src/lib/db.ts:167-171 | getByIrcChannel / getByIrcNick: None iff the name is absent, else the row with that name |
| Store.MappingTable.Create | src/lib/db.ts:173-178 | create is INSERT OR REPLACE, keeps the table one-to-one, and both lookups then find the new row |
| Store.MappingTable.Delete | src/lib/db.ts:180-184 | delete removes the rows with that Slack id, keeps the table one-to-one, and the lookup then finds nothing |
| Store.MappingTable.RemoveDuplicateIrc | src/lib/db.ts:43-56 | the migration's duplicate removal leaves the newest row per IRC name, and the table is then one-to-one |
| Store.FindByTs | src/lib/db.ts:224-228 | a lookup by thread_ts is None iff no row has it, else a row with that thread_ts |
| Store.FindById | src/lib/db.ts:230-234 | a lookup by thread_id is None iff no row has it, else a row with that thread_id |
| Store.WithoutThread | src/lib/db.ts:242-245 | the replace step keeps exactly the rows that share neither thread_ts nor thread_id with the new row |
| Store.NotOlderThan | src/lib/db.ts:248-252 | the sweep keeps exactly the rows whose last_message_time is not below the cutoff |
| Store.WithoutThreadUnique | src/lib/db.ts:129-136 | the replace step keeps thread_ts and thread_id unique |
| Store.NotOlderThanUnique | src/lib/db.ts:248-252 | the sweep keeps both keys unique |
| Store.UpsertThread | src/lib/db.ts:236-246 | `INSERT OR REPLACE` on the thread table over thread_ts and thread_id. Store.UpsertThreadLaws states its meaning |
| Store.UpsertThreadLaws | src/lib/db.ts:236-246 | update upserts on thread_ts, evicts any row holding the same thread_id, keeps both keys unique, and both lookups find the new row |
| Store.CleanupLaws | src/lib/db.ts:248-252 | cleanup deletes exactly the rows strictly older than the cutoff |
| Store.ThreadTable.constructor | src/lib/db.ts:129-136 | a new thread table is empty with unique keys |
| Store.ThreadTable.Get | src/lib/db.ts:224-228 | get(ts): None iff no row has ts |
| Store.ThreadTable.GetByThreadId | src/lib/db.ts:230-234 | getByThreadId(id): None iff no row has id |
| Store.ThreadTable.Update | src/lib/db.ts:236-246 | update is INSERT OR REPLACE over both keys, and the row is then found under either key |
| Store.ThreadTable.Cleanup | src/lib/db.ts:248-252 | cleanup keeps exactly the rows with time ≥ the cutoff, keys still unique |
| Hashing.ToInt32 | src/lib/threads.ts:11-12 | ECMAScript ToInt32: the signed 32-bit value congruent to its argument modulo 2^32 |
| Hashing.ToInt32Congruent | src/lib/threads.ts:11-12 | congruent arguments give the same 32-bit value |
| Hashing.ToInt32Unique | src/lib/threads.ts:11-12 | a signed 32-bit value congruent to x modulo 2^32 is ToInt32(x) |
| Hashing.CodeUnits | src/lib/threads.ts:11 | the UTF-16 code units `charCodeAt` walks over: at least one per character, each below 0x10000 |
| Hashing.Step | src/lib/threads.ts:11-12 | one step of the loop, `(h << 5) - h + c` then `h & h`, stays a signed 32-bit value |
| Hashing.CodeUnitsBmp | src/lib/threads.ts:11 | `charCodeAt` of a string within the Basic Multilingual Plane is each character's code |
| Hashing.Hash | src/lib/threads.ts:9-13 | the hash of a string is a signed 32-bit value |
| Hashing.HashFrom | src/lib/threads.ts:9-13 | the loop from a given accumulator over the remaining code units. Hashing.HashIsPoly equates it with an independent polynomial, Hashing.HashFromLast unfolds it at the end, and Hashing.HashLoop is the loop itself |
| Hashing.HashLoop | src/lib/avatars.ts:13-17 | the loop `hash = (hash << 5) - hash + c; hash = hash & hash` computes the fold `Hash` |
| Hashing.StepIsTimes31 | src/lib/threads.ts:11-12 | one loop step is ToInt32(31·h + c) |
| Hashing.HashIsPoly | src/lib/threads.ts:9-13 | the hash is ToInt32 of the polynomial Σ c_k·31^(n-1-k) over the code units |
| Hashing.HashFromLast | src/lib/threads.ts:10-13 | folding one more code unit is one more step |
| Hashing.Base36 | src/lib/threads.ts:15 | `toString(36)` of a natural is a non-empty numeral of `[0-9a-z]` |
| Hashing.Base36RoundTrip | src/lib/threads.ts:15 | reading the base-36 numeral back gives the number |
| Hashing.Base36Length | src/lib/threads.ts:15 | the numeral of n has at most k digits iff n < 36^k |
| Hashing.Abs | src/lib/threads.ts:15 | `Math.abs`: the argument or its negation, never negative |
| Hashing.HashOfBob | src/lib/avatars.ts:13-17 | the hash of "bob" is 97717 |
| Hashing.HashOfAlice | src/lib/avatars.ts:13-17 | the hash of "alice" is 92903040 |
| Hashing.TimestampHashA | src/lib/threads.test.ts:35-39 | the hash of "1234567890.123456" is 165290262 |
| Hashing.TimestampHashB | src/lib/threads.test.ts:35-39 | the hash of "9876543210.654321" is 1302216176 |
| Threads.GenerateThreadId | src/lib/threads.ts:8-16 | the id has 1 to 5 characters, all base-36 digits, and is a prefix of the numeral of abs(hash) |
| Threads.ThreadIdLength | src/lib/threads.ts:15 | the id has exactly 5 characters iff abs(hash) ≥ 36^4 |
| Threads.ShortThreadIdIsHash | src/lib/threads.ts:15 | an id shorter than five characters reads back as abs(hash) |
| Threads.ThreadIdA | src/lib/threads.test.ts:23-27 | "1234567890.123456" gets the id "2qeqs" |
| Threads.ThreadIdB | src/lib/threads.test.ts:35-39 | "9876543210.654321" gets the id "ljb0f" |
| Threads.IsFirstThreadMessage | src/lib/threads.ts:21-24 | true iff no row has that thread_ts |
| Threads.GetThreadByThreadId | src/lib/threads.ts:29-31 | None iff no row has that id; otherwise the row with it |
| Threads.UpdateThreadTimestamp | src/lib/threads.ts:36-43 | returns generateThreadId(ts), upserts (ts, id, channel, now), and afterwards the thread is found under both keys and is no longer first |
| Threads.Cutoff | src/lib/threads.ts:49 | the cutoff is now − 2 × 10 minutes |
| Threads.CleanupOldThreads | src/lib/threads.ts:48-51 | exactly the threads whose last message is older than now − 20 minutes are dropped |
| Threads.RepeatedUpdates | src/lib/threads.test.ts:73-88 | two updates of one thread give the same id, and the second stores the later time |
| Threads.ThreadIdExamples | src/lib/threads.test.ts:35-39 | the two test timestamps get the five-character ids "2qeqs" and "ljb0f", which differ |
| Threads.ShortThreadIdExample | src/lib/threads.ts:15 | an input whose hash is below 36^4 ("bob") gets the four-character id "23ed" |
| Avatars.AvatarIndex | src/lib/avatars.ts:18 | the index abs(hash) mod 5 is inside the pool |
| Avatars.PoolIsHttps | src/lib/avatars.ts:1-7 | every URL of the pool (the constant `Avatars.DefaultAvatars`, five entries in source order) starts with `https://` |
| Avatars.GetAvatarForNick | src/lib/avatars.ts:12-19 | the result is the pool entry at abs(hash) mod 5, hence a pool member and an https URL, for any nick |
| Avatars.AvatarIndexIsPoly | src/lib/avatars.ts:13-18 | the avatar index uses the same hash as the thread id |
| Avatars.EmptyNick | src/lib/avatars.test.ts:27-31 | the empty nick hashes to 0 and gets the first avatar |
| Avatars.DistinctExamples | src/lib/avatars.test.ts:17-25 | "alice" and "bob" get different avatars (indices 0 and 2) |
| UserCache.Hit | src/lib/user-cache.ts:32-37 | a cached entry younger than the TTL, else nothing. UserCache.HitIgnoresSources, RepeatWithinTtl and BoundaryEntry state its meaning |
| UserCache.Fetch | src/lib/user-cache.ts:40-91 | the lookup on a miss: display name, then Cachet when enabled, then Slack. UserCache.FetchNamesPresent, DisplayNameWins, CachetOnlyWhenEnabled and SlackFallback state its meaning |
| UserCache.Answer | src/lib/user-cache.ts:27-92 | what getUserInfo returns: the fresh cached entry, else the fetched answer. UserCache.HitIgnoresSources, RepeatWithinTtl and CallIdempotent state its meaning |
| UserCache.AfterCall | src/lib/user-cache.ts:27-92 | the cache after getUserInfo: unchanged on a hit or a failed fetch, else the user's entry written at now. UserCache.OthersUntouched, DisplayNameWins and CallIdempotent state its meaning |
| UserCache.Swept | src/lib/user-cache.ts:97-104 | the entries the cleanup keeps: those not older than the TTL. UserCache.SweepInvisible and BoundaryEntry state its meaning, and UserInfoCache.Cleanup computes it |
| UserCache.UserInfoCache.constructor | src/lib/user-cache.ts:20 | the cache starts empty |
| UserCache.UserInfoCache.GetUserInfo | src/lib/user-cache.ts:27-92 | the answer and the new cache are those of the read-through rules below, and no stored or returned name is empty |
| UserCache.UserInfoCache.Cleanup | src/lib/user-cache.ts:97-104 | the sweep deletes exactly the entries older than the TTL |
| UserCache.FetchNamesPresent | src/lib/user-cache.ts:40-87 | every fetched answer has a non-empty name and real name |
| UserCache.HitIgnoresSources | src/lib/user-cache.ts:32-37 | a fresh entry is returned as cached, whatever the sources would say, and the cache is unchanged |
| UserCache.DisplayNameWins | src/lib/user-cache.ts:40-48 | on a miss, a non-empty display name is returned as both names and stored at now |
| UserCache.CachetOnlyWhenEnabled | src/lib/user-cache.ts:51-69 | with Cachet disabled its answer has no effect |
| UserCache.SlackFallback | src/lib/user-cache.ts:72-91 | on the Slack path: an error gives null with the cache unchanged; else the name is `user.name` or "Unknown", and the real name is `real_name` or the name |
| UserCache.OthersUntouched | src/lib/user-cache.ts:41-85 | a call writes only its own user's entry |
| UserCache.RepeatWithinTtl | src/lib/user-cache.ts:35-37 | a successful fetch is answered from the cache by any later call within the TTL |
| UserCache.CallIdempotent | src/lib/user-cache.ts:27-92 | calling twice at the same time gives the same answer and the same cache as calling once |
| UserCache.SweepInvisible | src/lib/user-cache.ts:97-104 | the sweep never changes what a read at the same time returns |
| UserCache.BoundaryEntry | src/lib/user-cache.ts:35 | an entry aged exactly the TTL is a miss on read but survives the sweep |
| Scanner.ReplaceAll | src/parser.ts:8 | `s.replace(/re/g, …)`: left to right, a match is replaced and scanning resumes after it, elsewhere one character is copied. Scanner.NoHitIdentity, ScanToken, SkipToken, ReplaceAllChars and SingleCharIsSubst state its meaning |
| Scanner.RunPasses | src/parser.ts:4-55 | a fixed sequence of global replacements, first to last. Scanner.RunPassesAppend, PassesIdentity and PipelineToken state its meaning |
| Scanner.NoHitIdentity | src/parser.ts:8 | a global replace whose pattern matches nowhere returns its input |
| Scanner.ScanToken | src/parser.ts:8 | a match at the start is replaced and the scan resumes after it |
| Scanner.SkipToken | src/parser.ts:8 | text where the pattern does not start is copied |
| Scanner.SingleCharIsSubst | src/parser.ts:83-85 | replacing one literal character globally is character-wise substitution |
| Scanner.Removes | src/parser.ts:77-80 | a pass that matches at every occurrence of c and never emits c leaves no c |
| Scanner.PassesIdentity | src/parser.ts:4-55 | a pipeline finds nothing in text with none of its anchor characters |
| Scanner.RunPassesAppend | src/parser.ts:4-55 | a pipeline is its passes in order |
| Scanner.PipelineToken | src/parser.ts:4-55 | one token between untouched text goes through a pipeline as its own pass rewrites it |
| Scanner.TokenThroughPasses | src/parser.ts:4-55 | a token that only pass k rewrites, with nothing before pass k touching it and nothing after pass k touching the result, comes out as pass k's output |
| Scanner.ReplaceAllChars | src/parser.ts:8 | a pass whose replacements never contain c introduces no c |
| Parser.ParseSlackMarkdown | src/parser.ts:4-55 | parseSlackMarkdown: the markup passes in source order, then the block-quote pass, then the three entity passes as written. ParserLaws.SlackPlainIdentity, the ParserLaws token lemmas and EntityLaws.ParseSlackDecodesTwice state its behaviour |
| Parser.ChannelNamed | src/parser.ts:8 | a match is one whole `<#…>` token ending at its first `>`; ParserLaws.ChannelNamedToken gives its rewrite to `#name` |
| Parser.ChannelBare | src/parser.ts:9 | a match is one whole `<#…>` token ending at its first `>`; ParserLaws.ChannelBareToken gives its rewrite to `#channel` |
| Parser.Scheme | src/parser.ts:12-13 | `https?:\/\/` ends seven or eight characters on, and holds no `>` and no `\|` |
| Parser.LinkNamed | src/parser.ts:12 | a match is one whole `<…>` token ending at its first `>`; ParserLaws.LinkNamedToken gives its rewrite to `text (url)` |
| Parser.LinkBare | src/parser.ts:13 | a match is one whole `<…>` token ending at its first `>`; ParserLaws.LinkBareToken gives its rewrite to the URL |
| Parser.MailtoNamed | src/parser.ts:16 | a match is one whole `<mailto:…>` token ending at its first `>`; ParserLaws.MailtoNamedToken gives its rewrite to `text <address>` |
| Parser.MailtoBare | src/parser.ts:17 | a match is one whole `<mailto:…>` token ending at its first `>`; ParserLaws.MailtoBareToken gives its rewrite to the address |
| Parser.Here | src/parser.ts:20 | the literal `<!here>`; ParserLaws.SpecialToken gives its rewrite |
| Parser.ChannelAll | src/parser.ts:21 | the literal `<!channel>`; ParserLaws.SpecialToken gives its rewrite |
| Parser.Everyone | src/parser.ts:22 | the literal `<!everyone>`; ParserLaws.SpecialToken gives its rewrite |
| Parser.SubteamNamed | src/parser.ts:25 | a match is one whole `<!subteam^…>` token ending at its first `>`; ParserLaws.SubteamNamedToken gives its rewrite to `@handle` |
| Parser.SubteamBare | src/parser.ts:26 | a match is one whole `<!subteam^…>` token ending at its first `>`; ParserLaws.SubteamBareToken gives its rewrite to `@group` |
| Parser.DateFallback | src/parser.ts:29 | a match begins with `<!date^` and ends with `>` (its format part may itself hold a `>`); ParserLaws.DateToken gives its rewrite to the fallback |
| Parser.Delimited | src/parser.ts:32-38 | a match is a delimiter, one or more non-delimiters and the first delimiter after them, the meaning of `d((?:[^d]\|\\d)+)d` argued above |
| Parser.Bold | src/parser.ts:32 | the bold regex as Parser.Delimited on `*`; ParserLaws.BoldToken and UnclosedStar give its behaviour |
| Parser.Italic | src/parser.ts:35 | the italic regex as Parser.Delimited on `_`; ParserLaws.ItalicToken gives its rewrite |
| Parser.Strike | src/parser.ts:38 | the strikethrough regex as Parser.Delimited on `~`; ParserLaws.StrikeToken gives its rewrite |
| Parser.CodeBlock | src/parser.ts:41 | a match begins and ends with three backticks and has no backtick between them; ParserLaws.CodeBlockToken gives its rewrite |
| Parser.InlineCode | src/parser.ts:44 | the inline-code regex as Parser.Delimited on a backtick; ParserLaws.InlineCodeToken gives its rewrite |
| Parser.QuoteLines | src/parser.ts:47 | `replace(/^>/gm, ">")` with JavaScript line terminators; ParserLaws.QuoteLinesIdentity proves it the identity |
| Parser.AmpEntity | src/parser.ts:50 | the literal `&amp;`, replaced by `&` |
| Parser.LtEntity | src/parser.ts:51 | the literal `&lt;`, replaced by `<` |
| Parser.GtEntity | src/parser.ts:52 | the literal `&gt;`, replaced by `>` |
| Parser.UnescapeAsWritten | src/parser.ts:50-52 | the three entity passes in source order. EntityLaws.UnescapeAsWrittenNoAmp and UnescapeAsWrittenDecodesTwice state its behaviour |
| Parser.UnescapeEntities | src/parser.ts:50-52 | every entity decoded once, left to right; EntityLaws.UnescapeEscape proves it the inverse of Parser.EscapeHtml |
| Parser.EscapeHtml | src/parser.ts:83-85 | the reference escaping of `&`, `<` and `>`, character by character; IrcLaws.EscapeStage equates it with the three escape passes |
| Parser.ParseIRCFormatting | src/parser.ts:60-88 | parseIRCFormatting: the control passes in source order, then the three escape passes. IrcLaws.CleanIsEscaped, NoRawAngles, NoColorReverseReset and the IrcLaws pair lemmas state its behaviour |
| Parser.ColorCode | src/parser.ts:65 | matches exactly where a \x03 stands, consumes at most five digits and commas after it, and deletes them; IrcLaws.ColorBare, ColorFg and ColorFgBg give the exact extent |
| Parser.ControlPair | src/parser.ts:68-74 | matches iff another control character c follows the first, and the match ends at that first c, with the span possibly empty |
| Parser.IrcBold | src/parser.ts:68 | the bold regex as Parser.ControlPair on \x02; IrcLaws.BoldPair gives its rewrite |
| Parser.IrcItalic | src/parser.ts:71 | the italic regex as Parser.ControlPair on \x1D; IrcLaws.ItalicPair gives its rewrite |
| Parser.IrcUnderline | src/parser.ts:74 | the underline regex as Parser.ControlPair on \x1F; IrcLaws.UnderlinePair gives its rewrite |
| Parser.IrcReverse | src/parser.ts:77 | the literal \x16, deleted; IrcLaws.ReverseResetDeleted gives its effect |
| Parser.IrcReset | src/parser.ts:80 | the literal \x0F, deleted; IrcLaws.ReverseResetDeleted gives its effect |
| Parser.AmpEscape | src/parser.ts:83 | the literal `&`, replaced by `&amp;` |
| Parser.LtEscape | src/parser.ts:84 | the literal `<`, replaced by `&lt;` |
| Parser.GtEscape | src/parser.ts:85 | the literal `>`, replaced by `&gt;` |
| ParserLaws.QuoteLinesIdentity | src/parser.ts:47 | the block-quote pass `replace(/^>/gm, ">")` is the identity |
| ParserLaws.SlackPlainIdentity | src/parser.ts:4-55 | text without `<`, `*`, `_`, `~`, a backtick or `&` is unchanged |
| ParserLaws.SlackToken | src/parser.ts:4-55 | the one token rewritten by markup pass k, and untouched by every other pass, is rewritten to that pass's output inside otherwise plain text |
| ParserLaws.ChannelNamedToken | src/parser.ts:8 | `<#ID\|name>` becomes `#name` |
| ParserLaws.ChannelBareToken | src/parser.ts:9 | `<#ID>` becomes `#channel` |
| ParserLaws.LinkNamedToken | src/parser.ts:12 | `<url\|text>` becomes `text (url)` for http and https |
| ParserLaws.LinkBareToken | src/parser.ts:13 | `<url>` becomes `url` |
| ParserLaws.MailtoNamedToken | src/parser.ts:16 | `<mailto:a\|t>` becomes `t <a>`, and the `<a>` left behind is not rewritten again |
| ParserLaws.MailtoBareToken | src/parser.ts:17 | `<mailto:a>` becomes `a` |
| ParserLaws.SpecialToken | src/parser.ts:20-22 | `<!here>`, `<!channel>` and `<!everyone>` become `@here`, `@channel` and `@everyone` |
| ParserLaws.SubteamNamedToken | src/parser.ts:25 | `<!subteam^ID\|h>` becomes `@h` |
| ParserLaws.SubteamBareToken | src/parser.ts:26 | `<!subteam^ID>` becomes `@group` |
| ParserLaws.DateToken | src/parser.ts:29 | `<!date^digits^format\|fallback>` becomes its fallback text |
| ParserLaws.BoldToken | src/parser.ts:32 | `*x*` becomes x between two \x02 |
| ParserLaws.ItalicToken | src/parser.ts:35 | `_x_` becomes x between two \x1D |
| ParserLaws.StrikeToken | src/parser.ts:38 | `~x~` becomes x |
| ParserLaws.CodeBlockToken | src/parser.ts:41 | a triple-backtick block becomes its content, before the inline-code pass sees it |
| ParserLaws.InlineCodeToken | src/parser.ts:44 | a backtick span becomes its content |
| ParserLaws.UnclosedStar | src/parser.ts:32 | an unclosed `*` is left as it is |
| EntityLaws.EscapeAppend | src/parser.ts:83-85 | HTML escaping distributes over concatenation |
| EntityLaws.EscapeNoAngles | src/parser.ts:83-85 | escaped text contains no `<` and no `>` |
| EntityLaws.UnescapeEscape | src/parser.ts:50-52 | decoding every entity once, left to right, inverts escaping |
| EntityLaws.UnescapeAsWrittenNoAmp | src/parser.ts:50-52 | for text without `&`, the three decode passes as written invert escaping |
| EntityLaws.ParseSlackMarkdownIntended | src/parser.ts:4-55 | the corrected parseSlackMarkdown, decoding each entity once. EntityLaws.IntendedRoundTrip and IntendedKeepsLiteralEntity state its behaviour |
| EntityLaws.UnescapeAsWrittenDecodesTwice | src/parser.ts:50-52 | the passes as written decode the escaped form of "&lt;" to "<", where decoding once gives "&lt;" |
| EntityLaws.ParseSlackDecodesTwice | src/parser.ts:50-52 | parseSlackMarkdown("&amp;lt;") is "<" |
| EntityLaws.IntendedRoundTrip | src/parser.ts:50-52 | with a single-scan decode, escaped text without emphasis characters comes back unchanged |
| EntityLaws.IntendedKeepsLiteralEntity | src/parser.ts:50-52 | with a single-scan decode, "&amp;lt;" becomes "&lt;" |
| EntityLaws.EscapedMarkupFree | src/parser.ts:4-44 | HTML-escaped text without emphasis or code characters is matched by no markup pass |
| IrcLaws.Escape3IsEscape | src/parser.ts:83-85 | the three escape passes, `&` first, escape each character once |
| IrcLaws.EscapeStage | src/parser.ts:83-85 | the escape stage of parseIRCFormatting is HTML escaping |
| IrcLaws.CleanIsEscaped | src/parser.ts:60-88 | text without IRC control characters is only HTML-escaped |
| IrcLaws.NoRawAngles | src/parser.ts:83-85 | the output of parseIRCFormatting never contains a raw `<` or `>` |
| IrcLaws.ControlStageRemoves | src/parser.ts:65-80 | after the control passes no \x03, \x16 or \x0F is left |
| IrcLaws.NoColorReverseReset | src/parser.ts:60-88 | the output of parseIRCFormatting contains no \x03, \x16 or \x0F |
| IrcLaws.ColorBare | src/parser.ts:65 | a \x03 without digits is deleted alone |
| IrcLaws.ColorFg | src/parser.ts:65 | a \x03 with a one- or two-digit foreground is deleted with it |
| IrcLaws.ColorFgBg | src/parser.ts:65 | a \x03 with foreground, comma and background is deleted with all of them |
| Parser.Digits12 | src/parser.ts:65 | `\d{1,2}`: the greedy digit run after a colour code has at most two digits |
| IrcLaws.ForegroundSpan | src/parser.ts:65 | "\x0304red text\x03 normal" shape: coloured text keeps only its text |
| IrcLaws.ColoredSpan | src/parser.ts:65 | "\x0304,08red on yellow\x03" shape: coloured text keeps only its text |
| IrcLaws.BoldPair | src/parser.ts:68 | \x02x\x02 becomes `*x*`, the rest escaped |
| IrcLaws.ItalicPair | src/parser.ts:71 | \x1Dx\x1D becomes `_x_`, the rest escaped |
| IrcLaws.UnderlinePair | src/parser.ts:74 | \x1Fx\x1F becomes `_x_`, the rest escaped |
| IrcLaws.NestedBoldItalic | src/parser.ts:68-71 | \x02\x1Dx\x1D\x02 becomes `*_x_*` |
| IrcLaws.ReverseResetDeleted | src/parser.ts:77-80 | \x16 and \x0F are deleted wherever they stand |
| Mentions.IndexFrom | src/lib/mentions.ts:21-24 | the first occurrence of a pattern at or after a position, or None when there is none |
| Mentions.ReplaceFirst | src/lib/mentions.ts:21-24 | `String.prototype.replace` with a string pattern: only the first occurrence is replaced. Mentions.ReplaceAt gives the result when no earlier occurrence exists |
| Mentions.ApplyRewrites | src/lib/mentions.ts:17-37 | the `result = result.replace(…)` steps of the loops, in order; Mentions.ApplyAppend splits them |
| Mentions.ReplaceAt | src/lib/mentions.ts:21-24 | with no earlier occurrence, the first-occurrence replace rewrites the pattern where it stands |
| Mentions.AtMentions | src/lib/mentions.ts:11-14 | the matches of `/@(\w+)/g`: each is `@` and a non-empty word run |
| Mentions.NickMentions | src/lib/mentions.ts:12-15 | the matches of `/(\w+):/g`: each is a non-empty word run and `:` |
| Mentions.WordRun | src/lib/mentions.ts:14-15 | the greedy `\w+` run ends at the end of the text or at a non-word character |
| Mentions.ApplyAppend | src/lib/mentions.ts:17-37 | running two rewrite lists is running the first, then the second |
| Mentions.AtRewrites | src/lib/mentions.ts:17-26 | the rewrites of the `@` loop, one for each match whose nick is linked |
| Mentions.NickRewrites | src/lib/mentions.ts:28-37 | the rewrites of the `nick:` loop, one for each match whose nick is linked |
| Mentions.IrcToSlackAsWritten | src/lib/mentions.ts:7-40 | convertIrcMentionsToSlack as written: both match lists from the original text, then both loops. Mentions.ConvertIrcMentionsToSlack computes it; Mentions.IrcUnmappedIdentity, AtMentionAsWritten and PrefixNickAsWritten state its behaviour |
| Mentions.ConvertIrcMentionsToSlack | src/lib/mentions.ts:7-40 | the two loops compute the first-occurrence rewrites of the mapped matches, both lists taken from the original text |
| Mentions.IrcUnmappedIdentity | src/lib/mentions.ts:8-39 | when no matched nick is linked, the text is unchanged |
| Mentions.AtMentionAsWritten | src/lib/mentions.ts:17-26 | a single `@nick` becomes `<@U…>` where it stands when linked, and is unchanged when not |
| Mentions.NickMentionAsWritten | src/lib/mentions.ts:28-37 | a single `nick:` becomes `<@U…>:` where it stands when linked, and is unchanged when not |
| Mentions.AtMentionExample | src/lib/mentions.test.ts:6-15 | "Hey @testuser how are you?" becomes "Hey <@U123> how are you?" |
| Mentions.UnlinkedAtExample | src/lib/mentions.test.ts:17-20 | "Hey @unknownuser" is unchanged |
| Mentions.NickMentionExample | src/lib/mentions.test.ts:22-29 | "alice: hello" becomes "<@U456>: hello" |
| Mentions.UnlinkedNickExample | src/lib/mentions.test.ts:31-34 | "bob: hello" is unchanged |
| Mentions.MultipleMentionsExample | src/lib/mentions.test.ts:36-45 | "@alice and bob: hello!" becomes "<@U123> and <@U456>: hello!" |
| Mentions.PrefixNickAsWritten | src/lib/mentions.ts:21-24 | "@alice @al" with only "al" linked becomes "<@U1>ice @al" |
| Mentions.IrcToSlack | src/lib/mentions.ts:17-37 | the corrected conversion: one scan that rewrites each linked mention where it was found. Mentions.MentionInPlace, NickInPlace, IrcToSlackUnlinked, IrcToSlackPlain and PrefixNickIntended state its behaviour |
| Mentions.IrcToSlackUnlinked | src/lib/mentions.ts:8-39 | the in-place rewrite copies text when no nick is linked |
| Mentions.IrcToSlackPlain | src/lib/mentions.ts:8-39 | text without `@` or `:` is unchanged by the in-place rewrite |
| Mentions.MentionInPlace | src/lib/mentions.ts:17-26 | in the in-place rewrite a linked `@nick` becomes its Slack mention exactly where it stands, whatever surrounds it |
| Mentions.NickInPlace | src/lib/mentions.ts:28-37 | in the in-place rewrite a linked `nick:` becomes its Slack mention and colon exactly where it stands |
| Mentions.AtMentionIntended | src/lib/mentions.ts:17-26 | on a single mention the in-place rewrite and the loops agree |
| Mentions.NickMentionIntended | src/lib/mentions.ts:28-37 | on a single `nick:` the in-place rewrite and the loops agree |
| Mentions.PrefixNickIntended | src/lib/mentions.ts:21-24 | the in-place rewrite turns "@alice @al" into "@alice <@U1>" |
| Mentions.MentionAt | src/lib/mentions.ts:49 | a match of `<@(U[A-Z0-9]+)(\|([^>]+))?>` is a well-formed mention and a prefix of the text |
| Mentions.SlackMentions | src/lib/mentions.ts:49-50 | every match found by `matchAll` is well-formed |
| Mentions.Resolve | src/lib/mentions.ts:56-69 | what a mention becomes: the linked nick, else the inline name, else Cachet's display name, else nothing. Mentions.LinkedNickFirst, CachetLastResort and UnresolvedIff state its meaning |
| Mentions.SlackRewrites | src/lib/mentions.ts:52-70 | the rewrites of the loop, one for each match that resolves |
| Mentions.SlackToIrcAsWritten | src/lib/mentions.ts:45-73 | convertSlackMentionsToIrc as written: the match list from the original text, then the loop. Mentions.ConvertSlackMentionsToIrc computes it; Mentions.SlackMentionInPlace, SlackUnresolvedIdentity and SlackPlainIdentity state its behaviour |
| Mentions.MentionRoundTrip | src/lib/mentions.ts:49 | rendering a mention and matching it gives back the same id and name |
| Mentions.ConvertSlackMentionsToIrc | src/lib/mentions.ts:45-73 | the loop computes the first-occurrence rewrites of the resolved matches |
| Mentions.LinkedNickFirst | src/lib/mentions.ts:57-59 | a linked user is shown as `@nick`, whatever the inline name and Cachet say |
| Mentions.CachetLastResort | src/lib/mentions.ts:60-69 | Cachet is consulted only for an unlinked mention without an inline name |
| Mentions.UnresolvedIff | src/lib/mentions.ts:52-70 | a mention is left as it is iff the link, the inline name and Cachet all fail |
| Mentions.SlackMentionInPlace | src/lib/mentions.ts:52-70 | a single mention is replaced where it stands by what it resolves to |
| Mentions.SlackUnresolvedIdentity | src/lib/mentions.ts:45-73 | when no mention resolves, the text is unchanged |
| Mentions.SlackPlainIdentity | src/lib/mentions.ts:49-50 | text without `<` has no mention and is unchanged |
| Mentions.NamedMentionExample | src/lib/mentions.ts:60-62 | "hi <@U1\|ann>!" for an unlinked U1 becomes "hi @ann!" |
| Mentions.LookupsInverse | src/lib/db.ts:192-202 | under both UNIQUE constraints, getBySlackUser(getByIrcNick(n).slack) gives back n |
| Mentions.MentionRoundTripThroughStore | src/lib/mentions.ts:7-73 | a linked `@nick` sent to Slack and its mention sent back comes back as `@nick` |
| Commands.ClaimOf | src/commands.ts:89-109 | the IRC side is checked before the Slack side; Free iff neither key is present |
| Commands.FreeClaimAppends | src/commands.ts:89-111 | create reached after both guards only appends, and the table stays one-to-one |
| Commands.ClaimAfterLink | src/commands.ts:89-109 | after a pair is linked, a request with its IRC name is refused with its Slack id, and a request with only its Slack id is refused with its IRC name |
| Commands.ChannelSubmit | src/commands.ts:58-135 | the reply to a bridge request: invalid name iff not `#…`; success iff the name is valid, the user is present and permitted, and neither side is bridged |
| Commands.BridgeChannelSubmit | src/commands.ts:58-135 | a refused request gets the ChannelSubmit reply with the table unchanged; an accepted one appends the pair, and replies success if the IRC and Slack joins succeed and the failure message otherwise, with the new row kept |
| Commands.ChannelGuardOrder | src/commands.ts:69-86 | a format or permission refusal does not depend on the table, so it fires before the lookups |
| Commands.ChannelSubmitTwice | src/commands.ts:89-111 | the same request twice: the second is refused because the IRC channel is now bridged here |
| Commands.ChannelSubmitOtherIrc | src/commands.ts:100-111 | a second IRC channel for the same Slack channel is refused |
| Commands.ChannelUnbridge | src/commands.ts:205-213 | not bridged iff no row has the Slack channel; else the reply names its IRC channel |
| Commands.UnbridgeChannelConfirm | src/commands.ts:199-233 | with no mapping the table is unchanged; otherwise exactly that channel's row is removed |
| Commands.BridgeThenUnbridge | src/commands.ts:111-215 | unbridging a channel just bridged restores the table |
| Commands.UnlinkRemovesOneRow | src/commands.ts:215 | delete of a present id removes exactly one row |
| Commands.UnlinkUndoesLink | src/commands.ts:111-215 | a freshly linked pair is found by its Slack id, and deleting it restores the table |
| Commands.UserSubmit | src/commands.ts:286-343 | the reply to a link request: nick required iff empty; success iff neither the nick nor the user is linked |
| Commands.BridgeUserSubmit | src/commands.ts:286-343 | the handler replies UserSubmit; on success it appends the pair, otherwise the table is unchanged |
| Commands.UserSubmitAfterLink | src/commands.ts:305-327 | after a link, the nick is taken for everyone else and the user cannot link another nick |
| Commands.UserUnbridge | src/commands.ts:406-413 | not linked iff no row has the user; else the reply names the nick |
| Commands.UnbridgeUserConfirm | src/commands.ts:398-434 | with no mapping the table is unchanged; otherwise exactly that user's row is removed |
| Commands.NickFreeAfterUnlink | src/commands.ts:406-416 | after unlinking, the nick can be linked again by a user who has no link |

## Left out

- Block Kit payloads, `context.respond`, the `cancel` action and the `/irc-bridge-list` rendering are left out. They change no table. The handler's reply is the `Outcome` value.
- The four slash commands `/irc-bridge-channel`, `/irc-unbridge-channel`, `/irc-bridge-user` and `/irc-unbridge-user` are left out. They only open a dialog, and the model covers only the actions that change the store.
- The `if (!context.respond) return` early exits are left out. They change nothing.
- The `try`/`catch` error replies for a failing database are left out, because the model has no failing database. The one failure modelled is a join that throws after a new channel row is written (Commands.BridgeChannelSubmit, parameter `joined`).
- `ircClient.join`, `conversations.join` and every `console` call are left out as I/O. Only whether the two joins succeed is modelled, as the parameter `joined`.
- `canManageChannel` is the parameter `canManage`. The Slack API calls behind it are not part of this model.
- `created_at` is the parameter `now` of `Create`, not SQLite's seconds default. The `AUTOINCREMENT` id is not modelled. Sequence order stands for rowid order.
- The migration's `sqlite_master` check, the table re-creation and the copying of rows are left out. `RemoveDuplicateIrc` models the delete loop only.
- Store.IsNewest breaks a tie in `created_at` by the first row in rowid order. SQLite leaves the order among equal `created_at` values unspecified.
- Store.MappingTable.RemoveDuplicateIrc requires the Slack ids to be unique already, as the old schema's `UNIQUE` on the Slack column guarantees.
- `process.env.CACHET_ENABLED` is the parameter `cachetEnabled`.
- Cachet's answer in `getUserInfo` is the parameter `cachet`:
  - `None` stands for no user or an exception;
  - `Some(displayName)` stands for a user, with the empty string for a missing name;
  - Slack's reply is a `SlackReply`.
- Mentions.ConvertSlackMentionsToIrc: `cachetName` returns the display name, or `None` when there is no user. A Cachet user without a display name, which JavaScript would print as `@undefined`, is not modelled.
- Mentions.ConvertSlackMentionsToIrc and Mentions.ConvertIrcMentionsToSlack insert the replacement literally. JavaScript's `replace` would expand `$&`, `$1` or `$$` if a Slack id, nick or display name contained `$`.
- Hashing.CodeUnits encodes each character in UTF-16. A JavaScript string holding an unpaired surrogate cannot be written as a Dafny string and is not modelled.
- The parser's token lemmas (ParserLaws.*Token, IrcLaws.*Pair) state each rewrite for one token between text that no pass touches. Interactions of several overlapping tokens are covered only by the general scanner and pipeline definitions, not by a lemma.
- Mentions.AtMentionAsWritten and Mentions.NickMentionAsWritten state the as-written conversion only for a single mention in text with no other `@` or `:`. No general in-place statement holds for the code as written, because its first-occurrence replace can rewrite inside another mention (the second Findings row). The general in-place statements are made for the corrected Mentions.IrcToSlack.

## Findings

| source | as written | input that shows it | evidently intended | confidence | as-written member | corrected member |
|---|---|---|---|---|---|---|
| src/parser.ts:50-52 | `&amp;` is decoded first, then `&lt;` and `&gt;` run over the result, so an escaped entity is decoded twice | Slack escapes a typed `&lt;` as `&amp;lt;`; parseSlackMarkdown gives `<` | each entity decoded once, giving back the `&lt;` the user typed | not executed | EntityLaws.UnescapeAsWrittenDecodesTwice, EntityLaws.ParseSlackDecodesTwice | EntityLaws.ParseSlackMarkdownIntended, EntityLaws.IntendedRoundTrip, EntityLaws.IntendedKeepsLiteralEntity |
| src/lib/mentions.ts:21-24 | `result.replace(match[0], …)` rewrites the first occurrence of the matched text, which can lie inside an earlier, longer mention | `@alice @al` with only `al` linked gives `<@U1>ice @al` | each matched mention rewritten where it was found: `@alice <@U1>` | not executed | Mentions.PrefixNickAsWritten | Mentions.IrcToSlack, Mentions.MentionInPlace, Mentions.PrefixNickIntended |
