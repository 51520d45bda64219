# MarkovChainBot: a verified model of the text pipelines, batching and bot logic

MarkovChainBot scrapes posts from several boards and from Reddit and Discord exports. It cleans them and trains n-gram Markov models on batches of them. A Discord bot, `CondoBot`, then answers with generated sentences. The n-gram engine is the external `markovify` library, so this model covers the logic the repository implements itself:

- **Text cleaning**, one pipeline per source. These are `clean_text` in five scripts and `clean_8kun_text`. Each is a fixed chain of `re.sub` and `str.replace` calls, character filters, whitespace normalisation and a length gate. `Patterns.Sub` models both `re.sub` and `str.replace` with Python's semantics. A match is the leftmost one, takes the first alternative, is greedy, and does not overlap another; the text is scanned once. `Strings` models `split`, `strip`, `" ".join` and the ASCII filter, with whitespace as the `str.isspace` set.
- **Batched training**, shared by the three trainers (`Batching.RunTraining`). The kept rows are cut into batches of exactly `BATCH_SIZE`, followed by a shorter non-empty remainder. The batches concatenate back to the kept rows in order. The model is the left fold of `combine` over the models built from the batches, and it is `None` exactly when no row was kept. `markovify.Text` and `markovify.combine` are function parameters about which nothing is assumed. An interrupted run is a shorter row sequence.
- **Scraper bookkeeping**:
  - the soyjak.st catalog filter and its order-preserving de-duplication;
  - the save-or-skip loop with its seen-set and counters;
  - 4chan's archive truncation and id union;
  - the `total_saved` count over worker results. These results come from `imap_unordered`, so they arrive in any order.
- **The bot**, modelled as the class `MainBot.CondoBot`. Its lifetime counters are fields, and `on_message` is a method. The pure parts are functions:
  - the memegen.link escape `clean` and the word filter `filter_text`;
  - the response tiers: seeded by the last two words, then by the last word, then unseeded;
  - the uptime split and the `greentext` lines.

The order of the cleaning steps is what several lemmas pin down:
- 4chan decodes `&amp;` last, and once, so `&amp;gt;` stays the text `&gt;`.
- 8kun strips tags before decoding entities, so `&lt;x&gt;` survives as `<x>`. It removes quote links after decoding, so `&gt;&gt;123` is removed.
- soyjak.st removes quote links before decoding, so there `&gt;&gt;123` survives as `>>123`.
- The Soyjak Party trainer normalises whitespace before dropping non-ASCII characters, so its output is neither guaranteed single-spaced nor stripped. `SoyjakPartyTrainer.LeadingSpaceKept` exhibits a kept text that starts with a space.

Modules and files:
- `wrappers.dfy` holds `Option`.
- `seqs.dfy` holds sequence facts.
- `strings.dfy` holds the Python string built-ins.
- `patterns.dfy` holds the regular expressions of the source and the entity chain.
- `collections.dfy` holds de-duplication, keep-first, flatten and the length gate.
- `batching.dfy` holds the trainers' loop.
- There is one file per source script: `main_bot.dfy`, `soyjak_party_scraper.dfy`, `reddit_trainer.dfy`, `soyjak_party_trainer.dfy`, `fourchan_scraper.dfy`, `eightkun_scraper.dfy` and `discord_trainer.dfy`.

## Model

Definitions that carry no contract of their own are listed through the lemmas about them:
- `MainBot.Clean` (MainBot.py:176-183) through `MainBot.CleanIsEscape` and the other `Clean*` rows.
- `Patterns.DecodeEntities` (4chanScraper.py:17, SoyjakPartyScraper.py:37, 8kunScraper.py:17) through the `Patterns.DecodeEscaped*` rows.
- `RedditTrainer.Junk` (RedditTrainer.py:18-26) through `RedditTrainer.JunkDropped` and `RedditTrainer.NotJunk`.
- `SoyjakPartyScraper.Step` (SoyjakPartyScraper.py:107-116) through `SoyjakPartyScraper.TracksStep`.
- `FourChanScraper.WorkerPosts` and `EightKunScraper.WorkerPosts` (the per-thread workers) through the `WorkerKeeps` and `ScrapeThread` rows.

| member | source | states |
|---|---|---|
| `MainBot.SubstituteAll` | MainBot.py:168-170 | one output word per input word, each looked up by its lower-case form in `bad_words` and kept when absent |
| `MainBot.FilterText` | MainBot.py:167-170 | the filtered caption is a single-space join of words: stripped and single-spaced |
| `MainBot.ReplacementValues` | MainBot.py:168 | every replacement is a non-empty lower-case word without whitespace that is not itself a key |
| `MainBot.FilterTextWords` | MainBot.py:167-170 | the word count is kept; word i becomes the replacement exactly when its lower-case form is `fucking`, `shit` or `hell`, and is unchanged otherwise |
| `MainBot.FilterTextIdempotent` | MainBot.py:167-170 | filtering a filtered caption changes nothing |
| `MainBot.Caption` | MainBot.py:162-173 | the caption, from the generated sentence or its fallback, neither starts nor ends with one of `.,!?;: ` and has only characters of the filtered text |
| `MainBot.EscapesClosed` | MainBot.py:177-183 | no replacement in the `replace` chain produces a character that a later `replace` rewrites |
| `MainBot.LookupEscapes` | MainBot.py:177-183 | the first pair of the chain naming a character gives that character's memegen.link escape |
| `MainBot.CleanAppend` | MainBot.py:176-183 | `clean` distributes over concatenation |
| `MainBot.CleanChar` | MainBot.py:176-183 | `clean` of one character is its escape: `?`→`~q`, `/`→`~s`, `#`→`~h`, `%`→`~p`, `.`→`~d`, `'`→`''`, space→`_`, any other character unchanged |
| `MainBot.CleanIsEscape` | MainBot.py:176-183 | the whole `replace` chain equals the character-by-character escape |
| `MainBot.CleanLength` | MainBot.py:176-183 | the output is longer than the input by the number of `? / # % . '` in the input |
| `MainBot.CleanSafe` | MainBot.py:176-183 | no `? / # % .` and no space is left in the output |
| `MainBot.Uptime` | MainBot.py:116-118 | hours·3600 + minutes·60 + seconds is the uptime, with minutes and seconds in 0..59 and hours non-negative for a non-negative uptime |
| `MainBot.UptimeUnique` | MainBot.py:116-118 | any split with minutes and seconds in 0..59 is the one `divmod` computes |
| `MainBot.GreenLines` | MainBot.py:141-144 | at most one story line per generated sentence |
| `MainBot.GreenLinesShape` | MainBot.py:141-144 | every story line is `\>` and at least one more character; one line per sentence when all sentences are non-empty, none when all are empty |
| `MainBot.Greentext` | MainBot.py:138-147 | the lines are `\>be me`, the story lines, then `\>` and the chosen reaction; between 2 and the number of sentences + 2 lines |
| `MainBot.Respond` | MainBot.py:87-96 | with two or more words the first seed is the last two words; the last word alone is tried only when that gave nothing; the unseeded sentence is used only when every seeded tier gave nothing |
| `MainBot.ChooseResponse` | MainBot.py:85-96 | the reassignments of `response` tier by tier give the response of `Respond` |
| `MainBot.GetOrZero` | MainBot.py:30-32 | a loaded statistic, or 0 when the key is missing |
| `MainBot.Reaction` | MainBot.py:61-109 | something is sent only for a message from a non-bot that is not a command and is a ping, a reply or a chance pick |
| `MainBot.ReactionSpec` | MainBot.py:82-109 | a response is sent exactly when the message is considered and the tiers give a non-empty text; it is that text lower-cased, sent as a reply exactly when the bot was pinged or replied to |
| `MainBot.MessageWords` | MainBot.py:83-84 | the words of the message, each non-empty and without whitespace, after both mention tokens are removed; the `strip()` before `split()` changes nothing |
| `MainBot.CondoBot.constructor` | MainBot.py:29-32 | each counter starts from the loaded statistics, 0 when absent |
| `MainBot.CondoBot.SaveStats` | MainBot.py:40-47 | appends a snapshot of the three counters to what was saved, counters unchanged |
| `MainBot.CondoBot.OnMessage` | MainBot.py:60-109 | `messages_seen` rises by one per non-bot message and the statistics are saved when it reaches a multiple of 10; `responses_sent` rises by one per sent response, which is saved; `random_chats` rises only for a chance pick that is neither a ping nor a reply; bot messages change nothing |
| `MainBot.CondoBot.Answer` | MainBot.py:82-109 | for a considered message: sends what `Reaction` says and counts and saves exactly when it sends |
| `Strings.Strip` | SoyjakPartyScraper.py:40 | `str.strip()`: the result has no whitespace at either end and is no longer |
| `Strings.StripSlice` | SoyjakPartyScraper.py:40 | the result is the input with whitespace cut from both ends only; a stripped text is unchanged |
| `Strings.StripSingleSpaced` | SoyjakPartyScraper.py:39-40 | stripping keeps a text single-spaced |
| `Strings.Split` | MainBot.py:169 | `str.split()` gives non-empty words without whitespace; `Patterns.CollapseStrip` and `Strings.SplitJoin` fix which words they are |
| `Strings.SplitStripLeft` | MainBot.py:83-84 | leading whitespace does not change `split()` |
| `Strings.SplitTrailing` | MainBot.py:83-84 | trailing whitespace does not change `split()` |
| `Strings.SplitStrip` | MainBot.py:83-84 | `s.strip().split()` is `s.split()` |
| `Strings.StripRightAppend` | SoyjakPartyScraper.py:40 | `rstrip()` of a text keeps any prefix that ends in non-whitespace or is followed by some |
| `Strings.JoinWords` | MainBot.py:170 | a space join of words is stripped and single-spaced |
| `Strings.SplitJoin` | MainBot.py:169-170 | splitting a space join of words gives the words back |
| `Strings.NormalizeSpaces` | RedditTrainer.py:37 | `" ".join(text.split()).strip()` is stripped, single-spaced and has the words of the input |
| `Strings.NormalizeTwoWords` | SoyjakPartyTrainer.py:33 | two words joined by one space are already normal |
| `Strings.AsciiOnly` | RedditTrainer.py:30 | `encode('ascii', 'ignore')` keeps only ASCII characters of the input and is the identity on ASCII text |
| `Strings.AsciiOnlyChar` | RedditTrainer.py:30 | on one character the filter keeps it exactly when it is ASCII |
| `Strings.AsciiOnlyAppend` | RedditTrainer.py:30 | the filter distributes over concatenation; with `Strings.AsciiOnlyChar` this fixes its result on every text: the ASCII characters of the input, all of them, in order |
| `Strings.StripCharSet` | MainBot.py:172-173 | `strip(chars)` leaves no such character at either end and only characters of the input |
| `Strings.Lower` | MainBot.py:170 | lower-casing acts character by character and keeps the length |
| `Strings.ContainsInfix` | RedditTrainer.py:25 | `pattern in text` holds for any text with the pattern inside |
| `Strings.ContainsSplit` | RedditTrainer.py:25 | conversely, `pattern in text` holds only when the text is some `a + pattern + b` |
| `Strings.ContainsFirst` | RedditTrainer.py:25 | a text containing a non-empty pattern contains its first character |
| `Patterns.RunLen` | SoyjakPartyScraper.py:33 | a greedy `\d+`, `\s+` or `\S+` run: the longest prefix of matching characters |
| `Patterns.Sub` | SoyjakPartyScraper.py:33-39 | `re.sub` / `str.replace` scan: deleting matches never lengthens a text |
| `Patterns.SubNoMatch` | SoyjakPartyScraper.py:33-39 | where the pattern matches nowhere the text is unchanged |
| `Patterns.SubAllChars` | RedditTrainer.py:33-34 | a substitution keeps every character property shared by the text and the replacement |
| `Patterns.SubRemoves` | 4chanScraper.py:22-23 | a character every match starting at it removes is absent from the result |
| `Patterns.CollapseSingleSpaced` | SoyjakPartyScraper.py:39 | `re.sub(r'\s+', ' ', s)` is single-spaced |
| `Patterns.CollapseWord` | SoyjakPartyScraper.py:39 | a run without whitespace passes `re.sub(r'\s+', ' ', ...)` unchanged |
| `Patterns.CollapseRun` | SoyjakPartyScraper.py:39 | a leading whitespace run becomes one space |
| `Patterns.CollapseHead` | SoyjakPartyScraper.py:39 | a text not starting with whitespace keeps its first character in front after the collapse |
| `Patterns.CollapseWords` | SoyjakPartyScraper.py:39-40 | from a text not starting with whitespace, the collapse followed by `rstrip()` is the words of the text joined by single spaces |
| `Patterns.CollapseStrip` | SoyjakPartyScraper.py:39-40 | `re.sub(r'\s+', ' ', s).strip()` equals `" ".join(s.split())` for every text: the words of `s`, in order, joined by single spaces |
| `Patterns.SubCharAppend` | MainBot.py:177-183 | replacing one character distributes over concatenation |
| `Patterns.DecodeEscapedAmpersand` | 4chanScraper.py:17 | the entity chain turns `&amp;x` into `&x` for an `x` without `&`: `&amp;` is decoded last and once |
| `Patterns.DecodeEscapedTag` | 8kunScraper.py:17 | the entity chain turns `&lt;x&gt;` into `<x>` |
| `Patterns.DecodeEscapedQuote` | SoyjakPartyScraper.py:37 | the entity chain turns `&gt;&gt;d` into `>>d` |
| `Patterns.BreakVariants` | 8kunScraper.py:15 | `<br\s*/?>` matches all of `<br>`, `<br/>` and `<br />` |
| `Patterns.SubOneOfRemoves` | RedditTrainer.py:34 | removing a character class leaves none of its characters |
| `Patterns.MentionMatch` | DiscordTrainer.py:14 | `<@digits>` is matched whole by the Discord token pattern |
| `Collections.Dedup` | SoyjakPartyScraper.py:78 | no duplicates and the same elements as the input |
| `Collections.DedupOrder` | SoyjakPartyScraper.py:78 | elements come in the order of their first appearance |
| `Collections.KeepFirst` | SoyjakPartyScraper.py:107-116 | the kept texts are texts of the input, no more of them; `Collections.KeepFirstOrder` states which and in what order |
| `Collections.PicksSnoc` | SoyjakPartyScraper.py:101-113 | positions picked from a list stay picked when an item is appended, and that item can be picked after them |
| `Collections.FirstOfKeySnoc` | SoyjakPartyScraper.py:109 | appending an item leaves whether an earlier position is the first of its key unchanged; the new item is first of its key exactly when its key is new |
| `Collections.FirstPicksKeep` | SoyjakPartyScraper.py:109-116 | an item whose key was seen is not picked |
| `Collections.FirstPicksAdd` | SoyjakPartyScraper.py:109-113 | an item with a new key is picked after all earlier picks |
| `Collections.KeepFirstOrder` | SoyjakPartyScraper.py:101-116 | the kept items are the subsequence of the input, in input order, at exactly the positions whose key did not occur earlier |
| `Collections.KeepFirstKeys` | SoyjakPartyScraper.py:108-113 | kept texts have pairwise distinct keys, and every key of the input is kept |
| `Collections.Flatten` | 4chanScraper.py:77-80 | the concatenation has the summed length of the lists |
| `Collections.FlattenPermutation` | 4chanScraper.py:77-80 | any reordering of the lists gives the same rows up to order and the same count |
| `Collections.MapAll` | 4chanScraper.py:77 | one result per id, in the order of the ids: the result of the worker on that id (also 8kunScraper.py:58) |
| `Collections.Gate` | 4chanScraper.py:44-48 | the length gate keeps at most one text per post |
| `Collections.GateMembers` | 4chanScraper.py:46 | a text passes exactly when some post cleans to it and it is long enough |
| `Batching.Accepted` | RedditTrainer.py:54-58 | the kept texts, no more than the rows |
| `Batching.AcceptedMembers` | RedditTrainer.py:55-58 | a text is kept exactly when some row cleans to it and it is non-empty |
| `Batching.Chunks` | RedditTrainer.py:61-85 | every piece is non-empty and at most `BATCH_SIZE` long, all but the last exactly `BATCH_SIZE`; no pieces only for no rows |
| `Batching.ChunksFlatten` | RedditTrainer.py:54-85 | the pieces concatenate back to the kept rows in order |
| `Batching.ChunksOf` | RedditTrainer.py:61-85 | full batches followed by a shorter remainder (dropped when empty) are exactly the chunking of their concatenation |
| `Batching.Merge` | RedditTrainer.py:67-70 | the first model is taken as it is |
| `Batching.Fold` | RedditTrainer.py:64-85 | the folded model is `None` exactly when there are no batches |
| `Batching.RunTraining` | RedditTrainer.py:42-85 | `total_count` is the number of kept rows; the model is the left fold over the chunking of the kept rows; it is `None` exactly when nothing was kept |
| `RedditTrainer.Normalized` | RedditTrainer.py:28-37 | after the ASCII filter, link and Markdown removal and normalisation: ASCII, no `* _ ~ > \` #`, stripped and single-spaced |
| `RedditTrainer.PlainChars` | RedditTrainer.py:33-34 | after link and Markdown removal an ASCII text has no Markdown character |
| `RedditTrainer.CleanText` | RedditTrainer.py:12-40 | `None` for an empty text and for any text with a junk pattern; a text is kept exactly when it is non-empty, not junk and its normalised form is longer than 20; a kept text is that normalised form: ASCII, without Markdown, stripped and single-spaced |
| `RedditTrainer.NotJunk` | RedditTrainer.py:18-26 | a text with none of `I`, `a`, `[`, `H`, the characters that start the junk patterns, is not junk |
| `RedditTrainer.NotJunkKept` | RedditTrainer.py:18-40 | such a text is kept as its normalised form whenever that is longer than 20 |
| `RedditTrainer.JunkDropped` | RedditTrainer.py:18-26 | a junk pattern anywhere in the text drops it |
| `RedditTrainer.TagsRemoved` | RedditTrainer.py:33 | `/u/word` and `/r/word` are removed whole |
| `RedditTrainer.TrainingTexts` | RedditTrainer.py:54-58 | the batched texts are exactly the cleaned contents of rows that clean to something, each long enough, plain, stripped and single-spaced |
| `SoyjakPartyTrainer.Cleaned` | SoyjakPartyTrainer.py:21-36 | the cleaned unescaped text is ASCII and has no `>` and no `* _ ~ \` #` |
| `SoyjakPartyTrainer.NoMarkupChars` | SoyjakPartyTrainer.py:21-32 | after the link, `>`, URL and Markdown steps no `>` and no Markdown character is left, even one produced by unescaping |
| `SoyjakPartyTrainer.CleanText` | SoyjakPartyTrainer.py:13-39 | `None` for an empty text; a text is kept exactly when it is non-empty and its cleaned unescaped form is longer than 20; a kept text is that form: ASCII, with no `>` and no Markdown character |
| `SoyjakPartyTrainer.LeadingSpaceKept` | SoyjakPartyTrainer.py:33-39 | a non-ASCII word, a space and a plain word cleans to the space and the word, a kept text that is not stripped |
| `SoyjakPartyTrainer.TrainingTexts` | SoyjakPartyTrainer.py:53-57 | the batched texts are exactly the cleaned texts of rows that clean to something, each long enough and plain |
| `SoyjakPartyScraper.CleanText` | SoyjakPartyScraper.py:30-40 | `""` for an empty text; otherwise the words of the text after link and tag removal and entity decoding, joined by single spaces: stripped and single-spaced |
| `SoyjakPartyScraper.Cleaned` | SoyjakPartyScraper.py:104-105 | the `___body_nomarkup` field is cleaned when it holds text, otherwise `com`; `""` when neither does; the result is stripped and single-spaced |
| `SoyjakPartyScraper.EscapedQuoteSurvives` | SoyjakPartyScraper.py:33-37 | quote links are removed before decoding, so `&gt;&gt;digits` is cleaned to `>>digits` |
| `SoyjakPartyScraper.PageIdsMembers` | SoyjakPartyScraper.py:68-73 | an id is collected from a page exactly when some entry on it is not sticky and has it as a truthy `no` |
| `SoyjakPartyScraper.CatalogIdsMembers` | SoyjakPartyScraper.py:67-73 | an id is collected exactly when some page lists it so |
| `SoyjakPartyScraper.CollectThreadIds` | SoyjakPartyScraper.py:61-78 | the nested catalog loops and `dict.fromkeys` give the de-duplicated collected ids |
| `SoyjakPartyScraper.PassedAllClean` | SoyjakPartyScraper.py:104-107 | every text passing the gate has length ≥ 15 and is stripped and single-spaced |
| `SoyjakPartyScraper.TracksStep` | SoyjakPartyScraper.py:107-116 | one save-or-skip step keeps the books right |
| `SoyjakPartyScraper.RunLedger` | SoyjakPartyScraper.py:101-116 | from empty books: the first text of each key is written, in order; the seen keys are the keys that passed; `total_saved` is the number of seen keys; `total_saved + duplicates_skipped` is the number of texts that passed |
| `SoyjakPartyScraper.SaveThread` | SoyjakPartyScraper.py:101-116 | the post loop of one thread performs the save-or-skip steps over its passing texts and `thread_count` counts the writes |
| `SoyjakPartyScraper.SavePosts` | SoyjakPartyScraper.py:88-116 | over all threads: written texts are the first of each key, `total_saved` is the number of seen keys and written texts, plus the duplicates it is the number of passing texts, and it is the sum of the thread counts |
| `SoyjakPartyScraper.WrittenPosts` | SoyjakPartyScraper.py:104-113 | written texts are long enough, stripped, single-spaced, have distinct keys and cover every passing key |
| `FourChanScraper.CleanText` | 4chanScraper.py:14-25 | `""` for an empty text; otherwise no newline, no `>`, stripped |
| `FourChanScraper.NoBreakNoQuote` | 4chanScraper.py:22-25 | after the newline and `>` steps and stripping, neither character is left |
| `FourChanScraper.CleanEscapedAmpersand` | 4chanScraper.py:17 | `&amp;x` is cleaned to `&x`, so `&amp;gt;` stays the text `&gt;` |
| `FourChanScraper.ScrapeThread` | 4chanScraper.py:35-50 | the worker's loop keeps the cleaned posts longer than 10, in order; an unread thread gives none |
| `FourChanScraper.WorkerKeeps` | 4chanScraper.py:44-48 | a text is kept exactly when some post cleans to it and it is longer than 10; kept texts have no newline or `>` and are stripped |
| `FourChanScraper.Truncate` | 4chanScraper.py:61-62 | the kept archive ids are a prefix of the list, exactly `ARCHIVE_LIMIT` of them when there are more |
| `FourChanScraper.TargetIds` | 4chanScraper.py:64 | each live or archived id exactly once |
| `FourChanScraper.RunScrape` | 4chanScraper.py:75-80 | one row per post of every arriving result; `total_saved` is the total number of posts the workers kept, whatever the arrival order |
| `EightKunScraper.Clean8kun` | 8kunScraper.py:12-21 | `""` for an empty text; otherwise stripped |
| `EightKunScraper.BreaksBecomeSpaces` | 8kunScraper.py:15 | `<br>`, `<br/>` and `<br />` each become one space |
| `EightKunScraper.NoTagText` | 8kunScraper.py:15-16 | a text without `<` passes the break and tag steps unchanged |
| `EightKunScraper.TagTextKept` | 8kunScraper.py:19-21 | the text `<x>` passes the link, URL and strip steps unchanged |
| `EightKunScraper.EscapedTagSurvives` | 8kunScraper.py:15-21 | tags are stripped before decoding, so `&lt;x&gt;` is cleaned to `<x>` |
| `EightKunScraper.EscapedQuoteRemoved` | 8kunScraper.py:17-21 | quote links are removed after decoding, so `&gt;&gt;digits` is cleaned to nothing |
| `EightKunScraper.ScrapeThread` | 8kunScraper.py:23-38 | the worker's loop keeps the cleaned posts longer than 10, in order; an unread thread gives none |
| `EightKunScraper.WorkerKeeps` | 8kunScraper.py:31-35 | a text is kept exactly when some post cleans to it and it is longer than 10; kept texts are stripped |
| `EightKunScraper.RunScrape` | 8kunScraper.py:52-61 | one row per post of every arriving result; `total_saved` is the total number of posts kept, whatever the arrival order |
| `DiscordTrainer.CleanText` | DiscordTrainer.py:12-15 | `None` for an empty text; a text is kept exactly when it is non-empty and, without mentions and URLs and stripped, is longer than 1; a kept text is that stripped form |
| `DiscordTrainer.MentionDropped` | DiscordTrainer.py:14-15 | a message that is only a user mention is dropped |
| `DiscordTrainer.Accept` | DiscordTrainer.py:28-29 | a message whose type is not `Default` gives nothing |
| `DiscordTrainer.TrainingTexts` | DiscordTrainer.py:27-32 | the batched texts are exactly the cleaned contents of `Default` messages that clean to something, each stripped and longer than 1 |

## Left out

- The n-gram engine: `markovify.Text`, `combine`, `compile`, the JSON persistence and sentence generation are parameters or `Option<string>` inputs. Examples are trainer lines RedditTrainer.py:65-92 and the bot's MainBot.py:54, 89, 96 and 142.
- Network, browser and board clients: `requests`, `nodriver`, `basc_py4chan`, `py8chan` and 4chan's `get_manual_archive_ids`. Their results are inputs. A thread that cannot be read, or whose page holds no JSON, is `None`. RedditScraper.py is not part of this model.
- File I/O: CSV, JSON and `ijson` reading and writing, `load_stats`, `gc.collect` and `sys.exit`. Rows written are modelled as sequences. `save_stats` is modelled as appending a snapshot to `saved`. A CSV row is the map `csv.DictReader` yields, with `None` for a missing field of a short row.
- The Discord plumbing: `process_commands`, embeds, typing and the `stats`, `setchance` and `meme` command wiring. The memegen.link request and its retry are left out too. A message mentioning the bot, and a reply to one of the bot's messages, are booleans of the message.
- Randomness: the chat-chance draw, the greentext line count and reaction, and the meme template are inputs. `setchance` is floating point and is left out.
- Concurrency: `multiprocessing.Pool` and `imap_unordered` are an arbitrary permutation of the per-thread results.
- Exceptions: `KeyboardInterrupt` is a shorter input. The worker's broad `except` returning `[]` is an unreadable thread. A soyjak.st catalog error, which ends the harvest before anything is saved, is not modelled.
- Printing and progress output.
- `html.unescape` (SoyjakPartyTrainer.py:19) and `hashlib.md5` (SoyjakPartyScraper.py:108) are function parameters.
- `list(set(...))` in 4chanScraper.py:64 has no defined order. The model takes first-occurrence order. Only order-free facts are proved about it: each id once, and a `total_saved` that is independent of order.
- A JSON `true` in `sticky` compares equal to 1 in Python. The model reads it as 1.
- A missing and a null `com` field are modelled alike, as `None`.
- Strings.IsDigit: `\d` is ASCII digits only; Python also matches other Unicode decimal digits.
- Strings.LowerChar: lower-cases ASCII letters and the Kelvin sign only. Other Unicode case mappings are not modelled. For `filter_text` they cannot turn a word into one of its ASCII keys.
- Strings.StripCharSet: states that no stripped character is left at either end and that the characters come from the input. It does not state that only end characters are removed.
- MainBot.Caption: inherits the weaker contract of Strings.StripCharSet.
- MainBot.Greentext: the number of generated sentences is any length, not only 2 to 4 as `random.randint(2, 4)` draws. The final `"\n".join` is left out.
- Patterns.Sub: its own contract only bounds the length. What each pipeline keeps or removes is stated by the lemmas about it.
