# Messenger Wrapped — the analysis core in Dafny

Messenger Wrapped reads a Facebook Messenger export and turns it into a "year in
review" for one chat. An export is a folder or zip of JSON pages, or HTML pages. The
code modelled here does the following:

- selects and orders the message pages of a chat from a path → file map;
- normalises the export records into parsed messages and merges the pages;
- reads the decision rules of the HTML export reader;
- computes the statistics:
  - totals and date range;
  - per-sender rollups;
  - vocabulary, average-length and emoji figures;
  - reaction leaderboards;
  - the month-by-month timeline;
- picks the "linguistic champions";
- runs the small reducer that holds the application's chat state.

Each module follows one source file:

| module | file | source |
|---|---|---|
| `Types` | types.dfy | the records of `types/index.ts` |
| `MessengerParser` | messenger_parser.dfy | `parseMessengerFile`, `mergeMessages`, `extractChatName` |
| `HtmlParticipants` | html_participants.dfy | the "Participants:" line of `parseHTMLFile` |
| `HtmlTimestamp` | html_timestamp.dfy | the footer time stamp of `parseHTMLFile` |
| `HtmlParser` | html_parser.dfy | the other rules of `parseHTMLFile` |
| `StatsCalculator` | stats_calculator.dfy | `lib/analyzer/stats-calculator.ts` |
| `LinguisticAnalyzer` | linguistic_analyzer.dfy | `lib/analyzer/linguistic-analyzer.ts` |
| `ReactionAnalyzer` | reaction_analyzer.dfy | `lib/analyzer/reaction-analyzer.ts` |
| `Analyzer` | analyzer.dfy | `lib/analyzer/index.ts` |
| `MessageUtils` | message_utils.dfy | `lib/utils/message-utils.ts` |
| `FileUtils` | file_utils.dfy | `lib/utils/file-utils.ts` |
| `LinguisticUtils` | linguistic_utils.dfy | `lib/utils/linguistic-utils.ts` |
| `ChatDataContext` | chat_data_context.dfy | `context/ChatDataContext.tsx` |

Shared modules model JavaScript built-ins:

- `Wrappers` defines `Option` and `Result`.
- `Seqs` holds filter, map, `Set` insertion order and sums.
- `Text` holds `trim`, `toLowerCase`, `includes`, white-space runs, decimal printing and the emoji ranges.
- `Sorting` models `Array.prototype.sort`, which is stable. It is written as a stable insertion sort under "may stay before", `cmp(a, b) <= 0`.
- `Assoc` models a JavaScript `Map` as its entries in insertion order.

Code that loops and updates variables is written as methods with loops, each proved equal to a specification function:

- `ParseMessengerFile`, `CalculateChatStats` and `CalculateContributorStats`;
- `CalculateLinguisticStats` and `CalculateAllLinguisticStats`;
- `GenerateChatHistory` and `AnalyzeChatData`;
- `CleanMessageText`, `ParseHtmlFile`;
- `FindMessageFiles`, `GetAvailableChats` and `FilterChatFiles`;
- `FindLinguisticChampions`.

The properties are then proved as lemmas about those functions. Expressions written in the source as chains of calls are modelled as functions.

How the outside world is represented:

- Time stamps are integers.
- The local-time calendar is passed in as parameters:
  - `monthOf: int -> YearMonth` stands for `new Date(t).getFullYear()` and `getMonth() + 1`;
  - `HtmlTimestamp.Clock` stands for `Date.now()`, `new Date(y, m, d, h, mi, s).getTime()` and `new Date(text)`.
- `Math.sqrt` is a parameter.
- Strings are sequences of code points. Where a length counts UTF-16 units, `Text.Utf16Length` gives it.

## Model

| member | source | states |
|---|---|---|
| MessengerParser.NormalizeMessage | lib/parser/messenger-parser.ts:18-20 | the sender name and the time stamp of the record are copied unchanged |
| MessengerParser.NormalizeMessageWellFormed | lib/parser/messenger-parser.ts:21-27 | `hasContent` holds exactly when the content is a non-empty string; empty content becomes absent; `isMediaOnly` holds exactly when there is no content but some media; present lists pass through unchanged and absent ones become empty |
| MessengerParser.NormalizeToRaw | lib/parser/messenger-parser.ts:18-28 | normalisation loses nothing: a well-formed parsed message comes back from the export record it stands for |
| MessengerParser.ParseMessengerFile | lib/parser/messenger-parser.ts:14-34 | exactly one well-formed parsed message per export record, in the records' order, each the normalised record |
| MessengerParser.TimestampLeIsPreorder | lib/parser/messenger-parser.ts:43 | the time stamp comparator is a consistent total preorder |
| MessengerParser.MergeMessagesSorted | lib/parser/messenger-parser.ts:39-44 | the merge is a permutation of the concatenated pages, in ascending time stamp order |
| MessengerParser.MergeMessagesStable | lib/parser/messenger-parser.ts:39-44 | messages with equal time stamps keep their order of concatenation |
| MessengerParser.MergeMessagesIdempotent | lib/parser/messenger-parser.ts:39-44 | merging the merged list again, as a single page, gives it back unchanged |
| MessengerParser.InboxSegment | lib/parser/messenger-parser.ts:70 | a captured folder name is non-empty and holds no `/` or `\` |
| MessengerParser.BeforeUnderscore | lib/parser/messenger-parser.ts:73 | the result is the longest prefix without `_`, so the `_` replacement after it changes nothing |
| MessengerParser.BeforeUnderscoreSuffix | lib/parser/messenger-parser.ts:73 | a name without underscores followed by `_` and any suffix gives back the name |
| MessengerParser.ExtractChatName | lib/parser/messenger-parser.ts:60-77 | a non-empty title wins; with no title and no `inbox/` or `inbox\` folder the name is "Unknown Chat" |
| MessengerParser.ExtractChatNameFromFolder | lib/parser/messenger-parser.ts:69-74 | with no title, a path `messages/inbox/<name>_<id>/...` gives back `<name>` |
| HtmlParticipants.SeparatorEnd | lib/parser/messenger-parser.ts:115 | the separator `,\s*(?:and\s+)?` ends after the comma and within the text |
| HtmlParticipants.SplitParticipants | lib/parser/messenger-parser.ts:115 | the split yields at least one piece, and no piece holds a comma |
| HtmlParticipants.TrimNames | lib/parser/messenger-parser.ts:116-117 | every name kept is non-empty and trimmed |
| HtmlParticipants.DeclaredParticipants | lib/parser/messenger-parser.ts:112-119 | the declared participants are distinct, non-empty and trimmed |
| HtmlParticipants.SplitJoinComma | lib/parser/messenger-parser.ts:115 | splitting a list of plain names joined with ", " gives back the list |
| HtmlParticipants.ParticipantNamesJoin | lib/parser/messenger-parser.ts:112-119 | a participants line of plain names joined with ", " declares exactly those names |
| HtmlParticipants.TrimNamesOfTrimmed | lib/parser/messenger-parser.ts:116-117 | trimming and dropping empty names leaves a list of non-empty trimmed names unchanged |
| HtmlTimestamp.FooterDateAt | lib/parser/messenger-parser.ts:233 | a matched date part ends within the footer text |
| HtmlTimestamp.FooterDateFromRuns | lib/parser/messenger-parser.ts:233 | the date part `(\w+)\s+(\d+),\s+(\d+)` matches at the start with the month, day and year that its runs read, given where the runs of word characters, white space and digits end |
| HtmlTimestamp.FooterTimeFromRuns | lib/parser/messenger-parser.ts:233 | the time part `\s+(\d+):(\d+):(\d+)\s+(am\|pm)` matches with the hour, minute and second its digit runs read and the marker that follows, given where the runs end |
| HtmlTimestamp.ClockRestFromRuns | lib/parser/messenger-parser.ts:233 | the minutes, seconds and marker of the time part are those its runs read |
| HtmlTimestamp.ClockFromRuns | lib/parser/messenger-parser.ts:233 | the clock reading matches with the hour its first digit run reads and the rest of the reading |
| HtmlTimestamp.HourFromRuns | lib/parser/messenger-parser.ts:233 | the time part matches once a white-space run precedes the clock reading |
| HtmlTimestamp.MeridiemIsAlternation | lib/parser/messenger-parser.ts:233-242 | the marker test accepts exactly "am" or "pm" in any letter case, and reads pm exactly when the marker is "pm" in any case |
| HtmlTimestamp.ExampleFooterDate | lib/parser/messenger-parser.ts:227-233 | the date part of "Apr 22, 2025 12:28:58 pm" reads month "Apr", day 22 and year 2025 |
| HtmlTimestamp.ExampleFooterTime | lib/parser/messenger-parser.ts:227-233 | the time part of the same footer reads 12:28:58 pm |
| HtmlTimestamp.ExampleFooterMatch | lib/parser/messenger-parser.ts:227-242 | the footer pattern reads "Apr 22, 2025 12:28:58 pm" as the fields Apr, 22, 2025, 12, 28, 58, pm |
| HtmlTimestamp.ExampleFooter | lib/parser/messenger-parser.ts:227-249 | that footer is stamped with the local time of 22 April 2025 (month 3 counting from 0) at 12:28:58 |
| HtmlTimestamp.AprilIndex | lib/parser/messenger-parser.ts:235-236 | "Apr" is month 3 |
| HtmlTimestamp.TimestampOfMatch | lib/parser/messenger-parser.ts:234-249 | a footer whose fields match with a known month is stamped with the local time of those fields, the hour converted to the 24-hour clock |
| HtmlTimestamp.MonthIndex | lib/parser/messenger-parser.ts:235-236 | the index of the month name in Jan..Dec, compared case-sensitively, or -1 exactly when it is not one of them |
| HtmlTimestamp.ConvertHour | lib/parser/messenger-parser.ts:245-246 | a 12-hour reading becomes an hour of the day that is in the afternoon exactly for pm |
| HtmlTimestamp.ConvertHourRoundTrip | lib/parser/messenger-parser.ts:244-246 | the conversion and the 12-hour reading of an hour of the day are inverse to each other |
| HtmlTimestamp.FooterTimestamp | lib/parser/messenger-parser.ts:224-261 | an empty footer, or a matched footer whose month is not in Jan..Dec, leaves the time stamp at the current time; a matched footer with a known month is stamped with the local time of its fields, the hour converted to the 24-hour clock; a footer the pattern does not match gets the time the date parser reads from it, or the current time when it reads none |
| HtmlParser.SplitReaction | lib/parser/messenger-parser.ts:271-297 | a span holding no emoji gives no reaction, and a reaction found is a non-empty prefix of the span |
| HtmlParser.SplitReactionActor | lib/parser/messenger-parser.ts:274-283 | an emoji span followed by an actor's name splits into exactly those two |
| HtmlParser.SplitReactionEmojiOnly | lib/parser/messenger-parser.ts:271-290 | an emoji span alone, or followed by white space only, is a reaction of the sender |
| HtmlParser.SplitHeartReaction | lib/parser/messenger-parser.ts:272-283 | the usual span, a heart then a name, gives the heart and the name |
| HtmlParser.SplitReactionLeading | lib/parser/messenger-parser.ts:273-290 | a span that opens with a run of emoji splits into the whole run and the trimmed rest as actor, or the sender as actor when the rest is blank |
| HtmlParser.SplitReactionShort | lib/parser/messenger-parser.ts:273-297 | a span that does not open with an emoji is a reaction of the sender, the whole span, exactly when it is at most three UTF-16 code units long and holds an emoji; otherwise it gives no reaction |
| HtmlParser.SplitShortSpan | lib/parser/messenger-parser.ts:291-297 | "a😀" (three code units) is a reaction of the sender, and "abc😀" (five code units) gives none |
| HtmlParser.SectionReactions | lib/parser/messenger-parser.ts:264-299 | a section without a reaction list has no reactions, and each list item gives at most one reaction |
| HtmlParser.ReactionsOf | lib/parser/messenger-parser.ts:269-298 | no more reactions come out than list items went in |
| HtmlParser.ReactionsOfAppend | lib/parser/messenger-parser.ts:269-298 | the items are read one after another: the reactions of two runs of items are those of the first run, then those of the second |
| HtmlParser.ReactionsOfOne | lib/parser/messenger-parser.ts:270-297 | one item gives the reaction its trimmed text splits into, or nothing |
| HtmlParser.ReactionsOfSkip | lib/parser/messenger-parser.ts:273-291 | an item that does not split adds nothing, wherever it stands |
| HtmlParser.ReactionsOfAllSplit | lib/parser/messenger-parser.ts:269-298 | when every item splits, there is one reaction per item, and the i-th reaction is the split of the i-th trimmed item |
| HtmlParser.SourceOf | lib/parser/messenger-parser.ts:429 | the source is empty exactly when both `src` and `data-src` are missing or empty |
| HtmlParser.PhotosOf | lib/parser/messenger-parser.ts:426-436 | every photo has a source that is non-empty, names no emoji or icon and is no data URL, and carries the message's time stamp |
| HtmlParser.VideosOf | lib/parser/messenger-parser.ts:439-449 | every video has a non-empty source and the message's time stamp |
| HtmlParser.AudioLinksOf | lib/parser/messenger-parser.ts:452-463 | every linked audio file is one of the links and ends in an audio extension |
| HtmlParser.PhotosOfMembers | lib/parser/messenger-parser.ts:426-436 | a photo with source s and the message's time stamp comes out exactly when some image's source is s and s passes the photo rule |
| HtmlParser.VideosOfMembers | lib/parser/messenger-parser.ts:439-449 | a video with source s comes out exactly when some video element's source is s and s is non-empty |
| HtmlParser.AudioLinksOfMembers | lib/parser/messenger-parser.ts:452-463 | an audio file with address h comes out exactly when h is one of the links, the selector picks it and it ends in an audio extension |
| HtmlParser.AudioElementsOfMembers | lib/parser/messenger-parser.ts:466-475 | an audio file with source s comes out exactly when some audio element's source is s and s ends in an audio extension |
| HtmlParser.AudioElementsOf | lib/parser/messenger-parser.ts:466-475 | every audio element kept has a source ending in an audio extension |
| HtmlParser.LongestAudioPrefix | lib/parser/messenger-parser.ts:479 | the greedy path run, backed off to a prefix of it that ends in an audio extension |
| HtmlParser.AudioReference | lib/parser/messenger-parser.ts:477-481 | a file named in the content ends in an audio extension |
| HtmlParser.AudioFilesOf | lib/parser/messenger-parser.ts:451-487 | linked files and audio elements come first; the content is consulted only when neither gave a file |
| HtmlParser.SenderOf | lib/parser/messenger-parser.ts:192-193 | the sender is non-empty and trimmed |
| HtmlParser.UnnamedSectionIsSystem | lib/parser/messenger-parser.ts:193-208 | a section without a usable `<h2>` becomes "Unknown", a system sender |
| HtmlParser.ActorReactedIsNotice | lib/parser/messenger-parser.ts:489-498 | content such as "Bob reacted ..." is a system notice and is skipped |
| HtmlParser.ReactedFirstIsNotNotice | lib/parser/messenger-parser.ts:489-498 | content that opens with "reacted" after non-word characters, and holds none of the three phrases, is kept |
| HtmlParser.ListOrNone | lib/parser/messenger-parser.ts:511-514 | an empty list becomes absent and a non-empty one passes unchanged |
| HtmlParser.SectionMessage | lib/parser/messenger-parser.ts:489-518 | a kept message is from the section's sender; a section whose content is a system notice is dropped, and any other non-empty content is kept unchanged; a kept message has content, media or reactions, so a section with none of them is dropped; and a section without content is kept when it has media or reactions |
| HtmlParser.SectionOutcome | lib/parser/messenger-parser.ts:189-518 | the message a section offers is from that section's sender |
| HtmlParser.OutcomesWellFormed | lib/parser/messenger-parser.ts:507-508 | every section's message is from its own sender |
| HtmlParser.ReadDeclared | lib/parser/messenger-parser.ts:210-217 | with declared participants, the set never changes, every kept message is from a declared participant, and no section yields two messages |
| HtmlParser.ReadMembers | lib/parser/messenger-parser.ts:210-221 | under the corrected rule, a message is kept exactly when some section offers it and the rule admits that section's sender |
| HtmlParser.ReadKeptWasOffered | lib/parser/messenger-parser.ts:210-221 | under the corrected rule, every kept message was offered by a section whose sender the rule admits |
| HtmlParser.ReadKeepsAdmitted | lib/parser/messenger-parser.ts:210-221 | every message offered by an admitted section is kept; with no declared participants that is every message of a sender who is not a system sender |
| HtmlParser.ReadUndeclared | lib/parser/messenger-parser.ts:210-221 | with no declared participants, no kept message is from a system sender, and the participants are the kept senders in order of first appearance |
| HtmlParser.AsWrittenAgreesWhenDeclared | lib/parser/messenger-parser.ts:210-221 | with declared participants, the admission rule as written and the corrected rule read a page alike |
| HtmlParser.AsWrittenKeepsOneSender | lib/parser/messenger-parser.ts:212-221 | as written, with no declared participants, all kept messages are from one sender |
| HtmlParser.AsWrittenDropsSecondSender | lib/parser/messenger-parser.ts:212-221 | two sections from different ordinary senders: as written, one message is kept; under the corrected rule, both are |
| HtmlParser.GroupPhotoOf | lib/parser/messenger-parser.ts:122-128 | the group photo is the header image's source exactly when that source passes the photo rule |
| HtmlParser.ParticipantRecords | lib/parser/messenger-parser.ts:528 | one participant record per name, in order |
| HtmlParser.ParseHtmlFile | lib/parser/messenger-parser.ts:101-543 | the page's conversation is one of two: the embedded conversation when there are no sections; otherwise the kept messages oldest first with the participants. An error is returned when nothing is kept |
| HtmlParser.ReadSections | lib/parser/messenger-parser.ts:189-523 | the loop over the sections ends with the participants and the messages that the corrected admission rule reads from the page |
| HtmlParser.ReversedIsChronological | lib/parser/messenger-parser.ts:529 | reversing messages listed newest first gives them in ascending time order |
| HtmlParser.ReadKeepsBound | lib/parser/messenger-parser.ts:210-221 | only offered messages are kept, so a lower bound on the offered time stamps bounds the kept ones |
| HtmlParser.ReadKeepsOrder | lib/parser/messenger-parser.ts:210-221 | the kept messages keep page order, so sections listed newest first give kept messages newest first |
| HtmlParser.HtmlConversationChronological | lib/parser/messenger-parser.ts:523-531 | when the sections offer their messages newest first, the conversation read from the page lists its messages oldest first |
| StatsCalculator.MinTimestamp | lib/analyzer/stats-calculator.ts:36 | the least time stamp: at most every one, and attained |
| StatsCalculator.MaxTimestamp | lib/analyzer/stats-calculator.ts:37 | the greatest time stamp: at least every one, and attained |
| StatsCalculator.CalculateChatStats | lib/analyzer/stats-calculator.ts:10-51 | the loop's totals, sorted participants and date range are those of the chat-statistics function |
| StatsCalculator.ChatStatsParticipants | lib/analyzer/stats-calculator.ts:30-45 | the participants are exactly the distinct senders, in strictly ascending order |
| StatsCalculator.ChatStatsDateRange | lib/analyzer/stats-calculator.ts:11-49 | an empty chat gives zero totals and the range {0, 0}; otherwise every time stamp lies in the range and both ends are attained |
| StatsCalculator.ScrubChar | lib/analyzer/stats-calculator.ts:87-88 | after lower-casing and the replacement, a character is a lower-case word character or white space |
| StatsCalculator.Words | lib/analyzer/stats-calculator.ts:86-90 | a text ending in a word character has at least one word |
| StatsCalculator.WordsAreWords | lib/analyzer/stats-calculator.ts:86-92 | every token is non-empty and made of `[a-z0-9_]` only |
| StatsCalculator.WordSetIsWords | lib/analyzer/stats-calculator.ts:92 | every word in a sender's word set is a non-empty lower-case word |
| StatsCalculator.CalculateContributorStats | lib/analyzer/stats-calculator.ts:56-99 | the loop's records, sorted, are those of the contributor function |
| StatsCalculator.OwnIsFilter | lib/analyzer/linguistic-analyzer.ts:24-26 | a sender's messages are the chat filtered on an exact match of the name |
| StatsCalculator.OwnMembers | lib/analyzer/linguistic-analyzer.ts:24-26 | a message is among a sender's messages exactly when it is in the chat and has that sender |
| StatsCalculator.RollupIsPerSender | lib/analyzer/stats-calculator.ts:59-94 | the map has one key per distinct sender, in order of first appearance, and each record is that sender's totals |
| StatsCalculator.RollupTotals | lib/analyzer/stats-calculator.ts:77-80 | the records' message, photo, video and audio counts add up to the chat's |
| StatsCalculator.RollupRecords | lib/analyzer/stats-calculator.ts:59-94 | one record per distinct sender, each equal to an independent per-sender count |
| StatsCalculator.ContributorStatsRecords | lib/analyzer/stats-calculator.ts:59-98 | the contributors are one per distinct sender, each that sender's totals, with the emoji fields left at zero and empty |
| StatsCalculator.ContributorStatsTotals | lib/analyzer/stats-calculator.ts:77-80 | message counts add up to the number of messages, and photo, video and audio counts to the chat totals |
| StatsCalculator.ContributorStatsOrdered | lib/analyzer/stats-calculator.ts:96-98 | contributors come in non-increasing order of message count |
| StatsCalculator.ContributorStatsStable | lib/analyzer/stats-calculator.ts:96-98 | contributors with equal counts keep the order of their senders' first messages |
| LinguisticAnalyzer.EmojiMapCounts | lib/analyzer/linguistic-analyzer.ts:48-50 | the frequency map has one key per distinct emoji, in order of first appearance, each with its number of occurrences |
| LinguisticAnalyzer.EmojiMapTotal | lib/analyzer/linguistic-analyzer.ts:43-51 | the map's counts add up to the number of emoji |
| LinguisticAnalyzer.EmojiMapKeysDistinct | lib/analyzer/linguistic-analyzer.ts:49 | the map's keys are distinct |
| LinguisticAnalyzer.RankingEntries | lib/analyzer/linguistic-analyzer.ts:55-57 | the ranking holds exactly the map's entries, one record per distinct emoji |
| LinguisticAnalyzer.RankingCounts | lib/analyzer/linguistic-analyzer.ts:55-57 | every ranked record is an emoji of the texts with its true count |
| LinguisticAnalyzer.RankingComplete | lib/analyzer/linguistic-analyzer.ts:55-57 | every emoji of the texts has a ranked record |
| LinguisticAnalyzer.TopEmojisSize | lib/analyzer/linguistic-analyzer.ts:58 | ten records, or one per distinct emoji when there are fewer |
| LinguisticAnalyzer.TopEmojisOrdered | lib/analyzer/linguistic-analyzer.ts:57-58 | the top emoji come most used first |
| LinguisticAnalyzer.TopEmojisCounts | lib/analyzer/linguistic-analyzer.ts:55-58 | each top record is an emoji of the texts with its true count |
| LinguisticAnalyzer.TopEmojisBest | lib/analyzer/linguistic-analyzer.ts:55-58 | no emoji left out is used more often than one that is in |
| LinguisticAnalyzer.TopEmojisStable | lib/analyzer/linguistic-analyzer.ts:57 | emoji used equally often keep their order of first appearance |
| LinguisticAnalyzer.Diversity | lib/analyzer/linguistic-analyzer.ts:29-32 | zero without text; never negative and never above the number of distinct words |
| LinguisticAnalyzer.AverageLength | lib/analyzer/linguistic-analyzer.ts:35-37 | zero without messages; otherwise average times message count is the number of characters |
| LinguisticAnalyzer.EmojiUsageFacts | lib/analyzer/linguistic-analyzer.ts:40-66 | the count is the number of emoji in the contributor's own texts and the sum of the frequencies; the unique count is the number of distinct emoji; at most ten top emoji |
| LinguisticAnalyzer.CountAll | lib/analyzer/linguistic-analyzer.ts:48-50 | counting a text's emoji into the map gives the frequency map of all emoji seen so far |
| LinguisticAnalyzer.CalculateLinguisticStats | lib/analyzer/linguistic-analyzer.ts:19-69 | the loop's figures are those of the per-contributor statistics function |
| LinguisticAnalyzer.AllLinguisticStatsKeys | lib/analyzer/linguistic-analyzer.ts:78-85 | the keys are the contributors' names, once each, in order of first appearance |
| LinguisticAnalyzer.AllLinguisticStatsValues | lib/analyzer/linguistic-analyzer.ts:80-83 | a name maps to the statistics of the last contributor of that name |
| LinguisticAnalyzer.CalculateAllLinguisticStats | lib/analyzer/linguistic-analyzer.ts:74-86 | the loop's map is the map of statistics per contributor |
| ReactionAnalyzer.ReactionStatsEntries | lib/analyzer/reaction-analyzer.ts:10-16 | one record per message with a reaction, carrying its count and its reactions, and no other records |
| ReactionAnalyzer.ReactionStatsOrdered | lib/analyzer/reaction-analyzer.ts:17 | records come in non-increasing order of reaction count |
| ReactionAnalyzer.ReactionStatsStable | lib/analyzer/reaction-analyzer.ts:17 | equally reacted messages keep their chronological order |
| ReactionAnalyzer.TopReactedShape | lib/analyzer/reaction-analyzer.ts:23-29 | the leaderboard is the first records that pass the filter, in order, as many as the limit allows |
| ReactionAnalyzer.FilterSorted | lib/analyzer/reaction-analyzer.ts:28 | filtering a ranking leaves it ranked |
| ReactionAnalyzer.TopReactedBest | lib/analyzer/reaction-analyzer.ts:23-29 | a leaderboard is in non-increasing order, and no record of the kind left out has more reactions than one kept |
| ReactionAnalyzer.TextIsNotMedia | lib/analyzer/reaction-analyzer.ts:63-83 | a text entry is never an image or a video; it is one with non-blank content and no media |
| ReactionAnalyzer.CaptionedPhotoIsImage | lib/analyzer/reaction-analyzer.ts:40 | a photo captioned "hi" is an image and not text; without the photo it is text |
| Analyzer.Pad2Value | lib/analyzer/index.ts:21 | the padded month is two digits that read back as the month |
| Analyzer.IntToDecimalInjective | lib/analyzer/index.ts:21 | the printed year determines the year |
| Analyzer.MonthKeyFormat | lib/analyzer/index.ts:21 | a key is the year, a hyphen and two digits reading as a month 1..12 |
| Analyzer.MonthKeyInjective | lib/analyzer/index.ts:21 | different months have different keys |
| Analyzer.GenerateChatHistory | lib/analyzer/index.ts:14-40 | the method computes the timeline function |
| Analyzer.GroupByMonth | lib/analyzer/index.ts:19-31 | the loop fills the month buckets the bucket function describes |
| Analyzer.BucketsArePerMonth | lib/analyzer/index.ts:17-31 | one bucket per month with messages, in order of first appearance, each with that month's count and sender set |
| Analyzer.BucketsTotal | lib/analyzer/index.ts:29 | the buckets' counts add up to the number of messages |
| Analyzer.ChatHistoryTotal | lib/analyzer/index.ts:33-39 | the timeline's counts add up to the number of messages |
| Analyzer.ChatHistoryPoints | lib/analyzer/index.ts:34-38 | each point is its month's message count and distinct-sender count, with 1 ≤ participants ≤ messages |
| Analyzer.ChatHistoryMonths | lib/analyzer/index.ts:33-39 | the dates are exactly the months with messages; no month is filled in |
| Analyzer.ChatHistoryAscending | lib/analyzer/index.ts:39 | the months come in strictly ascending order, each once |
| Analyzer.EarlierMonthIsPreorder | lib/analyzer/index.ts:39 | the date comparator is a consistent total preorder |
| Analyzer.AnalyzeChatData | lib/analyzer/index.ts:45-77 | the method builds the whole analysis from the component functions applied to the same messages |
| Analyzer.WrappedDataConsistent | lib/analyzer/index.ts:50-76 | contributors' and months' counts both add up to the total; every contributor has linguistic statistics; each leaderboard holds at most ten reacted messages of its kind |
| MessageUtils.SystemNameIsContainment | lib/utils/message-utils.ts:21-26 | a sender is a system sender exactly when its lower-cased name contains a lower-cased listed name; the equality test adds nothing |
| MessageUtils.ContainingYouIsSystem | lib/utils/message-utils.ts:21-26 | any sender whose lower-cased name contains "you" or "system" is a system sender |
| MessageUtils.YoussefIsSystem | lib/utils/message-utils.ts:8-26 | the participant "Youssef" is classified as a system sender |
| MessageUtils.ExtractEmojis | lib/utils/message-utils.ts:32-39 | every element is a single emoji code point, and there are no more elements than code points |
| MessageUtils.ExtractEmojisAppend | lib/utils/message-utils.ts:37-39 | extraction distributes over concatenation |
| MessageUtils.ExtractEmojisAreTheEmoji | lib/utils/message-utils.ts:37-39 | joined back, the extracted emoji are the text's emoji code points in order of appearance |
| MessageUtils.RemoveNothing | lib/utils/message-utils.ts:53-55 | a global replacement that matches nowhere leaves the text unchanged |
| MessageUtils.CleanMessageText | lib/utils/message-utils.ts:44-61 | the cleaned text is the replacement chain applied after the name removal; it holds no emoji, no two adjacent white-space characters and no leading or trailing white space |
| MessageUtils.ScrubbedHasNoEmoji | lib/utils/message-utils.ts:56-58 | normalising the white space of an emoji-free text adds no emoji |
| MessageUtils.CleanPlainTextNormalizesSpaces | lib/utils/message-utils.ts:44-60 | with no names, a text with no emoji, reaction phrase or unsent notice only has its white space collapsed and trimmed |
| FileUtils.MessagePathSplit | lib/utils/file-utils.ts:30 | a path passes exactly when, lower-cased, it is `…messages/inbox/<segment>/message_<digits>.json` |
| FileUtils.MessageFilesMembers | lib/utils/file-utils.ts:28-33 | a file is kept exactly when some entry with a passing path holds it |
| FileUtils.MessageFilesFromValues | lib/utils/file-utils.ts:28-33 | the kept files are a sub-multiset of the map's files |
| FileUtils.FileNumberOf | lib/utils/file-utils.ts:37-38 | a name ending in `message_<n>.json` gives back the number n |
| FileUtils.FindMessageFiles | lib/utils/file-utils.ts:25-44 | the loop keeps the passing files, which are then sorted by the page comparator |
| FileUtils.FindMessageFilesOrder | lib/utils/file-utils.ts:35-43 | the result is a permutation of the kept files; when every name is numbered it is in ascending numeric order |
| FileUtils.NumberBeatsText | lib/utils/file-utils.ts:37-42 | `message_2.json` goes before `message_10.json`, although it is the later of the two as text |
| FileUtils.TextAfterCommonPrefix | lib/utils/file-utils.ts:42 | a common prefix does not change the text order |
| FileUtils.InboxIndexFrom | lib/utils/file-utils.ts:53 | the leftmost `messages/inbox/` followed by a non-`/` at or after a position, or none |
| FileUtils.InboxSegmentShape | lib/utils/file-utils.ts:53 | a segment is captured exactly when some match exists, and then it is the leftmost match's run of non-`/` characters |
| FileUtils.UnderscoresToSpaces | lib/utils/file-utils.ts:55 | the replacement keeps the length, and changes nothing in a text without underscores |
| FileUtils.ChatNameIsPrefix | lib/utils/file-utils.ts:55 | the chat name is the segment's prefix before its first `_`, so it holds no underscore |
| FileUtils.ChatSet | lib/utils/file-utils.ts:50-58 | the chat set has no duplicates |
| FileUtils.GetAvailableChats | lib/utils/file-utils.ts:49-61 | the loop's names, sorted, are the sorted chat set |
| FileUtils.ChatSetMembers | lib/utils/file-utils.ts:52-58 | a name is in the set exactly when some path yields it |
| FileUtils.AvailableChatsSorted | lib/utils/file-utils.ts:49-61 | the names are strictly ascending, and exactly those some path yields |
| FileUtils.UnderscoredIsCollapsed | lib/utils/file-utils.ts:68 | replacing white-space runs with `_` is collapsing the runs, then turning the space into `_` |
| FileUtils.UnderscoredShape | lib/utils/file-utils.ts:68 | the normalised name has no white space, and a name without white space is unchanged |
| FileUtils.FilterChatFiles | lib/utils/file-utils.ts:66-77 | the loop keeps, in order, the entries whose path contains `inbox/` then the normalised or the raw name |
| FileUtils.ChatFilesSubMap | lib/utils/file-utils.ts:67-76 | an entry is kept exactly when it is in the input and its path passes; keys stay distinct; a kept key maps to the same file |
| FileUtils.GetOfFiltered | lib/utils/file-utils.ts:70-73 | looking a key up in the result gives the input's file when the path passes, nothing otherwise |
| LinguisticUtils.FirstWhere | lib/utils/linguistic-utils.ts:45 | the first index satisfying the test, or none when no element does |
| LinguisticUtils.LeadIsFirstMaximum | lib/utils/linguistic-utils.ts:25-39 | no leader exactly when no named entry scores above 0; otherwise the leader is named, scores the maximum over named entries and beats every earlier one |
| LinguisticUtils.FindLinguisticChampions | lib/utils/linguistic-utils.ts:15-81 | the method computes the champions function: the loop, then the fallbacks in order |
| LinguisticUtils.PickChampions | lib/utils/linguistic-utils.ts:25-41 | the loop's three champions are the first maxima of diversity, emoji count and average length |
| LinguisticUtils.NoChampionAfterLoop | lib/utils/linguistic-utils.ts:25-44 | all three names are empty after the loop exactly when no named entry has a positive score |
| LinguisticUtils.ChampionsFromLoop | lib/utils/linguistic-utils.ts:44-78 | when some named entry scores above 0, no fallback changes the loop's champions |
| LinguisticUtils.ChampionsFromFirstEntry | lib/utils/linguistic-utils.ts:44-56 | when no named entry scores above 0, all three take the first named entry's values |
| LinguisticUtils.ChampionsFromContributor | lib/utils/linguistic-utils.ts:59-67 | with no named entry, all three take the first named contributor, or else the first contributor, with zero values and no emoji |
| LinguisticUtils.LastFallbackInert | lib/utils/linguistic-utils.ts:70-78 | the last fallback never changes the result |
| LinguisticUtils.ChampionsShape | lib/utils/linguistic-utils.ts:28-34 | champion names are trimmed and at most five top emoji are kept |
| ChatDataContext.ReduceFields | context/ChatDataContext.tsx:26-48 | SET_LOADING sets loading and clears the error; SET_ERROR sets the error and stops loading; SET_DATA stores data and name, not loading and no error. SET_LOADING and SET_ERROR leave the data and name unchanged. RESET gives the initial state; any other action changes nothing |
| ChatDataContext.ReducePreservesConsistent | context/ChatDataContext.tsx:26-48 | every action keeps data and chat name present together and never loading with an error |
| ChatDataContext.ReachableFromInitial | context/ChatDataContext.tsx:19-24 | every state reachable from the initial state is consistent |
| ChatDataContext.ReachableConsistent | context/ChatDataContext.tsx:26-48 | any run of actions from a consistent state ends in a consistent state |
| ChatDataContext.ReduceIdempotent | context/ChatDataContext.tsx:26-48 | dispatching an action twice is the same as dispatching it once |
| ChatDataContext.ResetForgets | context/ChatDataContext.tsx:43-44 | whatever came before, a reset leaves the initial state |
| ChatDataContext.ReduceAllData | context/ChatDataContext.tsx:35-44 | the data shown is that of the latest SET_DATA unless a RESET came after it |
| Sorting.SortBySorted | lib/parser/messenger-parser.ts:43 | under a consistent comparator the sort gives a sorted permutation |
| Sorting.SortByStable | lib/parser/messenger-parser.ts:43 | elements that tie keep their relative order |
| Sorting.SortStringsStrict | lib/analyzer/stats-calculator.ts:45 | sorting distinct strings gives a strictly ascending list of the same strings |
| Assoc.GetPut | lib/analyzer/stats-calculator.ts:74 | after `set(k, v)` the key maps to v and every other key is unchanged |
| Assoc.PutEntries | lib/analyzer/stats-calculator.ts:74 | `set` replaces an existing key's entry where it stands and appends a new key at the end |
| Text.Trim | lib/parser/messenger-parser.ts:116 | the result is trimmed and empty exactly when the text is blank |
| Text.NormalizeSpacesShape | lib/utils/message-utils.ts:57-58 | after collapsing white space and trimming, no two white-space characters are adjacent and none leads or trails |

## Left out

- The DOM. `DOMParser`, `querySelector*`, `cloneNode`, `closest` and `remove` are not modelled. Each `<section>` is abstracted into `HtmlParser.Section`, holding the `<h2>` text, the footer text, the reaction span texts, the recovered content and the media elements. How the content is recovered from the content `<div>` (lib/parser/messenger-parser.ts:303-423) is left out. It has two cleaning chains:
  - the section fallback (lib/parser/messenger-parser.ts:405-418) is the chain `MessageUtils.CleanMessageText` models, removing reaction names as whole words;
  - the chain for a content `<div>` without structured text (lib/parser/messenger-parser.ts:355-372) removes reaction names with `new RegExp(name, 'g')`, with no `\b`, so it removes them anywhere, even inside a word. A reactor named "Ann" turns "Annabelle said hi" into "abelle said hi" there. This chain is not modelled.
- The embedded-JSON fallbacks of `parseHTMLFile` (lib/parser/messenger-parser.ts:141-186) are regular expressions over script text followed by `JSON.parse`. They are abstracted as `HtmlPage.embedded`.
- Async file I/O and JSON parsing are left out: `readFileAsText`, `parseJSONFile`, `extractZipFile` and `readDirectory`.
- `try`/`catch`:
  - the per-section `catch` of `parseHTMLFile` is not modelled, as no modelled rule throws;
  - the final throw is the `Err` result of `HtmlParser.ParseHtmlFile`.
- Date handling, time zones, the current time and NaN time stamps. They are parameters (`monthOf`, `HtmlTimestamp.Clock`). The model reads one current time, `clock.now`, for the whole page. The source calls `Date.now()` again for every section (lib/parser/messenger-parser.ts:228), so sections without a usable footer get non-decreasing times in the source but equal times in the model.
- HtmlTimestamp.FooterTimestamp: `parseInt` of an over-long digit run is not rounded to a double.
- HtmlParser.ParseHtmlFile uses the corrected admission rule `HtmlParser.Read`, not the rule as written (see Findings). With no declared participants, the source keeps only the messages of the first ordinary sender (`HtmlParser.AsWrittenKeepsOneSender`). With declared participants the two agree (`HtmlParser.AsWrittenAgreesWhenDeclared`).
- HtmlParser.ReadSections reads the sections by the corrected rule `HtmlParser.Read`, for the same reason and with the same difference from the source.
- HtmlParser.HtmlConversation is stated with the corrected rule too, so the same difference applies.
- `Math.sqrt` and floating point:
  - LinguisticAnalyzer.Diversity: the square root is a parameter. Only the zero case and the bound are stated.
  - Division is on reals.
- MessageUtils.CleanMessageText:
  - reaction names are inserted into the regular expression unescaped, and the model treats them as plain names. A name holding a metacharacter behaves differently in the source.
  - `\b` and `\w` are ASCII.
- `toLowerCase` is modelled on ASCII letters only. Unicode case mapping is not modelled.
- `localeCompare` and `sort()` on strings are modelled as code-point order, so locale collation is not modelled. The default `sort()` compares UTF-16 code units, not code points, so the two orders differ for characters beyond U+FFFF: "😀" (U+1F600, stored as the surrogates D83D DE00) sorts before "＿" (U+FF3F) in the source but after it in the model.
- FileUtils.FindMessageFiles: when numbered and unnumbered names are mixed, the comparator is not a consistent order, and the engine's result is then implementation-defined. The model sorts by stable insertion, and numeric order is stated only when every kept name is numbered. `parseInt` is exact here, while the source loses precision above 2^53.
- FileUtils.FilterChatFiles requires distinct keys. This holds for every JavaScript `Map`, because a `Map` never holds a key twice.
- LinguisticUtils.FindLinguisticChampions:
  - contributors are given by their names alone;
  - the `|| 0` guards are modelled as the identity, so NaN scores are not modelled.
- ChatDataContext.Reduce: an action object of an unknown type is modelled by the `Unknown` case.
- Where the source mutates a record held inside a `Map` in place (the contributor records and the month buckets), the model replaces it with `Put`. Aliasing is not modelled.
- The HTML reader uses its own five-name system list (lib/parser/messenger-parser.ts:196-202), not the seven-name `SYSTEM_MESSAGE_NAMES`. The model keeps the two lists apart, as the code does.
- A content is dropped as a system notice when it holds one of three phrases, or when it holds "reacted" anywhere but right after the leading non-word characters. The model follows the code, including this fourth case.
- Not modelled, because they are rendering or mock data: `lib/utils/image-capture.ts`, `lib/utils/date-utils.ts`, `lib/utils/mock-data.ts`, the React components and pages, and the configuration files.

## Findings

| source | as written | input that shows it | evidently intended | confidence | as-written member | corrected member |
|---|---|---|---|---|---|---|
| lib/parser/messenger-parser.ts:212-221 | the first kept sender is added to the same set that the admission test reads (lines 503-505), so the test then reads a set that was never declared | a page with no "Participants:" line and two sections, from "Ann" and from "Bob", each with the content "hi": only Ann's message is kept | when no participants are declared, keep every sender who is not a system sender | not executed | HtmlParser.AsWrittenDropsSecondSender | HtmlParser.ReadMembers |

The row's two members:

- `HtmlParser.ReadAsWritten` models the reader as written. `HtmlParser.AsWrittenKeepsOneSender` proves that, as written and with no declared participants, all kept messages are from one sender.
- `HtmlParser.Read` is the corrected rule. It admits against the declared participants only. `HtmlParser.ParseHtmlFile` uses it. `HtmlParser.ReadMembers` proves that it keeps exactly the messages that admitted sections offer. `HtmlParser.ReadKeepsAdmitted` then gives the intended property: with no declared participants, every message of a sender who is not a system sender is kept.
- `HtmlParser.AsWrittenAgreesWhenDeclared` proves that the two readings agree whenever participants are declared.
