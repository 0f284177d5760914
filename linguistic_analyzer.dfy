/** Per-contributor vocabulary diversity, average message length and emoji usage
    (lib/analyzer/linguistic-analyzer.ts). The emoji pattern is the one of
    lib/utils/message-utils.ts, so `MessageUtils.ExtractEmojis` serves both files. */
module LinguisticAnalyzer {
  import opened Wrappers
  import opened Seqs
  import opened Sorting
  import opened Assoc
  import opened Types
  import opened MessageUtils
  import opened StatsCalculator

  /** The emoji of the messages, message by message; a message without text adds none. */
  function EmojisOf(msgs: seq<ParsedMessage>): seq<string>
  {
    if msgs == [] then []
    else EmojisOf(msgs[..|msgs| - 1]) + MessageEmojis(msgs[|msgs| - 1])
  }

  function MessageEmojis(m: ParsedMessage): seq<string>
  {
    if HasText(m.content) then ExtractEmojis(m.content.value) else []
  }

  lemma EmojisOfSnoc(msgs: seq<ParsedMessage>, i: nat)
    requires i < |msgs|
    ensures EmojisOf(msgs[..i + 1]) == EmojisOf(msgs[..i]) + MessageEmojis(msgs[i])
  {
    assert msgs[..i + 1][..i] == msgs[..i];
  }

  /** One step of the frequency map: the emoji's count goes up by one, a new emoji
      starting from zero. */
  function CountEmoji(m: seq<(string, nat)>, e: string): seq<(string, nat)>
  {
    Put<string, nat>(m, e, Get(m, e).GetOr(0) + 1)
  }

  /** The frequency map after the emoji `es`, keys in order of first appearance. */
  function EmojiMap(es: seq<string>): seq<(string, nat)>
  {
    if es == [] then [] else CountEmoji(EmojiMap(es[..|es| - 1]), es[|es| - 1])
  }

  lemma EmojiMapSnoc(a: seq<string>, b: seq<string>, j: nat)
    requires j < |b|
    ensures EmojiMap(a + b[..j + 1]) == CountEmoji(EmojiMap(a + b[..j]), b[j])
  {
    var s := a + b[..j + 1];
    assert s[..|s| - 1] == a + b[..j];
  }

  lemma EmojiMapStart(a: seq<string>, b: seq<string>)
    ensures EmojiMap(a + b[..0]) == EmojiMap(a)
  {
    assert a + b[..0] == a;
  }

  /** The map has one key per distinct emoji, in order of first appearance, and each
      key's value is how often that emoji occurs. */
  predicate CountsMatch(m: seq<(string, nat)>, es: seq<string>)
  {
    Keys(m) == Distinct(es) &&
    forall i :: 0 <= i < |m| ==> m[i].1 == multiset(es)[m[i].0]
  }

  lemma {:induction false} EmojiMapCounts(es: seq<string>)
    ensures CountsMatch(EmojiMap(es), es)
  {
    if es != [] {
      var init := es[..|es| - 1];
      EmojiMapCounts(init);
      CountsAfterCount(EmojiMap(init), init, es[|es| - 1]);
      SplitLast(es);
    }
  }

  lemma CountsAfterCount(m: seq<(string, nat)>, es: seq<string>, e: string)
    requires CountsMatch(m, es)
    ensures CountsMatch(CountEmoji(m, e), es + [e])
  {
    var r := CountEmoji(m, e);
    PutEntries(m, e, Get(m, e).GetOr(0) + 1);
    DistinctSnoc(es, e);
    forall i | 0 <= i < |r| ensures r[i].1 == multiset(es + [e])[r[i].0] {
      CountEntryAfterCount(m, es, e, i);
    }
  }

  lemma CountEntryAfterCount(m: seq<(string, nat)>, es: seq<string>, e: string, i: nat)
    requires CountsMatch(m, es)
    requires i < |CountEmoji(m, e)|
    ensures CountEmoji(m, e)[i].1 == multiset(es + [e])[CountEmoji(m, e)[i].0]
  {
    var v := Get(m, e).GetOr(0) + 1;
    var r := CountEmoji(m, e);
    PutEntries(m, e, v);
    assert multiset(es + [e]) == multiset(es) + multiset{e};
    if i < |m| && m[i].0 == e {
      GetAt(m, i);
      assert r[i] == (e, v);
    } else if i < |m| {
      assert r[i] == m[i];
    } else {
      assert r[i] == (e, v);
      assert e !in Keys(m);
      assert e !in es;
    }
  }

  function Count(n: nat): nat { n }

  /** The values of the frequency map add up to the number of emoji. */
  lemma {:induction false} EmojiMapTotal(es: seq<string>)
    ensures SumOf(Values(EmojiMap(es)), Count) == |es|
  {
    if es != [] {
      var init := es[..|es| - 1];
      EmojiMapTotal(init);
      EmojiMapKeysDistinct(init);
      SumAfterCount(EmojiMap(init), es[|es| - 1]);
    }
  }

  lemma EmojiMapKeysDistinct(es: seq<string>)
    ensures NoDuplicates(Keys(EmojiMap(es)))
  {
    EmojiMapCounts(es);
  }

  /** Counting one more emoji adds one to the sum of the counts. */
  lemma SumAfterCount(m: seq<(string, nat)>, e: string)
    requires NoDuplicates(Keys(m))
    ensures SumOf(Values(CountEmoji(m, e)), Count) == SumOf(Values(m), Count) + 1
  {
    SumOfPut<string, nat>(m, e, Get(m, e).GetOr(0) + 1, Count);
    if e in Keys(m) {
      assert Get(m, e).GetOr(0) == Get(m, e).value;
    } else {
      assert Get(m, e).GetOr(0) == 0;
    }
  }

  /** `(a, b) => b.count - a.count`, read as "may stay before". */
  predicate MoreUses(a: EmojiCount, b: EmojiCount)
  {
    b.count - a.count <= 0
  }

  function AsEmojiCount(entry: (string, nat)): EmojiCount
  {
    EmojiCount(entry.0, entry.1)
  }

  /** The map's entries as records, sorted by count, most used first. */
  function EmojiRanking(m: seq<(string, nat)>): seq<EmojiCount>
  {
    SortBy(Map(m, AsEmojiCount), MoreUses)
  }

  /** `.slice(0, 10)` of the ranking. */
  function TopEmojis(m: seq<(string, nat)>): seq<EmojiCount>
  {
    SliceTo(EmojiRanking(m), 10)
  }

  /** The ranking holds exactly the map's entries, one record per distinct emoji. */
  lemma RankingEntries(es: seq<string>)
    ensures var m := EmojiMap(es);
      |EmojiRanking(m)| == |Distinct(es)| &&
      forall x :: x in EmojiRanking(m) <==> x in Map(m, AsEmojiCount)
  {
    var m := EmojiMap(es);
    var entries := Map(m, AsEmojiCount);
    var ranking := EmojiRanking(m);
    EmojiMapCounts(es);
    assert |Keys(m)| == |m|;
    forall x ensures x in ranking <==> x in entries {
      assert x in ranking <==> x in multiset(ranking);
      assert x in entries <==> x in multiset(entries);
    }
  }

  /** Every ranked record carries an emoji of the text and its true count. */
  lemma RankingCounts(es: seq<string>)
    ensures forall t :: t in EmojiRanking(EmojiMap(es)) ==> t.emoji in es && t.count == multiset(es)[t.emoji]
  {
    var m := EmojiMap(es);
    var entries := Map(m, AsEmojiCount);
    RankingEntries(es);
    EmojiMapCounts(es);
    forall t | t in EmojiRanking(m) ensures t.emoji in es && t.count == multiset(es)[t.emoji] {
      var i :| 0 <= i < |entries| && entries[i] == t;
      assert Keys(m)[i] == m[i].0;
    }
  }

  /** Every emoji of the text has a ranked record. */
  lemma RankingComplete(es: seq<string>, e: string)
    requires e in es
    ensures exists j :: 0 <= j < |EmojiRanking(EmojiMap(es))| && EmojiRanking(EmojiMap(es))[j].emoji == e
  {
    var m := EmojiMap(es);
    var entries := Map(m, AsEmojiCount);
    var ranking := EmojiRanking(m);
    RankingEntries(es);
    EmojiMapCounts(es);
    assert e in Keys(m);
    var k :| 0 <= k < |m| && Keys(m)[k] == e;
    assert entries[k] in ranking;
    var j :| 0 <= j < |ranking| && ranking[j] == entries[k];
    assert ranking[j].emoji == e;
  }

  /** At most ten records: ten, or one per distinct emoji when there are fewer. */
  lemma TopEmojisSize(es: seq<string>)
    ensures |TopEmojis(EmojiMap(es))| == if |Distinct(es)| < 10 then |Distinct(es)| else 10
  {
    RankingEntries(es);
  }

  /** Most used first. */
  lemma TopEmojisOrdered(es: seq<string>)
    ensures var top := TopEmojis(EmojiMap(es));
      forall i, j :: 0 <= i < j < |top| ==> top[i].count >= top[j].count
  {
    var m := EmojiMap(es);
    assert TotalPreorder(MoreUses);
    SortBySorted(Map(m, AsEmojiCount), MoreUses);
  }

  /** Each record is an emoji of the texts with its true count. */
  lemma TopEmojisCounts(es: seq<string>)
    ensures forall t :: t in TopEmojis(EmojiMap(es)) ==> t.emoji in es && t.count == multiset(es)[t.emoji]
  {
    RankingCounts(es);
  }

  /** No emoji left out is used more often than one that is in. */
  lemma TopEmojisBest(es: seq<string>, t: EmojiCount, e: string)
    requires t in TopEmojis(EmojiMap(es)) && e in es
    requires forall u :: u in TopEmojis(EmojiMap(es)) ==> u.emoji != e
    ensures multiset(es)[e] <= t.count
  {
    var m := EmojiMap(es);
    var ranking := EmojiRanking(m);
    RankingCounts(es);
    assert TotalPreorder(MoreUses);
    SortBySorted(Map(m, AsEmojiCount), MoreUses);
    RankingComplete(es, e);
    var j :| 0 <= j < |ranking| && ranking[j].emoji == e;
    assert ranking[j] in ranking;
    PrefixDominates(ranking, TopEmojis(m), t, j);
  }

  /** In a ranking sorted most used first, a record of the first part has at least
      the count of any record after it that the first part does not repeat. */
  lemma PrefixDominates(ranking: seq<EmojiCount>, top: seq<EmojiCount>, t: EmojiCount, j: nat)
    requires SortedBy(ranking, MoreUses) && |top| <= |ranking| && top == ranking[..|top|]
    requires t in top && j < |ranking|
    requires forall u :: u in top ==> u.emoji != ranking[j].emoji
    ensures ranking[j].count <= t.count
  {
    var i :| 0 <= i < |top| && top[i] == t;
    assert ranking[i] == t;
    assert MoreUses(ranking[i], ranking[j]);
  }

  /** Emoji used equally often keep their order of first appearance. */
  lemma TopEmojisStable(es: seq<string>, z: EmojiCount)
    ensures TiesWith(EmojiRanking(EmojiMap(es)), MoreUses, z) == TiesWith(Map(EmojiMap(es), AsEmojiCount), MoreUses, z)
    ensures Keys(EmojiMap(es)) == Distinct(es)
  {
    EmojiMapCounts(es);
    assert TotalPreorder(MoreUses);
    SortByStable(Map(EmojiMap(es), AsEmojiCount), MoreUses, z);
  }

  /** `totalWords / Math.max(1, Math.sqrt(totalCharacters / 10))`, or 0 without text; the
      square root is a parameter. */
  function Diversity(c: ContributorStats, sqrt: real -> real): (d: real)
    ensures c.totalCharacters == 0 ==> d == 0.0
    ensures 0.0 <= d <= |c.uniqueWords| as real
  {
    if c.totalCharacters > 0 then
      var root := sqrt(c.totalCharacters as real / 10.0);
      var divisor := if root > 1.0 then root else 1.0;
      var d := |c.uniqueWords| as real / divisor;
      assert d * divisor == |c.uniqueWords| as real;
      d
    else 0.0
  }

  /** Characters per message, or 0 for a contributor without messages. */
  function AverageLength(c: ContributorStats): (a: real)
    ensures c.messageCount == 0 ==> a == 0.0
    ensures c.messageCount > 0 ==> a * c.messageCount as real == c.totalCharacters as real
  {
    if c.messageCount > 0 then c.totalCharacters as real / c.messageCount as real else 0.0
  }

  /** The statistics of one contributor, computed from that contributor's messages. */
  function LinguisticStatsOf(c: ContributorStats, msgs: seq<ParsedMessage>, sqrt: real -> real): LinguisticStats
  {
    var es := EmojisOf(Own(c.name, msgs));
    var m := EmojiMap(es);
    LinguisticStats(Diversity(c, sqrt), AverageLength(c), EmojiUsage(|es|, |m|, TopEmojis(m)))
  }

  /** The emoji figures of a contributor: the count is the number of emoji in that
      contributor's texts, the frequencies add up to it, and the number of distinct emoji
      is the number of distinct emoji in those texts. */
  lemma EmojiUsageFacts(c: ContributorStats, msgs: seq<ParsedMessage>, sqrt: real -> real)
    ensures var es := EmojisOf(Own(c.name, msgs));
      var u := LinguisticStatsOf(c, msgs, sqrt).emojiUsage;
      u.count == |es| &&
      u.count == SumOf(Values(EmojiMap(es)), Count) &&
      u.uniqueEmojis == |Distinct(es)| &&
      |u.topEmojis| <= 10
  {
    var es := EmojisOf(Own(c.name, msgs));
    EmojiMapTotal(es);
    EmojiMapCounts(es);
    TopEmojisSize(es);
  }

  /** The inner loop of `calculateLinguisticStats`: every emoji of one text bumps its
      count in the map. */
  method CountAll(emojiMap: seq<(string, nat)>, emojis: seq<string>, ghost before: seq<string>)
    returns (counted: seq<(string, nat)>)
    requires emojiMap == EmojiMap(before)
    ensures counted == EmojiMap(before + emojis)
  {
    counted := emojiMap;
    EmojiMapStart(before, emojis);
    for j := 0 to |emojis|
      invariant counted == EmojiMap(before + emojis[..j])
    {
      var emoji := emojis[j];
      ghost var prior := counted;
      counted := Put<string, nat>(counted, emoji, Get(counted, emoji).GetOr(0) + 1);
      assert counted == CountEmoji(prior, emoji);
      EmojiMapSnoc(before, emojis, j);
    }
    assert emojis[..|emojis|] == emojis;
  }

  /** `calculateLinguisticStats`: the diversity and average from the record, then a pass
      over the contributor's messages counting every emoji of every text. */
  method CalculateLinguisticStats(contributor: ContributorStats, allMessages: seq<ParsedMessage>, sqrt: real -> real)
    returns (stats: LinguisticStats)
    ensures stats == LinguisticStatsOf(contributor, allMessages, sqrt)
  {
    var contributorMessages := Own(contributor.name, allMessages);
    var vocabularyDiversity := Diversity(contributor, sqrt);
    var averageMessageLength := AverageLength(contributor);
    var emojiMap: seq<(string, nat)> := [];
    var totalEmojiCount := 0;
    for i := 0 to |contributorMessages|
      invariant emojiMap == EmojiMap(EmojisOf(contributorMessages[..i]))
      invariant totalEmojiCount == |EmojisOf(contributorMessages[..i])|
    {
      var msg := contributorMessages[i];
      ghost var before := EmojisOf(contributorMessages[..i]);
      if HasText(msg.content) {
        var emojis := ExtractEmojis(msg.content.value);
        totalEmojiCount := totalEmojiCount + |emojis|;
        emojiMap := CountAll(emojiMap, emojis, before);
      } else {
        assert before + [] == before;
      }
      EmojisOfSnoc(contributorMessages, i);
    }
    assert contributorMessages[..|contributorMessages|] == contributorMessages;
    var topEmojis := SliceTo(SortBy(Map(emojiMap, AsEmojiCount), MoreUses), 10);
    stats := LinguisticStats(vocabularyDiversity, averageMessageLength,
                             EmojiUsage(totalEmojiCount, |emojiMap|, topEmojis));
  }

  function ContributorName(c: ContributorStats): string { c.name }

  /** The map filled by `calculateAllLinguisticStats`: one `set` per contributor, in order. */
  function AllLinguisticStats(cs: seq<ContributorStats>, msgs: seq<ParsedMessage>, sqrt: real -> real)
    : seq<(string, LinguisticStats)>
  {
    if cs == [] then []
    else
      var c := cs[|cs| - 1];
      Put(AllLinguisticStats(cs[..|cs| - 1], msgs, sqrt), c.name, LinguisticStatsOf(c, msgs, sqrt))
  }

  lemma AllLinguisticStatsLast(cs: seq<ContributorStats>, msgs: seq<ParsedMessage>, sqrt: real -> real)
    requires cs != []
    ensures AllLinguisticStats(cs, msgs, sqrt) ==
      Put(AllLinguisticStats(cs[..|cs| - 1], msgs, sqrt), cs[|cs| - 1].name, LinguisticStatsOf(cs[|cs| - 1], msgs, sqrt))
  {
  }

  lemma AllLinguisticStatsSnoc(cs: seq<ContributorStats>, msgs: seq<ParsedMessage>, sqrt: real -> real, i: nat)
    requires i < |cs|
    ensures AllLinguisticStats(cs[..i + 1], msgs, sqrt) ==
      Put(AllLinguisticStats(cs[..i], msgs, sqrt), cs[i].name, LinguisticStatsOf(cs[i], msgs, sqrt))
  {
    assert cs[..i + 1][..i] == cs[..i];
  }

  /** The keys are the contributors' names, once each, in order of first appearance. */
  lemma {:induction false} AllLinguisticStatsKeys(cs: seq<ContributorStats>, msgs: seq<ParsedMessage>, sqrt: real -> real)
    ensures Keys(AllLinguisticStats(cs, msgs, sqrt)) == Distinct(Map(cs, ContributorName))
  {
    if cs != [] {
      var init := cs[..|cs| - 1];
      AllLinguisticStatsKeys(init, msgs, sqrt);
      AllLinguisticStatsLast(cs, msgs, sqrt);
      MapSnoc(cs, ContributorName, |cs| - 1);
      assert cs[..|cs|] == cs;
      DistinctSnoc(Map(init, ContributorName), cs[|cs| - 1].name);
    }
  }

  /** A name maps to the statistics of the last contributor carrying it. */
  lemma {:induction false} AllLinguisticStatsValues(cs: seq<ContributorStats>, msgs: seq<ParsedMessage>, sqrt: real -> real, i: nat)
    requires i < |cs|
    requires forall j :: i < j < |cs| ==> cs[j].name != cs[i].name
    ensures Get(AllLinguisticStats(cs, msgs, sqrt), cs[i].name) == Some(LinguisticStatsOf(cs[i], msgs, sqrt))
  {
    var init := cs[..|cs| - 1];
    var c := cs[|cs| - 1];
    AllLinguisticStatsLast(cs, msgs, sqrt);
    GetPut(AllLinguisticStats(init, msgs, sqrt), c.name, LinguisticStatsOf(c, msgs, sqrt), cs[i].name);
    if i < |cs| - 1 {
      assert cs[i] == init[i];
      AllLinguisticStatsValues(init, msgs, sqrt, i);
    }
  }

  /** `calculateAllLinguisticStats`: one entry per contributor, keyed by name. */
  method CalculateAllLinguisticStats(contributors: seq<ContributorStats>, allMessages: seq<ParsedMessage>, sqrt: real -> real)
    returns (statsMap: seq<(string, LinguisticStats)>)
    ensures statsMap == AllLinguisticStats(contributors, allMessages, sqrt)
  {
    statsMap := [];
    for i := 0 to |contributors|
      invariant statsMap == AllLinguisticStats(contributors[..i], allMessages, sqrt)
    {
      var contributor := contributors[i];
      var stats := CalculateLinguisticStats(contributor, allMessages, sqrt);
      statsMap := Put(statsMap, contributor.name, stats);
      AllLinguisticStatsSnoc(contributors, allMessages, sqrt, i);
    }
    assert contributors[..|contributors|] == contributors;
  }
}
