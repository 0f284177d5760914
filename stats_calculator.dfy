/** Chat totals, the date range and the per-sender rollups (lib/analyzer/stats-calculator.ts). */
module StatsCalculator {
  import opened Wrappers
  import opened Seqs
  import opened Text
  import opened Sorting
  import opened Assoc
  import opened Types

  function PhotoCount(m: ParsedMessage): nat { |m.photos| }

  function VideoCount(m: ParsedMessage): nat { |m.videos| }

  /** One audio file is counted as one minute. */
  function AudioCount(m: ParsedMessage): nat { |m.audioFiles| }

  function SenderName(m: ParsedMessage): string { m.senderName }

  /** The sender of every message, in message order. */
  function Senders(msgs: seq<ParsedMessage>): seq<string>
  {
    Map(msgs, SenderName)
  }

  /** The earliest timestamp. */
  function MinTimestamp(msgs: seq<ParsedMessage>): (t: int)
    requires msgs != []
    ensures forall i :: 0 <= i < |msgs| ==> t <= msgs[i].timestamp
    ensures exists i :: 0 <= i < |msgs| && t == msgs[i].timestamp
  {
    var init := msgs[..|msgs| - 1];
    var last := msgs[|msgs| - 1].timestamp;
    if init == [] then last
    else
      var t := MinTimestamp(init);
      assert forall i :: 0 <= i < |init| ==> init[i] == msgs[i];
      if last < t then last else t
  }

  /** The latest timestamp. */
  function MaxTimestamp(msgs: seq<ParsedMessage>): (t: int)
    requires msgs != []
    ensures forall i :: 0 <= i < |msgs| ==> msgs[i].timestamp <= t
    ensures exists i :: 0 <= i < |msgs| && t == msgs[i].timestamp
  {
    var init := msgs[..|msgs| - 1];
    var last := msgs[|msgs| - 1].timestamp;
    if init == [] then last
    else
      var t := MaxTimestamp(init);
      assert forall i :: 0 <= i < |init| ==> init[i] == msgs[i];
      if last > t then last else t
  }

  /** `calculateChatStats` as a value. */
  function ChatStatsOf(msgs: seq<ParsedMessage>): ChatStats
  {
    if msgs == [] then ChatStats(0, 0, 0, 0, [], DateRange(0, 0))
    else
      ChatStats(|msgs|, SumOf(msgs, PhotoCount), SumOf(msgs, VideoCount), SumOf(msgs, AudioCount),
                SortStrings(Distinct(Senders(msgs))), DateRange(MinTimestamp(msgs), MaxTimestamp(msgs)))
  }

  /** `calculateChatStats`: one pass that fills the participant set, the running totals
      and the running minimum and maximum timestamp. */
  method CalculateChatStats(messages: seq<ParsedMessage>) returns (stats: ChatStats)
    ensures stats == ChatStatsOf(messages)
  {
    if |messages| == 0 {
      return ChatStats(0, 0, 0, 0, [], DateRange(0, 0));
    }
    var participants: seq<string> := [];
    var totalPhotos, totalVideos, totalAudioMinutes := 0, 0, 0;
    // None stands for the initial Infinity and -Infinity.
    var minTimestamp: Option<int> := None;
    var maxTimestamp: Option<int> := None;
    for i := 0 to |messages|
      invariant participants == Distinct(Senders(messages[..i]))
      invariant totalPhotos == SumOf(messages[..i], PhotoCount)
      invariant totalVideos == SumOf(messages[..i], VideoCount)
      invariant totalAudioMinutes == SumOf(messages[..i], AudioCount)
      invariant i == 0 ==> minTimestamp.None? && maxTimestamp.None?
      invariant i > 0 ==> minTimestamp == Some(MinTimestamp(messages[..i]))
      invariant i > 0 ==> maxTimestamp == Some(MaxTimestamp(messages[..i]))
    {
      var msg := messages[i];
      participants := AddUnique(participants, msg.senderName);
      totalPhotos := totalPhotos + |msg.photos|;
      totalVideos := totalVideos + |msg.videos|;
      totalAudioMinutes := totalAudioMinutes + |msg.audioFiles|;
      if minTimestamp.None? || msg.timestamp < minTimestamp.value {
        minTimestamp := Some(msg.timestamp);
      }
      if maxTimestamp.None? || msg.timestamp > maxTimestamp.value {
        maxTimestamp := Some(msg.timestamp);
      }
      assert messages[..i + 1][..i] == messages[..i];
      MapSnoc(messages, SenderName, i);
    }
    assert messages[..|messages|] == messages;
    stats := ChatStats(|messages|, totalPhotos, totalVideos, totalAudioMinutes,
                       SortStrings(participants), DateRange(minTimestamp.value, maxTimestamp.value));
  }

  /** The participant list is the strictly ascending list of the distinct senders. */
  lemma ChatStatsParticipants(msgs: seq<ParsedMessage>)
    ensures var ps := ChatStatsOf(msgs).participants;
      (forall n :: n in ps <==> exists i :: 0 <= i < |msgs| && msgs[i].senderName == n) &&
      NoDuplicates(ps) &&
      forall i, j :: 0 <= i < j < |ps| ==> StringLe(ps[i], ps[j]) && ps[i] != ps[j]
  {
    if msgs != [] {
      var ss := Senders(msgs);
      SortStringsStrict(Distinct(ss));
      forall n ensures n in ss <==> exists i :: 0 <= i < |msgs| && msgs[i].senderName == n {
        if n in ss {
          var i :| 0 <= i < |ss| && ss[i] == n;
          assert msgs[i].senderName == n;
        }
        if exists i :: 0 <= i < |msgs| && msgs[i].senderName == n {
          var i :| 0 <= i < |msgs| && msgs[i].senderName == n;
          assert ss[i] == n;
        }
      }
    }
  }

  /** An empty chat has every total 0 and the range {0, 0}; otherwise every timestamp
      lies within the date range and both ends are attained. */
  lemma ChatStatsDateRange(msgs: seq<ParsedMessage>)
    ensures msgs == [] ==> ChatStatsOf(msgs) == ChatStats(0, 0, 0, 0, [], DateRange(0, 0))
    ensures forall i :: 0 <= i < |msgs| ==>
              ChatStatsOf(msgs).dateRange.start <= msgs[i].timestamp <= ChatStatsOf(msgs).dateRange.end
    ensures msgs != [] ==>
              (exists i :: 0 <= i < |msgs| && msgs[i].timestamp == ChatStatsOf(msgs).dateRange.start) &&
              (exists j :: 0 <= j < |msgs| && msgs[j].timestamp == ChatStatsOf(msgs).dateRange.end)
  {
    if msgs != [] {
      assert ChatStatsOf(msgs).dateRange == DateRange(MinTimestamp(msgs), MaxTimestamp(msgs));
    }
  }

  // ---- Per-sender rollups ----

  /** JavaScript truthiness of an optional string. */
  predicate HasText(content: Option<string>)
  {
    content.Some? && content.value != []
  }

  /** Lower-case, turn every character that is neither `\w` nor `\s` into a space. */
  function ScrubChar(c: char): (r: char)
    ensures IsWordChar(r) || IsJsSpace(r)
    ensures !('A' <= r <= 'Z')
  {
    var l := LowerChar(c);
    if IsWordChar(l) || IsJsSpace(l) then l else ' '
  }

  /** The words of `s`: the maximal runs of characters that are not white space once
      scrubbed, in order. `split(/\s+/)` followed by dropping empty strings yields
      exactly these runs. */
  function Words(s: string): (r: seq<string>)
    ensures s != [] && !IsJsSpace(ScrubChar(s[|s| - 1])) ==> r != []
  {
    if s == [] then []
    else
      var init := s[..|s| - 1];
      var ws := Words(init);
      var c := ScrubChar(s[|s| - 1]);
      if IsJsSpace(c) then ws
      else if init == [] || IsJsSpace(ScrubChar(init[|init| - 1])) then ws + [[c]]
      else ws[..|ws| - 1] + [ws[|ws| - 1] + [c]]
  }

  /** The words a message's text adds to its sender's word set. */
  function WordSet(content: string): set<string>
  {
    SetOf(Words(content))
  }

  /** Every word is non-empty and made of `[a-z0-9_]` only. */
  lemma {:induction false} WordsAreWords(s: string)
    ensures forall i :: 0 <= i < |Words(s)| ==>
              (Words(s)[i] != [] &&
               forall j :: 0 <= j < |Words(s)[i]| ==> IsWordChar(Words(s)[i][j]) && !('A' <= Words(s)[i][j] <= 'Z'))
  {
    if s != [] {
      WordsAreWords(s[..|s| - 1]);
    }
  }

  lemma WordSetIsWords(content: string, w: string)
    requires w in WordSet(content)
    ensures w != [] && forall j :: 0 <= j < |w| ==> IsWordChar(w[j]) && !('A' <= w[j] <= 'Z')
  {
    SetOfMembers(Words(content));
    WordsAreWords(content);
  }

  /** What one message adds to the characters count. */
  function TextLength(m: ParsedMessage): nat
  {
    if HasText(m.content) then Utf16Length(m.content.value) else 0
  }

  function NewContributor(name: string): ContributorStats
  {
    ContributorStats(name, 0, 0, 0, 0, 0, {}, 0, [])
  }

  /** The counts every message adds to its sender's record. */
  function CountMedia(c: ContributorStats, m: ParsedMessage): ContributorStats
  {
    c.(messageCount := c.messageCount + 1,
       photoCount := c.photoCount + |m.photos|,
       videoCount := c.videoCount + |m.videos|,
       audioMinutes := c.audioMinutes + |m.audioFiles|)
  }

  /** What a message with text adds: its length and its words. */
  function AddText(c: ContributorStats, content: string): ContributorStats
  {
    c.(totalCharacters := c.totalCharacters + Utf16Length(content),
       uniqueWords := c.uniqueWords + WordSet(content))
  }

  /** The updates one message makes to its sender's record. */
  function Tally(c: ContributorStats, m: ParsedMessage): ContributorStats
  {
    var c := CountMedia(c, m);
    if HasText(m.content) then AddText(c, m.content.value) else c
  }

  /** The record a sender's next message is added to: the one already in the map, or a fresh one. */
  function Prior(m: seq<(string, ContributorStats)>, name: string): ContributorStats
  {
    Get(m, name).GetOr(NewContributor(name))
  }

  /** One turn of the contributor loop: look the sender up, tally the message, store the record. */
  function AddMessage(m: seq<(string, ContributorStats)>, msg: ParsedMessage): seq<(string, ContributorStats)>
  {
    Put(m, msg.senderName, Tally(Prior(m, msg.senderName), msg))
  }

  /** The contributor map after the messages, in order of first appearance. */
  function Rollup(msgs: seq<ParsedMessage>): seq<(string, ContributorStats)>
  {
    if msgs == [] then [] else AddMessage(Rollup(msgs[..|msgs| - 1]), msgs[|msgs| - 1])
  }

  /** The comparator `(a, b) => b.messageCount - a.messageCount`, read as "may stay before". */
  predicate MoreMessages(a: ContributorStats, b: ContributorStats)
  {
    b.messageCount - a.messageCount <= 0
  }

  function ContributorStatsOf(msgs: seq<ParsedMessage>): seq<ContributorStats>
  {
    SortBy(Values(Rollup(msgs)), MoreMessages)
  }

  /** `calculateContributorStats`: one pass that creates a sender's record on first sight
      and updates it in place, then sorts the records by message count. */
  method CalculateContributorStats(messages: seq<ParsedMessage>) returns (contributors: seq<ContributorStats>)
    ensures contributors == ContributorStatsOf(messages)
  {
    var contributorMap: seq<(string, ContributorStats)> := [];
    for i := 0 to |messages|
      invariant contributorMap == Rollup(messages[..i])
    {
      var msg := messages[i];
      var found := Get(contributorMap, msg.senderName);
      var stats: ContributorStats;
      match found {
        case None => stats := NewContributor(msg.senderName);
        case Some(s) => stats := s;
      }
      ghost var before := stats;
      stats := stats.(messageCount := stats.messageCount + 1,
                      photoCount := stats.photoCount + |msg.photos|,
                      videoCount := stats.videoCount + |msg.videos|,
                      audioMinutes := stats.audioMinutes + |msg.audioFiles|);
      assert stats == CountMedia(before, msg);
      if HasText(msg.content) {
        ghost var counted := stats;
        stats := stats.(totalCharacters := stats.totalCharacters + Utf16Length(msg.content.value),
                        uniqueWords := stats.uniqueWords + WordSet(msg.content.value));
        assert stats == AddText(counted, msg.content.value);
      }
      assert stats == Tally(before, msg);
      // The record is shared with the map, so every update above lands in the map.
      contributorMap := Put(contributorMap, msg.senderName, stats);
      assert messages[..i + 1][..i] == messages[..i];
      assert contributorMap == Rollup(messages[..i + 1]);
    }
    assert messages[..|messages|] == messages;
    contributors := SortBy(Values(contributorMap), MoreMessages);
  }

  /** The messages of one sender, in order. */
  function Own(name: string, msgs: seq<ParsedMessage>): seq<ParsedMessage>
  {
    if msgs == [] then []
    else
      var last := msgs[|msgs| - 1];
      Own(name, msgs[..|msgs| - 1]) + (if last.senderName == name then [last] else [])
  }

  /** `msg => msg.senderName === name`. */
  function SentBy(name: string): ParsedMessage -> bool
  {
    (m: ParsedMessage) => m.senderName == name
  }

  /** A sender's messages are the chat filtered on an exact match of the sender name. */
  lemma {:induction false} OwnIsFilter(name: string, msgs: seq<ParsedMessage>)
    ensures Own(name, msgs) == Filter(msgs, SentBy(name))
  {
    if msgs != [] {
      OwnIsFilter(name, msgs[..|msgs| - 1]);
    }
  }

  lemma {:induction false} OwnMembers(name: string, msgs: seq<ParsedMessage>)
    ensures forall m :: m in Own(name, msgs) <==> m in msgs && m.senderName == name
  {
    if msgs != [] {
      OwnMembers(name, msgs[..|msgs| - 1]);
      assert msgs == msgs[..|msgs| - 1] + [msgs[|msgs| - 1]];
    }
  }

  function WordsOf(msgs: seq<ParsedMessage>): set<string>
  {
    if msgs == [] then {}
    else
      var last := msgs[|msgs| - 1];
      if HasText(last.content) then WordsOf(msgs[..|msgs| - 1]) + WordSet(last.content.value)
      else WordsOf(msgs[..|msgs| - 1])
  }

  /** An independent definition of one sender's record: counts and sums over that
      sender's own messages. */
  function SenderTotals(name: string, msgs: seq<ParsedMessage>): ContributorStats
  {
    var own := Own(name, msgs);
    ContributorStats(name, |own|, SumOf(own, PhotoCount), SumOf(own, VideoCount), SumOf(own, AudioCount),
                     SumOf(own, TextLength), WordsOf(own), 0, [])
  }

  lemma SenderTotalsStep(name: string, msgs: seq<ParsedMessage>)
    requires msgs != []
    ensures var init := msgs[..|msgs| - 1];
            var last := msgs[|msgs| - 1];
            SenderTotals(name, msgs) ==
              if last.senderName == name then Tally(SenderTotals(name, init), last) else SenderTotals(name, init)
  {
    var init := msgs[..|msgs| - 1];
    var last := msgs[|msgs| - 1];
    var own := Own(name, init);
    if last.senderName == name {
      var own' := own + [last];
      assert Own(name, msgs) == own';
      assert own'[..|own'| - 1] == own;
    } else {
      assert Own(name, msgs) == own;
    }
  }

  /** A sender not seen yet has the record of a fresh contributor. */
  lemma SenderTotalsUnseen(name: string, msgs: seq<ParsedMessage>)
    requires name !in Senders(msgs)
    ensures SenderTotals(name, msgs) == NewContributor(name)
  {
    OwnNone(name, msgs);
  }

  lemma {:induction false} OwnNone(name: string, msgs: seq<ParsedMessage>)
    requires forall i :: 0 <= i < |msgs| ==> msgs[i].senderName != name
    ensures Own(name, msgs) == []
  {
    if msgs != [] {
      OwnNone(name, msgs[..|msgs| - 1]);
    }
  }

  /** The rollup keeps one record per distinct sender, in order of first appearance, and
      each record is that sender's totals. */
  predicate RollupMatches(r: seq<(string, ContributorStats)>, msgs: seq<ParsedMessage>)
  {
    Keys(r) == Distinct(Senders(msgs)) &&
    forall i :: 0 <= i < |r| ==> r[i].1 == SenderTotals(r[i].0, msgs)
  }

  lemma {:induction false} RollupIsPerSender(msgs: seq<ParsedMessage>)
    ensures RollupMatches(Rollup(msgs), msgs)
  {
    if msgs != [] {
      var init := msgs[..|msgs| - 1];
      RollupIsPerSender(init);
      MatchesAfterAdd(Rollup(init), init, msgs[|msgs| - 1]);
      RollupSnoc(msgs);
      SplitLast(msgs);
    }
  }

  lemma SendersSnoc(msgs: seq<ParsedMessage>)
    requires msgs != []
    ensures Senders(msgs) == Senders(msgs[..|msgs| - 1]) + [msgs[|msgs| - 1].senderName]
  {
    MapSnoc(msgs, SenderName, |msgs| - 1);
    assert msgs[..|msgs|] == msgs;
  }

  lemma RollupSnoc(msgs: seq<ParsedMessage>)
    requires msgs != []
    ensures Rollup(msgs) == AddMessage(Rollup(msgs[..|msgs| - 1]), msgs[|msgs| - 1])
  {
  }

  /** Adding one message to a map that matches the earlier messages gives a map that
      matches them all. */
  lemma MatchesAfterAdd(r0: seq<(string, ContributorStats)>, init: seq<ParsedMessage>, last: ParsedMessage)
    requires RollupMatches(r0, init)
    ensures RollupMatches(AddMessage(r0, last), init + [last])
  {
    var msgs := init + [last];
    var k := last.senderName;
    var r := AddMessage(r0, last);
    PutEntries(r0, k, Tally(Prior(r0, k), last));
    assert msgs[..|msgs| - 1] == init;
    SendersSnoc(msgs);
    DistinctSnoc(Senders(init), k);
    forall i | 0 <= i < |r| ensures r[i].1 == SenderTotals(r[i].0, msgs) {
      EntryAfterAdd(r0, init, last, i);
    }
  }

  lemma EntryAfterAdd(r0: seq<(string, ContributorStats)>, init: seq<ParsedMessage>, last: ParsedMessage, i: nat)
    requires RollupMatches(r0, init)
    requires i < |AddMessage(r0, last)|
    ensures AddMessage(r0, last)[i].1 == SenderTotals(AddMessage(r0, last)[i].0, init + [last])
  {
    var msgs := init + [last];
    var k := last.senderName;
    var v := Tally(Prior(r0, k), last);
    var r := AddMessage(r0, last);
    PutEntries(r0, k, v);
    assert msgs[..|msgs| - 1] == init && msgs[|msgs| - 1] == last;
    SenderTotalsStep(r[i].0, msgs);
    if i < |r0| && r0[i].0 == k {
      GetAt(r0, i);
      assert r[i] == (k, v);
    } else if i < |r0| {
      assert r[i] == r0[i];
    } else {
      assert r[i] == (k, v);
      assert k !in Keys(r0);
      SenderTotalsUnseen(k, init);
    }
  }

  /** The records' counts add up to the chat totals. */
  predicate SumsMatch(vs: seq<ContributorStats>, msgs: seq<ParsedMessage>)
  {
    SumOf(vs, MessageCountOf) == SumOf(msgs, One) &&
    SumOf(vs, PhotoCountOf) == SumOf(msgs, PhotoCount) &&
    SumOf(vs, VideoCountOf) == SumOf(msgs, VideoCount) &&
    SumOf(vs, AudioMinutesOf) == SumOf(msgs, AudioCount)
  }

  function One(m: ParsedMessage): nat { 1 }

  lemma {:induction false} SumOfOne(msgs: seq<ParsedMessage>)
    ensures SumOf(msgs, One) == |msgs|
  {
    if msgs != [] {
      SumOfOne(msgs[..|msgs| - 1]);
    }
  }

  function MessageCountOf(c: ContributorStats): nat { c.messageCount }

  function PhotoCountOf(c: ContributorStats): nat { c.photoCount }

  function VideoCountOf(c: ContributorStats): nat { c.videoCount }

  function AudioMinutesOf(c: ContributorStats): nat { c.audioMinutes }

  lemma {:induction false} RollupTotals(msgs: seq<ParsedMessage>)
    ensures SumsMatch(Values(Rollup(msgs)), msgs)
  {
    if msgs != [] {
      var init := msgs[..|msgs| - 1];
      var last := msgs[|msgs| - 1];
      RollupTotals(init);
      RollupIsPerSender(init);
      RollupSumStep(msgs, MessageCountOf, One);
      RollupSumStep(msgs, PhotoCountOf, PhotoCount);
      RollupSumStep(msgs, VideoCountOf, VideoCount);
      RollupSumStep(msgs, AudioMinutesOf, AudioCount);
    }
  }

  /** One message adds `h` of itself to the sum of `g` over the records, whichever
      record it lands in. */
  lemma RollupSumStep(msgs: seq<ParsedMessage>, g: ContributorStats -> nat, h: ParsedMessage -> nat)
    requires msgs != []
    requires NoDuplicates(Keys(Rollup(msgs[..|msgs| - 1])))
    requires var last := msgs[|msgs| - 1];
             var prior := Prior(Rollup(msgs[..|msgs| - 1]), last.senderName);
             g(Tally(prior, last)) == g(prior) + h(last) && g(NewContributor(last.senderName)) == 0
    requires SumOf(Values(Rollup(msgs[..|msgs| - 1])), g) == SumOf(msgs[..|msgs| - 1], h)
    ensures SumOf(Values(Rollup(msgs)), g) == SumOf(msgs, h)
  {
    var init := msgs[..|msgs| - 1];
    var last := msgs[|msgs| - 1];
    var k := last.senderName;
    var r0 := Rollup(init);
    var vs0 := Values(r0);
    var prior := Prior(r0, k);
    var v := Tally(prior, last);
    assert Rollup(msgs) == AddMessage(r0, last);
    assert SumOf(msgs, h) == SumOf(init, h) + h(last);
    SumAfterPut(r0, k, prior, v, g, h(last));
  }

  lemma SumAfterPut(r0: seq<(string, ContributorStats)>, k: string, prior: ContributorStats,
                    v: ContributorStats, g: ContributorStats -> nat, added: nat)
    requires NoDuplicates(Keys(r0))
    requires prior == Prior(r0, k)
    requires g(NewContributor(k)) == 0 && g(v) == g(prior) + added
    ensures SumOf(Values(Put(r0, k, v)), g) == SumOf(Values(r0), g) + added
  {
    SumOfPut(r0, k, v, g);
  }

  /** The rollup's records, one per distinct sender, each that sender's totals. */
  lemma RollupRecords(msgs: seq<ParsedMessage>)
    ensures var vs := Values(Rollup(msgs));
      |vs| == |Distinct(Senders(msgs))| &&
      (forall c :: c in vs ==> c == SenderTotals(c.name, msgs) && c.name in Senders(msgs)) &&
      (forall n :: n in Senders(msgs) ==> exists c :: c in vs && c.name == n)
  {
    var r := Rollup(msgs);
    var vs := Values(r);
    RollupIsPerSender(msgs);
    assert |Keys(r)| == |r|;
    forall c | c in vs ensures c == SenderTotals(c.name, msgs) && c.name in Senders(msgs) {
      var i :| 0 <= i < |vs| && vs[i] == c;
      assert Keys(r)[i] == r[i].0;
    }
    forall n | n in Senders(msgs) ensures exists c :: c in vs && c.name == n {
      assert n in Keys(r);
      var i :| 0 <= i < |r| && Keys(r)[i] == n;
      assert vs[i] in vs;
    }
  }

  /** The contributor list holds one record per distinct sender, and each record is that
      sender's totals (the emoji fields are never filled in). */
  lemma ContributorStatsRecords(msgs: seq<ParsedMessage>)
    ensures var cs := ContributorStatsOf(msgs);
      |cs| == |Distinct(Senders(msgs))| &&
      (forall c :: c in cs ==> c == SenderTotals(c.name, msgs) && c.name in Senders(msgs)) &&
      (forall c :: c in cs ==> c.emojiCount == 0 && c.emojis == []) &&
      (forall n :: n in Senders(msgs) ==> exists c :: c in cs && c.name == n)
  {
    var vs := Values(Rollup(msgs));
    var cs := ContributorStatsOf(msgs);
    RollupRecords(msgs);
    forall c ensures c in cs <==> c in vs {
      assert c in cs <==> c in multiset(cs);
      assert c in vs <==> c in multiset(vs);
    }
  }

  /** The records' counts add up to the chat's totals. */
  lemma ContributorStatsTotals(msgs: seq<ParsedMessage>)
    ensures var cs := ContributorStatsOf(msgs);
      SumOf(cs, MessageCountOf) == |msgs| &&
      SumOf(cs, PhotoCountOf) == ChatStatsOf(msgs).totalPhotos &&
      SumOf(cs, VideoCountOf) == ChatStatsOf(msgs).totalVideos &&
      SumOf(cs, AudioMinutesOf) == ChatStatsOf(msgs).totalAudioMinutes
  {
    var vs := Values(Rollup(msgs));
    RollupTotals(msgs);
    SumOfOne(msgs);
    assert TotalPreorder(MoreMessages);
    SumOfSortBy(vs, MoreMessages, MessageCountOf);
    SumOfSortBy(vs, MoreMessages, PhotoCountOf);
    SumOfSortBy(vs, MoreMessages, VideoCountOf);
    SumOfSortBy(vs, MoreMessages, AudioMinutesOf);
  }

  /** The records come in non-increasing order of message count. */
  lemma ContributorStatsOrdered(msgs: seq<ParsedMessage>)
    ensures var cs := ContributorStatsOf(msgs);
      forall i, j :: 0 <= i < j < |cs| ==> cs[i].messageCount >= cs[j].messageCount
  {
    assert TotalPreorder(MoreMessages);
    SortBySorted(Values(Rollup(msgs)), MoreMessages);
  }

  /** Records with equal message counts keep the order of their senders' first messages. */
  lemma ContributorStatsStable(msgs: seq<ParsedMessage>, z: ContributorStats)
    ensures TiesWith(ContributorStatsOf(msgs), MoreMessages, z) == TiesWith(Values(Rollup(msgs)), MoreMessages, z)
    ensures Keys(Rollup(msgs)) == Distinct(Senders(msgs))
  {
    RollupIsPerSender(msgs);
    assert TotalPreorder(MoreMessages);
    SortByStable(Values(Rollup(msgs)), MoreMessages, z);
  }
}
