/** The messages that drew reactions, ranked by how many, and the top few of them by kind
    (lib/analyzer/reaction-analyzer.ts). */
module ReactionAnalyzer {
  import opened Wrappers
  import opened Seqs
  import opened Sorting
  import opened Text
  import opened Types

  predicate HasReactions(m: ParsedMessage)
  {
    |m.reactions| > 0
  }

  function AsReactionStats(m: ParsedMessage): ReactionStats
  {
    ReactionStats(m, |m.reactions|, m.reactions)
  }

  /** `(a, b) => b.reactionCount - a.reactionCount`, read as "may stay before". */
  predicate MoreReactions(a: ReactionStats, b: ReactionStats)
  {
    b.reactionCount - a.reactionCount <= 0
  }

  /** `calculateReactionStats`: keep the messages with at least one reaction, pair each
      with its reaction count, sort by that count, most reacted first. */
  function ReactionStatsOf(msgs: seq<ParsedMessage>): seq<ReactionStats>
  {
    SortBy(Map(Filter(msgs, HasReactions), AsReactionStats), MoreReactions)
  }

  /** There is one record per message with reactions, and a message's record is in
      the result exactly when the message is one of them. */
  lemma ReactionStatsEntries(msgs: seq<ParsedMessage>)
    ensures |ReactionStatsOf(msgs)| == |Filter(msgs, HasReactions)|
    ensures forall m :: AsReactionStats(m) in ReactionStatsOf(msgs) <==> m in msgs && |m.reactions| > 0
    ensures forall s :: s in ReactionStatsOf(msgs) ==>
      s == AsReactionStats(s.message) && s.message in msgs && s.reactionCount > 0
  {
    var kept := Filter(msgs, HasReactions);
    var stats := Map(kept, AsReactionStats);
    var r := ReactionStatsOf(msgs);
    SortedMembers(stats, MoreReactions);
    forall m ensures AsReactionStats(m) in r <==> m in msgs && |m.reactions| > 0 {
      if AsReactionStats(m) in stats {
        var i :| 0 <= i < |stats| && stats[i] == AsReactionStats(m);
        assert kept[i] == m;
      }
      if m in kept {
        var i :| 0 <= i < |kept| && kept[i] == m;
        assert stats[i] == AsReactionStats(m);
      }
    }
    forall s | s in r
      ensures s == AsReactionStats(s.message) && s.message in msgs && s.reactionCount > 0
    {
      var i :| 0 <= i < |stats| && stats[i] == s;
      assert kept[i] in kept;
    }
  }

  /** Sorting neither adds nor drops a record. */
  lemma SortedMembers(stats: seq<ReactionStats>, le: (ReactionStats, ReactionStats) -> bool)
    ensures forall s :: s in SortBy(stats, le) <==> s in stats
  {
    forall s ensures s in SortBy(stats, le) <==> s in stats {
      assert s in SortBy(stats, le) <==> s in multiset(SortBy(stats, le));
    }
  }

  /** The records come in non-increasing order of reaction count. */
  lemma ReactionStatsOrdered(msgs: seq<ParsedMessage>)
    ensures SortedBy(ReactionStatsOf(msgs), MoreReactions)
    ensures var r := ReactionStatsOf(msgs);
      forall i, j :: 0 <= i < j < |r| ==> r[i].reactionCount >= r[j].reactionCount
  {
    assert TotalPreorder(MoreReactions);
    SortBySorted(Map(Filter(msgs, HasReactions), AsReactionStats), MoreReactions);
  }

  /** Messages with equally many reactions keep their chronological order. */
  lemma ReactionStatsStable(msgs: seq<ParsedMessage>, z: ReactionStats)
    ensures TiesWith(ReactionStatsOf(msgs), MoreReactions, z) ==
      TiesWith(Map(Filter(msgs, HasReactions), AsReactionStats), MoreReactions, z)
  {
    assert TotalPreorder(MoreReactions);
    SortByStable(Map(Filter(msgs, HasReactions), AsReactionStats), MoreReactions, z);
  }

  /** `getTopReactedByType`: the records that pass the filter, cut at `limit` as
      `slice(0, limit)` does (a negative limit counts from the end). */
  function TopReactedByType(stats: seq<ReactionStats>, keep: ReactionStats -> bool, limit: int): seq<ReactionStats>
  {
    SliceTo(Filter(stats, keep), limit)
  }

  predicate IsImage(stat: ReactionStats)
  {
    |stat.message.photos| > 0
  }

  predicate IsVideo(stat: ReactionStats)
  {
    |stat.message.videos| > 0
  }

  /** Text that is not all white space, and no photo, video or audio file. */
  predicate IsText(stat: ReactionStats)
  {
    var m := stat.message;
    m.content.Some? && |Trim(m.content.value)| > 0 &&
    |m.photos| == 0 && |m.videos| == 0 && |m.audioFiles| == 0
  }

  function TopReactedImages(stats: seq<ReactionStats>, limit: int): seq<ReactionStats>
  {
    TopReactedByType(stats, IsImage, limit)
  }

  function TopReactedVideos(stats: seq<ReactionStats>, limit: int): seq<ReactionStats>
  {
    TopReactedByType(stats, IsVideo, limit)
  }

  function TopReactedText(stats: seq<ReactionStats>, limit: int): seq<ReactionStats>
  {
    TopReactedByType(stats, IsText, limit)
  }

  /** The default `limit` of the three callers. */
  const DefaultLimit := 10

  /** The result is the first records that pass the filter, in the order given, as many
      as the limit allows. */
  lemma TopReactedShape(stats: seq<ReactionStats>, keep: ReactionStats -> bool, limit: int)
    ensures var r := TopReactedByType(stats, keep, limit);
      r == Filter(stats, keep)[..|r|] &&
      (forall s :: s in r ==> s in stats && keep(s)) &&
      (0 <= limit ==> |r| == if limit < |Filter(stats, keep)| then limit else |Filter(stats, keep)|)
  {
    var r := TopReactedByType(stats, keep, limit);
    forall s | s in r ensures s in stats && keep(s) {
      assert s in Filter(stats, keep);
    }
  }

  /** Keeping only some records of a sorted ranking leaves it sorted. */
  lemma {:induction false} FilterSorted(s: seq<ReactionStats>, keep: ReactionStats -> bool)
    requires SortedBy(s, MoreReactions)
    ensures SortedBy(Filter(s, keep), MoreReactions)
  {
    if s != [] {
      var init := s[..|s| - 1];
      var last := s[|s| - 1];
      assert SortedBy(init, MoreReactions) by {
        forall i, j | 0 <= i < j < |init| ensures MoreReactions(init[i], init[j]) {
          assert init[i] == s[i] && init[j] == s[j];
        }
      }
      FilterSorted(init, keep);
      var f := Filter(init, keep);
      if keep(last) {
        forall x | x in f ensures MoreReactions(x, last) {
          var k :| 0 <= k < |init| && init[k] == x;
          assert s[k] == x;
        }
        var r := f + [last];
        forall i, j | 0 <= i < j < |r| ensures MoreReactions(r[i], r[j]) {
          if j < |f| {
            assert r[i] == f[i] && r[j] == f[j];
          } else {
            assert r[i] in f;
          }
        }
      }
    }
  }

  /** Taken from a ranking, the top records are the most reacted of their kind: they
      come in non-increasing order, and no record of the kind left out has more
      reactions than one kept. */
  lemma TopReactedBest(stats: seq<ReactionStats>, keep: ReactionStats -> bool, limit: int)
    requires SortedBy(stats, MoreReactions)
    ensures var f := Filter(stats, keep);
      var r := TopReactedByType(stats, keep, limit);
      (forall i, j :: 0 <= i < j < |r| ==> r[i].reactionCount >= r[j].reactionCount) &&
      (forall i, j :: 0 <= i < |r| <= j < |f| ==> r[i].reactionCount >= f[j].reactionCount)
  {
    var f := Filter(stats, keep);
    var r := TopReactedByType(stats, keep, limit);
    FilterSorted(stats, keep);
    assert r == f[..|r|];
    forall i, j | 0 <= i < |r| && i < j < |f| ensures r[i].reactionCount >= f[j].reactionCount {
      assert r[i] == f[i];
      assert MoreReactions(f[i], f[j]);
    }
  }

  /** A pure text message is never among the images or the videos. */
  lemma TextIsNotMedia(stat: ReactionStats)
    ensures IsText(stat) ==> !IsImage(stat) && !IsVideo(stat)
    ensures IsText(stat) <==>
      (stat.message.content.Some? && !IsBlank(stat.message.content.value) &&
       |stat.message.photos| + |stat.message.videos| + |stat.message.audioFiles| == 0)
  {
  }

  /** A photo with the caption "hi" counts as an image and not as text; the same words
      without the photo count as text. */
  lemma CaptionedPhotoIsImage(m: ParsedMessage, p: Photo)
    requires m.content == Some("hi") && m.photos == [p] && m.videos == [] && m.audioFiles == []
    ensures IsImage(AsReactionStats(m)) && !IsText(AsReactionStats(m))
    ensures IsText(AsReactionStats(m.(photos := [])))
  {
    assert !IsJsSpace('h');
    assert Trim("hi") != [];
  }
}
