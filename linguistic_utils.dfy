/** Choosing the three linguistic champions (most varied vocabulary, most emoji, longest
    messages) from the per-person statistics, with fallbacks when nobody scores above
    zero (lib/utils/linguistic-utils.ts). */
module LinguisticUtils {
  import opened Wrappers
  import opened Seqs
  import opened Text
  import opened Types

  datatype Wordsmith = Wordsmith(name: string, diversity: real)

  datatype EmojiChampion = EmojiChampion(name: string, count: nat, topEmojis: seq<EmojiCount>)

  datatype LinguisticChampion = LinguisticChampion(name: string, avgLength: real)

  datatype Champions = Champions(
    wordsmith: Wordsmith,
    emojiChampion: EmojiChampion,
    linguisticChampion: LinguisticChampion)

  /** `name && name.trim()`: a name holding something other than white space. */
  predicate HasName(name: string)
  {
    !IsBlank(name)
  }

  predicate NamedEntry(e: (string, LinguisticStats))
  {
    HasName(e.0)
  }

  function Diversity(s: LinguisticStats): real
  {
    s.vocabularyDiversity
  }

  function EmojiScore(s: LinguisticStats): real
  {
    s.emojiUsage.count as real
  }

  function AvgLength(s: LinguisticStats): real
  {
    s.averageMessageLength
  }

  /** `array.find(p)`, as the index of the first element satisfying `p`. */
  function FirstWhere<T>(s: seq<T>, p: T -> bool): (r: Option<nat>)
    ensures r.Some? ==> r.value < |s| && p(s[r.value]) && forall j :: 0 <= j < r.value ==> !p(s[j])
    ensures r.None? ==> forall j :: 0 <= j < |s| ==> !p(s[j])
  {
    if s == [] then None
    else if p(s[0]) then Some(0)
    else
      match FirstWhere(s[1..], p)
      case None => None
      case Some(k) => Some(k + 1)
  }

  /** The score of the pick `l`, or 0 before any pick. */
  function Best(entries: seq<(string, LinguisticStats)>, l: Option<nat>, score: LinguisticStats -> real): real
    requires l.Some? ==> l.value < |entries|
  {
    if l.Some? then score(entries[l.value].1) else 0.0
  }

  /** The entry the loop has picked for `score` after reading `entries`: a named entry is
      picked when its score is above that of the current pick (0 before any). */
  function Lead(entries: seq<(string, LinguisticStats)>, score: LinguisticStats -> real): (l: Option<nat>)
    ensures l.Some? ==> l.value < |entries|
  {
    if entries == [] then None
    else
      var init := entries[..|entries| - 1];
      var l := Lead(init, score);
      var e := entries[|entries| - 1];
      if HasName(e.0) && score(e.1) > Best(init, l, score) then Some(|entries| - 1) else l
  }

  /** The pick is the first named entry with the highest score, provided that score is
      above 0; with no named entry above 0 there is no pick. */
  lemma {:induction false} LeadIsFirstMaximum(entries: seq<(string, LinguisticStats)>, score: LinguisticStats -> real)
    ensures var l := Lead(entries, score);
      (l.None? <==> forall j :: 0 <= j < |entries| && HasName(entries[j].0) ==> score(entries[j].1) <= 0.0) &&
      (l.Some? ==>
        var i := l.value;
        HasName(entries[i].0) && score(entries[i].1) > 0.0 &&
        (forall j :: 0 <= j < |entries| && HasName(entries[j].0) ==> score(entries[j].1) <= score(entries[i].1)) &&
        (forall j :: 0 <= j < i && HasName(entries[j].0) ==> score(entries[j].1) < score(entries[i].1)))
  {
    if entries != [] {
      var n := |entries| - 1;
      var init := entries[..n];
      LeadIsFirstMaximum(init, score);
      assert forall j :: 0 <= j < n ==> init[j] == entries[j];
    }
  }

  /** The pick of a prefix one entry longer. */
  lemma LeadStep(entries: seq<(string, LinguisticStats)>, score: LinguisticStats -> real, i: nat)
    requires i < |entries|
    ensures var l := Lead(entries[..i], score);
      Lead(entries[..i + 1], score) ==
        if HasName(entries[i].0) && score(entries[i].1) > Best(entries[..i], l, score) then Some(i) else l
  {
    assert entries[..i + 1][..i] == entries[..i];
  }

  function WordsmithAt(entries: seq<(string, LinguisticStats)>, l: Option<nat>): Wordsmith
    requires l.Some? ==> l.value < |entries|
  {
    match l
    case None => Wordsmith("", 0.0)
    case Some(i) => Wordsmith(Trim(entries[i].0), entries[i].1.vocabularyDiversity)
  }

  function EmojiChampionAt(entries: seq<(string, LinguisticStats)>, l: Option<nat>): EmojiChampion
    requires l.Some? ==> l.value < |entries|
  {
    match l
    case None => EmojiChampion("", 0, [])
    case Some(i) => EmojiChampion(Trim(entries[i].0), entries[i].1.emojiUsage.count, SliceTo(entries[i].1.emojiUsage.topEmojis, 5))
  }

  function LinguisticChampionAt(entries: seq<(string, LinguisticStats)>, l: Option<nat>): LinguisticChampion
    requires l.Some? ==> l.value < |entries|
  {
    match l
    case None => LinguisticChampion("", 0.0)
    case Some(i) => LinguisticChampion(Trim(entries[i].0), entries[i].1.averageMessageLength)
  }

  /** The three champions after the loop over the statistics. */
  function LoopChampions(entries: seq<(string, LinguisticStats)>): Champions
  {
    Champions(
      WordsmithAt(entries, Lead(entries, Diversity)),
      EmojiChampionAt(entries, Lead(entries, EmojiScore)),
      LinguisticChampionAt(entries, Lead(entries, AvgLength)))
  }

  /** All three names are empty. */
  predicate NoChampion(c: Champions)
  {
    c.wordsmith.name == [] && c.emojiChampion.name == [] && c.linguisticChampion.name == []
  }

  /** All three champions named `name`, with the values of the entry's statistics. */
  function FromEntry(e: (string, LinguisticStats)): Champions
  {
    var name := Trim(e.0);
    Champions(
      Wordsmith(name, e.1.vocabularyDiversity),
      EmojiChampion(name, e.1.emojiUsage.count, SliceTo(e.1.emojiUsage.topEmojis, 5)),
      LinguisticChampion(name, e.1.averageMessageLength))
  }

  /** All three champions named `name`, with zero values. */
  function Zeroed(name: string): Champions
  {
    Champions(Wordsmith(name, 0.0), EmojiChampion(name, 0, []), LinguisticChampion(name, 0.0))
  }

  /** The first fallback: nobody picked, so the first named entry, with its values. */
  function FirstEntryFallback(c: Champions, entries: seq<(string, LinguisticStats)>): Champions
  {
    if NoChampion(c) && |entries| > 0 then
      match FirstWhere(entries, NamedEntry)
      case None => c
      case Some(i) => FromEntry(entries[i])
    else c
  }

  /** The second fallback: still nobody, so the first contributor with a name (or the
      first contributor), with zero values, if that name is not empty. */
  function ContributorFallback(c: Champions, contributors: seq<string>): Champions
  {
    if NoChampion(c) && |contributors| > 0 then
      var top := match FirstWhere(contributors, HasName)
        case Some(k) => contributors[k]
        case None => contributors[0];
      if top != [] then Zeroed(Trim(top)) else c
    else c
  }

  /** The last fallback: still nobody, so the first named entry, with zero values. */
  function LastFallback(c: Champions, entries: seq<(string, LinguisticStats)>): Champions
  {
    if NoChampion(c) && |entries| > 0 then
      match FirstWhere(entries, NamedEntry)
      case None => c
      case Some(i) => Zeroed(Trim(entries[i].0))
    else c
  }

  /** What `findLinguisticChampions` returns. */
  function ChampionsOf(entries: seq<(string, LinguisticStats)>, contributors: seq<string>): Champions
  {
    LastFallback(ContributorFallback(FirstEntryFallback(LoopChampions(entries), entries), contributors), entries)
  }

  /** `findLinguisticChampions`: one pass over the statistics updating the three
      champions, then the fallbacks in turn. `contributors` are the contributors' names. */
  method FindLinguisticChampions(linguisticStats: seq<(string, LinguisticStats)>, contributors: seq<string>)
    returns (r: Champions)
    ensures r == ChampionsOf(linguisticStats, contributors)
  {
    r := PickChampions(linguisticStats);

    if NoChampion(r) && |linguisticStats| > 0 {
      var first := FirstWhere(linguisticStats, NamedEntry);
      if first.Some? {
        var (name, stats) := linguisticStats[first.value];
        r := Champions(
          Wordsmith(Trim(name), stats.vocabularyDiversity),
          EmojiChampion(Trim(name), stats.emojiUsage.count, SliceTo(stats.emojiUsage.topEmojis, 5)),
          LinguisticChampion(Trim(name), stats.averageMessageLength));
      }
    }

    if NoChampion(r) && |contributors| > 0 {
      var found := FirstWhere(contributors, HasName);
      var top := if found.Some? then contributors[found.value] else contributors[0];
      if top != [] {
        var name := Trim(top);
        r := Champions(Wordsmith(name, 0.0), EmojiChampion(name, 0, []), LinguisticChampion(name, 0.0));
      }
    }

    // The last fallback block: its test and its search repeat those of the first block,
    // so it never changes `r` (LastFallbackInert).
    r := LastFallback(r, linguisticStats);
  }

  /** The loop of `findLinguisticChampions`: a named entry replaces a champion when its
      score is above the champion's. */
  method PickChampions(linguisticStats: seq<(string, LinguisticStats)>) returns (r: Champions)
    ensures r == LoopChampions(linguisticStats)
  {
    var wordsmith := Wordsmith("", 0.0);
    var emojiChampion := EmojiChampion("", 0, []);
    var linguisticChampion := LinguisticChampion("", 0.0);
    for i := 0 to |linguisticStats|
      invariant wordsmith == WordsmithAt(linguisticStats, Lead(linguisticStats[..i], Diversity))
      invariant emojiChampion == EmojiChampionAt(linguisticStats, Lead(linguisticStats[..i], EmojiScore))
      invariant linguisticChampion == LinguisticChampionAt(linguisticStats, Lead(linguisticStats[..i], AvgLength))
    {
      var (name, stats) := linguisticStats[i];
      WordsmithStep(linguisticStats, i, wordsmith);
      EmojiChampionStep(linguisticStats, i, emojiChampion);
      LinguisticChampionStep(linguisticStats, i, linguisticChampion);
      if HasName(name) {
        if stats.vocabularyDiversity > wordsmith.diversity {
          wordsmith := Wordsmith(Trim(name), stats.vocabularyDiversity);
        }
        if stats.emojiUsage.count > emojiChampion.count {
          emojiChampion := EmojiChampion(Trim(name), stats.emojiUsage.count, SliceTo(stats.emojiUsage.topEmojis, 5));
        }
        if stats.averageMessageLength > linguisticChampion.avgLength {
          linguisticChampion := LinguisticChampion(Trim(name), stats.averageMessageLength);
        }
      }
    }
    assert linguisticStats[..|linguisticStats|] == linguisticStats;
    r := Champions(wordsmith, emojiChampion, linguisticChampion);
  }

  /** One turn of the loop for the wordsmith. */
  lemma WordsmithStep(entries: seq<(string, LinguisticStats)>, i: nat, w: Wordsmith)
    requires i < |entries| && w == WordsmithAt(entries, Lead(entries[..i], Diversity))
    ensures var e := entries[i];
      WordsmithAt(entries, Lead(entries[..i + 1], Diversity)) ==
        if HasName(e.0) && e.1.vocabularyDiversity > w.diversity then Wordsmith(Trim(e.0), e.1.vocabularyDiversity) else w
  {
    LeadStep(entries, Diversity, i);
  }

  /** One turn of the loop for the emoji champion. */
  lemma EmojiChampionStep(entries: seq<(string, LinguisticStats)>, i: nat, c: EmojiChampion)
    requires i < |entries| && c == EmojiChampionAt(entries, Lead(entries[..i], EmojiScore))
    ensures var e := entries[i];
      EmojiChampionAt(entries, Lead(entries[..i + 1], EmojiScore)) ==
        if HasName(e.0) && e.1.emojiUsage.count > c.count
        then EmojiChampion(Trim(e.0), e.1.emojiUsage.count, SliceTo(e.1.emojiUsage.topEmojis, 5))
        else c
  {
    LeadStep(entries, EmojiScore, i);
  }

  /** One turn of the loop for the linguistic champion. */
  lemma LinguisticChampionStep(entries: seq<(string, LinguisticStats)>, i: nat, c: LinguisticChampion)
    requires i < |entries| && c == LinguisticChampionAt(entries, Lead(entries[..i], AvgLength))
    ensures var e := entries[i];
      LinguisticChampionAt(entries, Lead(entries[..i + 1], AvgLength)) ==
        if HasName(e.0) && e.1.averageMessageLength > c.avgLength then LinguisticChampion(Trim(e.0), e.1.averageMessageLength) else c
  {
    LeadStep(entries, AvgLength, i);
  }

  /** Nobody scored above 0 in the loop exactly when no name was picked. */
  lemma NoChampionAfterLoop(entries: seq<(string, LinguisticStats)>)
    ensures NoChampion(LoopChampions(entries)) <==>
      Lead(entries, Diversity).None? && Lead(entries, EmojiScore).None? && Lead(entries, AvgLength).None?
    ensures NoChampion(LoopChampions(entries)) ==> LoopChampions(entries) == Zeroed("")
  {
    LeadIsFirstMaximum(entries, Diversity);
    LeadIsFirstMaximum(entries, EmojiScore);
    LeadIsFirstMaximum(entries, AvgLength);
  }

  /** When some named entry scores above 0 on some measure, the fallbacks do nothing
      and each champion is the loop's pick for its measure. */
  lemma ChampionsFromLoop(entries: seq<(string, LinguisticStats)>, contributors: seq<string>)
    requires exists j :: (0 <= j < |entries| && HasName(entries[j].0) &&
      (Diversity(entries[j].1) > 0.0 || EmojiScore(entries[j].1) > 0.0 || AvgLength(entries[j].1) > 0.0))
    ensures ChampionsOf(entries, contributors) == LoopChampions(entries)
  {
    NoChampionAfterLoop(entries);
    LeadIsFirstMaximum(entries, Diversity);
    LeadIsFirstMaximum(entries, EmojiScore);
    LeadIsFirstMaximum(entries, AvgLength);
  }

  /** When no named entry scores above 0 but some entry is named, all three champions
      are the first named entry, with that entry's values. */
  lemma ChampionsFromFirstEntry(entries: seq<(string, LinguisticStats)>, contributors: seq<string>, i: nat)
    requires i < |entries| && HasName(entries[i].0) && forall j :: 0 <= j < i ==> !HasName(entries[j].0)
    requires forall j :: 0 <= j < |entries| && HasName(entries[j].0) ==>
      Diversity(entries[j].1) <= 0.0 && EmojiScore(entries[j].1) <= 0.0 && AvgLength(entries[j].1) <= 0.0
    ensures ChampionsOf(entries, contributors) == FromEntry(entries[i])
  {
    NoChampionAfterLoop(entries);
    LeadIsFirstMaximum(entries, Diversity);
    LeadIsFirstMaximum(entries, EmojiScore);
    LeadIsFirstMaximum(entries, AvgLength);
    var f := FirstWhere(entries, NamedEntry);
    assert f == Some(i) by {
      assert NamedEntry(entries[i]);
    }
    assert !NoChampion(FromEntry(entries[i]));
  }

  /** When no entry is named, the champions are the first contributor with a name (or
      the first contributor), trimmed, with zero values. */
  lemma ChampionsFromContributor(entries: seq<(string, LinguisticStats)>, contributors: seq<string>)
    requires forall j :: 0 <= j < |entries| ==> !HasName(entries[j].0)
    requires |contributors| > 0
    ensures var top := match FirstWhere(contributors, HasName)
        case Some(k) => contributors[k]
        case None => contributors[0];
      ChampionsOf(entries, contributors) == Zeroed(Trim(top))
  {
    NoChampionAfterLoop(entries);
    LeadIsFirstMaximum(entries, Diversity);
    LeadIsFirstMaximum(entries, EmojiScore);
    LeadIsFirstMaximum(entries, AvgLength);
    assert FirstWhere(entries, NamedEntry).None?;
  }

  /** The last fallback never changes the result: it runs only when the first one found
      no named entry, and it searches for the same thing. */
  lemma LastFallbackInert(entries: seq<(string, LinguisticStats)>, contributors: seq<string>)
    ensures var c := ContributorFallback(FirstEntryFallback(LoopChampions(entries), entries), contributors);
      LastFallback(c, entries) == c
  {
    var c0 := LoopChampions(entries);
    var c1 := FirstEntryFallback(c0, entries);
    var c2 := ContributorFallback(c1, contributors);
    if NoChampion(c2) && |entries| > 0 {
      var f := FirstWhere(entries, NamedEntry);
      if f.Some? {
        assert !NoChampion(FromEntry(entries[f.value]));
        assert NoChampion(c1);
        assert NoChampion(c0);
      }
    }
  }

  /** Every champion's name is trimmed, and at most five top emoji are kept. */
  lemma ChampionsShape(entries: seq<(string, LinguisticStats)>, contributors: seq<string>)
    ensures var c := ChampionsOf(entries, contributors);
      IsTrimmed(c.wordsmith.name) && IsTrimmed(c.emojiChampion.name) &&
      IsTrimmed(c.linguisticChampion.name) && |c.emojiChampion.topEmojis| <= 5
  {
  }
}
