/** Normalisation of exported message records, merging of export pages and the
    derivation of a chat's name. */
module MessengerParser {
  import opened Wrappers
  import opened Seqs
  import opened Text
  import opened Sorting
  import opened Types

  /** `!!xs?.length`: the list is present and not empty. */
  predicate NonEmptyList<T>(xs: Option<seq<T>>)
  {
    xs.Some? && |xs.value| > 0
  }

  /** The one-for-one mapping of an export record to a parsed message: empty content
      becomes absent and absent lists become empty ones. */
  function NormalizeMessage(msg: RawMessage): (m: ParsedMessage)
    ensures m.senderName == msg.senderName && m.timestamp == msg.timestampMs
  {
    var hasContent := msg.content.Some? && msg.content.value != [];
    ParsedMessage(
      msg.senderName,
      msg.timestampMs,
      if hasContent then msg.content else None,
      msg.reactions.GetOr([]),
      msg.photos.GetOr([]),
      msg.videos.GetOr([]),
      msg.audioFiles.GetOr([]),
      hasContent,
      !hasContent && (NonEmptyList(msg.photos) || NonEmptyList(msg.videos) || NonEmptyList(msg.audioFiles)))
  }

  /** The invariant every parsed message satisfies: `hasContent` says whether there
      is content, content is never the empty string, and `isMediaOnly` says that there
      is no content but some media. */
  predicate WellFormed(m: ParsedMessage)
  {
    && (m.hasContent <==> m.content.Some?)
    && (m.content.Some? ==> m.content.value != [])
    && (m.isMediaOnly <==> !m.hasContent && (|m.photos| > 0 || |m.videos| > 0 || |m.audioFiles| > 0))
  }

  /** Normalisation yields a well-formed message that keeps the non-empty content and
      every present list unchanged. */
  lemma NormalizeMessageWellFormed(msg: RawMessage)
    ensures WellFormed(NormalizeMessage(msg))
    ensures NormalizeMessage(msg).hasContent <==> msg.content.Some? && msg.content.value != []
    ensures msg.content.Some? && msg.content.value != [] ==> NormalizeMessage(msg).content == msg.content
    ensures msg.reactions.Some? ==> NormalizeMessage(msg).reactions == msg.reactions.value
    ensures msg.photos.Some? ==> NormalizeMessage(msg).photos == msg.photos.value
    ensures msg.videos.Some? ==> NormalizeMessage(msg).videos == msg.videos.value
    ensures msg.audioFiles.Some? ==> NormalizeMessage(msg).audioFiles == msg.audioFiles.value
    ensures msg.reactions.None? ==> NormalizeMessage(msg).reactions == []
    ensures msg.photos.None? ==> NormalizeMessage(msg).photos == []
    ensures msg.videos.None? ==> NormalizeMessage(msg).videos == []
    ensures msg.audioFiles.None? ==> NormalizeMessage(msg).audioFiles == []
  {
  }

  /** The export record a parsed message stands for, every list present. */
  function ToRaw(m: ParsedMessage): (msg: RawMessage)
    ensures msg.senderName == m.senderName && msg.timestampMs == m.timestamp
  {
    RawMessage(m.senderName, m.timestamp, m.content, Some(m.reactions), Some(m.photos),
               Some(m.videos), Some(m.audioFiles))
  }

  /** Normalisation loses nothing of a well-formed message: it is the inverse of `ToRaw`. */
  lemma NormalizeToRaw(m: ParsedMessage)
    requires WellFormed(m)
    ensures NormalizeMessage(ToRaw(m)) == m
  {
  }

  /** `parseMessengerFile`: one parsed message per record, in the records' order. */
  method ParseMessengerFile(data: Conversation) returns (messages: seq<ParsedMessage>)
    ensures |messages| == |data.messages|
    ensures forall i :: 0 <= i < |messages| ==> messages[i] == NormalizeMessage(data.messages[i])
    ensures forall i :: 0 <= i < |messages| ==> WellFormed(messages[i])
  {
    messages := [];
    for i := 0 to |data.messages|
      invariant |messages| == i
      invariant forall k :: 0 <= k < i ==> messages[k] == NormalizeMessage(data.messages[k])
      invariant forall k :: 0 <= k < i ==> WellFormed(messages[k])
    {
      NormalizeMessageWellFormed(data.messages[i]);
      messages := messages + [NormalizeMessage(data.messages[i])];
    }
  }

  /** The comparator `(a, b) => a.timestamp - b.timestamp`, read as "may stay before". */
  predicate TimestampLe(a: ParsedMessage, b: ParsedMessage)
  {
    a.timestamp <= b.timestamp
  }

  lemma TimestampLeIsPreorder()
    ensures TotalPreorder(TimestampLe)
  {
  }

  /** `mergeMessages`: the pages concatenated, then stably sorted by timestamp. */
  function MergeMessages(pages: seq<seq<ParsedMessage>>): seq<ParsedMessage>
  {
    SortBy(Flatten(pages), TimestampLe)
  }

  /** The merge is a permutation of the concatenated pages in ascending timestamp order. */
  lemma MergeMessagesSorted(pages: seq<seq<ParsedMessage>>)
    ensures multiset(MergeMessages(pages)) == multiset(Flatten(pages))
    ensures forall i, j :: 0 <= i < j < |MergeMessages(pages)| ==>
              MergeMessages(pages)[i].timestamp <= MergeMessages(pages)[j].timestamp
  {
    TimestampLeIsPreorder();
    SortBySorted(Flatten(pages), TimestampLe);
  }

  /** Messages with equal timestamps keep their order of concatenation. */
  lemma MergeMessagesStable(pages: seq<seq<ParsedMessage>>, z: ParsedMessage)
    ensures TiesWith(MergeMessages(pages), TimestampLe, z) == TiesWith(Flatten(pages), TimestampLe, z)
  {
    TimestampLeIsPreorder();
    SortByStable(Flatten(pages), TimestampLe, z);
  }

  /** Merging the merged result again, as a single page, returns it unchanged. */
  lemma MergeMessagesIdempotent(pages: seq<seq<ParsedMessage>>)
    ensures MergeMessages([MergeMessages(pages)]) == MergeMessages(pages)
  {
    TimestampLeIsPreorder();
    SortByIdempotent(Flatten(pages), TimestampLe);
  }

  predicate IsSeparator(c: char)
  {
    c == '/' || c == '\\'
  }

  predicate NotSeparator(c: char)
  {
    !IsSeparator(c)
  }

  /** `/inbox[\/\\]([^\/\\]+)/` matches at `i`. */
  predicate InboxAt(path: string, i: nat)
  {
    i + 6 < |path| && path[i..i + 5] == "inbox" && IsSeparator(path[i + 5]) && NotSeparator(path[i + 6])
  }

  /** The group captured by the leftmost match of `/inbox[\/\\]([^\/\\]+)/` at or after `i`. */
  function InboxSegment(path: string, i: nat): (r: Option<string>)
    ensures r.Some? ==> r.value != [] && forall c :: c in r.value ==> NotSeparator(c)
    decreases |path| - i
  {
    if i >= |path| then None
    else if InboxAt(path, i) then Some(path[i + 6..RunEnd(path, i + 6, NotSeparator)])
    else InboxSegment(path, i + 1)
  }

  /** `s.split('_')[0]`: the text before the first underscore. */
  function BeforeUnderscore(s: string): (r: string)
    ensures |r| <= |s| && r == s[..|r|] && '_' !in r
    ensures |r| < |s| ==> s[|r|] == '_'
  {
    if s == [] || s[0] == '_' then [] else [s[0]] + BeforeUnderscore(s[1..])
  }

  /** A name without underscores followed by an underscore and a suffix gives back the name. */
  lemma {:induction false} BeforeUnderscoreSuffix(name: string, suffix: string)
    requires '_' !in name
    ensures BeforeUnderscore(name + "_" + suffix) == name
  {
    if name != [] {
      assert (name + "_" + suffix)[1..] == name[1..] + "_" + suffix;
      BeforeUnderscoreSuffix(name[1..], suffix);
    }
  }

  /** `extractChatName`: a non-empty title wins; otherwise the folder after `inbox/` or
      `inbox\` up to its first underscore; otherwise "Unknown Chat". */
  function ExtractChatName(path: string, title: Option<string>): (name: string)
    ensures title.Some? && title.value != [] ==> name == title.value
    ensures (title.None? || title.value == []) && InboxSegment(path, 0).None? ==> name == "Unknown Chat"
  {
    if title.Some? && title.value != [] then title.value
    else match InboxSegment(path, 0)
      case Some(folder) => BeforeUnderscore(folder)
      case None => "Unknown Chat"
  }

  /** Without a title, the folder of an export path `messages/inbox/<name>_<id>/...` gives
      back `<name>`. */
  lemma ExtractChatNameFromFolder(name: string, id: string, rest: string)
    requires '_' !in name
    requires forall c :: c in name + "_" + id ==> NotSeparator(c)
    requires rest == [] || IsSeparator(rest[0])
    ensures ExtractChatName("messages/inbox/" + name + "_" + id + rest, None) == name
  {
    var prefix := "messages/inbox/";
    var folder := name + "_" + id;
    var path := prefix + folder + rest;
    assert path == "messages/inbox/" + name + "_" + id + rest;
    assert path[..15] == prefix;
    forall i | 0 <= i < 9 ensures !InboxAt(path, i) {
      assert path[i] == prefix[i] != 'i';
    }
    NoMatchBefore(path, 0, 9);
    assert path[9..14] == "inbox" && path[14] == '/';
    assert path[15] == folder[0] && folder[0] in folder;
    assert InboxAt(path, 9);
    FolderRun(prefix, folder, rest);
    assert path[15..15 + |folder|] == folder;
    assert InboxSegment(path, 0) == Some(folder);
    BeforeUnderscoreSuffix(name, id);
  }

  lemma {:induction false} NoMatchBefore(path: string, i: nat, j: nat)
    requires i <= j <= |path|
    requires forall k :: i <= k < j ==> !InboxAt(path, k)
    ensures InboxSegment(path, i) == InboxSegment(path, j)
    decreases j - i
  {
    if i < j {
      NoMatchBefore(path, i + 1, j);
    }
  }

  /** The run of non-separators at the start of a folder name ends with the name. */
  lemma FolderRun(prefix: string, folder: string, rest: string)
    requires forall c :: c in folder ==> NotSeparator(c)
    requires rest == [] || IsSeparator(rest[0])
    ensures RunEnd(prefix + folder + rest, |prefix|, NotSeparator) == |prefix| + |folder|
  {
    var path := prefix + folder + rest;
    forall k | |prefix| <= k < |prefix| + |folder| ensures NotSeparator(path[k]) {
      assert path[k] == folder[k - |prefix|] && folder[k - |prefix|] in folder;
    }
    if rest != [] {
      assert path[|prefix| + |folder|] == rest[0];
    }
    RunEndAt(path, |prefix|, |prefix| + |folder|, NotSeparator);
  }
}
