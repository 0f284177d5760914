/** The decision rules of the HTML export reader. Each `<section>` of the page is
    abstracted into a `Section` record holding the texts and attributes the reader
    looks at; the rules that turn those into message records are modelled here. */
module HtmlParser {
  import opened Wrappers
  import opened Seqs
  import opened Text
  import opened Types
  import MessageUtils
  import HtmlParticipants
  import HtmlTimestamp

  /** The reaction a list item's trimmed text `text` gives, if any: a leading run of
      emoji is the reaction and the trimmed rest the actor, the message's sender when
      the rest is empty; a text of at most three UTF-16 units holding an emoji but not
      starting with one is a reaction of the sender; anything else is not a reaction. */
  function SplitReaction(text: string, senderName: string): (r: Option<Reaction>)
    ensures (forall i :: 0 <= i < |text| ==> !IsEmoji(text[i])) ==> r.None?
    ensures r.Some? ==> r.value.reaction != [] && |r.value.reaction| <= |text| && r.value.reaction == text[..|r.value.reaction|]
  {
    var k := RunEnd(text, 0, IsEmoji);
    if k > 0 then
      var actor := Trim(text[k..]);
      if actor != [] then Some(Reaction(text[..k], actor)) else Some(Reaction(text[..k], senderName))
    else if Utf16Length(text) <= 3 && exists i :: 0 <= i < |text| && IsEmoji(text[i]) then
      Some(Reaction(text, senderName))
    else None
  }

  /** A span of emoji followed by an actor's name splits into the two. */
  lemma SplitReactionActor(emoji: string, actor: string, senderName: string)
    requires emoji != [] && forall i :: 0 <= i < |emoji| ==> IsEmoji(emoji[i])
    requires actor != [] && IsTrimmed(actor) && !IsEmoji(actor[0])
    ensures SplitReaction(emoji + actor, senderName) == Some(Reaction(emoji, actor))
  {
    var text := emoji + actor;
    RunOf(text, 0, emoji, IsEmoji);
    assert text[|emoji|..] == actor;
    TrimOfTrimmed(actor);
  }

  /** A span of emoji alone, or followed by white space only, is a reaction of the sender. */
  lemma SplitReactionEmojiOnly(emoji: string, spaces: string, senderName: string)
    requires emoji != [] && forall i :: 0 <= i < |emoji| ==> IsEmoji(emoji[i])
    requires IsBlank(spaces)
    ensures SplitReaction(emoji + spaces, senderName) == Some(Reaction(emoji, senderName))
  {
    var text := emoji + spaces;
    if spaces != [] {
      EmojiIsNotSpace('\U{1F300}');
      assert !IsEmoji(spaces[0]);
    }
    RunOf(text, 0, emoji, IsEmoji);
    assert text[|emoji|..] == spaces;
  }

  /** The usual export span: a heart followed by a name. */
  lemma SplitHeartReaction()
    ensures SplitReaction("\U{2764}Bob Smith", "Alice") == Some(Reaction("\U{2764}", "Bob Smith"))
  {
    var actor := "Bob Smith";
    assert "\U{2764}Bob Smith" == ['\U{2764}'] + actor;
    SplitReactionActor(['\U{2764}'], actor, "Alice");
  }

  /** A leading run of emoji is the reaction; the trimmed rest is the actor, or the
      sender when nothing but white space follows the run. */
  lemma SplitReactionLeading(emoji: string, rest: string, senderName: string)
    requires emoji != [] && forall i :: 0 <= i < |emoji| ==> IsEmoji(emoji[i])
    requires rest == [] || !IsEmoji(rest[0])
    ensures Trim(rest) != [] ==> SplitReaction(emoji + rest, senderName) == Some(Reaction(emoji, Trim(rest)))
    ensures Trim(rest) == [] ==> SplitReaction(emoji + rest, senderName) == Some(Reaction(emoji, senderName))
  {
    var text := emoji + rest;
    RunOf(text, 0, emoji, IsEmoji);
    assert text[..|emoji|] == emoji;
    assert text[|emoji|..] == rest;
  }

  /** A span that does not open with an emoji is a reaction of the sender exactly when it
      is at most three UTF-16 units long and holds an emoji; any other such span gives
      no reaction. */
  lemma SplitReactionShort(text: string, senderName: string)
    requires text == [] || !IsEmoji(text[0])
    ensures Utf16Length(text) <= 3 && (exists i :: 0 <= i < |text| && IsEmoji(text[i])) ==>
              SplitReaction(text, senderName) == Some(Reaction(text, senderName))
    ensures !(Utf16Length(text) <= 3 && exists i :: 0 <= i < |text| && IsEmoji(text[i])) ==>
              SplitReaction(text, senderName).None?
  {
    RunEndAt(text, 0, 0, IsEmoji);
  }

  /** A letter before an emoji: the short-span rule makes the whole span the reaction. */
  lemma SplitShortSpan()
    ensures SplitReaction("a\U{1F600}", "Alice") == Some(Reaction("a\U{1F600}", "Alice"))
    ensures SplitReaction("abc\U{1F600}", "Alice").None?
  {
    var t1 := "a\U{1F600}";
    var t2 := "abc\U{1F600}";
    assert t1[..1] == "a" && t1[..0] == [];
    assert Utf16Length(t1) == 3;
    assert IsEmoji(t1[1]);
    SplitReactionShort(t1, "Alice");
    assert t2[..1][..0] == [] && t2[..2][..1] == t2[..1] && t2[..3][..2] == t2[..2] && t2[..3] == "abc";
    assert Utf16Length(t2[..1]) == 1;
    assert Utf16Length(t2[..2]) == 2;
    assert Utf16Length(t2[..3]) == 3;
    assert Utf16Length(t2) == 5;
    SplitReactionShort(t2, "Alice");
  }

  /** The reactions of a message, one per list item in order; `None` when the section
      has no reaction list. */
  function SectionReactions(spans: Option<seq<string>>, senderName: string): (r: seq<Reaction>)
    ensures spans.None? ==> r == []
    ensures spans.Some? ==> |r| <= |spans.value|
  {
    if spans.None? then [] else ReactionsOf(spans.value, senderName)
  }

  /** The reactions of the list items, in order: each item gives the reaction its
      trimmed text splits into, or nothing. */
  function ReactionsOf(spans: seq<string>, senderName: string): (r: seq<Reaction>)
    ensures |r| <= |spans|
  {
    var items := Map(spans, ItemOf(senderName));
    FlattenAtMostOne(items);
    Flatten(items)
  }

  /** `ItemReactions` for one sender, as a function the map can be stated with. */
  function ItemOf(senderName: string): string -> seq<Reaction>
  {
    span => ItemReactions(span, senderName)
  }

  /** The reaction of one list item, if its trimmed text splits into one. */
  function ItemReactions(span: string, senderName: string): (r: seq<Reaction>)
    ensures |r| <= 1
  {
    match SplitReaction(Trim(span), senderName)
      case Some(reaction) => [reaction]
      case None => []
  }

  /** The reactions of two runs of list items are those of the first, then those of
      the second. */
  lemma ReactionsOfAppend(xs: seq<string>, ys: seq<string>, senderName: string)
    ensures ReactionsOf(xs + ys, senderName) == ReactionsOf(xs, senderName) + ReactionsOf(ys, senderName)
  {
    MapAppend(xs, ys, ItemOf(senderName));
    FlattenAppend(Map(xs, ItemOf(senderName)), Map(ys, ItemOf(senderName)));
  }

  /** One list item gives the reaction its trimmed text splits into, or nothing. */
  lemma ReactionsOfOne(span: string, senderName: string)
    ensures SplitReaction(Trim(span), senderName).None? ==> ReactionsOf([span], senderName) == []
    ensures SplitReaction(Trim(span), senderName).Some? ==>
              ReactionsOf([span], senderName) == [SplitReaction(Trim(span), senderName).value]
  {
    assert Map([span], ItemOf(senderName)) == [ItemReactions(span, senderName)];
  }

  /** A list item that does not split contributes nothing. */
  lemma ReactionsOfSkip(xs: seq<string>, span: string, ys: seq<string>, senderName: string)
    requires SplitReaction(Trim(span), senderName).None?
    ensures ReactionsOf(xs + [span] + ys, senderName) == ReactionsOf(xs + ys, senderName)
  {
    ReactionsOfAppend(xs + [span], ys, senderName);
    ReactionsOfAppend(xs, [span], senderName);
    ReactionsOfOne(span, senderName);
    ReactionsOfAppend(xs, ys, senderName);
  }

  /** When every list item splits, there is one reaction per item, in order. */
  lemma ReactionsOfAllSplit(spans: seq<string>, senderName: string)
    requires forall i :: 0 <= i < |spans| ==> SplitReaction(Trim(spans[i]), senderName).Some?
    ensures var r := ReactionsOf(spans, senderName);
      |r| == |spans| && forall i :: 0 <= i < |spans| ==> r[i] == SplitReaction(Trim(spans[i]), senderName).value
  {
    var items := Map(spans, ItemOf(senderName));
    FlattenSingletons(items);
  }

  // ---------------------------------------------------------------------------
  // Media

  /** An element's `getAttribute('src') || getAttribute('data-src') || ''` inputs. */
  datatype MediaElement = MediaElement(src: Option<string>, dataSrc: Option<string>)

  /** `src || dataSrc || ''`. */
  function SourceOf(e: MediaElement): (s: string)
    ensures s == [] <==> (e.src.None? || e.src.value == []) && (e.dataSrc.None? || e.dataSrc.value == [])
  {
    if e.src.Some? && e.src.value != [] then e.src.value
    else if e.dataSrc.Some? && e.dataSrc.value != [] then e.dataSrc.value
    else []
  }

  /** The image rule: a non-empty source that names no emoji or icon and is no data URL. */
  predicate IsPhotoSource(src: string)
  {
    src != [] && !Contains(src, "emoji") && !Contains(src, "icon") && !StartsWith(src, "data:")
  }

  /** `/\.(m4a|mp3|ogg|wav|aac)$/i`. */
  predicate HasAudioExtension(s: string)
  {
    |s| >= 4 && Lower(s[|s| - 4..]) in [".m4a", ".mp3", ".ogg", ".wav", ".aac"]
  }

  function PhotosOf(imgs: seq<MediaElement>, timestamp: int): (r: seq<Photo>)
    ensures |r| <= |imgs|
    ensures forall p :: p in r ==> IsPhotoSource(p.uri) && p.creationTimestamp == Some(timestamp)
  {
    if imgs == [] then []
    else
      var src := SourceOf(imgs[|imgs| - 1]);
      PhotosOf(imgs[..|imgs| - 1], timestamp) +
        (if IsPhotoSource(src) then [Photo(src, Some(timestamp))] else [])
  }

  function VideosOf(videos: seq<MediaElement>, timestamp: int): (r: seq<Video>)
    ensures |r| <= |videos|
    ensures forall v :: v in r ==> v.uri != [] && v.creationTimestamp == Some(timestamp) && v.thumbnail.None?
  {
    if videos == [] then []
    else
      var src := SourceOf(videos[|videos| - 1]);
      VideosOf(videos[..|videos| - 1], timestamp) +
        (if src != [] then [Video(src, Some(timestamp), None)] else [])
  }

  /** The links selected by `a[href*="audio"], a[href*=".m4a"], a[href*=".mp3"]` whose
      address ends in an audio extension. */
  function AudioLinksOf(hrefs: seq<string>, timestamp: int): (r: seq<AudioFile>)
    ensures |r| <= |hrefs|
    ensures forall a :: a in r ==> HasAudioExtension(a.uri) && a.uri in hrefs
  {
    if hrefs == [] then []
    else
      var href := hrefs[|hrefs| - 1];
      AudioLinksOf(hrefs[..|hrefs| - 1], timestamp) +
        (if IsAudioLink(href) && HasAudioExtension(href) then [AudioFile(href, Some(timestamp))] else [])
  }

  /** The link selector `a[href*="audio"], a[href*=".m4a"], a[href*=".mp3"]`. */
  predicate IsAudioLink(href: string)
  {
    Contains(href, "audio") || Contains(href, ".m4a") || Contains(href, ".mp3")
  }

  function AudioElementsOf(audios: seq<MediaElement>, timestamp: int): (r: seq<AudioFile>)
    ensures |r| <= |audios|
    ensures forall a :: a in r ==> HasAudioExtension(a.uri)
  {
    if audios == [] then []
    else
      var src := SourceOf(audios[|audios| - 1]);
      AudioElementsOf(audios[..|audios| - 1], timestamp) +
        (if src != [] && HasAudioExtension(src) then [AudioFile(src, Some(timestamp))] else [])
  }

  /** Every image whose source passes the photo rule gives a photo, and nothing else does. */
  lemma PhotosOfMembers(imgs: seq<MediaElement>, timestamp: int, src: string)
    ensures Photo(src, Some(timestamp)) in PhotosOf(imgs, timestamp) <==>
              IsPhotoSource(src) && exists i :: 0 <= i < |imgs| && SourceOf(imgs[i]) == src
  {
    if Photo(src, Some(timestamp)) in PhotosOf(imgs, timestamp) {
      PhotosOfOffered(imgs, timestamp, src);
    }
    if IsPhotoSource(src) && exists i :: 0 <= i < |imgs| && SourceOf(imgs[i]) == src {
      var i :| 0 <= i < |imgs| && SourceOf(imgs[i]) == src;
      PhotosOfKept(imgs, timestamp, i);
    }
  }

  /** A photo that comes out has a source some element gives. */
  lemma {:induction false} PhotosOfOffered(imgs: seq<MediaElement>, timestamp: int, src: string)
    requires Photo(src, Some(timestamp)) in PhotosOf(imgs, timestamp)
    ensures IsPhotoSource(src) && exists i :: 0 <= i < |imgs| && SourceOf(imgs[i]) == src
  {
    var init := imgs[..|imgs| - 1];
    if Photo(src, Some(timestamp)) in PhotosOf(init, timestamp) {
      PhotosOfOffered(init, timestamp, src);
      var i :| 0 <= i < |init| && SourceOf(init[i]) == src;
      assert imgs[i] == init[i];
    } else {
      assert SourceOf(imgs[|imgs| - 1]) == src;
    }
  }

  /** An element whose source passes gives a photo. */
  lemma {:induction false} PhotosOfKept(imgs: seq<MediaElement>, timestamp: int, i: nat)
    requires i < |imgs| && IsPhotoSource(SourceOf(imgs[i]))
    ensures Photo(SourceOf(imgs[i]), Some(timestamp)) in PhotosOf(imgs, timestamp)
  {
    var init := imgs[..|imgs| - 1];
    if i < |init| {
      assert init[i] == imgs[i];
      PhotosOfKept(init, timestamp, i);
    }
  }

  /** Every video element with a non-empty source gives a video, and nothing else does. */
  lemma VideosOfMembers(videos: seq<MediaElement>, timestamp: int, src: string)
    ensures Video(src, Some(timestamp), None) in VideosOf(videos, timestamp) <==>
              src != [] && exists i :: 0 <= i < |videos| && SourceOf(videos[i]) == src
  {
    if Video(src, Some(timestamp), None) in VideosOf(videos, timestamp) {
      VideosOfOffered(videos, timestamp, src);
    }
    if src != [] && exists i :: 0 <= i < |videos| && SourceOf(videos[i]) == src {
      var i :| 0 <= i < |videos| && SourceOf(videos[i]) == src;
      VideosOfKept(videos, timestamp, i);
    }
  }

  /** A video that comes out has a source some element gives. */
  lemma {:induction false} VideosOfOffered(videos: seq<MediaElement>, timestamp: int, src: string)
    requires Video(src, Some(timestamp), None) in VideosOf(videos, timestamp)
    ensures src != [] && exists i :: 0 <= i < |videos| && SourceOf(videos[i]) == src
  {
    var init := videos[..|videos| - 1];
    if Video(src, Some(timestamp), None) in VideosOf(init, timestamp) {
      VideosOfOffered(init, timestamp, src);
      var i :| 0 <= i < |init| && SourceOf(init[i]) == src;
      assert videos[i] == init[i];
    } else {
      assert SourceOf(videos[|videos| - 1]) == src;
    }
  }

  /** An element whose source passes gives a video. */
  lemma {:induction false} VideosOfKept(videos: seq<MediaElement>, timestamp: int, i: nat)
    requires i < |videos| && SourceOf(videos[i]) != []
    ensures Video(SourceOf(videos[i]), Some(timestamp), None) in VideosOf(videos, timestamp)
  {
    var init := videos[..|videos| - 1];
    if i < |init| {
      assert init[i] == videos[i];
      VideosOfKept(init, timestamp, i);
    }
  }

  /** Every selected link ending in an audio extension gives an audio file, and nothing
      else does. */
  lemma {:induction false} AudioLinksOfMembers(hrefs: seq<string>, timestamp: int, href: string)
    ensures AudioFile(href, Some(timestamp)) in AudioLinksOf(hrefs, timestamp) <==>
              href in hrefs && IsAudioLink(href) && HasAudioExtension(href)
  {
    if hrefs != [] {
      var init := hrefs[..|hrefs| - 1];
      AudioLinksOfMembers(init, timestamp, href);
      SplitLast(hrefs);
    }
  }

  /** Every audio element whose source ends in an audio extension gives an audio file,
      and nothing else does. */
  lemma AudioElementsOfMembers(audios: seq<MediaElement>, timestamp: int, src: string)
    ensures AudioFile(src, Some(timestamp)) in AudioElementsOf(audios, timestamp) <==>
              HasAudioExtension(src) && exists i :: 0 <= i < |audios| && SourceOf(audios[i]) == src
  {
    if AudioFile(src, Some(timestamp)) in AudioElementsOf(audios, timestamp) {
      AudioElementsOfOffered(audios, timestamp, src);
    }
    if HasAudioExtension(src) && exists i :: 0 <= i < |audios| && SourceOf(audios[i]) == src {
      var i :| 0 <= i < |audios| && SourceOf(audios[i]) == src;
      AudioElementsOfKept(audios, timestamp, i);
    }
  }

  /** A audio file that comes out has a source some element gives. */
  lemma {:induction false} AudioElementsOfOffered(audios: seq<MediaElement>, timestamp: int, src: string)
    requires AudioFile(src, Some(timestamp)) in AudioElementsOf(audios, timestamp)
    ensures HasAudioExtension(src) && exists i :: 0 <= i < |audios| && SourceOf(audios[i]) == src
  {
    var init := audios[..|audios| - 1];
    if AudioFile(src, Some(timestamp)) in AudioElementsOf(init, timestamp) {
      AudioElementsOfOffered(init, timestamp, src);
      var i :| 0 <= i < |init| && SourceOf(init[i]) == src;
      assert audios[i] == init[i];
    } else {
      assert SourceOf(audios[|audios| - 1]) == src;
    }
  }

  /** An element whose source passes gives a audio file. */
  lemma {:induction false} AudioElementsOfKept(audios: seq<MediaElement>, timestamp: int, i: nat)
    requires i < |audios| && HasAudioExtension(SourceOf(audios[i]))
    ensures AudioFile(SourceOf(audios[i]), Some(timestamp)) in AudioElementsOf(audios, timestamp)
  {
    var init := audios[..|audios| - 1];
    if i < |init| {
      assert init[i] == audios[i];
      AudioElementsOfKept(init, timestamp, i);
    }
  }


  predicate NotAudioPathChar(c: char)
  {
    !IsJsSpace(c) && c != '"' && c != '\''
  }

  /** The longest prefix of `run` of at least `min` characters ending in an audio extension. */
  function LongestAudioPrefix(run: string, n: nat): (r: Option<string>)
    requires n <= |run|
    ensures r.Some? ==> HasAudioExtension(r.value) && 5 <= |r.value| <= |run| && r.value == run[..|r.value|]
  {
    if n < 5 then None
    else if HasAudioExtension(run[..n]) then Some(run[..n])
    else LongestAudioPrefix(run, n - 1)
  }

  /** The group of `/audio[\/\\]([^\s"']+\.(m4a|mp3|ogg|wav|aac))/i` matched at `p`. */
  function AudioReferenceAt(content: string, p: nat): Option<string>
  {
    if p + 6 <= |content| && LiteralAt(content, p, "audio") &&
       (content[p + 5] == '/' || content[p + 5] == '\\') then
      var run := content[p + 6..RunEnd(content, p + 6, NotAudioPathChar)];
      LongestAudioPrefix(run, |run|)
    else None
  }

  /** The leftmost audio reference in `content` at or after `p`. */
  function AudioReference(content: string, p: nat): (r: Option<string>)
    ensures r.Some? ==> HasAudioExtension(r.value)
    decreases |content| - p
  {
    if p >= |content| then None
    else if AudioReferenceAt(content, p).Some? then AudioReferenceAt(content, p)
    else AudioReference(content, p + 1)
  }

  /** Audio files: the linked files, then the audio elements, and only when there are
      none of these, a file named in the content. */
  function AudioFilesOf(hrefs: seq<string>, audios: seq<MediaElement>, content: Option<string>,
                        timestamp: int): (r: seq<AudioFile>)
    ensures |AudioLinksOf(hrefs, timestamp) + AudioElementsOf(audios, timestamp)| > 0 ==>
              r == AudioLinksOf(hrefs, timestamp) + AudioElementsOf(audios, timestamp)
    ensures |r| <= |hrefs| + |audios| + 1
  {
    var found := AudioLinksOf(hrefs, timestamp) + AudioElementsOf(audios, timestamp);
    if found == [] && content.Some? && content.value != [] then
      match AudioReference(content.value, 0)
        case Some(uri) => [AudioFile(uri, Some(timestamp))]
        case None => []
    else found
  }

  // ---------------------------------------------------------------------------
  // Sections and the page

  /** What the reader looks at in one `<section>`: the `<h2>` text, the footer time
      stamp text, the texts of the reaction list's spans (`None` without a list), the
      content recovered from the section's text, and the media elements and links. */
  datatype Section = Section(
    senderText: Option<string>,
    footerText: Option<string>,
    reactionSpans: Option<seq<string>>,
    content: Option<string>,
    imgs: seq<MediaElement>,
    videos: seq<MediaElement>,
    linkHrefs: seq<string>,
    audios: seq<MediaElement>)

  /** An HTML export page: its text, the header image if any, its message sections in
      page order, and the conversation found in embedded JSON data, if any. */
  datatype HtmlPage = HtmlPage(
    html: string,
    headerImg: Option<MediaElement>,
    sections: seq<Section>,
    embedded: Option<Conversation>)

  /** The system sender names of the HTML reader, a list of its own. */
  const HtmlSystemNames: seq<string> := ["Group photo", "Unknown", "Word effects", "You", "System"]

  predicate IsHtmlSystemSender(senderName: string)
  {
    MessageUtils.IsSystemName(HtmlSystemNames, senderName)
  }

  /** The trimmed `<h2>` text, or "Unknown" when there is none. */
  function SenderOf(s: Section): (name: string)
    ensures name != [] && IsTrimmed(name)
  {
    var t := if s.senderText.Some? then Trim(s.senderText.value) else [];
    if t == [] then "Unknown" else t
  }

  /** A section without a usable sender is a system section. */
  lemma UnnamedSectionIsSystem(s: Section)
    requires s.senderText.None? || IsBlank(s.senderText.value)
    ensures IsHtmlSystemSender(SenderOf(s))
  {
    assert SenderOf(s) == "Unknown";
    ContainsSelf(Lower("Unknown"));
    assert "Unknown" in HtmlSystemNames;
  }

  /** `/^[^\w]*reacted/`: "reacted" right after the leading non-word characters. */
  predicate ReactedAtStart(content: string)
  {
    var k := RunEnd(content, 0, NotWordChar);
    StartsWith(content[k..], "reacted")
  }

  predicate NotWordChar(c: char)
  {
    !IsWordChar(c)
  }

  /** The content of a system notice the reader skips. */
  predicate IsNoticeContent(content: string)
  {
    || Contains(content, "This message was unsent")
    || Contains(content, "You created")
    || Contains(content, "You deleted")
    || (Contains(content, "reacted") && !ReactedAtStart(content))
  }

  /** A reaction notice naming its actor first, such as "Bob reacted to your message",
      is skipped. */
  lemma ActorReactedIsNotice(actor: string, rest: string)
    requires actor != [] && forall i :: 0 <= i < |actor| ==> IsWordChar(actor[i])
    requires !StartsWith(actor, "reacted")
    ensures IsNoticeContent(actor + " reacted" + rest)
  {
    var c := actor + " reacted" + rest;
    assert c[|actor| + 1..|actor| + 8] == "reacted";
    ContainsAt(c, |actor| + 1, "reacted");
    assert c[0] == actor[0];
    RunEndAt(c, 0, 0, NotWordChar);
    if |actor| >= 7 {
      assert c[..7] == actor[..7];
    } else {
      assert c[|actor|] == ' ' && "reacted"[|actor|] != ' ';
    }
  }

  /** Content that opens with "reacted" is no reaction notice on that account. */
  lemma ReactedFirstIsNotNotice(lead: string, rest: string)
    requires forall i :: 0 <= i < |lead| ==> !IsWordChar(lead[i])
    requires !Contains(lead + "reacted" + rest, "This message was unsent")
    requires !Contains(lead + "reacted" + rest, "You created")
    requires !Contains(lead + "reacted" + rest, "You deleted")
    ensures !IsNoticeContent(lead + "reacted" + rest)
  {
    var c := lead + "reacted" + rest;
    assert c[|lead|..|lead| + 7] == "reacted";
    RunOf(c, 0, lead, NotWordChar);
    assert c[|lead|..][..7] == "reacted";
  }

  /** `list.length > 0 ? list : undefined`. */
  function ListOrNone<T>(xs: seq<T>): (r: Option<seq<T>>)
    ensures r.Some? <==> xs != []
    ensures r.Some? ==> r.value == xs
  {
    if xs == [] then None else Some(xs)
  }

  /** The message record a section from `senderName` yields, or `None` when it is a
      system notice or has neither content, media nor reactions. */
  function SectionMessage(s: Section, senderName: string, clock: HtmlTimestamp.Clock): (r: Option<RawMessage>)
    ensures r.Some? ==> r.value.senderName == senderName
    ensures r.Some? ==> r.value.content.None? || (r.value.content.value != [] && !IsNoticeContent(r.value.content.value))
    // A notice is dropped, and any other content is kept as it is.
    ensures var content := if s.content.Some? then s.content.value else [];
      && (content != [] && IsNoticeContent(content) ==> r.None?)
      && (content != [] && !IsNoticeContent(content) ==> r.Some? && r.value.content == Some(content))
    // A section with neither content, media nor reactions is dropped.
    ensures r.Some? ==> r.value.content.Some? || r.value.reactions.Some? || r.value.photos.Some? ||
                        r.value.videos.Some? || r.value.audioFiles.Some?
    // A section without content is kept when it has media or reactions.
    ensures var content := if s.content.Some? then s.content.value else [];
      var ts := HtmlTimestamp.FooterTimestamp(if s.footerText.Some? then Trim(s.footerText.value) else [], clock);
      content == [] && (SectionReactions(s.reactionSpans, senderName) != [] || PhotosOf(s.imgs, ts) != [] ||
                        VideosOf(s.videos, ts) != [] || AudioFilesOf(s.linkHrefs, s.audios, s.content, ts) != []) ==>
        r.Some?
  {
    var footer := if s.footerText.Some? then Trim(s.footerText.value) else [];
    var timestamp := HtmlTimestamp.FooterTimestamp(footer, clock);
    var reactions := SectionReactions(s.reactionSpans, senderName);
    var photos := PhotosOf(s.imgs, timestamp);
    var videos := VideosOf(s.videos, timestamp);
    var audioFiles := AudioFilesOf(s.linkHrefs, s.audios, s.content, timestamp);
    var content := if s.content.Some? then s.content.value else [];
    if content != [] && IsNoticeContent(content) then None
    else if content != [] || photos != [] || videos != [] || audioFiles != [] || reactions != [] then
      Some(RawMessage(senderName, timestamp, if content != [] then Some(content) else None,
                      ListOrNone(reactions), ListOrNone(photos), ListOrNone(videos), ListOrNone(audioFiles)))
    else None
  }

  /** What one section offers the reader: its sender and the message it would yield. */
  datatype Outcome = Outcome(sender: string, message: Option<RawMessage>)

  /** The message an outcome offers is from the outcome's sender. */
  predicate OutcomeWellFormed(o: Outcome)
  {
    o.message.Some? ==> o.message.value.senderName == o.sender
  }

  function SectionOutcome(s: Section, clock: HtmlTimestamp.Clock): (o: Outcome)
    ensures o.sender == SenderOf(s) && OutcomeWellFormed(o)
  {
    Outcome(SenderOf(s), SectionMessage(s, SenderOf(s), clock))
  }

  /** The outcomes of the sections, in page order. */
  /** The outcome of each section, as a function the fold can be stated with. */
  function OutcomeOf(clock: HtmlTimestamp.Clock): Section -> Outcome
  {
    s => SectionOutcome(s, clock)
  }

  function Outcomes(sections: seq<Section>, clock: HtmlTimestamp.Clock): (os: seq<Outcome>)
    ensures |os| == |sections|
  {
    Map(sections, OutcomeOf(clock))
  }

  /** Every outcome offers a message from its own sender. */
  lemma OutcomesWellFormed(sections: seq<Section>, clock: HtmlTimestamp.Clock)
    ensures AllWellFormed(Outcomes(sections, clock))
  {
    var os := Outcomes(sections, clock);
    forall i | 0 <= i < |os| ensures OutcomeWellFormed(os[i]) {
      assert os[i] == SectionOutcome(sections[i], clock);
    }
  }

  lemma OutcomesSnoc(sections: seq<Section>, i: nat, clock: HtmlTimestamp.Clock)
    requires i < |sections|
    ensures Outcomes(sections[..i + 1], clock) == Outcomes(sections[..i], clock) + [SectionOutcome(sections[i], clock)]
  {
    MapSnoc(sections, OutcomeOf(clock), i);
  }

  predicate AllWellFormed(os: seq<Outcome>)
  {
    forall i :: 0 <= i < |os| ==> OutcomeWellFormed(os[i])
  }

  /** The reader's admission rule: with a non-empty participant set only its members,
      otherwise anyone but a system sender. */
  predicate Admits(participants: seq<string>, senderName: string)
  {
    if participants != [] then senderName in participants else !IsHtmlSystemSender(senderName)
  }

  /** The participant set and the messages gathered so far, in page order. */
  datatype ReaderState = ReaderState(participants: seq<string>, messages: seq<RawMessage>)

  /** One section read against the admission list `gate`: the message of an admitted
      section is kept, and an ordinary sender joins the participant set. */
  function Step(st: ReaderState, o: Outcome, gate: seq<string>): ReaderState
  {
    if !Admits(gate, o.sender) then st
    else match o.message
      case None => st
      case Some(m) =>
        ReaderState(if IsHtmlSystemSender(o.sender) then st.participants else AddUnique(st.participants, o.sender),
                    st.messages + [m])
  }

  /** The sections read as the source reads them: each one is admitted against the
      participant set as it stands, which grows with every kept message. */
  function ReadAsWritten(os: seq<Outcome>, declared: seq<string>): ReaderState
  {
    if os == [] then ReaderState(declared, [])
    else
      var st := ReadAsWritten(os[..|os| - 1], declared);
      Step(st, os[|os| - 1], st.participants)
  }

  /** The sections read as the admission rule intends: against the declared
      participants, or by the system-sender rule when none are declared. */
  function Read(os: seq<Outcome>, declared: seq<string>): ReaderState
  {
    if os == [] then ReaderState(declared, [])
    else Step(Read(os[..|os| - 1], declared), os[|os| - 1], declared)
  }

  /** The sender names of messages, in order. */
  function SendersOf(messages: seq<RawMessage>): (r: seq<string>)
    ensures |r| == |messages|
    ensures forall i :: 0 <= i < |messages| ==> r[i] == messages[i].senderName
  {
    if messages == [] then [] else SendersOf(messages[..|messages| - 1]) + [messages[|messages| - 1].senderName]
  }

  /** With declared participants the set never changes, every kept message comes from a
      declared participant, and no section yields more than one message. */
  lemma {:induction false} ReadDeclared(os: seq<Outcome>, declared: seq<string>)
    requires declared != [] && AllWellFormed(os)
    ensures var st := Read(os, declared);
      && st.participants == declared
      && |st.messages| <= |os|
      && forall i :: 0 <= i < |st.messages| ==> st.messages[i].senderName in declared
  {
    if os != [] {
      ReadDeclared(os[..|os| - 1], declared);
      assert OutcomeWellFormed(os[|os| - 1]);
    }
  }

  /** Without declared participants no message comes from a system sender, and the
      participants are the senders of the kept messages in order of first appearance. */
  lemma {:induction false} ReadUndeclared(os: seq<Outcome>)
    requires AllWellFormed(os)
    ensures var st := Read(os, []);
      && st.participants == Distinct(SendersOf(st.messages))
      && |st.messages| <= |os|
      && forall i :: 0 <= i < |st.messages| ==> !IsHtmlSystemSender(st.messages[i].senderName)
  {
    if os != [] {
      var init := os[..|os| - 1];
      var o := os[|os| - 1];
      ReadUndeclared(init);
      assert OutcomeWellFormed(o);
      var st0 := Read(init, []);
      var st := Read(os, []);
      if st != st0 {
        var m := o.message.value;
        assert st.messages == st0.messages + [m];
        assert SendersOf(st.messages)[..|st0.messages|] == SendersOf(st0.messages);
        assert SendersOf(st.messages)[|st0.messages|] == o.sender;
      }
    }
  }

  /** With declared participants the source's rule and the intended rule agree. */
  lemma {:induction false} AsWrittenAgreesWhenDeclared(os: seq<Outcome>, declared: seq<string>)
    requires declared != [] && AllWellFormed(os)
    ensures ReadAsWritten(os, declared) == Read(os, declared)
  {
    if os != [] {
      AsWrittenAgreesWhenDeclared(os[..|os| - 1], declared);
      ReadDeclared(os[..|os| - 1], declared);
    }
  }

  /** At most one participant, the sender of every message. */
  predicate OneSender(st: ReaderState)
  {
    && |st.participants| <= 1
    && forall i :: 0 <= i < |st.messages| ==> st.participants == [st.messages[i].senderName]
  }

  /** Without declared participants the source's rule keeps the messages of one sender
      only: the first sender kept joins the set, and the set then admits no one else. */
  lemma {:induction false} AsWrittenKeepsOneSender(os: seq<Outcome>)
    requires AllWellFormed(os)
    ensures OneSender(ReadAsWritten(os, []))
  {
    if os != [] {
      var st := ReadAsWritten(os[..|os| - 1], []);
      var o := os[|os| - 1];
      AsWrittenKeepsOneSender(os[..|os| - 1]);
      assert OutcomeWellFormed(o);
      assert st.messages != [] ==> st.participants == [st.messages[0].senderName];
      if Admits(st.participants, o.sender) && o.message.Some? {
        var st1 := Step(st, o, st.participants);
        assert st1.messages == st.messages + [o.message.value];
        if st.participants == [] {
          assert st1.participants == [o.sender];
        } else {
          assert st.participants == [o.sender];
          assert st1.participants == [o.sender];
        }
      }
    }
  }

  /** Two sections from different ordinary senders, each with something to keep: the
      source's rule keeps only the first, the intended rule keeps both. */
  lemma AsWrittenDropsSecondSender(a: Outcome, b: Outcome)
    requires OutcomeWellFormed(a) && OutcomeWellFormed(b)
    requires a.sender != b.sender && !IsHtmlSystemSender(a.sender) && !IsHtmlSystemSender(b.sender)
    requires a.message.Some? && b.message.Some?
    ensures |ReadAsWritten([a, b], []).messages| == 1
    ensures |Read([a, b], []).messages| == 2
  {
    assert [a, b][..1] == [a];
    assert [a][..0] == [];
    var st1 := Step(ReaderState([], []), a, []);
    assert ReadAsWritten([a], []) == st1 && Read([a], []) == st1;
    assert st1.participants == [a.sender] && |st1.messages| == 1;
    assert ReadAsWritten([a, b], []) == Step(st1, b, st1.participants) == st1;
    assert Read([a, b], []) == Step(st1, b, []);
  }

  // ---------------------------------------------------------------------------
  // The page

  const NoMessagesError: string :=
    "No messages found in HTML file. The file may not be a valid Facebook Messenger export."

  /** The group photo: the header image's source, unless it names an emoji or an icon
      or is a data URL. */
  function GroupPhotoOf(header: Option<MediaElement>): (r: Option<string>)
    ensures r.Some? <==> header.Some? && IsPhotoSource(SourceOf(header.value))
    ensures r.Some? ==> r.value == SourceOf(header.value)
  {
    if header.Some? && IsPhotoSource(SourceOf(header.value)) then Some(SourceOf(header.value)) else None
  }

  function ParticipantRecords(names: seq<string>): (r: seq<Participant>)
    ensures |r| == |names| && forall i :: 0 <= i < |names| ==> r[i].name == names[i]
  {
    seq(|names|, i requires 0 <= i < |names| => Participant(names[i]))
  }

  /** The conversation the reader returns for a page, or its error. Without message
      sections the conversation found in embedded JSON data is returned when there is
      one; otherwise the kept messages are returned oldest first, the page listing the
      newest first. */
  function HtmlConversation(page: HtmlPage, clock: HtmlTimestamp.Clock): Result<Conversation>
  {
    if page.sections == [] && page.embedded.Some? then Ok(page.embedded.value)
    else
      var st := Read(Outcomes(page.sections, clock), HtmlParticipants.DeclaredParticipants(page.html));
      if st.messages == [] then Err(NoMessagesError)
      else Ok(Conversation(ParticipantRecords(st.participants), Reverse(st.messages), None,
                           GroupPhotoOf(page.headerImg)))
  }

  /** `parseHTMLFile`. */
  method ParseHtmlFile(page: HtmlPage, clock: HtmlTimestamp.Clock) returns (r: Result<Conversation>)
    ensures r == HtmlConversation(page, clock)
  {
    if page.sections == [] && page.embedded.Some? {
      return Ok(page.embedded.value);
    }
    var declared := HtmlParticipants.DeclaredParticipants(page.html);
    var groupPhoto := GroupPhotoOf(page.headerImg);
    var participants, messages := ReadSections(page.sections, clock, declared);
    if messages == [] {
      return Err(NoMessagesError);
    }
    r := Ok(Conversation(ParticipantRecords(participants), Reverse(messages), None, groupPhoto));
  }

  /** The loop over the sections of `parseHTMLFile`: each admitted section with
      something to keep adds its message, and an ordinary sender joins the set. */
  method ReadSections(sections: seq<Section>, clock: HtmlTimestamp.Clock, declared: seq<string>)
    returns (participants: seq<string>, messages: seq<RawMessage>)
    ensures ReaderState(participants, messages) == Read(Outcomes(sections, clock), declared)
  {
    participants := declared;
    messages := [];
    var i := 0;
    while i < |sections|
      invariant i <= |sections|
      invariant ReaderState(participants, messages) == Read(Outcomes(sections[..i], clock), declared)
    {
      var o := SectionOutcome(sections[i], clock);
      ReadSnoc(sections, i, clock, declared);
      if Admits(declared, o.sender) && o.message.Some? {
        if !IsHtmlSystemSender(o.sender) {
          participants := AddUnique(participants, o.sender);
        }
        messages := messages + [o.message.value];
      }
      i := i + 1;
    }
    assert sections[..i] == sections;
  }

  /** Reading one more section is one more step. */
  lemma ReadSnoc(sections: seq<Section>, i: nat, clock: HtmlTimestamp.Clock, declared: seq<string>)
    requires i < |sections|
    ensures Read(Outcomes(sections[..i + 1], clock), declared) ==
            Step(Read(Outcomes(sections[..i], clock), declared), SectionOutcome(sections[i], clock), declared)
  {
    OutcomesSnoc(sections, i, clock);
    var os := Outcomes(sections[..i + 1], clock);
    assert os[..|os| - 1] == Outcomes(sections[..i], clock);
  }

  /** A message is kept exactly when some section offers it and the admission rule admits
      that section's sender: nothing admitted is lost, and nothing else is kept. */
  lemma ReadMembers(os: seq<Outcome>, declared: seq<string>, m: RawMessage)
    ensures m in Read(os, declared).messages <==>
              exists i :: 0 <= i < |os| && os[i].message == Some(m) && Admits(declared, os[i].sender)
  {
    if m in Read(os, declared).messages {
      ReadKeptWasOffered(os, declared, m);
    }
    if exists i :: 0 <= i < |os| && os[i].message == Some(m) && Admits(declared, os[i].sender) {
      var i :| 0 <= i < |os| && os[i].message == Some(m) && Admits(declared, os[i].sender);
      ReadKeepsAdmitted(os, declared, i);
    }
  }

  /** A kept message is offered by some admitted section. */
  lemma {:induction false} ReadKeptWasOffered(os: seq<Outcome>, declared: seq<string>, m: RawMessage)
    requires m in Read(os, declared).messages
    ensures exists i :: 0 <= i < |os| && os[i].message == Some(m) && Admits(declared, os[i].sender)
  {
    var init := os[..|os| - 1];
    var last := os[|os| - 1];
    StepMessages(Read(init, declared), last, declared);
    if m in Read(init, declared).messages {
      ReadKeptWasOffered(init, declared, m);
      var i :| 0 <= i < |init| && init[i].message == Some(m) && Admits(declared, init[i].sender);
      assert os[i] == init[i];
    } else {
      assert last.message == Some(m) && Admits(declared, last.sender);
    }
  }

  /** Every message offered by an admitted section is kept. Without declared participants
      this is every message of an ordinary sender, which the rule as written does not keep. */
  lemma {:induction false} ReadKeepsAdmitted(os: seq<Outcome>, declared: seq<string>, i: nat)
    requires i < |os| && os[i].message.Some? && Admits(declared, os[i].sender)
    ensures os[i].message.value in Read(os, declared).messages
  {
    var init := os[..|os| - 1];
    StepMessages(Read(init, declared), os[|os| - 1], declared);
    if i < |init| {
      assert init[i] == os[i];
      ReadKeepsAdmitted(init, declared, i);
    }
  }

  /** One step keeps the messages so far and adds the offered one when it is admitted. */
  lemma StepMessages(st: ReaderState, o: Outcome, gate: seq<string>)
    ensures Step(st, o, gate).messages ==
            st.messages + (if Admits(gate, o.sender) && o.message.Some? then [o.message.value] else [])
  {
  }

  /** The messages the outcomes offer are listed newest first, as the page lists them. */
  predicate NewestFirst(os: seq<Outcome>)
  {
    forall i, j :: 0 <= i < j < |os| && os[i].message.Some? && os[j].message.Some? ==>
      os[i].message.value.timestampMs >= os[j].message.value.timestampMs
  }

  /** Every message the outcomes offer is at least `b`. */
  predicate OfferedFrom(os: seq<Outcome>, b: int)
  {
    forall i :: 0 <= i < |os| && os[i].message.Some? ==> os[i].message.value.timestampMs >= b
  }

  /** Reading keeps offered messages only, so a bound on what is offered bounds what is kept. */
  lemma {:induction false} ReadKeepsBound(os: seq<Outcome>, declared: seq<string>, b: int)
    requires OfferedFrom(os, b)
    ensures forall k :: 0 <= k < |Read(os, declared).messages| ==> Read(os, declared).messages[k].timestampMs >= b
  {
    if os != [] {
      var init := os[..|os| - 1];
      assert OfferedFrom(init, b) by {
        forall i | 0 <= i < |init| && init[i].message.Some? ensures init[i].message.value.timestampMs >= b {
          assert init[i] == os[i];
        }
      }
      ReadKeepsBound(init, declared, b);
    }
  }

  /** Reading keeps offered messages in page order, so newest first stays newest first. */
  lemma {:induction false} ReadKeepsOrder(os: seq<Outcome>, declared: seq<string>)
    requires NewestFirst(os)
    ensures forall k, l :: 0 <= k < l < |Read(os, declared).messages| ==>
              Read(os, declared).messages[k].timestampMs >= Read(os, declared).messages[l].timestampMs
  {
    if os != [] {
      var init := os[..|os| - 1];
      var last := os[|os| - 1];
      assert NewestFirst(init) by {
        forall i, j | 0 <= i < j < |init| && init[i].message.Some? && init[j].message.Some?
          ensures init[i].message.value.timestampMs >= init[j].message.value.timestampMs
        {
          assert init[i] == os[i] && init[j] == os[j];
        }
      }
      ReadKeepsOrder(init, declared);
      if last.message.Some? {
        assert OfferedFrom(init, last.message.value.timestampMs) by {
          forall i | 0 <= i < |init| && init[i].message.Some?
            ensures init[i].message.value.timestampMs >= last.message.value.timestampMs
          {
            assert init[i] == os[i];
          }
        }
        ReadKeepsBound(init, declared, last.message.value.timestampMs);
      }
    }
  }

  /** A page whose sections offer their messages newest first yields a conversation
      whose messages run oldest first. */
  lemma HtmlConversationChronological(page: HtmlPage, clock: HtmlTimestamp.Clock)
    requires page.sections != [] || page.embedded.None?
    requires NewestFirst(Outcomes(page.sections, clock))
    ensures var r := HtmlConversation(page, clock);
      r.Ok? ==> forall i, j :: 0 <= i < j < |r.value.messages| ==>
                  r.value.messages[i].timestampMs <= r.value.messages[j].timestampMs
  {
    var st := Read(Outcomes(page.sections, clock), HtmlParticipants.DeclaredParticipants(page.html));
    ReadKeepsOrder(Outcomes(page.sections, clock), HtmlParticipants.DeclaredParticipants(page.html));
    ReversedIsChronological(st.messages);
  }

  /** A page that lists its messages newest first yields them oldest first. */
  lemma ReversedIsChronological(messages: seq<RawMessage>)
    requires forall i, j :: 0 <= i < j < |messages| ==> messages[i].timestampMs >= messages[j].timestampMs
    ensures forall i, j :: 0 <= i < j < |messages| ==>
              Reverse(messages)[i].timestampMs <= Reverse(messages)[j].timestampMs
  {
  }
}
