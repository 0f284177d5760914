/** Shared text utilities: system-sender detection, emoji extraction and the
    cleaning of reaction residue out of message text. */
module MessageUtils {
  import opened Seqs
  import opened Text

  /** The sender names treated as system senders rather than participants. */
  const SystemMessageNames: seq<string> :=
    ["Group photo", "Unknown", "Word effects", "You", "System", "Meta AI", "Group Invite Link: Off"]

  /** A sender is a system sender for `names` when its lower-cased form contains the
      lower-cased form of one of them, or equals one of them exactly. */
  predicate IsSystemName(names: seq<string>, senderName: string)
  {
    exists name :: name in names && (Contains(Lower(senderName), Lower(name)) || senderName == name)
  }

  /** `isSystemMessage`. */
  predicate IsSystemMessage(senderName: string)
  {
    IsSystemName(SystemMessageNames, senderName)
  }

  /** The exact-equality test adds nothing: classification is substring containment
      of the lower-cased forms alone. */
  lemma SystemNameIsContainment(names: seq<string>, senderName: string)
    ensures IsSystemName(names, senderName) <==>
            exists name :: name in names && Contains(Lower(senderName), Lower(name))
  {
    if IsSystemName(names, senderName) {
      var name :| name in names && (Contains(Lower(senderName), Lower(name)) || senderName == name);
      if senderName == name {
        ContainsSelf(Lower(name));
      }
    }
  }

  /** Any sender whose lower-cased name contains "you" or "system" is a system sender. */
  lemma ContainingYouIsSystem(senderName: string)
    requires Contains(Lower(senderName), "you") || Contains(Lower(senderName), "system")
    ensures IsSystemMessage(senderName)
  {
    assert Lower("You") == "you";
    assert Lower("System") == "system";
    assert "You" in SystemMessageNames && "System" in SystemMessageNames;
  }

  /** A participant named "Youssef" is classified as a system sender. */
  lemma YoussefIsSystem()
    ensures IsSystemMessage("Youssef")
  {
    var l := Lower("Youssef");
    assert l == "youssef";
    assert StartsWith(l, "you");
    ContainingYouIsSystem("Youssef");
  }

  /** `text.match(EMOJI_REGEX) || []`: every emoji code point, in order, each as a
      string of its own. */
  function ExtractEmojis(text: string): (r: seq<string>)
    ensures |r| <= |text|
    ensures forall i :: 0 <= i < |r| ==> |r[i]| == 1 && IsEmoji(r[i][0])
  {
    if text == [] then []
    else
      var c := text[|text| - 1];
      ExtractEmojis(text[..|text| - 1]) + (if IsEmoji(c) then [[c]] else [])
  }

  /** Extraction distributes over concatenation: with the single-character case it
      determines the result completely. */
  lemma {:induction false} ExtractEmojisAppend(a: string, b: string)
    ensures ExtractEmojis(a + b) == ExtractEmojis(a) + ExtractEmojis(b)
    decreases |b|
  {
    if b == [] {
      assert a + b == a;
    } else {
      assert (a + b)[..|a + b| - 1] == a + b[..|b| - 1];
      ExtractEmojisAppend(a, b[..|b| - 1]);
    }
  }

  /** Joined back together, the extracted emoji are exactly the emoji code points of
      the text, in their order of appearance. */
  lemma {:induction false} ExtractEmojisAreTheEmoji(text: string)
    ensures Flatten(ExtractEmojis(text)) == Filter(text, IsEmoji)
  {
    if text != [] {
      var init := text[..|text| - 1];
      var c := text[|text| - 1];
      ExtractEmojisAreTheEmoji(init);
      var e := ExtractEmojis(init) + (if IsEmoji(c) then [[c]] else []);
      assert ExtractEmojis(text) == e;
      assert Filter(text, IsEmoji) == Filter(init, IsEmoji) + (if IsEmoji(c) then [c] else []);
      if IsEmoji(c) {
        assert e[..|e| - 1] == ExtractEmojis(init);
        assert Flatten(e) == Flatten(ExtractEmojis(init)) + [c];
      } else {
        assert e == ExtractEmojis(init);
      }
    }
  }

  /** A string with no emoji code point. */
  predicate NoEmoji(s: string)
  {
    forall i :: 0 <= i < |s| ==> !IsEmoji(s[i])
  }

  predicate NotEmoji(c: char)
  {
    !IsEmoji(c)
  }

  /** Global replacement by the empty string: scanning from position `p`, every match
      that `matchLength` reports (a positive length) is dropped and scanning resumes
      after it; where nothing matches, the character is kept. */
  function RemoveMatches(s: string, p: nat, matchLength: (string, nat) -> nat): string
    decreases |s| - p
  {
    if p >= |s| then []
    else
      var n := matchLength(s, p);
      if n > 0 && p + n <= |s| then RemoveMatches(s, p + n, matchLength)
      else [s[p]] + RemoveMatches(s, p + 1, matchLength)
  }

  /** Where nothing matches, global replacement leaves the text unchanged. */
  lemma {:induction false} RemoveNothing(s: string, p: nat, matchLength: (string, nat) -> nat)
    requires p <= |s|
    requires forall q :: p <= q < |s| ==> matchLength(s, q) == 0
    ensures RemoveMatches(s, p, matchLength) == s[p..]
    decreases |s| - p
  {
    if p < |s| {
      RemoveNothing(s, p + 1, matchLength);
    }
  }

  /** Whether position `p` of `s` is a word boundary (`\b`). */
  predicate IsBoundary(s: string, p: nat)
  {
    var before := 0 < p <= |s| && IsWordChar(s[p - 1]);
    var after := p < |s| && IsWordChar(s[p]);
    before != after
  }

  /** The length of a whole-word occurrence (`\bname\b`) of a plain `name` at `p`, or 0. */
  function WholeWordAt(s: string, name: string, p: nat): nat
  {
    if name != [] && p + |name| <= |s| && s[p..p + |name|] == name &&
       IsBoundary(s, p) && IsBoundary(s, p + |name|)
    then |name| else 0
  }

  /** `s.replace(new RegExp('\\b' + name + '\\b', 'g'), '')` for a name with no
      regular-expression metacharacters. */
  function RemoveName(s: string, name: string): string
  {
    RemoveMatches(s, 0, (t, p) => WholeWordAt(t, name, p))
  }

  /** Removes each name in turn, as the `forEach` over the reaction names does. */
  function RemoveNames(s: string, names: seq<string>): string
  {
    if names == [] then s else RemoveName(RemoveNames(s, names[..|names| - 1]), names[|names| - 1])
  }

  predicate NonSpace(c: char)
  {
    !IsJsSpace(c)
  }

  /** The length of a match of `/\w+\s+reacted\s+[^\s]+\s+to\s+your\s+message/i`
      starting at `p`, or 0. Each `+` must take its whole run, because the next
      element cannot match a character of that run, so the match is unique. */
  function ReactedPhraseAt(s: string, p: nat): nat
  {
    var q1 := RunEnd(s, p, IsWordChar);
    var q2 := RunEnd(s, q1, IsJsSpace);
    if q1 == p || q2 == q1 || !LiteralAt(s, q2, "reacted") then 0
    else
      var q3 := RunEnd(s, q2 + 7, IsJsSpace);
      var q4 := RunEnd(s, q3, NonSpace);
      var q5 := RunEnd(s, q4, IsJsSpace);
      if q3 == q2 + 7 || q4 == q3 || q5 == q4 || !LiteralAt(s, q5, "to") then 0
      else
        var q6 := RunEnd(s, q5 + 2, IsJsSpace);
        if q6 == q5 + 2 || !LiteralAt(s, q6, "your") then 0
        else
          var q7 := RunEnd(s, q6 + 4, IsJsSpace);
          if q7 == q6 + 4 || !LiteralAt(s, q7, "message") then 0
          else q7 + 7 - p
  }

  /** The length of a match of `/This message was unsent/i` at `p`, or 0. */
  function UnsentNoticeAt(s: string, p: nat): nat
  {
    if LiteralAt(s, p, "this message was unsent") then 23 else 0
  }

  /** The replace chain after the name removal: reaction phrases, unsent notices and
      emoji removed, white space collapsed and trimmed. */
  function ScrubReactionText(s: string): string
  {
    var noPhrase := RemoveMatches(s, 0, ReactedPhraseAt);
    var noNotice := RemoveMatches(noPhrase, 0, UnsentNoticeAt);
    NormalizeSpaces(Filter(noNotice, NotEmoji))
  }

  /** `cleanMessageText(text, reactionNames)`, names taken in the set's insertion order. */
  method CleanMessageText(text: string, reactionNames: seq<string>) returns (cleaned: string)
    ensures cleaned == ScrubReactionText(RemoveNames(text, reactionNames))
    ensures NoEmoji(cleaned) && NoDoubleSpace(cleaned)
    ensures cleaned == [] || (!IsJsSpace(cleaned[0]) && !IsJsSpace(cleaned[|cleaned| - 1]))
  {
    cleaned := text;
    for i := 0 to |reactionNames|
      invariant cleaned == RemoveNames(text, reactionNames[..i])
    {
      assert reactionNames[..i + 1][..i] == reactionNames[..i];
      cleaned := RemoveName(cleaned, reactionNames[i]);
    }
    assert reactionNames[..|reactionNames|] == reactionNames;
    var noPhrase := RemoveMatches(cleaned, 0, ReactedPhraseAt);
    var noNotice := RemoveMatches(noPhrase, 0, UnsentNoticeAt);
    var noEmoji := Filter(noNotice, NotEmoji);
    ScrubbedHasNoEmoji(noEmoji);
    NormalizeSpacesShape(noEmoji);
    cleaned := NormalizeSpaces(noEmoji);
  }

  /** Normalising the white space of an emoji-free text adds no emoji. */
  lemma ScrubbedHasNoEmoji(s: string)
    requires forall c :: c in s ==> NotEmoji(c)
    ensures NoEmoji(NormalizeSpaces(s))
  {
    var r := NormalizeSpaces(s);
    NormalizeSpacesChars(s);
    forall i | 0 <= i < |r| ensures !IsEmoji(r[i]) {
      if IsEmoji(r[i]) {
        EmojiIsNotSpace(r[i]);
        assert false;
      }
    }
  }

  /** With no reaction names, a text holding no emoji, no reaction phrase and no unsent
      notice only has its white space normalised. */
  lemma CleanPlainTextNormalizesSpaces(text: string)
    requires NoEmoji(text)
    requires forall p :: 0 <= p < |text| ==> ReactedPhraseAt(text, p) == 0 && UnsentNoticeAt(text, p) == 0
    ensures ScrubReactionText(RemoveNames(text, [])) == NormalizeSpaces(text)
  {
    RemoveNothing(text, 0, ReactedPhraseAt);
    RemoveNothing(text, 0, UnsentNoticeAt);
    FilterAll(text, NotEmoji);
  }
}
