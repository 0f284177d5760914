/** Choosing the message files, the chat names and one chat's files from the files of an
    export, keyed by their paths (lib/utils/file-utils.ts). The path-to-file map is a
    JavaScript `Map`, kept as its entries in insertion order. */
module FileUtils {
  import opened Wrappers
  import opened Seqs
  import opened Sorting
  import opened Assoc
  import opened Text

  /** A file of the export: its `name` and what it holds. */
  datatype File = File(name: string, contents: string)

  predicate NotSlash(c: char)
  {
    c != '/'
  }

  /** The length of the run of characters satisfying `p` at the end of `s`. */
  function TrailingRun(s: string, p: char -> bool): (n: nat)
    ensures n <= |s|
    ensures forall i :: |s| - n <= i < |s| ==> p(s[i])
    ensures n < |s| ==> !p(s[|s| - n - 1])
  {
    if s != [] && p(s[|s| - 1]) then
      var n := TrailingRun(s[..|s| - 1], p);
      assert forall i :: |s| - 1 - n <= i < |s| - 1 ==> s[i] == s[..|s| - 1][i];
      n + 1
    else 0
  }

  /** A trailing run is determined by where it starts: the whole of `t` when every
      character of `t` satisfies `p` and the one before it, if any, does not. */
  lemma {:induction false} TrailingRunOf(s: string, t: string, p: char -> bool)
    requires forall i :: 0 <= i < |t| ==> p(t[i])
    requires s != [] ==> !p(s[|s| - 1])
    ensures TrailingRun(s + t, p) == |t|
    decreases |t|
  {
    if t != [] {
      var t' := t[..|t| - 1];
      assert (s + t)[..|s + t| - 1] == s + t';
      TrailingRunOf(s, t', p);
    } else {
      assert s + t == s;
    }
  }

  // ---------------------------------------------------------------------------
  // findMessageFiles
  // ---------------------------------------------------------------------------

  /** The path test of `findMessageFiles`: the path ends, ignoring the case of ASCII
      letters, with `messages/inbox/`, a non-empty segment without `/`, `/message_`,
      one or more digits and `.json`. */
  predicate IsMessagePath(path: string)
  {
    IsLowerMessagePath(Lower(path))
  }

  /** The test on the lower-cased path, read from its end. */
  predicate IsLowerMessagePath(p: string)
  {
    EndsWith(p, ".json") &&
    var b := p[..|p| - 5];
    var d := TrailingRun(b, IsDigit);
    d > 0 && EndsWith(b[..|b| - d], "/message_") &&
    var e := b[..|b| - d - 9];
    var g := TrailingRun(e, NotSlash);
    g > 0 && EndsWith(e[..|e| - g], "messages/inbox/")
  }

  predicate NoSlash(seg: string)
  {
    forall i :: 0 <= i < |seg| ==> seg[i] != '/'
  }

  /** The shape the path test looks for, stated by the parts of the lower-cased path. */
  predicate MessagePathParts(p: string, pre: string, seg: string, num: string)
  {
    p == pre + "messages/inbox/" + seg + "/message_" + num + ".json" &&
    seg != [] && NoSlash(seg) && IsDigits(num)
  }

  /** A path passes the test exactly when its lower-cased form splits into those parts. */
  lemma MessagePathSplit(path: string)
    ensures IsMessagePath(path) <==> exists pre, seg, num :: MessagePathParts(Lower(path), pre, seg, num)
  {
    var p := Lower(path);
    if IsLowerMessagePath(p) {
      MessagePathFound(p);
    }
    if exists pre, seg, num :: MessagePathParts(p, pre, seg, num) {
      var pre, seg, num :| MessagePathParts(p, pre, seg, num);
      MessagePartsPass(p, pre, seg, num);
    }
  }

  /** The parts the test finds in a path it accepts. */
  lemma MessagePathFound(p: string)
    requires IsLowerMessagePath(p)
    ensures exists pre, seg, num :: MessagePathParts(p, pre, seg, num)
  {
    var b := p[..|p| - 5];
    var d := TrailingRun(b, IsDigit);
    var c := b[..|b| - d];
    var e := b[..|b| - d - 9];
    var g := TrailingRun(e, NotSlash);
    var pre, seg, num := e[..|e| - g - 15], e[|e| - g..], b[|b| - d..];
    EndsWithSplit(p, ".json");
    SliceSplit(b, |b| - d);
    assert c[..|c| - 9] == e;
    EndsWithSplit(c, "/message_");
    SliceSplit(e, |e| - g);
    assert e[..|e| - g][..|e| - g - 15] == pre;
    EndsWithSplit(e[..|e| - g], "messages/inbox/");
    assert NoSlash(seg) by {
      forall i | 0 <= i < |seg| ensures seg[i] != '/' {
        assert seg[i] == e[|e| - g + i];
      }
    }
    assert IsDigits(num) by {
      forall i | 0 <= i < |num| ensures IsDigit(num[i]) {
        assert num[i] == b[|b| - d + i];
      }
    }
    assert MessagePathParts(p, pre, seg, num);
  }

  lemma EndsWithSplit(s: string, t: string)
    requires EndsWith(s, t)
    ensures s == s[..|s| - |t|] + t
  {
  }

  lemma SliceSplit(s: string, k: nat)
    requires k <= |s|
    ensures s == s[..k] + s[k..]
  {
  }

  /** Reading a path built from the parts finds those parts again. */
  lemma MessagePartsPass(p: string, pre: string, seg: string, num: string)
    requires MessagePathParts(p, pre, seg, num)
    ensures IsLowerMessagePath(p)
  {
    var e := pre + "messages/inbox/" + seg;
    var b := e + "/message_" + num;
    assert p == b + ".json";
    assert p[..|p| - 5] == b;
    TrailingRunOf(e + "/message_", num, IsDigit);
    assert b[..|b| - |num|] == e + "/message_";
    assert b[..|b| - |num| - 9] == e;
    TrailingRunOf(pre + "messages/inbox/", seg, NotSlash);
    assert e[..|e| - |seg|] == pre + "messages/inbox/";
  }

  /** The files whose paths pass the test, in map order: what the loop pushes. */
  function MessageFiles(files: seq<(string, File)>): seq<File>
  {
    if files == [] then []
    else
      var last := files[|files| - 1];
      MessageFiles(files[..|files| - 1]) + if IsMessagePath(last.0) then [last.1] else []
  }

  /** Some entry whose path passes `ok` holds the file `f`. */
  ghost predicate Holds(files: seq<(string, File)>, f: File, ok: string -> bool)
  {
    exists i :: 0 <= i < |files| && files[i].1 == f && ok(files[i].0)
  }

  lemma HoldsSnoc(files: seq<(string, File)>, f: File, ok: string -> bool)
    requires files != []
    ensures var last := files[|files| - 1];
      Holds(files, f, ok) <==> Holds(files[..|files| - 1], f, ok) || (last.1 == f && ok(last.0))
  {
    var init := files[..|files| - 1];
    if Holds(files, f, ok) {
      var i :| 0 <= i < |files| && files[i].1 == f && ok(files[i].0);
      if i < |init| {
        assert init[i] == files[i];
      }
    }
    if Holds(init, f, ok) {
      var i :| 0 <= i < |init| && init[i].1 == f && ok(init[i].0);
      assert files[i] == init[i];
    }
  }

  /** A file is kept exactly when some entry with a passing path holds it. */
  lemma {:induction false} MessageFilesMembers(files: seq<(string, File)>, f: File)
    ensures f in MessageFiles(files) <==> Holds(files, f, IsMessagePath)
  {
    if files != [] {
      MessageFilesMembers(files[..|files| - 1], f);
      HoldsSnoc(files, f, IsMessagePath);
    }
  }

  /** The kept files are drawn from the map's files, each at most as often as it occurs. */
  lemma {:induction false} MessageFilesFromValues(files: seq<(string, File)>)
    ensures multiset(MessageFiles(files)) <= multiset(Values(files))
  {
    if files != [] {
      var init := files[..|files| - 1];
      MessageFilesFromValues(init);
      assert Values(files) == Values(init) + [files[|files| - 1].1];
    }
  }

  /** The number in a name that ends in `message_<digits>.json` (case matters here),
      as `parseInt` reads the digits; none for any other name. */
  function FileNumber(name: string): Option<nat>
  {
    if !EndsWith(name, ".json") then None
    else
      var b := name[..|name| - 5];
      var d := TrailingRun(b, IsDigit);
      if d > 0 && EndsWith(b[..|b| - d], "message_") then Some(DecimalValue(b[|b| - d..])) else None
  }

  /** `message_<n>.json` carries the number `n`, whatever comes before it. */
  lemma FileNumberOf(pre: string, n: nat)
    ensures FileNumber(pre + "message_" + NatToDecimal(n) + ".json") == Some(n)
  {
    var digits := NatToDecimal(n);
    var name := pre + "message_" + digits + ".json";
    var b := pre + "message_" + digits;
    assert name[..|name| - 5] == b;
    TrailingRunOf(pre + "message_", digits, IsDigit);
    assert b[..|b| - |digits|] == pre + "message_";
    assert b[|b| - |digits|..] == digits;
    DecimalRoundTrip(n);
  }

  /** `a.localeCompare(b)`, taken as code-point order. */
  function CompareNames(a: string, b: string): int
  {
    if a == b then 0 else if StringLe(a, b) then -1 else 1
  }

  /** The comparator of `findMessageFiles`: by file number when both names carry one,
      otherwise by name. */
  function CompareFiles(a: File, b: File): int
  {
    var na := FileNumber(a.name);
    var nb := FileNumber(b.name);
    if na.Some? && nb.Some? then na.value - nb.value else CompareNames(a.name, b.name)
  }

  predicate FileOrder(a: File, b: File)
  {
    CompareFiles(a, b) <= 0
  }

  /** `findMessageFiles`: collect the files whose paths pass the test, then sort them. */
  method FindMessageFiles(files: seq<(string, File)>) returns (r: seq<File>)
    ensures r == SortBy(MessageFiles(files), FileOrder)
  {
    var messageFiles: seq<File> := [];
    for i := 0 to |files|
      invariant messageFiles == MessageFiles(files[..i])
    {
      assert files[..i + 1][..i] == files[..i];
      var (path, file) := files[i];
      if IsMessagePath(path) {
        messageFiles := messageFiles + [file];
      }
    }
    assert files[..|files|] == files;
    r := SortBy(messageFiles, FileOrder);
  }

  function NumberOf(f: File): nat
  {
    FileNumber(f.name).GetOr(0)
  }

  predicate NumberLe(a: File, b: File)
  {
    NumberOf(a) <= NumberOf(b)
  }

  /** The result holds the kept files, and when every kept name carries a file number
      it lists them by ascending number (`message_2` before `message_10`). */
  lemma FindMessageFilesOrder(files: seq<(string, File)>)
    ensures multiset(SortBy(MessageFiles(files), FileOrder)) == multiset(MessageFiles(files))
    ensures (forall f :: f in MessageFiles(files) ==> FileNumber(f.name).Some?) ==>
      var r := SortBy(MessageFiles(files), FileOrder);
      forall i, j :: 0 <= i < j < |r| ==> NumberOf(r[i]) <= NumberOf(r[j])
  {
    var s := MessageFiles(files);
    if forall f :: f in s ==> FileNumber(f.name).Some? {
      assert AgreeOn(FileOrder, NumberLe, s);
      SortByCongruent(s, FileOrder, NumberLe);
      assert TotalPreorder(NumberLe);
      SortBySorted(s, NumberLe);
      var r := SortBy(s, NumberLe);
      assert forall i, j :: 0 <= i < j < |r| ==> NumberLe(r[i], r[j]);
    }
  }

  /** Two numbered files, `message_2.json` and `message_10.json`: the second goes after
      the first, though "1" comes before "2" as text. */
  lemma NumberBeatsText(pre: string, a: File, b: File)
    requires a.name == pre + "message_2.json" && b.name == pre + "message_10.json"
    ensures FileOrder(a, b) && !FileOrder(b, a)
    ensures !StringLe(a.name, b.name)
  {
    SmallDecimals();
    assert a.name == pre + "message_" + NatToDecimal(2) + ".json";
    assert b.name == pre + "message_" + NatToDecimal(10) + ".json";
    FileNumberOf(pre, 2);
    FileNumberOf(pre, 10);
    TenAfterTwoAsText(pre, a.name, b.name);
  }

  lemma SmallDecimals()
    ensures NatToDecimal(2) == "2" && NatToDecimal(10) == "10"
  {
    assert NatToDecimal(1) == "1";
  }

  lemma TenAfterTwoAsText(pre: string, x: string, y: string)
    requires x == pre + "message_2.json" && y == pre + "message_10.json"
    ensures !StringLe(x, y)
  {
    assert x == (pre + "message_") + "2.json";
    assert y == (pre + "message_") + "10.json";
    TextAfterCommonPrefix(pre + "message_", "2.json", "10.json");
  }

  /** Strings that agree up to a point compare as their remainders do. */
  lemma {:induction false} TextAfterCommonPrefix(c: string, x: string, y: string)
    ensures StringLe(c + x, c + y) == StringLe(x, y)
    decreases |c|
  {
    if c == [] {
      assert c + x == x && c + y == y;
    } else {
      assert (c + x)[1..] == c[1..] + x;
      assert (c + y)[1..] == c[1..] + y;
      assert (c + x)[0] == (c + y)[0];
      TextAfterCommonPrefix(c[1..], x, y);
    }
  }

  // ---------------------------------------------------------------------------
  // getAvailableChats
  // ---------------------------------------------------------------------------

  const InboxPrefix: string := "messages/inbox/"

  /** `messages/inbox/` at `i`, followed by a character other than `/` (case matters). */
  predicate InboxAt(path: string, i: nat)
  {
    i + 15 < |path| && path[i..i + 15] == InboxPrefix && path[i + 15] != '/'
  }

  /** Where `path.match(/messages\/inbox\/([^\/]+)/)` finds the pattern, searching from
      `i`: the first place it occurs, if any. */
  function InboxIndexFrom(path: string, i: nat): (r: Option<nat>)
    ensures r.Some? ==> (i <= r.value && InboxAt(path, r.value) &&
      forall k :: i <= k < r.value ==> !InboxAt(path, k))
    ensures r.None? ==> forall k :: i <= k ==> !InboxAt(path, k)
    decreases |path| - i
  {
    if i + 15 >= |path| then None
    else if InboxAt(path, i) then Some(i)
    else InboxIndexFrom(path, i + 1)
  }

  /** The capture of the match: the text after `messages/inbox/` up to the next `/`. */
  function InboxSegment(path: string): Option<string>
  {
    match InboxIndexFrom(path, 0)
    case None => None
    case Some(i) => Some(path[i + 15..RunEnd(path, i + 15, NotSlash)])
  }

  /** The capture is a non-empty run without `/` that ends at a `/` or at the end of the
      path, right after the first `messages/inbox/` that such a run follows. */
  lemma InboxSegmentShape(path: string)
    ensures InboxSegment(path).Some? <==> exists j :: InboxAt(path, j)
    ensures InboxSegment(path).Some? ==>
      var i := InboxIndexFrom(path, 0).value;
      SegmentAt(path, i + 15, InboxSegment(path).value) && forall k: nat :: k < i ==> !InboxAt(path, k)
  {
    if InboxSegment(path).Some? {
      var i := InboxIndexFrom(path, 0).value;
      var seg := InboxSegment(path).value;
      assert path[i + 15..i + 15 + |seg|] == seg;
    }
  }

  /** `seg` is a non-empty run without `/` at `a`, followed by `/` or the end. */
  predicate SegmentAt(path: string, a: nat, seg: string)
  {
    seg != [] && NoSlash(seg) && a + |seg| <= |path| && path[a..a + |seg|] == seg &&
    (a + |seg| < |path| ==> path[a + |seg|] == '/')
  }

  predicate NotUnderscore(c: char)
  {
    c != '_'
  }

  /** `s.split('_')[0]`: the text before the first `_`. */
  function BeforeUnderscore(s: string): (r: string)
  {
    s[..RunEnd(s, 0, NotUnderscore)]
  }

  /** `s.replace(/_/g, ' ')`. */
  function UnderscoresToSpaces(s: string): (r: string)
    ensures |r| == |s|
    ensures '_' !in s ==> r == s
  {
    seq(|s|, i requires 0 <= i < |s| => if s[i] == '_' then ' ' else s[i])
  }

  /** The chat name a path names, if any. */
  function ChatNameOf(path: string): Option<string>
  {
    match InboxSegment(path)
    case None => None
    case Some(seg) => Some(UnderscoresToSpaces(BeforeUnderscore(seg)))
  }

  /** The name is the segment up to its first `_`; the replacement that follows the
      split never finds an `_` to replace. */
  lemma ChatNameIsPrefix(path: string)
    ensures ChatNameOf(path).Some? ==>
      var seg := InboxSegment(path).value;
      var name := ChatNameOf(path).value;
      name == BeforeUnderscore(seg) && name == seg[..|name|] && '_' !in name &&
      (|name| < |seg| ==> seg[|name|] == '_')
  {
    if ChatNameOf(path).Some? {
      var seg := InboxSegment(path).value;
      var n := BeforeUnderscore(seg);
      assert forall i :: 0 <= i < |n| ==> n[i] != '_';
      assert UnderscoresToSpaces(n) == n;
    }
  }

  /** The chat names in the order the loop adds them to the set. */
  function ChatSet(files: seq<(string, File)>): seq<string>
    ensures NoDuplicates(ChatSet(files))
  {
    if files == [] then []
    else
      var s := ChatSet(files[..|files| - 1]);
      match ChatNameOf(files[|files| - 1].0)
      case None => s
      case Some(name) => AddUnique(s, name)
  }

  /** `getAvailableChats`: add each path's chat name to a set, then sort the set. */
  method GetAvailableChats(files: seq<(string, File)>) returns (r: seq<string>)
    ensures r == SortStrings(ChatSet(files))
  {
    var chatSet: seq<string> := [];
    for i := 0 to |files|
      invariant chatSet == ChatSet(files[..i])
    {
      assert files[..i + 1][..i] == files[..i];
      var m := ChatNameOf(files[i].0);
      if m.Some? {
        chatSet := AddUnique(chatSet, m.value);
      }
    }
    assert files[..|files|] == files;
    r := SortStrings(chatSet);
  }

  /** Some entry's path names the chat `name`. */
  ghost predicate Names(files: seq<(string, File)>, name: string)
  {
    exists i :: 0 <= i < |files| && ChatNameOf(files[i].0) == Some(name)
  }

  lemma NamesSnoc(files: seq<(string, File)>, name: string)
    requires files != []
    ensures Names(files, name) <==>
      Names(files[..|files| - 1], name) || ChatNameOf(files[|files| - 1].0) == Some(name)
  {
    var init := files[..|files| - 1];
    if Names(files, name) {
      var i :| 0 <= i < |files| && ChatNameOf(files[i].0) == Some(name);
      if i < |init| {
        assert init[i] == files[i];
      }
    }
    if Names(init, name) {
      var i :| 0 <= i < |init| && ChatNameOf(init[i].0) == Some(name);
      assert files[i] == init[i];
    }
  }

  /** The set holds a name exactly when some path names it. */
  lemma {:induction false} ChatSetMembers(files: seq<(string, File)>, name: string)
    ensures name in ChatSet(files) <==> Names(files, name)
  {
    if files != [] {
      ChatSetMembers(files[..|files| - 1], name);
      NamesSnoc(files, name);
    }
  }

  /** The chats are listed in strictly ascending order, each once, and a name is listed
      exactly when some path names it. */
  lemma AvailableChatsSorted(files: seq<(string, File)>)
    ensures var r := SortStrings(ChatSet(files));
      (forall i, j :: 0 <= i < j < |r| ==> StringLe(r[i], r[j]) && r[i] != r[j]) &&
      (forall name :: name in r <==> Names(files, name))
  {
    SortStringsStrict(ChatSet(files));
    forall name ensures name in ChatSet(files) <==> Names(files, name) {
      ChatSetMembers(files, name);
    }
  }

  // ---------------------------------------------------------------------------
  // filterChatFiles
  // ---------------------------------------------------------------------------

  /** `s.replace(/\s+/g, '_')`: every run of white space becomes one `_`. */
  function Underscored(s: string): (r: string)
  {
    if s == [] then []
    else
      var init := s[..|s| - 1];
      var c := s[|s| - 1];
      if IsJsSpace(c) then
        if init != [] && IsJsSpace(init[|init| - 1]) then Underscored(init) else Underscored(init) + "_"
      else Underscored(init) + [c]
  }

  function SpaceToUnderscore(c: char): char
  {
    if IsJsSpace(c) then '_' else c
  }

  /** Replacing each run by `_` is collapsing each run to one space and then writing
      that space as `_`. */
  lemma {:induction false} UnderscoredIsCollapsed(s: string)
    ensures Underscored(s) == Map(CollapseSpaces(s), SpaceToUnderscore)
  {
    if s != [] {
      var init := s[..|s| - 1];
      UnderscoredIsCollapsed(init);
      var c := CollapseSpaces(init);
      var x := s[|s| - 1];
      if IsJsSpace(x) {
        MapAppendOne(c, ' ', SpaceToUnderscore);
      } else {
        MapAppendOne(c, x, SpaceToUnderscore);
      }
    }
  }

  lemma MapAppendOne<A, B>(c: seq<A>, x: A, f: A -> B)
    ensures Map(c + [x], f) == Map(c, f) + [f(x)]
  {
  }

  /** The result holds no white space, and a name without white space is left as it is. */
  lemma {:induction false} UnderscoredShape(s: string)
    ensures forall i :: 0 <= i < |Underscored(s)| ==> !IsJsSpace(Underscored(s)[i])
    ensures (forall i :: 0 <= i < |s| ==> !IsJsSpace(s[i])) ==> Underscored(s) == s
  {
    if s != [] {
      var init := s[..|s| - 1];
      UnderscoredShape(init);
      assert forall i :: 0 <= i < |init| ==> init[i] == s[i];
    }
  }

  /** The test of `filterChatFiles`: the path holds `inbox/` followed by the name with
      its white space written as `_`, or by the name itself. */
  predicate KeepsPath(path: string, chatName: string)
  {
    Contains(path, "inbox/" + Underscored(chatName)) || Contains(path, "inbox/" + chatName)
  }

  function KeepEntry(chatName: string): ((string, File)) -> bool
  {
    (e: (string, File)) => KeepsPath(e.0, chatName)
  }

  /** `filterChatFiles`: copy into a new map every entry whose path passes the test.
      As the map's keys are distinct, each `set` adds a new entry at the end. */
  method FilterChatFiles(files: seq<(string, File)>, chatName: string) returns (filtered: seq<(string, File)>)
    requires NoDuplicates(Keys(files))
    ensures filtered == Filter(files, KeepEntry(chatName))
  {
    filtered := [];
    for i := 0 to |files|
      invariant filtered == Filter(files[..i], KeepEntry(chatName))
    {
      var (path, file) := files[i];
      FilterChatStep(files, chatName, i);
      if KeepsPath(path, chatName) {
        filtered := Put(filtered, path, file);
      }
    }
    assert files[..|files|] == files;
  }

  /** One turn of the loop: a kept entry's path is not yet in the new map, so `set`
      appends the entry, as the filter does. */
  lemma FilterChatStep(files: seq<(string, File)>, chatName: string, i: nat)
    requires NoDuplicates(Keys(files)) && i < |files|
    ensures var f := Filter(files[..i], KeepEntry(chatName));
      Filter(files[..i + 1], KeepEntry(chatName)) ==
        if KeepsPath(files[i].0, chatName) then Put(f, files[i].0, files[i].1) else f
  {
    var keep := KeepEntry(chatName);
    var f := Filter(files[..i], keep);
    FilterAppend(files[..i], [files[i]], keep);
    TakeSnoc(files, i);
    if KeepsPath(files[i].0, chatName) {
      KeysOfPrefix(files, i);
      FilterKeys(files[..i], keep);
      PutEntries(f, files[i].0, files[i].1);
    }
  }

  /** The keys of a prefix of a map with distinct keys are distinct keys of the map,
      and do not include the next entry's key. */
  lemma KeysOfPrefix<V>(m: seq<(string, V)>, i: nat)
    requires NoDuplicates(Keys(m)) && i < |m|
    ensures NoDuplicates(Keys(m[..i])) && m[i].0 !in Keys(m[..i])
    ensures forall k :: k in Keys(m[..i]) ==> k in Keys(m)
  {
    var ks := Keys(m[..i]);
    forall j | 0 <= j < i ensures ks[j] == Keys(m)[j] {
    }
    assert Keys(m)[i] == m[i].0;
  }

  lemma KeysSnoc<V>(m: seq<(string, V)>, x: (string, V))
    ensures Keys(m + [x]) == Keys(m) + [x.0]
  {
  }

  /** Filtering a map with distinct keys keeps them distinct and adds no key. */
  lemma {:induction false} FilterKeys<V(!new)>(m: seq<(string, V)>, p: ((string, V)) -> bool)
    requires NoDuplicates(Keys(m))
    ensures NoDuplicates(Keys(Filter(m, p)))
    ensures forall k :: k in Keys(Filter(m, p)) ==> k in Keys(m)
  {
    if m != [] {
      var init := m[..|m| - 1];
      var last := m[|m| - 1];
      KeysOfPrefix(m, |m| - 1);
      FilterKeys(init, p);
      if p(last) {
        var f := Filter(init, p);
        var ks := Keys(f) + [last.0];
        KeysSnoc(f, last);
        forall i, j | 0 <= i < j < |ks| ensures ks[i] != ks[j] {
          if j == |f| {
            assert ks[i] == Keys(f)[i];
          } else {
            assert ks[i] == Keys(f)[i] && ks[j] == Keys(f)[j];
          }
        }
        assert Keys(m)[|m| - 1] == last.0;
      }
    }
  }

  /** `map.get(k)` on a map with distinct keys finds `v` exactly when `(k, v)` is an entry. */
  lemma GetIsEntry<K, V>(m: seq<(K, V)>, k: K, v: V)
    requires NoDuplicates(Keys(m))
    ensures Get(m, k) == Some(v) <==> (k, v) in m
  {
    if (k, v) in m {
      var i :| 0 <= i < |m| && m[i] == (k, v);
      GetAt(m, i);
    }
  }

  /** The result is a part of the input map: its entries are the input's entries whose
      paths pass the test, in the input's order, its keys are distinct, and each kept
      path gives the same file as in the input. */
  lemma ChatFilesSubMap(files: seq<(string, File)>, chatName: string)
    requires NoDuplicates(Keys(files))
    ensures var r := Filter(files, KeepEntry(chatName));
      (forall e :: e in r <==> e in files && KeepsPath(e.0, chatName)) &&
      NoDuplicates(Keys(r)) &&
      (forall k :: Get(r, k) == if KeepsPath(k, chatName) then Get(files, k) else None)
  {
    var r := Filter(files, KeepEntry(chatName));
    FilterKeys(files, KeepEntry(chatName));
    forall k ensures Get(r, k) == if KeepsPath(k, chatName) then Get(files, k) else None {
      GetOfFiltered(files, chatName, k);
    }
  }

  lemma GetOfFiltered(files: seq<(string, File)>, chatName: string, k: string)
    requires NoDuplicates(Keys(files)) && NoDuplicates(Keys(Filter(files, KeepEntry(chatName))))
    ensures Get(Filter(files, KeepEntry(chatName)), k) == if KeepsPath(k, chatName) then Get(files, k) else None
  {
    var r := Filter(files, KeepEntry(chatName));
    var g := Get(r, k);
    if g.Some? {
      GetIsEntry(files, k, g.value);
    }
    var h := Get(files, k);
    if KeepsPath(k, chatName) && h.Some? {
      GetIsEntry(r, k, h.value);
    }
  }
}
