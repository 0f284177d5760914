/** The "Participants:" line of an HTML export page and the names it declares. */
module HtmlParticipants {
  import opened Wrappers
  import opened Seqs
  import opened Text

  /** The characters `[^<\n]`. */
  predicate NotTagOrNewline(c: char)
  {
    c != '<' && c != '\n'
  }

  /** The last character of `s[lo..hi]` that is not a newline, scanning down. */
  function LastNonNewline(s: string, lo: nat, hi: nat): (r: Option<char>)
    requires lo <= hi <= |s|
    ensures r.Some? ==> r.value != '\n'
    decreases hi - lo
  {
    if lo == hi then None
    else if s[hi - 1] != '\n' then Some(s[hi - 1])
    else LastNonNewline(s, lo, hi - 1)
  }

  /** The group captured by `/Participants:\s*([^<\n]+)/i` matching at `p`. When the
      white space after the colon runs into `<`, a newline or the end, the engine
      gives back white space one character at a time, so the capture is then the last
      white-space character that is not a newline. */
  function ParticipantsCaptureAt(html: string, p: nat): Option<string>
  {
    if !LiteralAt(html, p, "participants:") then None
    else
      var q := RunEnd(html, p + 13, IsJsSpace);
      if q < |html| && NotTagOrNewline(html[q]) then Some(html[q..RunEnd(html, q, NotTagOrNewline)])
      else match LastNonNewline(html, p + 13, q)
        case Some(c) => Some([c])
        case None => None
  }

  /** The leftmost match of the participants pattern at or after `p`. */
  function ParticipantsCapture(html: string, p: nat): Option<string>
    decreases |html| - p
  {
    if p >= |html| then None
    else if ParticipantsCaptureAt(html, p).Some? then ParticipantsCaptureAt(html, p)
    else ParticipantsCapture(html, p + 1)
  }

  /** The end of the separator `/,\s*(?:and\s+)?/` that starts with the comma at `q`. */
  function SeparatorEnd(s: string, q: nat): (e: nat)
    requires q < |s| && s[q] == ','
    ensures q < e <= |s|
  {
    var a := RunEnd(s, q + 1, IsJsSpace);
    if a + 3 < |s| && s[a..a + 3] == "and" && IsJsSpace(s[a + 3]) then RunEnd(s, a + 3, IsJsSpace) else a
  }

  predicate NotComma(c: char)
  {
    c != ','
  }

  /** `s.split(/,\s*(?:and\s+)?/)`: the text up to the first comma, then the pieces
      of what follows the separator. */
  function SplitParticipants(s: string): (r: seq<string>)
    ensures |r| >= 1
    ensures forall i :: 0 <= i < |r| ==> ',' !in r[i]
    decreases |s|
  {
    var k := RunEnd(s, 0, NotComma);
    if k == |s| then [s]
    else
      var e := SeparatorEnd(s, k);
      [s[..k]] + SplitParticipants(s[e..])
  }

  /** `.map(name => name.trim()).filter(name => name.length > 0)`. */
  function TrimNames(pieces: seq<string>): (r: seq<string>)
    ensures forall i :: 0 <= i < |r| ==> r[i] != [] && IsTrimmed(r[i])
  {
    if pieces == [] then []
    else
      var init := TrimNames(pieces[..|pieces| - 1]);
      var n := Trim(pieces[|pieces| - 1]);
      if n == [] then init
      else
        var r := init + [n];
        assert forall i :: 0 <= i < |init| ==> r[i] == init[i];
        r
  }

  /** The names declared by a captured participants text: split, trimmed, empty ones dropped. */
  function ParticipantNames(captured: string): seq<string>
  {
    TrimNames(SplitParticipants(captured))
  }

  /** The names declared by the page, in order (a set keeps the first of equal names). */
  function DeclaredParticipants(html: string): (r: seq<string>)
    ensures NoDuplicates(r)
    ensures forall n :: n in r ==> n != [] && IsTrimmed(n)
  {
    match ParticipantsCapture(html, 0)
      case None => []
      case Some(captured) =>
        var names := ParticipantNames(captured);
        Distinct(names)
  }

  /** Names joined with ", ". */
  function JoinComma(names: seq<string>): string
    requires names != []
  {
    if |names| == 1 then names[0] else names[0] + ", " + JoinComma(names[1..])
  }

  /** A name the separator cannot swallow or cut: non-empty, trimmed, without a comma,
      and not starting with the word "and" followed by white space. */
  predicate PlainName(n: string)
  {
    && n != [] && !IsJsSpace(n[0]) && !IsJsSpace(n[|n| - 1])
    && ',' !in n
    && !(|n| > 3 && n[..3] == "and" && IsJsSpace(n[3]))
  }

  /** Splitting undoes joining with ", ". */
  lemma {:induction false} SplitJoinComma(names: seq<string>)
    requires names != []
    requires forall i :: 0 <= i < |names| ==> PlainName(names[i])
    ensures SplitParticipants(JoinComma(names)) == names
  {
    var n := names[0];
    assert PlainName(n);
    if |names| == 1 {
      SplitNoComma(n);
    } else {
      var rest := JoinComma(names[1..]);
      assert PlainName(names[1..][0]);
      JoinCommaStart(names[1..]);
      NoAndAtStart(names[1..]);
      SplitStep(n, rest);
      SplitJoinComma(names[1..]);
      assert names == [n] + names[1..];
    }
  }

  /** A name without a comma is not split. */
  lemma SplitNoComma(n: string)
    requires ',' !in n
    ensures SplitParticipants(n) == [n]
  {
    forall k | 0 <= k < |n| ensures NotComma(n[k]) {
      assert n[k] in n;
    }
    RunEndAt(n, 0, |n|, NotComma);
  }

  /** The separator after a comma-free first name ends where the next name starts. */
  lemma SplitStep(n: string, rest: string)
    requires ',' !in n
    requires rest != [] && !IsJsSpace(rest[0])
    requires !(3 < |rest| && rest[..3] == "and" && IsJsSpace(rest[3]))
    ensures SplitParticipants(n + ", " + rest) == [n] + SplitParticipants(rest)
  {
    var s := n + ", " + rest;
    forall k | 0 <= k < |n| ensures NotComma(s[k]) {
      assert s[k] == n[k] && n[k] in n;
    }
    RunEndAt(s, 0, |n|, NotComma);
    assert s[|n| + 2] == rest[0];
    RunEndAt(s, |n| + 1, |n| + 2, IsJsSpace);
    if |n| + 5 < |s| {
      assert s[|n| + 2..|n| + 5] == rest[..3] && s[|n| + 5] == rest[3];
    }
    assert SeparatorEnd(s, |n|) == |n| + 2;
    assert s[|n| + 2..] == rest;
    assert s[..|n|] == n;
  }

  /** A joined list starts with its first name. */
  lemma {:induction false} JoinCommaStart(names: seq<string>)
    requires names != []
    ensures |JoinComma(names)| >= |names[0]| && JoinComma(names)[..|names[0]|] == names[0]
  {
    if |names| > 1 {
      assert JoinComma(names) == names[0] + (", " + JoinComma(names[1..]));
    }
  }

  /** A joined list of plain names does not start with "and" and white space. */
  lemma NoAndAtStart(names: seq<string>)
    requires names != [] && PlainName(names[0])
    ensures var s := JoinComma(names); !(3 < |s| && s[..3] == "and" && IsJsSpace(s[3]))
  {
    var s := JoinComma(names);
    var m := names[0];
    JoinCommaStart(names);
    if |names| > 1 {
      assert s == m + (", " + JoinComma(names[1..]));
      assert s[|m|] == ',';
      if |m| < 3 && 3 < |s| {
        assert s[..3][|m|] == ',';
      }
    }
    if 3 < |s| && |m| > 3 {
      assert s[..3] == m[..3] && s[3] == m[3];
    }
  }

  /** The declared list round-trips: a participants line of plain names joined with ", "
      declares exactly those names. */
  lemma ParticipantNamesJoin(names: seq<string>)
    requires names != []
    requires forall i :: 0 <= i < |names| ==> PlainName(names[i])
    ensures ParticipantNames(JoinComma(names)) == names
  {
    SplitJoinComma(names);
    forall i | 0 <= i < |names| ensures names[i] != [] && IsTrimmed(names[i]) {
      assert PlainName(names[i]);
    }
    TrimNamesOfTrimmed(names);
  }

  /** Trimming and dropping empty names keeps a list of non-empty trimmed names. */
  lemma {:induction false} TrimNamesOfTrimmed(names: seq<string>)
    requires forall i :: 0 <= i < |names| ==> names[i] != [] && IsTrimmed(names[i])
    ensures TrimNames(names) == names
  {
    if names != [] {
      var last := names[|names| - 1];
      TrimOfTrimmed(last);
      TrimNamesOfTrimmed(names[..|names| - 1]);
      assert names == names[..|names| - 1] + [last];
    }
  }
}
