/** Character classes and string operations of JavaScript that the source relies on,
    over strings of Unicode code points. */
module Text {
  import opened Seqs

  /** The characters that JavaScript's `\s` and `String.prototype.trim` treat as white space. */
  predicate IsJsSpace(c: char)
  {
    c == '\t' || c == '\n' || c == '\U{000B}' || c == '\U{000C}' || c == '\r' || c == ' ' ||
    c == '\U{00A0}' || c == '\U{1680}' || ('\U{2000}' <= c <= '\U{200A}') ||
    c == '\U{2028}' || c == '\U{2029}' || c == '\U{202F}' || c == '\U{205F}' ||
    c == '\U{3000}' || c == '\U{FEFF}'
  }

  /** JavaScript's `\w` without the `u` and `i` flags: `[A-Za-z0-9_]`. */
  predicate IsWordChar(c: char)
  {
    ('a' <= c <= 'z') || ('A' <= c <= 'Z') || ('0' <= c <= '9') || c == '_'
  }

  predicate IsDigit(c: char)
  {
    '0' <= c <= '9'
  }

  /** The five code-point ranges of the source's emoji regular expression. */
  predicate IsEmoji(c: char)
  {
    ('\U{1F300}' <= c <= '\U{1F9FF}') || ('\U{2600}' <= c <= '\U{27FF}') ||
    ('\U{1F600}' <= c <= '\U{1F64F}') || ('\U{1F680}' <= c <= '\U{1F6FF}') ||
    ('\U{1F1E0}' <= c <= '\U{1F1FF}')
  }

  /** No emoji code point is white space. */
  lemma EmojiIsNotSpace(c: char)
    requires IsEmoji(c)
    ensures !IsJsSpace(c) && !IsWordChar(c)
  {
  }

  /** Lower-casing of one character (ASCII letters only). */
  function LowerChar(c: char): (r: char)
    ensures IsWordChar(r) <==> IsWordChar(c)
    ensures !('A' <= r <= 'Z')
  {
    if 'A' <= c <= 'Z' then (c as int + 32) as char else c
  }

  /** `s.toLowerCase()` on ASCII letters. */
  function Lower(s: string): (r: string)
    ensures |r| == |s|
    ensures forall i :: 0 <= i < |s| ==> r[i] == LowerChar(s[i])
  {
    seq(|s|, i requires 0 <= i < |s| => LowerChar(s[i]))
  }

  predicate StartsWith(s: string, prefix: string)
  {
    |prefix| <= |s| && s[..|prefix|] == prefix
  }

  predicate EndsWith(s: string, suffix: string)
  {
    |suffix| <= |s| && s[|s| - |suffix|..] == suffix
  }

  /** `s.includes(t)`: `t` occurs in `s` at some position. */
  predicate Contains(s: string, t: string)
    decreases |s|
  {
    StartsWith(s, t) || (s != [] && Contains(s[1..], t))
  }

  lemma ContainsSelf(s: string)
    ensures Contains(s, s)
  {
  }

  /** An occurrence at any position makes `s.includes(t)` hold. */
  lemma {:induction false} ContainsAt(s: string, i: nat, t: string)
    requires i + |t| <= |s| && s[i..i + |t|] == t
    ensures Contains(s, t)
    decreases i
  {
    if i > 0 {
      assert s[1..][i - 1..i - 1 + |t|] == t;
      ContainsAt(s[1..], i - 1, t);
    }
  }

  /** True when every character is white space; `s.trim()` is then empty. */
  predicate IsBlank(s: string)
  {
    forall i :: 0 <= i < |s| ==> IsJsSpace(s[i])
  }

  /** `s.trimStart()`. */
  function TrimStart(s: string): (r: string)
    ensures |r| <= |s| && r == s[|s| - |r|..]
    ensures r == [] || !IsJsSpace(r[0])
    ensures forall i :: 0 <= i < |s| - |r| ==> IsJsSpace(s[i])
  {
    if s != [] && IsJsSpace(s[0]) then
      var r := TrimStart(s[1..]);
      assert forall i :: 1 <= i < |s| - |r| ==> s[i] == s[1..][i - 1];
      r
    else s
  }

  /** `s.trimEnd()`. */
  function TrimEnd(s: string): (r: string)
    ensures |r| <= |s| && r == s[..|r|]
    ensures r == [] || !IsJsSpace(r[|r| - 1])
    ensures forall i :: |r| <= i < |s| ==> IsJsSpace(s[i])
  {
    if s != [] && IsJsSpace(s[|s| - 1]) then
      var r := TrimEnd(s[..|s| - 1]);
      assert forall i :: |r| <= i < |s| - 1 ==> s[i] == s[..|s| - 1][i];
      r
    else s
  }

  /** No white space at either end. */
  predicate IsTrimmed(s: string)
  {
    s == [] || (!IsJsSpace(s[0]) && !IsJsSpace(s[|s| - 1]))
  }

  /** `s.trim()`: the text between the leading and the trailing white space. */
  function Trim(s: string): (r: string)
    ensures |r| <= |s|
    ensures IsTrimmed(r)
    ensures r == [] <==> IsBlank(s)
  {
    var t := TrimStart(s);
    var r := TrimEnd(t);
    if r == [] then
      assert t == [];
      r
    else
      assert r[0] == t[0] == s[|s| - |t|];
      r
  }

  /** Trimming leaves a trimmed string unchanged. */
  lemma TrimOfTrimmed(s: string)
    requires IsTrimmed(s)
    ensures Trim(s) == s
  {
    TrimStartNormal(s);
    TrimEndNormal(s);
  }

  /** Trimming is idempotent. */
  lemma TrimIdempotent(s: string)
    ensures Trim(Trim(s)) == Trim(s)
  {
    TrimOfTrimmed(Trim(s));
  }

  /** The end of the run of characters satisfying `p` that starts at `i`. */
  function RunEnd(s: string, i: nat, p: char -> bool): (j: nat)
    ensures i <= |s| ==> i <= j <= |s|
    ensures i > |s| ==> j == i
    ensures forall k :: i <= k < j ==> p(s[k])
    ensures j < |s| ==> !p(s[j])
    decreases |s| - i
  {
    if i < |s| && p(s[i]) then RunEnd(s, i + 1, p) else i
  }

  /** A run is determined by where it stops: `e` is the run's end when every character
      from `i` up to `e` satisfies `p` and the one at `e`, if any, does not. */
  lemma {:induction false} RunEndAt(s: string, i: nat, e: nat, p: char -> bool)
    requires i <= e <= |s|
    requires forall k :: i <= k < e ==> p(s[k])
    requires e < |s| ==> !p(s[e])
    ensures RunEnd(s, i, p) == e
    decreases e - i
  {
    if i < e {
      RunEndAt(s, i + 1, e, p);
    }
  }

  /** `lit` occurs at `i`, ignoring the case of ASCII letters (`lit` is lower case). */
  predicate LiteralAt(s: string, i: nat, lit: string)
  {
    i + |lit| <= |s| && Lower(s[i..i + |lit|]) == lit
  }

  /** A non-empty string of decimal digits. */
  predicate IsDigits(s: string)
  {
    s != [] && forall i :: 0 <= i < |s| ==> IsDigit(s[i])
  }

  /** A run of characters satisfying `p` that `t` holds at `a`, followed by one that does not. */
  lemma RunOf(t: string, a: nat, seg: string, p: char -> bool)
    requires a + |seg| <= |t| && t[a..a + |seg|] == seg
    requires forall i :: 0 <= i < |seg| ==> p(seg[i])
    requires a + |seg| < |t| ==> !p(t[a + |seg|])
    ensures RunEnd(t, a, p) == a + |seg|
  {
    forall k | a <= k < a + |seg| ensures p(t[k]) {
      assert t[k] == seg[k - a];
    }
    RunEndAt(t, a, a + |seg|, p);
  }

  /** A run of one character. */
  lemma RunOfOne(t: string, a: nat, p: char -> bool)
    requires a < |t| && p(t[a])
    requires a + 1 < |t| ==> !p(t[a + 1])
    ensures RunEnd(t, a, p) == a + 1
  {
    RunEndAt(t, a, a + 1, p);
  }

  /** `s.length`: the number of UTF-16 code units, two for a code point above U+FFFF. */
  function Utf16Length(s: string): (n: nat)
    ensures |s| <= n <= 2 * |s|
  {
    if s == [] then 0
    else Utf16Length(s[..|s| - 1]) + (if s[|s| - 1] as int > 0xFFFF then 2 else 1)
  }

  /** The character of a decimal digit. */
  function DigitChar(d: nat): (c: char)
    requires d < 10
    ensures IsDigit(c) && c as int - '0' as int == d
  {
    ('0' as int + d) as char
  }

  /** `String(n)` for a non-negative integer. */
  function NatToDecimal(n: nat): (r: string)
    ensures |r| >= 1
    ensures forall i :: 0 <= i < |r| ==> IsDigit(r[i])
    ensures n < 10 <==> |r| == 1
  {
    if n < 10 then [DigitChar(n)] else NatToDecimal(n / 10) + [DigitChar(n % 10)]
  }

  /** `String(n)` for an integer. */
  function IntToDecimal(n: int): string
  {
    if n < 0 then "-" + NatToDecimal(-n) else NatToDecimal(n)
  }

  /** The value of a string of decimal digits, as `parseInt` reads it. */
  function DecimalValue(s: string): nat
    requires forall i :: 0 <= i < |s| ==> IsDigit(s[i])
  {
    if s == [] then 0
    else
      assert IsDigit(s[|s| - 1]);
      DecimalValue(s[..|s| - 1]) * 10 + (s[|s| - 1] as int - '0' as int)
  }

  /** Printing a number in decimal and reading it back gives the number. */
  lemma {:induction false} DecimalRoundTrip(n: nat)
    ensures DecimalValue(NatToDecimal(n)) == n
  {
    if n >= 10 {
      DecimalRoundTrip(n / 10);
      var r := NatToDecimal(n);
      assert r[..|r| - 1] == NatToDecimal(n / 10);
    }
  }

  /** `String(n).padStart(2, '0')`. */
  function Pad2(n: nat): (r: string)
    ensures |r| >= 2
    ensures n < 100 ==> |r| == 2
  {
    var d := NatToDecimal(n);
    if n < 10 then "0" + d
    else
      assert n >= 10 ==> |d| >= 2 by {
        if n >= 10 { assert |NatToDecimal(n / 10)| >= 1; }
      }
      assert n < 100 ==> |d| == 2 by {
        if 10 <= n < 100 { assert |NatToDecimal(n / 10)| == 1; }
      }
      d
  }

  /** No two white-space characters are adjacent. */
  predicate NoDoubleSpace(s: string)
  {
    forall i :: 0 <= i < |s| - 1 ==> !(IsJsSpace(s[i]) && IsJsSpace(s[i + 1]))
  }

  predicate NotSpace(c: char)
  {
    !IsJsSpace(c)
  }

  /** `s.replace(/\s+/g, ' ')`: every run of white space becomes one space. */
  function CollapseSpaces(s: string): (r: string)
    ensures r == [] <==> s == []
  {
    if s == [] then []
    else
      var init := s[..|s| - 1];
      var c := s[|s| - 1];
      if IsJsSpace(c) then
        if init != [] && IsJsSpace(init[|init| - 1]) then CollapseSpaces(init)
        else CollapseSpaces(init) + " "
      else CollapseSpaces(init) + [c]
  }

  /** After collapsing, no two white-space characters are adjacent; the output ends
      (and starts) with white space exactly when the input does. */
  lemma {:induction false} CollapseSpacesNoDouble(s: string)
    ensures var r := CollapseSpaces(s);
      && NoDoubleSpace(r)
      && (r != [] ==> (IsJsSpace(r[|r| - 1]) <==> IsJsSpace(s[|s| - 1])))
      && (r != [] ==> (IsJsSpace(r[0]) <==> IsJsSpace(s[0])))
  {
    if s != [] {
      var init := s[..|s| - 1];
      CollapseSpacesNoDouble(init);
      if init != [] {
        assert init[0] == s[0];
      }
    }
  }

  /** Every white-space character is a plain space. */
  predicate SpacesArePlain(s: string)
  {
    forall i :: 0 <= i < |s| && IsJsSpace(s[i]) ==> s[i] == ' '
  }

  /** Every white-space character left after collapsing is a plain space. */
  lemma {:induction false} CollapseSpacesPlain(s: string)
    ensures SpacesArePlain(CollapseSpaces(s))
  {
    if s != [] {
      var init := s[..|s| - 1];
      var c := s[|s| - 1];
      CollapseSpacesPlain(init);
      var p := CollapseSpaces(init);
      var r := CollapseSpaces(s);
      if r != p {
        assert r == p + [r[|r| - 1]];
        assert IsJsSpace(r[|r| - 1]) ==> r[|r| - 1] == ' ';
        forall i | 0 <= i < |r| && IsJsSpace(r[i]) ensures r[i] == ' ' {
          if i < |p| { assert r[i] == p[i]; }
        }
      }
    }
  }

  /** Collapsing keeps the characters other than white space, in order. */
  lemma {:induction false} CollapseSpacesKeepsText(s: string)
    ensures Filter(CollapseSpaces(s), NotSpace) == Filter(s, NotSpace)
  {
    if s != [] {
      var init := s[..|s| - 1];
      var c := s[|s| - 1];
      CollapseSpacesKeepsText(init);
      var p := CollapseSpaces(init);
      var r := CollapseSpaces(s);
      if IsJsSpace(c) {
        assert Filter(s, NotSpace) == Filter(init, NotSpace);
        if r != p {
          assert r == p + " ";
          assert r[..|r| - 1] == p;
          assert Filter(r, NotSpace) == Filter(p, NotSpace);
        }
      } else {
        assert Filter(s, NotSpace) == Filter(init, NotSpace) + [c];
        assert r == p + [c];
        assert r[..|r| - 1] == p;
        assert Filter(r, NotSpace) == Filter(p, NotSpace) + [c];
      }
    }
  }

  /** The white-space normal form: runs collapsed to one space, then trimmed. */
  function NormalizeSpaces(s: string): string
  {
    Trim(CollapseSpaces(s))
  }

  /** Every character of the normal form that is not white space comes from `s`. */
  lemma NormalizeSpacesChars(s: string)
    ensures forall i :: 0 <= i < |NormalizeSpaces(s)| && !IsJsSpace(NormalizeSpaces(s)[i]) ==>
              NormalizeSpaces(s)[i] in s
  {
    forall i | 0 <= i < |NormalizeSpaces(s)| && !IsJsSpace(NormalizeSpaces(s)[i])
      ensures NormalizeSpaces(s)[i] in s
    {
      NormalizedTextChar(s, i);
    }
  }

  lemma NormalizedTextChar(s: string, i: nat)
    requires i < |NormalizeSpaces(s)| && NotSpace(NormalizeSpaces(s)[i])
    ensures NormalizeSpaces(s)[i] in s
  {
    var c := CollapseSpaces(s);
    var t := TrimStart(c);
    var r := TrimEnd(t);
    var k := |c| - |t| + i;
    assert r[i] == t[i] == c[k];
    CollapsedTextChar(s, k);
  }

  lemma CollapsedTextChar(s: string, k: nat)
    requires k < |CollapseSpaces(s)| && NotSpace(CollapseSpaces(s)[k])
    ensures CollapseSpaces(s)[k] in s
  {
    var c := CollapseSpaces(s);
    CollapseSpacesKeepsText(s);
    assert c[k] in c;
    assert c[k] in Filter(c, NotSpace);
    assert c[k] in Filter(s, NotSpace);
  }

  /** The normal form has no two adjacent white-space characters and does not
      start or end with one. */
  lemma NormalizeSpacesShape(s: string)
    ensures NoDoubleSpace(NormalizeSpaces(s)) && IsTrimmed(NormalizeSpaces(s))
  {
    CollapseNoDouble(s);
    NoDoubleSpaceTrim(CollapseSpaces(s));
  }

  lemma CollapseNoDouble(s: string)
    ensures NoDoubleSpace(CollapseSpaces(s))
  {
    CollapseSpacesNoDouble(s);
  }

  lemma NoDoubleSpaceTrim(c: string)
    requires NoDoubleSpace(c)
    ensures NoDoubleSpace(Trim(c))
  {
    var t := TrimStart(c);
    assert t == c[|c| - |t|..|c|];
    NoDoubleSpaceSlice(c, |c| - |t|, |c|);
    var r := TrimEnd(t);
    assert r == t[0..|r|];
    NoDoubleSpaceSlice(t, 0, |r|);
  }

  lemma NoDoubleSpaceSlice(s: string, a: nat, b: nat)
    requires NoDoubleSpace(s) && a <= b <= |s|
    ensures NoDoubleSpace(s[a..b])
  {
    var r := s[a..b];
    forall i | 0 <= i < |r| - 1 ensures !(IsJsSpace(r[i]) && IsJsSpace(r[i + 1])) {
      assert r[i] == s[a + i] && r[i + 1] == s[a + i + 1];
    }
  }

  /** Normalising white space is idempotent. */
  lemma NormalizeSpacesIdempotent(s: string)
    ensures NormalizeSpaces(NormalizeSpaces(s)) == NormalizeSpaces(s)
  {
    var r := NormalizeSpaces(s);
    NormalizeSpacesShape(s);
    NormalizeSpacesPlain(s);
    CollapseNormal(r);
    TrimStartNormal(r);
    TrimEndNormal(r);
  }

  /** The normal form uses only plain spaces. */
  lemma NormalizeSpacesPlain(s: string)
    ensures SpacesArePlain(NormalizeSpaces(s))
  {
    var c := CollapseSpaces(s);
    CollapseSpacesPlain(s);
    var t := TrimStart(c);
    var r := TrimEnd(t);
    forall i | 0 <= i < |r| && IsJsSpace(r[i]) ensures r[i] == ' ' {
      var k := |c| - |t| + i;
      assert r[i] == t[i] == c[k];
      assert 0 <= k < |c| && IsJsSpace(c[k]);
    }
  }

  lemma {:induction false} CollapseNormal(s: string)
    requires NoDoubleSpace(s)
    requires SpacesArePlain(s)
    ensures CollapseSpaces(s) == s
  {
    if s != [] {
      var init := s[..|s| - 1];
      var c := s[|s| - 1];
      NoDoubleSpaceSlice(s, 0, |s| - 1);
      assert SpacesArePlain(init) by {
        forall i | 0 <= i < |init| && IsJsSpace(init[i]) ensures init[i] == ' ' {
          assert init[i] == s[i];
        }
      }
      CollapseNormal(init);
      assert s == init + [c];
      if IsJsSpace(c) {
        assert c == ' ';
        if init != [] {
          assert !IsJsSpace(init[|init| - 1]) by {
            assert init[|init| - 1] == s[|s| - 2];
          }
        }
        assert CollapseSpaces(s) == init + " ";
      } else {
        assert CollapseSpaces(s) == init + [c];
      }
    }
  }

  lemma TrimStartNormal(s: string)
    requires s == [] || !IsJsSpace(s[0])
    ensures TrimStart(s) == s
  {
  }

  lemma TrimEndNormal(s: string)
    requires s == [] || !IsJsSpace(s[|s| - 1])
    ensures TrimEnd(s) == s
  {
  }
}
