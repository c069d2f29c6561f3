/** The clean-up rewrites of a gloss (format_pleco_vocab_for_memrise.py:92-118),
    each a function from text to text.  Every regular-expression substitution
    is a left-to-right scanner with the semantics of Python's `re.sub`: at
    each position the pattern is tried; a match is replaced and scanning
    resumes after it, otherwise one character is kept and scanning moves on. */
module Rewrites {
  import opened Text
  import opened Labels

  // ---------------------------------------------------------------------
  // 1. The glyph filter (format_pleco_vocab_for_memrise.py:8-11, 94)
  // ---------------------------------------------------------------------

  const GlyphStart: int := 55204
  const GlyphEnd: int := 63742

  /** A code point that the dictionary export shows as a question mark. */
  predicate IsBadGlyph(c: char) {
    GlyphStart <= c as int <= GlyphEnd
  }

  /** `s.translate(TRANSLATION_TABLE)`: every bad glyph is deleted. */
  function RemoveBadGlyphs(s: string): (r: string)
    ensures |r| <= |s|
    ensures forall i :: 0 <= i < |r| ==> !IsBadGlyph(r[i])
    ensures forall c :: c in r <==> c in s && !IsBadGlyph(c)
  {
    EraseKeeps(s, IsBadGlyph);
    Erase(s, IsBadGlyph)
  }

  /** The filter works character by character: on a concatenation it is the
      concatenation of the filtered parts.  With `RemoveBadGlyphsOne` this
      fixes the filter entirely, order of the kept characters included. */
  lemma RemoveBadGlyphsAppend(a: string, b: string)
    ensures RemoveBadGlyphs(a + b) == RemoveBadGlyphs(a) + RemoveBadGlyphs(b)
  {
    EraseAppend(a, b, IsBadGlyph);
  }

  /** A single character is deleted exactly when it is a bad glyph. */
  lemma RemoveBadGlyphsOne(c: char)
    ensures RemoveBadGlyphs([c]) == if IsBadGlyph(c) then [] else [c]
  {
    assert [c][1..] == [];
  }

  /** The filter changes the text exactly when the text holds a bad glyph. */
  lemma {:induction false} RemoveBadGlyphsUnchanged(s: string)
    ensures RemoveBadGlyphs(s) == s <==> forall i :: 0 <= i < |s| ==> !IsBadGlyph(s[i])
    decreases |s|
  {
    if s != [] {
      RemoveBadGlyphsUnchanged(s[1..]);
      if IsBadGlyph(s[0]) {
        assert |RemoveBadGlyphs(s)| < |s|;
      } else {
        assert RemoveBadGlyphs(s) == [s[0]] + RemoveBadGlyphs(s[1..]);
        assert forall i :: 1 <= i < |s| ==> s[i] == s[1..][i - 1];
      }
    }
  }

  /** Filtering twice is filtering once. */
  lemma RemoveBadGlyphsIdempotent(s: string)
    ensures RemoveBadGlyphs(RemoveBadGlyphs(s)) == RemoveBadGlyphs(s)
  {
    RemoveBadGlyphsUnchanged(RemoveBadGlyphs(s));
  }

  // ---------------------------------------------------------------------
  // 2. Hyperlink numbers: `([0-9]{2,}[一-鿿]+)` replaced by ''
  //    (format_pleco_vocab_for_memrise.py:33, 98)
  // ---------------------------------------------------------------------

  /** The length of the longest run of ASCII digits that starts `s`. */
  function DigitRun(s: string): (n: nat)
    ensures n <= |s|
    ensures forall i :: 0 <= i < n ==> IsDigit(s[i])
    ensures n < |s| ==> !IsDigit(s[n])
    decreases |s|
  {
    if s != [] && IsDigit(s[0]) then 1 + DigitRun(s[1..]) else 0
  }

  /** The length of the longest run of CJK ideographs that starts `s`. */
  function IdeographRun(s: string): (n: nat)
    ensures n <= |s|
    ensures forall i :: 0 <= i < n ==> IsIdeograph(s[i])
    ensures n < |s| ==> !IsIdeograph(s[n])
    decreases |s|
  {
    if s != [] && IsIdeograph(s[0]) then 1 + IdeographRun(s[1..]) else 0
  }

  /** The length of the match of `[0-9]{2,}[一-鿿]+` at the start of `s`, or 0.
      Both runs are greedy; giving digits back cannot help, since the
      character after a shorter digit run is a digit, not an ideograph. */
  function LinkNumberLength(s: string): (n: nat)
    ensures n <= |s|
    ensures n > 0 ==> n >= 3
  {
    var d := DigitRun(s);
    if 2 <= d < |s| && IsIdeograph(s[d]) then d + IdeographRun(s[d..]) else 0
  }

  /** The pattern, stated directly: two or more digits, then an ideograph. */
  predicate StartsWithLinkNumber(t: string) {
    exists k :: 2 <= k < |t| && IsIdeograph(t[k]) && forall i :: 0 <= i < k ==> IsDigit(t[i])
  }

  /** Some position of `s` starts a hyperlink number. */
  predicate HasLinkNumber(s: string) {
    exists i :: 0 <= i < |s| && StartsWithLinkNumber(s[i..])
  }

  /** The scanner's test is the pattern. */
  lemma LinkNumberLengthIff(t: string)
    ensures LinkNumberLength(t) > 0 <==> StartsWithLinkNumber(t)
  {
    var d := DigitRun(t);
    if StartsWithLinkNumber(t) {
      var k :| 2 <= k < |t| && IsIdeograph(t[k]) && forall i :: 0 <= i < k ==> IsDigit(t[i]);
      assert d == k;
    }
    if LinkNumberLength(t) > 0 {
      assert 2 <= d < |t| && IsIdeograph(t[d]) && forall i :: 0 <= i < d ==> IsDigit(t[i]);
    }
  }

  /** `re.sub(REGEX_NUMBER_CHINESE, '', s)`. */
  function RemoveLinkNumbers(s: string): (r: string)
    ensures |r| <= |s|
    decreases |s|
  {
    if s == [] then []
    else
      var n := LinkNumberLength(s);
      if n > 0 then RemoveLinkNumbers(s[n..]) else [s[0]] + RemoveLinkNumbers(s[1..])
  }

  /** The removal never makes the text longer, and it changes the text
      exactly when a hyperlink number occurs in it. */
  lemma {:induction false} RemoveLinkNumbersUnchanged(s: string)
    ensures RemoveLinkNumbers(s) == s <==> !HasLinkNumber(s)
    decreases |s|
  {
    if s != [] {
      LinkNumberLengthIff(s);
      if LinkNumberLength(s) > 0 {
        assert s[0..] == s;
      } else {
        RemoveLinkNumbersUnchanged(s[1..]);
        HasLinkNumberTail(s);
        ConsSame(s, RemoveLinkNumbers(s[1..]));
      }
    }
  }

  /** A text whose head starts no hyperlink number holds one exactly when
      its tail does. */
  lemma HasLinkNumberTail(s: string)
    requires s != [] && !StartsWithLinkNumber(s)
    ensures HasLinkNumber(s) <==> HasLinkNumber(s[1..])
  {
    assert s[0..] == s;
    if HasLinkNumber(s) {
      var i :| 0 <= i < |s| && StartsWithLinkNumber(s[i..]);
      assert s[1..][i - 1..] == s[i..];
    }
    if HasLinkNumber(s[1..]) {
      var i :| 0 <= i < |s[1..]| && StartsWithLinkNumber(s[1..][i..]);
      assert s[1..][i..] == s[i + 1..];
    }
  }

  /** Keeping the head of `s` in front of `t` gives `s` back exactly when
      `t` is the tail of `s`. */
  lemma ConsSame(s: string, t: string)
    requires s != []
    ensures [s[0]] + t == s <==> t == s[1..]
  {
    if [s[0]] + t == s {
      assert ([s[0]] + t)[1..] == t;
    }
  }

  /** What is removed is made of digits and ideographs: every other
      character survives, in order. */
  lemma {:induction false} RemoveLinkNumbersKeepsText(s: string)
    ensures Erase(RemoveLinkNumbers(s), IsLinkChar) == Erase(s, IsLinkChar)
    decreases |s|
  {
    if s != [] {
      var n := LinkNumberLength(s);
      if n > 0 {
        LinkNumberErased(s);
        RemoveLinkNumbersKeepsText(s[n..]);
      } else {
        RemoveLinkNumbersKeepsText(s[1..]);
        EraseCons(s, RemoveLinkNumbers(s[1..]), IsLinkChar);
      }
    }
  }

  /** A hyperlink number at the head is all digits and ideographs. */
  lemma LinkNumberErased(s: string)
    requires LinkNumberLength(s) > 0
    ensures Erase(s, IsLinkChar) == Erase(s[LinkNumberLength(s)..], IsLinkChar)
  {
    var n := LinkNumberLength(s);
    var d := DigitRun(s);
    var m := s[..n];
    forall i | 0 <= i < n
      ensures IsLinkChar(m[i])
    {
      if i >= d {
        assert m[i] == s[d..][i - d];
      }
    }
    EraseAll(m, IsLinkChar);
    assert s == m + s[n..];
    EraseAppend(m, s[n..], IsLinkChar);
  }

  /** A hyperlink number `m`, `k` digits then ideographs only, at the head
      of the text is deleted, and scanning resumes right after it. */
  lemma LinkNumberDeleted(m: string, k: nat, rest: string)
    requires 2 <= k < |m|
    requires forall i :: 0 <= i < k ==> IsDigit(m[i])
    requires forall i :: k <= i < |m| ==> IsIdeograph(m[i])
    requires rest == [] || !IsIdeograph(rest[0])
    ensures RemoveLinkNumbers(m + rest) == RemoveLinkNumbers(rest)
  {
    var s := m + rest;
    LinkNumberLengthOf(m, k, rest);
    assert s[|m|..] == rest;
  }

  /** The match at the head of `m + rest` is `m`. */
  lemma LinkNumberLengthOf(m: string, k: nat, rest: string)
    requires 2 <= k < |m|
    requires forall i :: 0 <= i < k ==> IsDigit(m[i])
    requires forall i :: k <= i < |m| ==> IsIdeograph(m[i])
    requires rest == [] || !IsIdeograph(rest[0])
    ensures LinkNumberLength(m + rest) == |m|
  {
    var s := m + rest;
    assert s[k] == m[k] && !IsDigit(s[k]);
    assert DigitRun(s) == k;
    var u := s[k..];
    assert forall i :: 0 <= i < |m| - k ==> u[i] == m[k + i];
    if rest != [] {
      assert u[|m| - k] == rest[0];
    }
    assert IdeographRun(u) == |m| - k;
  }

  /** Text at none of whose positions a hyperlink number starts is kept
      as it is, and the text after it is scanned on its own. */
  lemma {:induction false} RemoveLinkNumbersPlainPrefix(a: string, t: string)
    requires forall i :: 0 <= i < |a| ==> !StartsWithLinkNumber((a + t)[i..])
    ensures RemoveLinkNumbers(a + t) == a + RemoveLinkNumbers(t)
    decreases |a|
  {
    if a == [] {
      assert a + t == t;
    } else {
      var s := a + t;
      assert s[0..] == s;
      RemoveLinkNumbersKeepsHead(s);
      assert s[0] == a[0] && s[1..] == a[1..] + t;
      forall i | 0 <= i < |a[1..]|
        ensures !StartsWithLinkNumber((a[1..] + t)[i..])
      {
        assert (a[1..] + t)[i..] == s[i + 1..];
      }
      RemoveLinkNumbersPlainPrefix(a[1..], t);
      ConsAppend(a, RemoveLinkNumbers(t));
    }
  }

  /** A head where no hyperlink number starts is kept, digit or not, and
      the scan moves on by one character. */
  lemma RemoveLinkNumbersKeepsHead(s: string)
    requires s != [] && !StartsWithLinkNumber(s)
    ensures RemoveLinkNumbers(s) == [s[0]] + RemoveLinkNumbers(s[1..])
  {
    LinkNumberLengthIff(s);
  }

  /** No hyperlink number starts inside text that holds no digit. */
  lemma DigitFreeStartsNone(a: string, t: string)
    requires forall i :: 0 <= i < |a| ==> !IsDigit(a[i])
    ensures forall i :: 0 <= i < |a| ==> !StartsWithLinkNumber((a + t)[i..])
  {
    forall i | 0 <= i < |a|
      ensures !StartsWithLinkNumber((a + t)[i..])
    {
      assert (a + t)[i..][0] == a[i];
    }
  }

  /** A single digit followed by a non-digit starts no hyperlink number:
      both characters are kept, and the scan goes on after them. */
  lemma LoneDigitKept(s: string)
    requires |s| >= 2 && IsDigit(s[0]) && !IsDigit(s[1])
    ensures RemoveLinkNumbers(s) == s[..2] + RemoveLinkNumbers(s[2..])
  {
    var u := s[1..];
    NonDigitStartsNone(s, 1);
    RemoveLinkNumbersKeepsHead(s);
    NonDigitStartsNone(u, 0);
    RemoveLinkNumbersKeepsHead(u);
    assert u[1..] == s[2..];
    TwoHeads(s, RemoveLinkNumbers(s[2..]));
  }

  /** The first two characters of `s`, one at a time, in front of `r`. */
  lemma TwoHeads(s: string, r: string)
    requires |s| >= 2
    ensures [s[0]] + ([s[1..][0]] + r) == s[..2] + r
  {
    assert s[..2] == [s[0], s[1]];
  }

  /** A non-digit among the first two characters rules out a hyperlink
      number there. */
  lemma NonDigitStartsNone(s: string, j: nat)
    requires j < 2 && j < |s| && !IsDigit(s[j])
    ensures !StartsWithLinkNumber(s)
  {
  }

  predicate IsLinkChar(c: char) {
    IsDigit(c) || IsIdeograph(c)
  }

  /** Erasing every character leaves nothing. */
  lemma {:induction false} EraseAll(s: string, p: char -> bool)
    requires forall i :: 0 <= i < |s| ==> p(s[i])
    ensures Erase(s, p) == []
    decreases |s|
  {
    if s != [] {
      EraseAll(s[1..], p);
    }
  }

  // ---------------------------------------------------------------------
  // 3. Pinyin links: `([a-zA-Z]{1,1}[0-9]{1,1}(?=[一-鿿]))` replaced by `\1 `
  //    (format_pleco_vocab_for_memrise.py:34, 101)
  // ---------------------------------------------------------------------

  /** A letter and a digit stand at `i`, and an ideograph comes next. */
  predicate PinyinLinkAt(s: string, i: int) {
    0 <= i && i + 2 < |s| && IsAsciiLetter(s[i]) && IsDigit(s[i + 1]) && IsIdeograph(s[i + 2])
  }

  /** The number of positions of `s` at which a pinyin link stands. */
  function CountPinyinLinks(s: string): nat
    decreases |s|
  {
    if |s| < 3 then 0 else (if PinyinLinkAt(s, 0) then 1 else 0) + CountPinyinLinks(s[1..])
  }

  /** `re.sub(REGEX_PINYIN_CHINESE, r'\1 ', s)`: a space after each link.
      The ideograph is only looked at, so scanning resumes at it. */
  function SpacePinyinLinks(s: string): (r: string)
    decreases |s|
  {
    if |s| < 3 then s
    else if PinyinLinkAt(s, 0) then s[..2] + " " + SpacePinyinLinks(s[2..])
    else [s[0]] + SpacePinyinLinks(s[1..])
  }

  /** The step inserts exactly one character per link position, deletes
      nothing (the input is a subsequence of the output), and what it inserts
      is spaces only, each right after the digit of its link. */
  lemma SpacePinyinLinksInserts(s: string)
    ensures |SpacePinyinLinks(s)| == |s| + CountPinyinLinks(s)
    ensures IsSubsequence(s, SpacePinyinLinks(s))
    ensures Erase(SpacePinyinLinks(s), IsBlank) == Erase(s, IsBlank)
    ensures SpacePinyinLinks(s) == SpacedFrom(s, 0)
  {
    SpacePinyinLinksSpaced(s);
    SpacePinyinLinksLength(s);
    SpacePinyinLinksKeeps(s);
    SpacePinyinLinksAddsBlanks(s);
  }

  /** One character more per link. */
  lemma {:induction false} SpacePinyinLinksLength(s: string)
    ensures |SpacePinyinLinks(s)| == |s| + CountPinyinLinks(s)
    decreases |s|
  {
    if |s| >= 3 {
      if PinyinLinkAt(s, 0) {
        SpacePinyinLinksLength(s[2..]);
        assert !PinyinLinkAt(s[1..], 0);
        assert s[1..][1..] == s[2..];
      } else {
        SpacePinyinLinksLength(s[1..]);
      }
    }
  }

  /** The input is a subsequence of the output. */
  lemma {:induction false} SpacePinyinLinksKeeps(s: string)
    ensures IsSubsequence(s, SpacePinyinLinks(s))
    decreases |s|
  {
    var r := SpacePinyinLinks(s);
    if |s| < 3 {
      SubsequenceRefl(s);
    } else if PinyinLinkAt(s, 0) {
      var t := SpacePinyinLinks(s[2..]);
      SpacePinyinLinksKeeps(s[2..]);
      assert r[0] == s[0] && r[1..][0] == s[1];
      assert s[1..][1..] == s[2..];
      assert r[1..][1..] == [' '] + t && ([' '] + t)[1..] == t;
      assert s[2..][0] != ' ';
    } else {
      var t := SpacePinyinLinks(s[1..]);
      SpacePinyinLinksKeeps(s[1..]);
      assert r[0] == s[0] && r[1..] == t;
    }
  }

  /** What is inserted is spaces only. */
  lemma {:induction false} SpacePinyinLinksAddsBlanks(s: string)
    ensures Erase(SpacePinyinLinks(s), IsBlank) == Erase(s, IsBlank)
    decreases |s|
  {
    var r := SpacePinyinLinks(s);
    if |s| >= 3 {
      if PinyinLinkAt(s, 0) {
        SpacePinyinLinksAddsBlanks(s[2..]);
        InsertBlankErase(s, 2, SpacePinyinLinks(s[2..]));
      } else {
        var t := SpacePinyinLinks(s[1..]);
        SpacePinyinLinksAddsBlanks(s[1..]);
        assert r[0] == s[0] && r[1..] == t;
      }
    }
  }

  /** A space put in after the first `k` characters, then the rest of the
      scan, with spaces erased. */
  lemma InsertBlankErase(s: string, k: nat, t: string)
    requires k <= |s| && Erase(t, IsBlank) == Erase(s[k..], IsBlank)
    ensures Erase(s[..k] + " " + t, IsBlank) == Erase(s, IsBlank)
  {
    var a, b := s[..k], " " + t;
    assert a + " " + t == a + b;
    EraseAppend(a, b, IsBlank);
    assert b[0] == ' ' && b[1..] == t;
    assert Erase(b, IsBlank) == Erase(t, IsBlank);
    assert a + s[k..] == s;
    EraseAppend(a, s[k..], IsBlank);
  }

  lemma {:induction false} SubsequenceRefl(s: string)
    ensures IsSubsequence(s, s)
    decreases |s|
  {
    if s != [] {
      SubsequenceRefl(s[1..]);
    }
  }

  /** Text with no pinyin link is left as it is. */
  lemma SpacePinyinLinksUnchanged(s: string)
    ensures SpacePinyinLinks(s) == s <==> CountPinyinLinks(s) == 0
  {
    SpacePinyinLinksInserts(s);
    if CountPinyinLinks(s) == 0 {
      SubsequenceSameLength(s, SpacePinyinLinks(s));
    }
  }

  /** The rule read position by position, from index `k` of `s` on: every
      character is kept, in order, and the digit of each link (the
      character after its letter) is followed by one space. */
  function SpacedFrom(s: string, k: nat): string
    requires k <= |s|
    decreases |s| - k
  {
    if k == |s| then []
    else if k >= 1 && PinyinLinkAt(s, k - 1) then [s[k], ' '] + SpacedFrom(s, k + 1)
    else [s[k]] + SpacedFrom(s, k + 1)
  }

  /** The scan puts each space right after the digit of its link and
      nowhere else: it agrees with the position-by-position rule. */
  lemma SpacePinyinLinksSpaced(s: string)
    ensures SpacePinyinLinks(s) == SpacedFrom(s, 0)
  {
    SpacePinyinLinksFrom(s, 0);
    assert s[0..] == s;
  }

  /** The scan started at `k`, where the search can stand (not right after
      a link's letter), gives the rule from `k` on. */
  lemma {:induction false} SpacePinyinLinksFrom(s: string, k: nat)
    requires k <= |s| && (k == 0 || !PinyinLinkAt(s, k - 1))
    ensures SpacePinyinLinks(s[k..]) == SpacedFrom(s, k)
    decreases |s| - k
  {
    var u := s[k..];
    if |u| < 3 {
      ShortTailSpaced(s, k);
    } else if PinyinLinkAt(u, 0) {
      assert PinyinLinkAt(s, k) && !PinyinLinkAt(s, k + 1);
      SpacePinyinLinksFrom(s, k + 2);
      assert u[..2] == [s[k], s[k + 1]] && u[2..] == s[k + 2..];
      SpacedFromPlain(s, k);
      SpacedFromAfterLink(s, k + 1);
      LinkPieces(s[k], s[k + 1], SpacedFrom(s, k + 2));
    } else {
      assert !PinyinLinkAt(s, k);
      SpacePinyinLinksFrom(s, k + 1);
      assert u[1..] == s[k + 1..];
      SpacedFromPlain(s, k);
    }
  }

  /** The digit of a link is kept and a space follows it. */
  lemma SpacedFromAfterLink(s: string, k: nat)
    requires 1 <= k < |s| && PinyinLinkAt(s, k - 1)
    ensures SpacedFrom(s, k) == [s[k], ' '] + SpacedFrom(s, k + 1)
  {
  }

  /** The letter, then the digit and its space, regrouped. */
  lemma LinkPieces(x: char, y: char, t: string)
    ensures [x] + ([y, ' '] + t) == [x, y] + " " + t
  {
  }

  /** Where no link ends just before, the rule keeps one character. */
  lemma SpacedFromPlain(s: string, k: nat)
    requires k < |s| && (k == 0 || !PinyinLinkAt(s, k - 1))
    ensures SpacedFrom(s, k) == [s[k]] + SpacedFrom(s, k + 1)
  {
  }

  /** Fewer than three characters from `k` on hold no link. */
  lemma {:induction false} ShortTailSpaced(s: string, k: nat)
    requires k <= |s| && |s| - k < 3 && (k == 0 || !PinyinLinkAt(s, k - 1))
    ensures SpacedFrom(s, k) == s[k..]
    decreases |s| - k
  {
    if k < |s| {
      ShortTailSpaced(s, k + 1);
      assert s[k..] == [s[k]] + s[k + 1..];
    }
  }

  /** A letter, a digit and an ideograph: a space goes in after the digit,
      and the scan goes on at the ideograph. */
  lemma PinyinLinkFront(a: char, d: char, c: char, rest: string)
    requires IsAsciiLetter(a) && IsDigit(d) && IsIdeograph(c)
    ensures SpacePinyinLinks([a, d, c] + rest) == [a, d, ' '] + SpacePinyinLinks([c] + rest)
  {
    var s := [a, d, c] + rest;
    assert PinyinLinkAt(s, 0);
    assert s[..2] == [a, d] && s[2..] == [c] + rest;
  }

  /** Text without an ASCII letter starts no link: it is kept as it is, and
      the text after it is scanned on its own. */
  lemma {:induction false} SpacePinyinLinksPlainPrefix(a: string, t: string)
    requires forall i :: 0 <= i < |a| ==> !IsAsciiLetter(a[i])
    ensures SpacePinyinLinks(a + t) == a + SpacePinyinLinks(t)
    decreases |a|
  {
    if a != [] {
      var s := a + t;
      if |s| >= 3 {
        assert !PinyinLinkAt(s, 0);
        assert s[1..] == a[1..] + t;
        SpacePinyinLinksPlainPrefix(a[1..], t);
        ConsAppend(a, SpacePinyinLinks(t));
      } else {
        assert SpacePinyinLinks(t) == t;
      }
    } else {
      assert a + t == t;
    }
  }

  /** A subsequence as long as the whole is the whole. */
  lemma {:induction false} SubsequenceSameLength(a: string, b: string)
    requires IsSubsequence(a, b) && |a| == |b|
    ensures a == b
    decreases |b|
  {
    if a != [] {
      if a[0] == b[0] {
        SubsequenceSameLength(a[1..], b[1..]);
        assert a == [a[0]] + a[1..] && b == [b[0]] + b[1..];
      } else {
        SubsequenceShorter(a, b[1..]);
      }
    }
  }

  lemma {:induction false} SubsequenceShorter(a: string, b: string)
    requires IsSubsequence(a, b)
    ensures |a| <= |b|
    decreases |b|
  {
    if a != [] {
      if a[0] == b[0] {
        SubsequenceShorter(a[1..], b[1..]);
      } else {
        SubsequenceShorter(a, b[1..]);
      }
    }
  }

  // ---------------------------------------------------------------------
  // 4. Topic labels: `(literary|linguistics|...)(?=[\s])` replaced by `(\1)`
  //    (format_pleco_vocab_for_memrise.py:18-31, 105)
  // ---------------------------------------------------------------------

  /** The label with index `j` of `ls` starts `s` and whitespace follows
      it. */
  predicate LabelMatchesAt(ls: seq<string>, s: string, j: int) {
    0 <= j < |ls| && StartsWith(s, ls[j]) && |ls[j]| < |s| && IsSpace(s[|ls[j]|])
  }

  /** The alternative an alternation of the labels `ls` takes at the start of
      `s`: the first label, in list order from `j` on, that matches with its
      lookahead. */
  function FirstMatchFrom(ls: seq<string>, s: string, j: nat): (r: Option<nat>)
    ensures r.Some? ==> j <= r.value && LabelMatchesAt(ls, s, r.value)
    ensures r.Some? ==> forall k :: j <= k < r.value ==> !LabelMatchesAt(ls, s, k)
    ensures r.None? ==> forall k :: j <= k < |ls| ==> !LabelMatchesAt(ls, s, k)
    decreases |ls| - j
  {
    if j >= |ls| then None
    else if LabelMatchesAt(ls, s, j) then Some(j)
    else FirstMatchFrom(ls, s, j + 1)
  }

  /** The length of the label that the alternation of the plain labels `ls`
      matches at the start of `s`, or 0 where none matches. */
  function MatchLength(ls: seq<string>, s: string): (n: nat)
    requires forall j :: 0 <= j < |ls| ==> IsPlainLabel(ls[j])
    ensures n > 0 <==> exists j :: LabelMatchesAt(ls, s, j)
    ensures n > 0 ==> exists j :: (LabelMatchesAt(ls, s, j) && n == |ls[j]| &&
      forall k :: 0 <= k < j ==> !LabelMatchesAt(ls, s, k))
    ensures n > 0 ==> n < |s| && IsSpace(s[n]) && forall i :: 0 <= i < n ==> !IsParen(s[i])
  {
    match FirstMatchFrom(ls, s, 0)
    case Some(j) =>
      assert IsPlainLabel(ls[j]);
      assert s[..|ls[j]|] == ls[j];
      |ls[j]|
    case None => 0
  }

  /** The length of the topic label the alternation matches at the start of
      `s`, or 0 where none matches: the label is the first in list order that
      starts `s` with whitespace after it. */
  function TopicLength(s: string): (n: nat)
    ensures n > 0 <==> exists j :: LabelMatchesAt(Topics, s, j)
    ensures n > 0 ==> exists j :: (LabelMatchesAt(Topics, s, j) && n == |Topics[j]| &&
      forall k :: 0 <= k < j ==> !LabelMatchesAt(Topics, s, k))
    ensures n > 0 ==> n < |s| && IsSpace(s[n]) && forall i :: 0 <= i < n ==> !IsParen(s[i])
  {
    LabelsArePlain();
    MatchLength(Topics, s)
  }

  /** The order of the alternation matters: at "Chinese medicine" followed
      by whitespace the whole label matches, not the later "medicine", and no
      earlier label starts with its capital C. */
  lemma ChineseMedicineFirst(s: string)
    requires StartsWith(s, "Chinese medicine") && |s| > 16 && IsSpace(s[16])
    ensures TopicLength(s) == 16
  {
    TopicAt(7);
    assert Topics[7] == "Chinese medicine";
    assert LabelMatchesAt(Topics, s, 7);
    forall k | 0 <= k < 7
      ensures !LabelMatchesAt(Topics, s, k)
    {
      TopicAt(k);
      EarlyTopicInitial(k, s);
    }
    var n := TopicLength(s);
    var j :| LabelMatchesAt(Topics, s, j) && n == |Topics[j]| &&
      forall k :: 0 <= k < j ==> !LabelMatchesAt(Topics, s, k);
    assert j == 7;
  }

  /** None of the first seven topic labels starts with a capital C. */
  lemma EarlyTopicInitial(k: nat, s: string)
    requires k < 7 && s != [] && s[0] == 'C'
    ensures !StartsWith(s, Topics0[k])
  {
    assert Topics0[k][0] != 'C';
  }

  /** `re.sub(REGEX_VOCAB_DESCRIPTIONS, r'(\1)', s)`.  The whitespace is only
      looked at, so scanning resumes at it. */
  function WrapTopics(s: string): (r: string)
    ensures |r| >= |s|
    decreases |s|
  {
    if s == [] then []
    else
      var n := TopicLength(s);
      if n > 0 then "(" + s[..n] + ")" + WrapTopics(s[n..]) else [s[0]] + WrapTopics(s[1..])
  }

  /** Some label, followed by whitespace, occurs somewhere in `s`. */
  predicate HasBareTopic(s: string) {
    exists i, j :: 0 <= i < |s| && 0 <= j < |Topics| && LabelMatchesAt(Topics, s[i..], j)
  }

  /** Wrapping inserts parentheses and nothing else: with them erased, input
      and output agree. */
  lemma {:induction false} WrapTopicsOnlyAddsParens(s: string)
    ensures Erase(WrapTopics(s), IsParen) == Erase(s, IsParen)
    decreases |s|
  {
    if s != [] {
      var n := TopicLength(s);
      if n > 0 {
        WrapTopicsOnlyAddsParens(s[n..]);
        WrapStepErase(s, n, WrapTopics(s[n..]));
      } else {
        WrapTopicsOnlyAddsParens(s[1..]);
        KeepStepErase(s, WrapTopics(s[1..]), IsParen);
      }
    }
  }

  /** One step of a wrapping scan, with parentheses erased: a prefix put
      between parentheses, then the rest of the scan. */
  lemma WrapStepErase(s: string, n: int, rest: string)
    requires 0 < n <= |s| && Erase(rest, IsParen) == Erase(s[n..], IsParen)
    ensures Erase("(" + s[..n] + ")" + rest, IsParen) == Erase(s, IsParen)
  {
    var m := s[..n];
    assert s == m + s[n..];
    EraseAppend(m, s[n..], IsParen);
    EraseParens3b("(", m, ")", rest);
  }

  /** The other step: the first character kept, then the rest of the scan. */
  lemma KeepStepErase(s: string, rest: string, p: char -> bool)
    requires s != [] && Erase(rest, p) == Erase(s[1..], p)
    ensures Erase([s[0]] + rest, p) == Erase(s, p)
  {
    EraseCons(s, rest, p);
  }

  /** Erasing parentheses from `a + m + b + t`, where `a` and `b` are made of
      parentheses, is erasing them from `m` and from `t`. */
  lemma EraseParens3b(a: string, m: string, b: string, t: string)
    requires forall i :: 0 <= i < |a| ==> IsParen(a[i])
    requires forall i :: 0 <= i < |b| ==> IsParen(b[i])
    ensures Erase(a + m + b + t, IsParen) == Erase(m, IsParen) + Erase(t, IsParen)
  {
    EraseAll(a, IsParen);
    assert Erase(a, IsParen) == [];
    EraseAll(b, IsParen);
    EraseAppend(a, m, IsParen);
    assert Erase(a + m, IsParen) == Erase(m, IsParen);
    EraseAppend(a + m, b, IsParen);
    assert Erase(a + m + b, IsParen) == Erase(m, IsParen);
    EraseAppend(a + m + b, t, IsParen);
  }

  /** Wrapping changes the text exactly when a label followed by whitespace
      occurs in it. */
  lemma {:induction false} WrapTopicsUnchanged(s: string)
    ensures WrapTopics(s) == s <==> !HasBareTopic(s)
    decreases |s|
  {
    if s != [] {
      var n := TopicLength(s);
      if n > 0 {
        var j :| LabelMatchesAt(Topics, s, j);
        assert s[0..] == s;
        assert HasBareTopic(s);
        assert |WrapTopics(s)| == n + 2 + |WrapTopics(s[n..])|;
      } else {
        WrapTopicsUnchanged(s[1..]);
        HasBareTopicTail(s);
      }
    }
  }

  /** A label that is the first, in list order, to match at the front, with
      whitespace `w` after it, is put between parentheses, and the scan goes
      on at the whitespace. */
  lemma WrapTopicsLabel(j: nat, w: char, rest: string)
    requires j < |Topics| && IsSpace(w)
    requires forall k :: 0 <= k < j ==> !LabelMatchesAt(Topics, Topics[j] + [w] + rest, k)
    ensures WrapTopics(Topics[j] + [w] + rest) == "(" + Topics[j] + ")" + WrapTopics([w] + rest)
  {
    var l := Topics[j];
    var t := [w] + rest;
    assert l + [w] + rest == l + t;
    LabelsArePlain();
    MatchLengthFirst(Topics, j, l, t);
    assert (l + t)[..|l|] == l && (l + t)[|l|..] == t;
  }

  /** The alternation takes label `j` of `ls` where it matches at the front
      of `l + t`, `l` being that label, and no earlier label does. */
  lemma MatchLengthFirst(ls: seq<string>, j: nat, l: string, t: string)
    requires forall k :: 0 <= k < |ls| ==> IsPlainLabel(ls[k])
    requires j < |ls| && l == ls[j] && t != [] && IsSpace(t[0])
    requires forall k :: 0 <= k < j ==> !LabelMatchesAt(ls, l + t, k)
    ensures MatchLength(ls, l + t) == |l|
  {
    var s := l + t;
    assert s[..|l|] == l && s[|l|] == t[0];
    assert LabelMatchesAt(ls, s, j);
    var n := MatchLength(ls, s);
    var i :| LabelMatchesAt(ls, s, i) && n == |ls[i]| &&
      forall k :: 0 <= k < i ==> !LabelMatchesAt(ls, s, k);
    assert i == j;
  }

  /** "Chinese medicine" before whitespace is wrapped as one unit. */
  lemma ChineseMedicineWrapped(w: char, rest: string)
    requires IsSpace(w)
    ensures WrapTopics("Chinese medicine" + [w] + rest) == "(" + "Chinese medicine" + ")" + WrapTopics([w] + rest)
  {
    TopicAt(7);
    assert Topics[7] == "Chinese medicine";
    var s := Topics[7] + [w] + rest;
    forall k | 0 <= k < 7
      ensures !LabelMatchesAt(Topics, s, k)
    {
      TopicAt(k);
      EarlyTopicInitial(k, s);
    }
    WrapTopicsLabel(7, w, rest);
  }

  /** Text at none of whose positions a label matches is kept as it is, and
      the text after it is scanned on its own. */
  lemma {:induction false} WrapTopicsPlainPrefix(a: string, t: string)
    requires forall i :: 0 <= i < |a| ==> TopicLength((a + t)[i..]) == 0
    ensures WrapTopics(a + t) == a + WrapTopics(t)
    decreases |a|
  {
    if a != [] {
      var s := a + t;
      assert s[0..] == s;
      assert s[1..] == a[1..] + t;
      forall i | 0 <= i < |a[1..]|
        ensures TopicLength((a[1..] + t)[i..]) == 0
      {
        assert (a[1..] + t)[i..] == s[i + 1..];
      }
      WrapTopicsPlainPrefix(a[1..], t);
      ConsAppend(a, WrapTopics(t));
    } else {
      assert a + t == t;
    }
  }

  /** Where no label matches at the start, a label occurs in `s` exactly when
      one occurs in `s[1..]`. */
  lemma HasBareTopicTail(s: string)
    requires s != [] && TopicLength(s) == 0
    ensures HasBareTopic(s) <==> HasBareTopic(s[1..])
  {
    if HasBareTopic(s) {
      var i, j :| 0 <= i < |s| && 0 <= j < |Topics| && LabelMatchesAt(Topics, s[i..], j);
      assert i != 0;
      assert s[1..][i - 1..] == s[i..];
      assert LabelMatchesAt(Topics, s[1..][i - 1..], j);
    }
    if HasBareTopic(s[1..]) {
      var i, j :| 0 <= i < |s[1..]| && 0 <= j < |Topics| && LabelMatchesAt(Topics, s[1..][i..], j);
      assert s[1..][i..] == s[i + 1..];
      assert LabelMatchesAt(Topics, s[i + 1..], j);
    }
  }

  // ---------------------------------------------------------------------
  // 5. Double spaces: `s.replace('  ', ' ')` (format_pleco_vocab_for_memrise.py:108)
  // ---------------------------------------------------------------------

  /** Each pair of spaces, taken left to right without overlap, becomes one
      space; the pass is made once. */
  function CollapseDoubleSpaces(s: string): (r: string)
    decreases |s|
  {
    if |s| >= 2 && s[0] == ' ' && s[1] == ' ' then " " + CollapseDoubleSpaces(s[2..])
    else if s == [] then []
    else [s[0]] + CollapseDoubleSpaces(s[1..])
  }

  /** The collapse only deletes, and only spaces. */
  lemma CollapseDeletesOnlySpaces(s: string)
    ensures IsSubsequence(CollapseDoubleSpaces(s), s)
    ensures Erase(CollapseDoubleSpaces(s), IsBlank) == Erase(s, IsBlank)
  {
    CollapseIsSubsequence(s);
    CollapseKeepsNonBlanks(s);
  }

  /** What the collapse gives is the text with some characters deleted. */
  lemma {:induction false} CollapseIsSubsequence(s: string)
    ensures IsSubsequence(CollapseDoubleSpaces(s), s)
    decreases |s|
  {
    var r := CollapseDoubleSpaces(s);
    if |s| >= 2 && s[0] == ' ' && s[1] == ' ' {
      var t := CollapseDoubleSpaces(s[2..]);
      CollapseIsSubsequence(s[2..]);
      assert r[0] == s[1] && r[1..] == t;
      assert s[1..][1..] == s[2..];
      SubsequenceSkip(t, s[1..]);
    } else if s != [] {
      var t := CollapseDoubleSpaces(s[1..]);
      CollapseIsSubsequence(s[1..]);
      assert r[0] == s[0] && r[1..] == t;
    }
  }

  /** Deleting the spaces from both sides gives the same text. */
  lemma {:induction false} CollapseKeepsNonBlanks(s: string)
    ensures Erase(CollapseDoubleSpaces(s), IsBlank) == Erase(s, IsBlank)
    decreases |s|
  {
    var r := CollapseDoubleSpaces(s);
    if |s| >= 2 && s[0] == ' ' && s[1] == ' ' {
      var t := CollapseDoubleSpaces(s[2..]);
      CollapseKeepsNonBlanks(s[2..]);
      assert s[1..][1..] == s[2..];
      assert Erase(s, IsBlank) == Erase(s[1..], IsBlank) == Erase(s[2..], IsBlank);
      assert r[0] == ' ' && r[1..] == t;
      assert Erase(r, IsBlank) == Erase(t, IsBlank);
    } else if s != [] {
      var t := CollapseDoubleSpaces(s[1..]);
      CollapseKeepsNonBlanks(s[1..]);
      assert r[0] == s[0] && r[1..] == t;
    }
  }

  /** A subsequence of the rest is a subsequence of the whole. */
  lemma {:induction false} SubsequenceSkip(a: string, b: string)
    requires b != [] && IsSubsequence(a, b[1..])
    ensures IsSubsequence(a, b)
    decreases |b|, |a|
  {
    if a != [] && a[0] == b[0] {
      SubsequenceDropHead(a, b[1..]);
    }
  }

  /** Dropping the first character of a subsequence keeps it one. */
  lemma {:induction false} SubsequenceDropHead(a: string, b: string)
    requires a != [] && IsSubsequence(a, b)
    ensures IsSubsequence(a[1..], b)
    decreases |b|, |a|
  {
    if a[0] == b[0] {
      if a[1..] != [] {
        SubsequenceSkip(a[1..], b);
      }
    } else {
      SubsequenceDropHead(a, b[1..]);
      if a[1..] != [] {
        SubsequenceSkip(a[1..], b);
      }
    }
  }

  /** A character other than a space is kept, and the scan moves on by one. */
  lemma CollapseKeepsHead(c: char, t: string)
    requires c != ' '
    ensures CollapseDoubleSpaces([c] + t) == [c] + CollapseDoubleSpaces(t)
  {
    assert ([c] + t)[1..] == t;
  }

  /** Text without a space is kept as it is, and the text after it is
      collapsed on its own. */
  lemma {:induction false} CollapsePlainPrefix(a: string, t: string)
    requires forall i :: 0 <= i < |a| ==> a[i] != ' '
    ensures CollapseDoubleSpaces(a + t) == a + CollapseDoubleSpaces(t)
    decreases |a|
  {
    if a == [] {
      assert a + t == t;
    } else {
      CollapsePlainPrefix(a[1..], t);
      CollapseKeepsHead(a[0], a[1..] + t);
      ConsAppend(a, t);
      ConsAppend(a, CollapseDoubleSpaces(t));
    }
  }

  /** A run of `k` spaces between text without spaces and text that does
      not start with one becomes `(k + 1) / 2` spaces, wherever it stands. */
  lemma CollapseRunInside(a: string, k: nat, t: string)
    requires forall i :: 0 <= i < |a| ==> a[i] != ' '
    requires t == [] || t[0] != ' '
    ensures CollapseDoubleSpaces(a + Blanks(k) + t) == a + Blanks((k + 1) / 2) + CollapseDoubleSpaces(t)
  {
    CollapseRun(k, t);
    CollapsePlainPrefix(a, Blanks(k) + t);
    ConcatAssoc(a, Blanks(k), t);
    ConcatAssoc(a, Blanks((k + 1) / 2), CollapseDoubleSpaces(t));
  }

  /** A run of `k` spaces comes out as `(k + 1) / 2` spaces: two become one,
      but three become two, since the pass is not repeated. */
  lemma {:induction false} CollapseRun(k: nat, t: string)
    requires t == [] || t[0] != ' '
    ensures CollapseDoubleSpaces(Blanks(k) + t) == Blanks((k + 1) / 2) + CollapseDoubleSpaces(t)
    decreases k
  {
    if k >= 2 {
      CollapseRun(k - 2, t);
      CollapseRunStep(k, (k - 1) / 2, t);
    } else if k == 1 {
      CollapseOneBlank(t);
    } else {
      assert Blanks(k) + t == t;
    }
  }

  /** The step of the induction: two more spaces give one more. */
  lemma CollapseRunStep(k: nat, h: nat, t: string)
    requires k >= 2 && h == (k - 1) / 2
    requires CollapseDoubleSpaces(Blanks(k - 2) + t) == Blanks(h) + CollapseDoubleSpaces(t)
    ensures CollapseDoubleSpaces(Blanks(k) + t) == Blanks(h + 1) + CollapseDoubleSpaces(t)
  {
    CollapseTwoBlanks(k, t);
    BlanksCons(h, CollapseDoubleSpaces(t));
  }

  /** One space more in front. */
  lemma BlanksCons(h: nat, u: string)
    ensures Blanks(h + 1) + u == " " + (Blanks(h) + u)
  {
    assert Blanks(h + 1) == [' '] + Blanks(h);
  }

  /** Two spaces at the head of a run become one. */
  lemma CollapseTwoBlanks(k: nat, t: string)
    requires k >= 2
    ensures CollapseDoubleSpaces(Blanks(k) + t) == " " + CollapseDoubleSpaces(Blanks(k - 2) + t)
  {
    BlanksDropTwo(k, t);
  }

  /** A single space before a non-space stays. */
  lemma CollapseOneBlank(t: string)
    requires t == [] || t[0] != ' '
    ensures CollapseDoubleSpaces(Blanks(1) + t) == Blanks(1) + CollapseDoubleSpaces(t)
  {
    var s := Blanks(1) + t;
    assert Blanks(1) == [' '];
    assert s[0] == ' ' && s[1..] == t;
    assert !(|s| >= 2 && s[1] == ' ');
  }

  /** A run of at least two spaces opens with two spaces, and after them
      comes the rest of the run. */
  lemma BlanksDropTwo(k: nat, t: string)
    requires k >= 2
    ensures var s := Blanks(k) + t; s[0] == ' ' && s[1] == ' ' && s[2..] == Blanks(k - 2) + t
  {
    var s := Blanks(k) + t;
    assert s[2..] == Blanks(k)[2..] + t;
    assert Blanks(k)[2..] == Blanks(k - 2) by {
      assert Blanks(k)[2..] == Blanks(k - 1)[1..];
    }
  }

  /** The collapse changes the text exactly when two spaces stand side by side. */
  lemma {:induction false} CollapseUnchanged(s: string)
    ensures CollapseDoubleSpaces(s) == s <==> !Occurs("  ", s)
    decreases |s|
  {
    CollapseDeletesOnlySpaces(s);
    if |s| >= 2 && s[0] == ' ' && s[1] == ' ' {
      assert StartsWith(s, "  ");
      assert |CollapseDoubleSpaces(s)| < |s| by {
        CollapseDeletesOnlySpaces(s[2..]);
        SubsequenceShorter(CollapseDoubleSpaces(s[2..]), s[2..]);
      }
    } else if s != [] {
      CollapseUnchanged(s[1..]);
      assert !StartsWith(s, "  ");
      if Occurs("  ", s[1..]) {
        CollapseDeletesOnlySpaces(s[1..]);
        SubsequenceStrict(CollapseDoubleSpaces(s[1..]), s[1..]);
      }
    }
  }

  /** A subsequence that differs from the whole is shorter. */
  lemma SubsequenceStrict(a: string, b: string)
    requires IsSubsequence(a, b) && a != b
    ensures |a| < |b|
  {
    SubsequenceShorter(a, b);
    if |a| == |b| {
      SubsequenceSameLength(a, b);
    }
  }

  // ---------------------------------------------------------------------
  // 6. Tip links: `(See \w+ [一-鿿]+((?=[\s])|\S))` replaced by `(\1)`
  //    (format_pleco_vocab_for_memrise.py:35, 111)
  // ---------------------------------------------------------------------

  /** The length of the longest run of word characters that starts `s`. */
  function WordRun(s: string): (n: nat)
    ensures n <= |s|
    ensures forall i :: 0 <= i < n ==> IsWordChar(s[i])
    ensures n < |s| ==> !IsWordChar(s[n])
    decreases |s|
  {
    if s != [] && IsWordChar(s[0]) then 1 + WordRun(s[1..]) else 0
  }

  /** The length of the tip-link match at the start of `s`, or 0.  The word
      run is greedy and cannot give back (a word character is not a space).
      After the ideograph run the match ends before whitespace, or takes one
      more non-whitespace character; at the end of the text it can only take
      back the last ideograph as that character, which needs two of them. */
  function TipLength(s: string): (n: nat)
    ensures n <= |s|
  {
    if !StartsWith(s, "See ") then 0
    else
      var w := WordRun(s[4..]);
      if w == 0 || 4 + w >= |s| || s[4 + w] != ' ' then 0
      else
        var p := 5 + w;
        var c := IdeographRun(s[p..]);
        var q := p + c;
        if c == 0 then 0
        else if q < |s| then (if IsSpace(s[q]) then q else q + 1)
        else if c >= 2 then q
        else 0
  }

  /** `re.sub(TIP_LINK, r'(\1)', s)`. */
  function WrapTips(s: string): (r: string)
    ensures |r| >= |s|
    decreases |s|
  {
    if s == [] then []
    else
      var n := TipLength(s);
      if n > 0 then "(" + s[..n] + ")" + WrapTips(s[n..]) else [s[0]] + WrapTips(s[1..])
  }

  /** Every character of `s` from `i` up to `j` satisfies `p`. */
  predicate AllIn(s: string, i: int, j: int, p: char -> bool)
    requires 0 <= i <= j <= |s|
  {
    forall k :: i <= k < j ==> p(s[k])
  }

  /** The first `n` characters of `s` are "See ", `w` word characters, a
      space and `c` ideographs, then either nothing, with whitespace next in
      `s`, or a single non-whitespace character. */
  predicate TipShape(s: string, n: int, w: int, c: int) {
    1 <= w && 1 <= c && 5 + w + c <= n <= 6 + w + c && n <= |s| &&
    StartsWith(s, "See ") && AllIn(s, 4, 4 + w, IsWordChar) && s[4 + w] == ' ' &&
    AllIn(s, 5 + w, 5 + w + c, IsIdeograph) &&
    (n == 5 + w + c ==> n < |s| && IsSpace(s[n])) &&
    (n == 6 + w + c ==> !IsSpace(s[5 + w + c]))
  }

  /** What the pattern matches, read off the text: "See ", a word, a space,
      `c` ideographs, then either nothing (whitespace follows) or a single
      non-whitespace character. */
  lemma TipLengthSound(s: string)
    requires TipLength(s) > 0
    ensures StartsWith(s, "See ")
    ensures exists w, c :: TipShape(s, TipLength(s), w, c)
  {
    var n := TipLength(s);
    var w := WordRun(s[4..]);
    var p := 5 + w;
    var c := IdeographRun(s[p..]);
    assert AllIn(s, 4, 4 + w, IsWordChar) by {
      forall k | 4 <= k < 4 + w ensures IsWordChar(s[k]) { assert s[k] == s[4..][k - 4]; }
    }
    if p + c < |s| {
      assert AllIn(s, p, p + c, IsIdeograph) by {
        forall k | p <= k < p + c ensures IsIdeograph(s[k]) { assert s[k] == s[p..][k - p]; }
      }
      assert !IsSpace(s[p + c]) ==> n == 6 + w + c;
      assert TipShape(s, n, w, c);
    } else {
      assert AllIn(s, p, p + c - 1, IsIdeograph) by {
        forall k | p <= k < p + c - 1 ensures IsIdeograph(s[k]) { assert s[k] == s[p..][k - p]; }
      }
      assert IsIdeograph(s[p + c - 1]) by { assert s[p + c - 1] == s[p..][c - 1]; }
      SpaceIsNotIdeograph(s[p + c - 1]);
      assert n == 5 + w + c && n == 6 + w + (c - 1);
      assert TipShape(s, n, w, c - 1);
    }
  }

  lemma SpaceIsNotIdeograph(c: char)
    ensures IsIdeograph(c) ==> !IsSpace(c)
  {
  }

  /** Conversely, the pattern is found wherever the text takes that shape:
      "See ", a word `wd`, a space, ideographs `cj`, and a character `x` that
      is not an ideograph. */
  lemma TipLengthComplete(wd: string, cj: string, x: char, rest: string)
    requires |wd| >= 1 && forall i :: 0 <= i < |wd| ==> IsWordChar(wd[i])
    requires |cj| >= 1 && forall i :: 0 <= i < |cj| ==> IsIdeograph(cj[i])
    requires !IsIdeograph(x)
    ensures TipLength("See " + wd + " " + cj + [x] + rest) ==
      5 + |wd| + |cj| + (if IsSpace(x) then 0 else 1)
  {
    var v := cj + ([x] + rest);
    var u := wd + (" " + v);
    var s := "See " + u;
    TipRegroup(wd, cj, x, rest);
    var w := |wd|;
    assert StartsWith(s, "See ") && s[4..] == u;
    WordRunOf(wd, " " + v);
    assert s[4 + w] == ' ' && s[5 + w..] == v;
    IdeographRunOf(cj, [x] + rest);
    assert s[5 + w + |cj|] == x;
  }

  /** The sample text of `TipLengthComplete`, grouped from the right. */
  lemma TipRegroup(wd: string, cj: string, x: char, rest: string)
    ensures "See " + wd + " " + cj + [x] + rest == "See " + (wd + (" " + (cj + ([x] + rest))))
  {
  }

  lemma WordRunOf(wd: string, t: string)
    requires forall i :: 0 <= i < |wd| ==> IsWordChar(wd[i])
    requires t != [] && t[0] == ' '
    ensures WordRun(wd + t) == |wd|
  {
    assert (wd + t)[|wd|] == ' ';
  }

  /** The ideograph run over `cj` stops at the first character after it
      that is not an ideograph. */
  lemma IdeographRunOf(cj: string, t: string)
    requires forall i :: 0 <= i < |cj| ==> IsIdeograph(cj[i])
    requires t == [] || !IsIdeograph(t[0])
    ensures IdeographRun(cj + t) == |cj|
  {
    if t != [] {
      assert (cj + t)[|cj|] == t[0];
    }
  }

  /** Tip wrapping inserts parentheses and nothing else. */
  lemma {:induction false} WrapTipsOnlyAddsParens(s: string)
    ensures Erase(WrapTips(s), IsParen) == Erase(s, IsParen)
    decreases |s|
  {
    if s != [] {
      var n := TipLength(s);
      if n > 0 {
        WrapTipsOnlyAddsParens(s[n..]);
        WrapStepErase(s, n, WrapTips(s[n..]));
      } else {
        WrapTipsOnlyAddsParens(s[1..]);
        KeepStepErase(s, WrapTips(s[1..]), IsParen);
      }
    }
  }

  /** Text in which "See " does not occur is left as it is. */
  lemma {:induction false} WrapTipsWithoutSee(s: string)
    requires !Occurs("See ", s)
    ensures WrapTips(s) == s
    decreases |s|
  {
    if s != [] {
      WrapTipsWithoutSee(s[1..]);
    }
  }

  /** A tip link is found somewhere in `s`. */
  predicate HasTip(s: string) {
    exists i :: 0 <= i < |s| && TipLength(s[i..]) > 0
  }

  /** Tip wrapping changes the text exactly when a tip link occurs in it. */
  lemma {:induction false} WrapTipsUnchanged(s: string)
    ensures WrapTips(s) == s <==> !HasTip(s)
    decreases |s|
  {
    if s != [] {
      var n := TipLength(s);
      if n > 0 {
        assert s[0..] == s;
        assert HasTip(s);
        assert |WrapTips(s)| == n + 2 + |WrapTips(s[n..])|;
      } else {
        WrapTipsUnchanged(s[1..]);
        HasTipTail(s);
      }
    }
  }

  /** Where no tip link starts `s`, one occurs in `s` exactly when one
      occurs in `s[1..]`. */
  lemma HasTipTail(s: string)
    requires s != [] && TipLength(s) == 0
    ensures HasTip(s) <==> HasTip(s[1..])
  {
    if HasTip(s) {
      var i :| 0 <= i < |s| && TipLength(s[i..]) > 0;
      assert i != 0 && s[1..][i - 1..] == s[i..];
    }
    if HasTip(s[1..]) {
      var i :| 0 <= i < |s[1..]| && TipLength(s[1..][i..]) > 0;
      assert s[1..][i..] == s[i + 1..];
    }
  }

  /** A tip link followed by whitespace `x` is wrapped up to the last
      ideograph, and the scan goes on at the whitespace. */
  lemma WrapTipBeforeSpace(wd: string, cj: string, x: char, rest: string)
    requires |wd| >= 1 && forall i :: 0 <= i < |wd| ==> IsWordChar(wd[i])
    requires |cj| >= 1 && forall i :: 0 <= i < |cj| ==> IsIdeograph(cj[i])
    requires IsSpace(x)
    ensures WrapTips("See " + wd + " " + cj + [x] + rest) ==
      "(" + ("See " + wd + " " + cj) + ")" + WrapTips([x] + rest)
  {
    SpaceIsNotIdeograph(x);
    TipLengthComplete(wd, cj, x, rest);
    WrapTipBefore("See " + wd + " " + cj, x, rest);
  }

  /** `WrapTipAt` with the character after the match split off. */
  lemma WrapTipBefore(p: string, x: char, rest: string)
    requires |p| > 0 && TipLength(p + [x] + rest) == |p|
    ensures WrapTips(p + [x] + rest) == "(" + p + ")" + WrapTips([x] + rest)
  {
    var t := [x] + rest;
    var s := p + [x] + rest;
    assert s == p + t by { ConcatAssoc(p, [x], rest); }
    WrapTipAt(p, t);
  }

  lemma ConcatAssoc(a: string, b: string, c: string)
    ensures a + b + c == a + (b + c)
  {
  }

  /** A tip link matched as the whole of `p` is put between parentheses, and
      the scan goes on after it. */
  lemma WrapTipAt(p: string, t: string)
    requires |p| > 0 && TipLength(p + t) == |p|
    ensures WrapTips(p + t) == "(" + p + ")" + WrapTips(t)
  {
    assert (p + t)[..|p|] == p && (p + t)[|p|..] == t;
  }

  /** A tip link followed by a character `x` that is neither an ideograph nor
      whitespace takes `x` into the parentheses. */
  lemma WrapTipTakesChar(wd: string, cj: string, x: char, rest: string)
    requires |wd| >= 1 && forall i :: 0 <= i < |wd| ==> IsWordChar(wd[i])
    requires |cj| >= 1 && forall i :: 0 <= i < |cj| ==> IsIdeograph(cj[i])
    requires !IsIdeograph(x) && !IsSpace(x)
    ensures WrapTips("See " + wd + " " + cj + [x] + rest) ==
      "(" + ("See " + wd + " " + cj + [x]) + ")" + WrapTips(rest)
  {
    TipLengthComplete(wd, cj, x, rest);
    WrapTipAt("See " + wd + " " + cj + [x], rest);
  }

  /** At the end of the text a tip link needs two ideographs, the last one
      standing for the closing character; it is then wrapped whole. */
  lemma WrapTipAtEnd(wd: string, cj: string)
    requires |wd| >= 1 && forall i :: 0 <= i < |wd| ==> IsWordChar(wd[i])
    requires |cj| >= 2 && forall i :: 0 <= i < |cj| ==> IsIdeograph(cj[i])
    ensures WrapTips("See " + wd + " " + cj) == "(" + ("See " + wd + " " + cj) + ")"
  {
    var s := "See " + wd + " " + cj;
    TipAtEndLength(wd, cj);
    assert s[..|s|] == s && s[|s|..] == [];
  }

  /** The match length at the end of the text: all of it with two or more
      ideographs, none with one. */
  lemma TipAtEndLength(wd: string, cj: string)
    requires |wd| >= 1 && forall i :: 0 <= i < |wd| ==> IsWordChar(wd[i])
    requires |cj| >= 1 && forall i :: 0 <= i < |cj| ==> IsIdeograph(cj[i])
    ensures TipLength("See " + wd + " " + cj) == if |cj| >= 2 then |"See " + wd + " " + cj| else 0
  {
    var u := wd + (" " + cj);
    var s := "See " + u;
    assert "See " + wd + " " + cj == s;
    var w := |wd|;
    assert StartsWith(s, "See ") && s[4..] == u;
    WordRunOf(wd, " " + cj);
    assert s[4 + w] == ' ' && s[5 + w..] == cj;
    IdeographRunOf(cj, []);
    assert cj + [] == cj;
  }

  /** Text at none of whose positions a tip link starts is kept as it is,
      and the text after it is scanned on its own. */
  lemma {:induction false} WrapTipsPlainPrefix(a: string, t: string)
    requires forall i :: 0 <= i < |a| ==> TipLength((a + t)[i..]) == 0
    ensures WrapTips(a + t) == a + WrapTips(t)
    decreases |a|
  {
    if a != [] {
      var s := a + t;
      assert s[0..] == s;
      assert s[1..] == a[1..] + t;
      forall i | 0 <= i < |a[1..]|
        ensures TipLength((a[1..] + t)[i..]) == 0
      {
        assert (a[1..] + t)[i..] == s[i + 1..];
      }
      WrapTipsPlainPrefix(a[1..], t);
      ConsAppend(a, WrapTips(t));
    } else {
      assert a + t == t;
    }
  }

  // ---------------------------------------------------------------------
  // 7. Leading swap: `^(\([literary|linguistics|...]+\) )(\d )` replaced by
  //    `\2\1` (format_pleco_vocab_for_memrise.py:32, 116)
  // ---------------------------------------------------------------------

  /** The length of the longest run of class characters that starts `s`. */
  function ClassRun(s: string): (n: nat)
    ensures n <= |s|
    ensures forall i :: 0 <= i < n ==> IsTopicClassChar(s[i])
    ensures n < |s| ==> !IsTopicClassChar(s[n])
    decreases |s|
  {
    if s != [] && IsTopicClassChar(s[0]) then 1 + ClassRun(s[1..]) else 0
  }

  /** `s` opens with "(", `k` class characters, ") ", a digit and a space. */
  predicate LeadingPairAt(s: string, k: int) {
    1 <= k && 5 + k <= |s| && s[0] == '(' && AllIn(s, 1, 1 + k, IsTopicClassChar) &&
    s[1 + k] == ')' && s[2 + k] == ' ' && IsDigit(s[3 + k]) && s[4 + k] == ' '
  }

  /** The swap, anchored at the start of the text: the greedy class run
      cannot give back, since `)` is not in the class. */
  function SwapLeadingNumber(s: string): (r: string)
    ensures |r| == |s|
  {
    if s == [] || s[0] != '(' then s
    else
      var k := ClassRun(s[1..]);
      if 1 <= k && 5 + k <= |s| && s[1 + k] == ')' && s[2 + k] == ' ' && IsDigit(s[3 + k]) && s[4 + k] == ' '
      then s[3 + k..5 + k] + s[..3 + k] + s[5 + k..]
      else s
  }

  /** The swap only moves characters: the output is a permutation of the
      input. */
  lemma SwapLeadingNumberPermutes(s: string)
    ensures multiset(SwapLeadingNumber(s)) == multiset(s)
  {
    SwapLeadingNumberOtherwise(s);
    if SwapLeadingNumber(s) != s {
      var k :| LeadingPairAt(s, k) && SwapLeadingNumber(s) == s[3 + k..5 + k] + s[..3 + k] + s[5 + k..];
      MovePermutes(s, 3 + k, 5 + k);
    }
  }

  /** Moving the piece `s[i..j]` to the front permutes `s`. */
  lemma MovePermutes(s: string, i: int, j: int)
    requires 0 <= i <= j <= |s|
    ensures multiset(s[i..j] + s[..i] + s[j..]) == multiset(s)
  {
    var a, b, c := s[..i], s[i..j], s[j..];
    assert s == a + b + c;
    calc {
      multiset(b + a + c);
      multiset(b) + multiset(a) + multiset(c);
      multiset(a + b + c);
    }
  }

  /** A leading "(X) d " turns into "d (X) ", and the rest is untouched. */
  lemma SwapLeadingNumberForm(x: string, d: char, rest: string)
    requires |x| >= 1 && forall i :: 0 <= i < |x| ==> IsTopicClassChar(x[i])
    requires IsDigit(d)
    ensures var p, q := "(" + x + ") ", [d, ' '];
      SwapLeadingNumber(p + q + rest) == q + p + rest
  {
    var p, q := "(" + x + ") ", [d, ' '];
    var s := p + q + rest;
    var t := ") " + q + rest;
    assert s[1..] == x + t;
    ClassRunOf(x, t);
    var k := |x|;
    assert s[1 + k] == ')' && s[2 + k] == ' ' && s[3 + k] == d && s[4 + k] == ' ';
    Slices3(p, q, rest);
  }

  /** The class run over `x` stops at the first character after it that is
      not in the class. */
  lemma {:induction false} ClassRunOf(x: string, t: string)
    requires forall i :: 0 <= i < |x| ==> IsTopicClassChar(x[i])
    requires t != [] && !IsTopicClassChar(t[0])
    ensures ClassRun(x + t) == |x|
    decreases |x|
  {
    if x == [] {
      assert x + t == t;
    } else {
      assert (x + t)[1..] == x[1..] + t;
      ClassRunOf(x[1..], t);
    }
  }

  /** The three parts of `p + q + r`, cut out again. */
  lemma Slices3(p: string, q: string, r: string)
    ensures var s := p + q + r;
      s[..|p|] == p && s[|p|..|p| + |q|] == q && s[|p| + |q|..] == r
  {
  }

  /** Otherwise nothing changes: a text that the swap alters opens with such a
      pair, and only its first `k + 5` characters move. */
  lemma SwapLeadingNumberOtherwise(s: string)
    ensures SwapLeadingNumber(s) == s || exists k :: (LeadingPairAt(s, k) &&
      SwapLeadingNumber(s) == s[3 + k..5 + k] + s[..3 + k] + s[5 + k..])
  {
    if s != [] && s[0] == '(' {
      var k := ClassRun(s[1..]);
      if 1 <= k && 5 + k <= |s| && s[1 + k] == ')' && s[2 + k] == ' ' && IsDigit(s[3 + k]) && s[4 + k] == ' ' {
        assert AllIn(s, 1, 1 + k, IsTopicClassChar) by {
          forall i | 1 <= i < 1 + k ensures IsTopicClassChar(s[i]) { assert s[i] == s[1..][i - 1]; }
        }
        assert LeadingPairAt(s, k);
      }
    }
  }

  // ---------------------------------------------------------------------
  // The whole clean-up (format_pleco_vocab_for_memrise.py:92-118)
  // ---------------------------------------------------------------------

  /** No leading "(X) d " pair opens `s`. */
  predicate NoLeadingPair(s: string) {
    forall k :: 0 <= k < |s| ==> !LeadingPairAt(s, k)
  }

  /** `clean_up` on the gloss: the seven rewrites, in the order the method
      applies them. */
  function CleanUpGloss(s: string): string {
    SwapLeadingNumber(WrapTips(CollapseDoubleSpaces(WrapTopics(
      SpacePinyinLinks(RemoveLinkNumbers(RemoveBadGlyphs(s)))))))
  }

  /** A gloss that holds none of the artefacts the clean-up looks for comes
      out as it went in. */
  lemma CleanTextUnchanged(s: string)
    requires forall i :: 0 <= i < |s| ==> !IsBadGlyph(s[i])
    requires !HasLinkNumber(s) && CountPinyinLinks(s) == 0 && !HasBareTopic(s)
    requires !Occurs("  ", s) && !Occurs("See ", s) && NoLeadingPair(s)
    ensures CleanUpGloss(s) == s
  {
    RemoveBadGlyphsUnchanged(s);
    assert RemoveBadGlyphs(s) == s;
    RemoveLinkNumbersUnchanged(s);
    assert RemoveLinkNumbers(s) == s;
    SpacePinyinLinksUnchanged(s);
    assert SpacePinyinLinks(s) == s;
    WrapTopicsUnchanged(s);
    assert WrapTopics(s) == s;
    CollapseUnchanged(s);
    assert CollapseDoubleSpaces(s) == s;
    WrapTipsWithoutSee(s);
    SwapLeadingNumberOtherwise(s);
  }

  // ---------------------------------------------------------------------
  // Single rewrites on sample glosses
  // ---------------------------------------------------------------------

  /** Two digits and the ideographs after them go entirely, wherever they
      stand in a gloss: text `a` with no digit in it before them is kept,
      and the text after them, when it does not go on with an ideograph, is
      scanned on its own. */
  lemma LinkNumberRemoved(a: string, b: string)
    requires forall i :: 0 <= i < |a| ==> !IsDigit(a[i])
    requires b == [] || !IsIdeograph(b[0])
    ensures RemoveLinkNumbers(a + "12\U{4F60}\U{597D}" + b) == a + RemoveLinkNumbers(b)
  {
    var m := "12\U{4F60}\U{597D}";
    assert |m| == 4 && IsDigit(m[0]) && IsDigit(m[1]) && IsIdeograph(m[2]) && IsIdeograph(m[3]);
    LinkNumberDeleted(m, 2, b);
    DigitFreeStartsNone(a, m + b);
    RemoveLinkNumbersPlainPrefix(a, m + b);
    assert a + m + b == a + (m + b);
  }

  /** A lone digit is not a hyperlink number: in "1x12你" the "1" and the
      "x" are kept and the hyperlink number "12你" after them is deleted. */
  lemma LoneDigitExample()
    ensures RemoveLinkNumbers("1x12\U{4F60}") == "1x"
  {
    var s := "1x12\U{4F60}";
    assert |s| == 5 && IsDigit(s[0]) && !IsDigit(s[1]);
    assert IsDigit(s[2]) && IsDigit(s[3]) && IsIdeograph(s[4]);
    LoneDigitBeforeLink(s);
    assert s[..2] == "1x";
  }

  /** A digit and a non-digit, then a three-character hyperlink number: only
      the first two characters are left. */
  lemma LoneDigitBeforeLink(s: string)
    requires |s| == 5 && IsDigit(s[0]) && !IsDigit(s[1])
    requires IsDigit(s[2]) && IsDigit(s[3]) && IsIdeograph(s[4])
    ensures RemoveLinkNumbers(s) == s[..2]
  {
    LoneDigitKept(s);
    var m := s[2..];
    assert m + [] == m;
    LinkNumberDeleted(m, 2, []);
  }

  /** A space goes after a letter and digit that stand before an ideograph,
      and nothing is deleted. */
  lemma PinyinLinkSpaced()
    ensures SpacePinyinLinks("a1\U{4F60}") == "a1 \U{4F60}"
  {
    assert PinyinLinkAt("a1\U{4F60}", 0);
  }

  /** Two spaces become one, and three become two: the pass is made once. */
  lemma DoubleSpacesCollapsed()
    ensures CollapseDoubleSpaces("a  b") == "a b"
    ensures CollapseDoubleSpaces("a   b") == "a  b"
  {
    CollapseRun(2, "b");
    CollapseRun(3, "b");
    assert Blanks(2) == "  " && Blanks(3) == "   " && Blanks(1) == " ";
    assert "a  b"[1..] == Blanks(2) + "b";
    assert "a   b"[1..] == Blanks(3) + "b";
    assert CollapseDoubleSpaces("b") == "b";
  }

  /** Four spaces inside a gloss become two. */
  lemma FourSpacesCollapsed()
    ensures CollapseDoubleSpaces("x    y") == "x  y"
  {
    CollapseRunInside("x", 4, "y");
    assert "x" + Blanks(4) + "y" == "x    y";
    assert "x" + Blanks(2) + "y" == "x  y";
    CollapseKeepsHead('y', []);
    assert ['y'] + [] == "y";
  }

  /** A leading topic and sense number trade places. */
  lemma LiteraryOne()
    ensures SwapLeadingNumber("(literary) 1 old term") == "1 (literary) old term"
  {
    SwapLeadingNumberForm("literary", '1', "old term");
    LiteraryPieces();
  }

  /** The sample gloss and its swapped form, cut at the pieces the swap
      moves. */
  lemma LiteraryPieces()
    ensures "(" + "literary" + ") " + ['1', ' '] + "old term" == "(literary) 1 old term"
    ensures ['1', ' '] + ("(" + "literary" + ") ") + "old term" == "1 (literary) old term"
  {
  }
}
