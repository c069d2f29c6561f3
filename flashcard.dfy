/** A Pleco flashcard (format_pleco_vocab_for_memrise.py:46-132): the entry,
    its romanisation, its gloss, and the part of speech recorded for it.
    Building a card normalises the gloss in place: the part of speech is
    detected, the gloss is cleaned up, then split into senses. */
module FlashCards {
  import opened Text
  import opened Labels
  import opened PartOfSpeech
  import opened Rewrites
  import opened Senses

  const ChineseTag: string := "Chinese entry:\t\t"
  const PinyinTag: string := "Pinyin:\t\t\t"
  const EnglishTag: string := "English translation:\t"
  const PosTag: string := "Part of speech:\t\t"

  class FlashCard {
    var chinese: string
    var pinyin: string
    var english: string
    var partOfSpeech: string

    /** The three steps, in order, on the given fields.  The part of speech
        defaults to "unknown". */
    constructor (chinese: string, pinyin: string, english: string, partOfSpeech: string := Unknown)
      ensures this.chinese == chinese && this.pinyin == pinyin
      ensures var u := StripLeading(Tagged(english, partOfSpeech));
        this.english == SplitUp(CleanUpGloss(u.gloss)) &&
        exists order :: Enumerates(order, FoundLabels(u.gloss)) &&
          this.partOfSpeech == AppendLabels(u.pos, order)
    {
      this.chinese := chinese;
      this.pinyin := pinyin;
      this.english := english;
      this.partOfSpeech := partOfSpeech;
      new;
      FindPartOfSpeech();
      CleanUp();
      this.english := SplitUp(this.english);
    }

    /** The prefix loop, then every contained label added to the part of
        speech.  The labels are visited in the order a loop over a set
        gives, which nothing fixes: the result holds for some order listing
        each contained label once. */
    method FindPartOfSpeech()
      modifies this
      ensures chinese == old(chinese) && pinyin == old(pinyin)
      ensures var u := StripLeading(Tagged(old(english), old(partOfSpeech)));
        english == u.gloss &&
        exists order :: Enumerates(order, FoundLabels(u.gloss)) &&
          partOfSpeech == AppendLabels(u.pos, order)
    {
      ghost var t := Tagged(english, partOfSpeech);
      for i := 0 to |PartsOfSpeech|
        invariant Tagged(english, partOfSpeech) == StripThrough(PartsOfSpeech, t, i)
        invariant chinese == old(chinese) && pinyin == old(pinyin)
      {
        var pos := PartsOfSpeech[i];
        if StartsWith(english, pos) {
          partOfSpeech := pos;
          english := DropFirst(english, |pos| + 1);
        }
      }
      ghost var u := Tagged(english, partOfSpeech);
      assert u == StripLeading(t);
      var matches := FoundLabels(english);
      var rest := matches;
      ghost var done: seq<string> := [];
      while rest != {}
        invariant rest <= matches
        invariant forall i, j :: 0 <= i < j < |done| ==> done[i] != done[j]
        invariant forall l :: l in matches <==> l in rest || l in done
        invariant forall l :: l in done ==> l !in rest
        invariant partOfSpeech == AppendLabels(u.pos, done)
        invariant english == u.gloss
        invariant chinese == old(chinese) && pinyin == old(pinyin)
        decreases |rest|
      {
        var m :| m in rest;
        if partOfSpeech == "" {
          partOfSpeech := m;
        } else {
          partOfSpeech := partOfSpeech + ", " + m;
        }
        AppendLabelsSnoc(u.pos, done, m);
        done := done + [m];
        rest := rest - {m};
      }
      ListedOnce(done, matches);
    }

    /** The seven rewrites of the gloss, one after another. */
    method CleanUp()
      modifies this
      ensures english == CleanUpGloss(old(english))
      ensures chinese == old(chinese) && pinyin == old(pinyin) && partOfSpeech == old(partOfSpeech)
    {
      english := RemoveBadGlyphs(english);
      english := RemoveLinkNumbers(english);
      english := SpacePinyinLinks(english);
      english := WrapTopics(english);
      english := CollapseDoubleSpaces(english);
      english := WrapTips(english);
      english := SwapLeadingNumber(english);
    }

    /** `__repr__`: four tagged lines, one per field, in the order entry,
        romanisation, gloss, part of speech. */
    function Describe(): (r: string)
      reads this
      ensures |r| == |ChineseTag| + |chinese| + |PinyinTag| + |pinyin| + |EnglishTag| +
        |english| + |PosTag| + |partOfSpeech| + 3
      ensures StartsWith(r, ChineseTag + chinese + "\n" + PinyinTag)
      ensures IsSuffix("\n" + (PosTag + partOfSpeech), r)
    {
      var a := ChineseTag + chinese;
      var c := EnglishTag + english;
      var d := PosTag + partOfSpeech;
      FourLines(a, PinyinTag, pinyin, c, d);
      a + "\n" + (PinyinTag + pinyin) + "\n" + c + "\n" + d
    }
  }

  /** Four lines joined by line breaks, the second one made of `p` and `q`:
      the length adds up, the text opens with the first line, a break and
      `p`, and it closes with a break and the last line. */
  lemma FourLines(a: string, p: string, q: string, c: string, d: string)
    ensures var r := a + "\n" + (p + q) + "\n" + c + "\n" + d;
      |r| == |a| + |p| + |q| + |c| + |d| + 3 &&
      StartsWith(r, a + "\n" + p) && IsSuffix("\n" + d, r)
  {
    var r := a + "\n" + (p + q) + "\n" + c + "\n" + d;
    assert r == (a + "\n" + p) + (q + "\n" + c + "\n" + d);
    assert r == (a + "\n" + (p + q) + "\n" + c) + ("\n" + d);
  }

  /** A list without repeats whose elements are exactly those of `found`
      enumerates `found`. */
  lemma ListedOnce(done: seq<string>, found: set<string>)
    requires forall i, j :: 0 <= i < j < |done| ==> done[i] != done[j]
    requires forall l :: l in found <==> l in done
    ensures Enumerates(done, found)
  {
  }

  /** The part of speech is detected before the glyph filter runs: a bad
      glyph in front of a label keeps the prefix loop from seeing the label,
      and the filter then deletes the glyph, so the label stays in the
      cleaned gloss. */
  lemma GlyphHidesLabel(c: char, g: string, p: string)
    requires IsBadGlyph(c)
    ensures StripLeading(Tagged([c] + g, p)) == Tagged([c] + g, p)
    ensures RemoveBadGlyphs([c] + g) == RemoveBadGlyphs(g)
  {
    NoLabelPrefixHead([c] + g);
    StripLeadingChanges(Tagged([c] + g, p));
    RemoveBadGlyphsAppend([c], g);
    RemoveBadGlyphsOne(c);
  }
}
