/** The fixed vocabularies that the normaliser recognises in a gloss
    (format_pleco_vocab_for_memrise.py:13-35). */
module Labels {
  import opened Text

  /** The part of speech a card has before any is detected: the default of
      the card's constructor. */
  const Unknown: string := "unknown"

  /** The part-of-speech labels, in the order they are tried. */
  const PartsOfSpeech: seq<string> := ["noun", "adjective", "verb", "adverb",
    "idiom", "pronoun", "preposition", "conjunction", "interjection",
    "abstract noun", "measure word"]

  /** The topic/subject labels, in the order the alternation tries them
      (format_pleco_vocab_for_memrise.py:18-27).  "linguistics" is listed
      twice, as in the source.  The source spells the fiftieth label with a
      backslash before the hyphen, which the regular expression reads as a
      plain hyphen: the text it matches is the one here.  The list is kept in
      five consecutive pieces only so that facts about every label can be
      proved a piece at a time. */
  const Topics: seq<string> := Topics0 + Topics1 + Topics2 + Topics3 + Topics4

  const Topics0: seq<string> := ["literary", "linguistics", "archaic", "zoology",
    "pejorative", "sports", "botany", "Chinese medicine", "medicine", "dialect"]
  const Topics1: seq<string> := ["ichthyology", "courteous", "polite expression",
    "vulgar", "chemistry", "electronics", "colloquial", "linguistics", "dated",
    "ornithology", "textile"]
  const Topics2: seq<string> := ["mathematics", "astronomy", "internet slang",
    "slang", "anatomy", "Buddhism", "religion", "philosophy", "Taoism",
    "Christianity", "physics", "biology"]
  const Topics3: seq<string> := ["computing", "geology", "electricity", "law",
    "music", "formal", "informal", "abbreviation", "history", "economics",
    "Islam", "Catholicism"]
  const Topics4: seq<string> := ["transliteration", "figurative", "metallurgy",
    "mechanics", "well-known phrase", "loanword", "mythology"]

  /** The character class `[literary|linguistics|...]` that the leading swap
      builds by pasting the joined topic list between brackets: any single
      character of any topic label, or the `|` that joins them. */
  predicate IsTopicClassChar(c: char) {
    'a' <= c <= 'z' || c == 'B' || c == 'C' || c == 'I' || c == 'T' || c == ' ' || c == '-' || c == '|'
  }

  /** A label is plain: not empty, and without parentheses. */
  predicate IsPlainLabel(l: string) {
    |l| > 0 && forall i :: 0 <= i < |l| ==> !IsParen(l[i])
  }

  lemma {:induction false} PlainPiece0() ensures forall j :: 0 <= j < |Topics0| ==> IsPlainLabel(Topics0[j]) { }
  lemma {:induction false} PlainPiece1() ensures forall j :: 0 <= j < |Topics1| ==> IsPlainLabel(Topics1[j]) { }
  lemma {:induction false} PlainPiece2() ensures forall j :: 0 <= j < |Topics2| ==> IsPlainLabel(Topics2[j]) { }
  lemma {:induction false} PlainPiece3() ensures forall j :: 0 <= j < |Topics3| ==> IsPlainLabel(Topics3[j]) { }
  lemma {:induction false} PlainPiece4() ensures forall j :: 0 <= j < |Topics4| ==> IsPlainLabel(Topics4[j]) { }

  /** Every label of both lists is plain. */
  lemma LabelsArePlain()
    ensures forall j :: 0 <= j < |PartsOfSpeech| ==> IsPlainLabel(PartsOfSpeech[j])
    ensures forall j :: 0 <= j < |Topics| ==> IsPlainLabel(Topics[j])
  {
    PlainPiece0(); PlainPiece1(); PlainPiece2(); PlainPiece3(); PlainPiece4();
    forall j | 0 <= j < |Topics|
      ensures IsPlainLabel(Topics[j])
    {
      TopicAt(j);
    }
  }

  /** Where the `j`-th label sits in the five pieces. */
  lemma TopicAt(j: int)
    requires 0 <= j < |Topics|
    ensures j < 10 ==> Topics[j] == Topics0[j]
    ensures 10 <= j < 21 ==> Topics[j] == Topics1[j - 10]
    ensures 21 <= j < 33 ==> Topics[j] == Topics2[j - 21]
    ensures 33 <= j < 45 ==> Topics[j] == Topics3[j - 33]
    ensures 45 <= j ==> Topics[j] == Topics4[j - 45]
  {
  }

  /** Every part-of-speech label starts with one of a few lower-case
      letters. */
  lemma LabelInitials()
    ensures forall l :: l in PartsOfSpeech ==> |l| > 0 && l[0] in "acimnpv"
  {
  }

  lemma {:induction false} ClassPiece0(c: char) ensures (exists l :: l in Topics0 && c in l) ==> IsTopicClassChar(c) { }
  lemma {:induction false} ClassPiece1(c: char) ensures (exists l :: l in Topics1 && c in l) ==> IsTopicClassChar(c) { }
  lemma {:induction false} ClassPiece2(c: char) ensures (exists l :: l in Topics2 && c in l) ==> IsTopicClassChar(c) { }
  lemma {:induction false} ClassPiece3(c: char) ensures (exists l :: l in Topics3 && c in l) ==> IsTopicClassChar(c) { }
  lemma {:induction false} ClassPiece4(c: char) ensures (exists l :: l in Topics4 && c in l) ==> IsTopicClassChar(c) { }

  /** Each character of the class occurs in some label: a dozen labels
      cover them all. */
  lemma ClassCharInLabel(c: char)
    requires IsTopicClassChar(c) && c != '|'
    ensures exists l :: l in Topics && c in l
  {
    if 'a' <= c <= 'l' {
      EarlyLetterInLabel(c);
    } else if 'm' <= c <= 'z' {
      LateLetterInLabel(c);
    } else if c == ' ' || c == '-' {
      InLabel(c, Topics4, 4);
    } else if c == 'B' {
      InLabel(c, Topics2, 5);
    } else if c == 'C' {
      InLabel(c, Topics0, 7);
    } else if c == 'I' {
      InLabel(c, Topics3, 10);
    } else {
      InLabel(c, Topics2, 8);
    }
  }

  lemma EarlyLetterInLabel(c: char)
    requires 'a' <= c <= 'l'
    ensures exists l :: l in Topics && c in l
  {
    if c == 'a' || c == 'e' || c == 'h' || c == 'k' || c == 'l' {
      InLabel(c, Topics4, 4);
    } else if c == 'c' || c == 'g' || c == 'i' {
      InLabel(c, Topics3, 0);
    } else if c == 'b' {
      InLabel(c, Topics0, 6);
    } else if c == 'd' {
      InLabel(c, Topics0, 7);
    } else if c == 'f' {
      InLabel(c, Topics3, 5);
    } else {
      InLabel(c, Topics0, 4);
    }
  }

  lemma LateLetterInLabel(c: char)
    requires 'm' <= c <= 'z'
    ensures exists l :: l in Topics && c in l
  {
    if c == 'n' || c == 'o' || c == 'p' || c == 'r' || c == 's' || c == 'w' {
      InLabel(c, Topics4, 4);
    } else if c == 'm' || c == 't' || c == 'u' {
      InLabel(c, Topics3, 0);
    } else if c == 'y' || c == 'z' {
      InLabel(c, Topics0, 3);
    } else if c == 'v' {
      InLabel(c, Topics0, 4);
    } else if c == 'x' {
      InLabel(c, Topics1, 2);
    } else {
      InLabel(c, Topics1, 6);
    }
  }

  /** `c` occurs in the label with index `j` of the piece `ls` of the topic
      list. */
  lemma InLabel(c: char, ls: seq<string>, j: int)
    requires ls == Topics0 || ls == Topics1 || ls == Topics2 || ls == Topics3 || ls == Topics4
    requires 0 <= j < |ls| && c in ls[j]
    ensures exists l :: l in Topics && c in l
  {
    assert ls[j] in ls;
    assert ls[j] in Topics;
  }

  /** The class is exactly the characters of the joined list: those of the
      labels and the `|` between them. */
  lemma TopicClassIsJoinedLabels(c: char)
    ensures IsTopicClassChar(c) <==> c == '|' || exists l :: l in Topics && c in l
  {
    if exists l :: l in Topics && c in l {
      ClassPiece0(c); ClassPiece1(c); ClassPiece2(c); ClassPiece3(c); ClassPiece4(c);
    }
    if IsTopicClassChar(c) && c != '|' {
      ClassCharInLabel(c);
    }
  }
}
