# Pleco flashcard normaliser, modelled in Dafny

This project models the `FlashCard` gloss normaliser of
`format_pleco_vocab_for_memrise.py`. The normaliser turns one line of a
Pleco dictionary export into a card for Memrise. A card keeps its Chinese
entry and its pinyin as given. Its English gloss and its part of speech are
rewritten by three stages, which the constructor runs in order:

1. Part-of-speech detection. Labels such as "noun" or "verb" are stripped
   from the front of the gloss and recorded. Every label still found
   anywhere in the gloss is then appended.
2. Clean-up. Seven string rewrites run once each, in a fixed order:
   - delete bad glyphs;
   - delete hyperlink numbers;
   - space out pinyin links;
   - put topic labels in parentheses;
   - collapse double spaces;
   - put "See …" tips in parentheses;
   - move a leading "(topic) d " pair so that the digit comes first.
3. Sense splitting. The gloss is cut at every " d " mark (space, one digit,
   space). The pieces are joined with a semicolon, a line break and three
   tabs.

The project has these modules (one per file):

- `Text` (`text.dfy`): character classes and the Python string operations
  used. These are `strip`, `startswith`, `in` and slicing.
- `Labels` (`labels.dfy`): the part-of-speech list, the topic list, and the
  character class the leading swap builds from the topic list.
- `PartOfSpeech` (`partofspeech.dfy`): detection as functions on a
  (gloss, part of speech) value, with its lemmas.
- `Rewrites` (`cleanup.dfy`): the seven rewrites. Each regular-expression
  substitution is written as a left-to-right scanner with the
  non-overlapping semantics of Python's `re.sub`.
- `Senses` (`split.dfy`): `split_up` and its lemmas.
- `FlashCards` (`flashcard.dfy`): the `FlashCard` class. Its fields are
  updated in place by `FindPartOfSpeech` (two loops) and `CleanUp` (seven
  reassignments). Both are proved against the functions above.

The model keeps the code's behaviour where that behaviour is surprising:

- The prefix strip cuts the label and one more character, whatever that
  character is: "nouns are" becomes " are".
- Labels are tried in list order, and a later label can strip again:
  "verb adverb x" becomes "x", with part of speech "adverb".
- The default "unknown" is not empty, so detected labels are appended to
  it, for example "unknown, verb".
- The leading swap matches a character class built from the joined topic
  list, not the list as alternatives.
- Part-of-speech detection runs before the glyph filter, so a bad glyph in
  front of a label keeps the strip from seeing that label.

More behaviour of the code that the model states:

- `split_up` returns one joined string
  (format_pleco_vocab_for_memrise.py:130-132). The model also defines
  `Senses.Senses`, the sequence of pieces, and proves that the string is
  those pieces joined (`Senses.SplitUpJoins`).
- The sense mark is `' \d '`: exactly one digit between two spaces
  (format_pleco_vocab_for_memrise.py:124). A run of digits does not form a
  mark.
- The cut falls after the space before each digit, and the digit starts the
  next sense. A gloss such as "(mathematics) the set of 1 integers 2 real
  numbers" has the shape `Senses.ThreeSenses` states, so it gives the three
  senses "(mathematics) the set of", "1 integers" and "2 real numbers"
  (see also `Senses.DigitAfterSeparator`).
- The double-space collapse is one non-overlapping pass. Two spaces become
  one, but three become two and four become two: a run of `k` spaces
  becomes `(k + 1) / 2` spaces, at the start of the text
  (`Rewrites.CollapseRun`) and after text without spaces
  (`Rewrites.CollapseRunInside`, `Rewrites.DoubleSpacesCollapsed`,
  `Rewrites.FourSpacesCollapsed`).

## Model

| member | source | states |
|---|---|---|
| Text.Strip | format_pleco_vocab_for_memrise.py:130 | `str.strip()`: the result has no whitespace at either end, and the input is whitespace, then the result, then whitespace |
| Text.DropFirst | format_pleco_vocab_for_memrise.py:75 | the slice `s[n:]`: empty once `n` passes the end, otherwise the characters from `n` on |
| Text.OccursIff | format_pleco_vocab_for_memrise.py:77 | the `in` test on strings holds exactly when the label stands at some index of the gloss |
| Labels.LabelsArePlain | format_pleco_vocab_for_memrise.py:14-27 | every part-of-speech label and every topic label is non-empty and holds no parenthesis |
| Labels.LabelInitials | format_pleco_vocab_for_memrise.py:14-15 | every part-of-speech label starts with one of the letters a, c, i, m, n, p, v |
| Labels.ClassCharInLabel | format_pleco_vocab_for_memrise.py:30-32 | every character of the swap's class, except the joining bar, occurs in some topic label |
| Labels.TopicClassIsJoinedLabels | format_pleco_vocab_for_memrise.py:30-32 | a character is in the class built by pasting the joined labels between brackets if and only if it is the bar or a character of some topic label |
| Rewrites.RemoveBadGlyphs | format_pleco_vocab_for_memrise.py:8-11 | no code point in 55204..63742 survives; a character is in the output if and only if it is in the input and is not such a glyph; the output is never longer |
| Rewrites.RemoveBadGlyphsAppend | format_pleco_vocab_for_memrise.py:94 | the filter distributes over concatenation, so kept characters stay in their order |
| Rewrites.RemoveBadGlyphsOne | format_pleco_vocab_for_memrise.py:10-11 | a single character is deleted exactly when it is in the glyph range |
| Rewrites.RemoveBadGlyphsUnchanged | format_pleco_vocab_for_memrise.py:94 | the filter leaves the text unchanged if and only if the text holds no bad glyph |
| Rewrites.RemoveBadGlyphsIdempotent | format_pleco_vocab_for_memrise.py:94 | filtering twice equals filtering once |
| Rewrites.DigitRun | format_pleco_vocab_for_memrise.py:33 | the greedy `[0-9]` run at the front: all digits, and no digit right after it |
| Rewrites.IdeographRun | format_pleco_vocab_for_memrise.py:33 | the greedy `[一-鿿]` run at the front: all ideographs, and no ideograph right after it |
| Rewrites.LinkNumberLength | format_pleco_vocab_for_memrise.py:33 | a match is at least three characters (two digits and an ideograph) and fits in the text |
| Rewrites.LinkNumberLengthIff | format_pleco_vocab_for_memrise.py:33 | the scanner finds a match at the front if and only if two or more digits are followed by an ideograph there |
| Rewrites.RemoveLinkNumbers | format_pleco_vocab_for_memrise.py:98 | the result is never longer than the input |
| Rewrites.RemoveLinkNumbersUnchanged | format_pleco_vocab_for_memrise.py:33 | the text is unchanged if and only if no position starts two or more digits followed by an ideograph |
| Rewrites.RemoveLinkNumbersKeepsText | format_pleco_vocab_for_memrise.py:98 | only digits and ideographs are deleted; all other characters survive in order |
| Rewrites.LinkNumberLengthOf | format_pleco_vocab_for_memrise.py:33 | two or more digits followed by ideographs, then a non-ideograph or the end, are matched whole |
| Rewrites.LinkNumberDeleted | format_pleco_vocab_for_memrise.py:33 | such a hyperlink number at the front is deleted, and scanning resumes right after it |
| Rewrites.RemoveLinkNumbersPlainPrefix | format_pleco_vocab_for_memrise.py:98 | text at none of whose positions a hyperlink number starts is kept as it is, and the text after it is scanned on its own |
| Rewrites.RemoveLinkNumbersKeepsHead | format_pleco_vocab_for_memrise.py:98 | a first character where no hyperlink number starts is kept, even when it is a digit, and the scan moves on by one |
| Rewrites.DigitFreeStartsNone | format_pleco_vocab_for_memrise.py:33 | no hyperlink number starts at any position of text that holds no digit |
| Rewrites.LoneDigitKept | format_pleco_vocab_for_memrise.py:33 | a single digit followed by a non-digit is kept together with that character, and the scan resumes after them |
| Rewrites.LoneDigitBeforeLink | format_pleco_vocab_for_memrise.py:98 | a digit, a non-digit, then two digits and an ideograph: the first two characters are left and the hyperlink number goes |
| Rewrites.SpacePinyinLinks | format_pleco_vocab_for_memrise.py:101 | the substitution as a scanner; it has no contract of its own: it is stated by `Rewrites.SpacePinyinLinksInserts` and the lemmas below |
| Rewrites.SpacePinyinLinksInserts | format_pleco_vocab_for_memrise.py:34 | the output length is the input length plus the number of letter-digit-ideograph positions; the input is a subsequence of the output; only spaces are inserted; the output is the input with one space right after the digit of each letter-digit pair that an ideograph follows, and no other change |
| Rewrites.SpacePinyinLinksSpaced | format_pleco_vocab_for_memrise.py:34 | the scan agrees, for every input, with the rule read position by position: every character kept in order, a space after each link's digit and nowhere else |
| Rewrites.SpacePinyinLinksFrom | format_pleco_vocab_for_memrise.py:34 | the same from any index the scan can stand at, that is, one not right after a link's letter |
| Rewrites.PinyinLinkFront | format_pleco_vocab_for_memrise.py:34 | a letter, a digit and an ideograph at the front become the letter, the digit and a space, and the scan goes on at the ideograph |
| Rewrites.SpacePinyinLinksPlainPrefix | format_pleco_vocab_for_memrise.py:34 | text without an ASCII letter is kept as it is, and the text after it is scanned on its own |
| Rewrites.SpacePinyinLinksLength | format_pleco_vocab_for_memrise.py:34 | one character is added per letter-digit-ideograph position |
| Rewrites.SpacePinyinLinksKeeps | format_pleco_vocab_for_memrise.py:34 | the input is a subsequence of the output: nothing is deleted |
| Rewrites.SpacePinyinLinksAddsBlanks | format_pleco_vocab_for_memrise.py:34 | with spaces erased, input and output are equal: only spaces are inserted |
| Rewrites.SpacePinyinLinksUnchanged | format_pleco_vocab_for_memrise.py:34 | the text is unchanged if and only if it holds no pinyin link |
| Rewrites.SubsequenceSameLength | format_pleco_vocab_for_memrise.py:101 | a subsequence as long as the whole is the whole (used to show that the pinyin step deletes nothing) |
| Rewrites.FirstMatchFrom | format_pleco_vocab_for_memrise.py:18-31 | the alternation, tried from a given label on, picks the first label in list order that starts the text and is followed by whitespace, or reports that none does |
| Rewrites.MatchLength | format_pleco_vocab_for_memrise.py:31 | for any list of non-empty labels without parentheses, a match exists if and only if some label followed by whitespace starts the text, and its length is that of the first such label |
| Rewrites.TopicLength | format_pleco_vocab_for_memrise.py:31 | a match exists if and only if some label followed by whitespace starts the text; the match is the first such label in list order; whitespace follows it and it holds no parenthesis |
| Rewrites.MatchLengthFirst | format_pleco_vocab_for_memrise.py:31 | where label `j` matches at the front and no earlier label does, the alternation takes exactly label `j` |
| Rewrites.WrapTopics | format_pleco_vocab_for_memrise.py:105 | wrapping never shortens the text; where the parentheses go is stated by the lemmas below |
| Rewrites.WrapTopicsLabel | format_pleco_vocab_for_memrise.py:105 | a label that is the first in list order to match at the front, with whitespace after it, is put between "(" and ")", and the scan goes on at the whitespace |
| Rewrites.ChineseMedicineWrapped | format_pleco_vocab_for_memrise.py:105 | "Chinese medicine" before whitespace becomes "(Chinese medicine)" as one unit, and the scan goes on at the whitespace |
| Rewrites.WrapTopicsPlainPrefix | format_pleco_vocab_for_memrise.py:105 | text at none of whose positions a label matches is kept as it is, and the text after it is scanned on its own |
| Rewrites.WrapTopicsOnlyAddsParens | format_pleco_vocab_for_memrise.py:105 | with parentheses erased, input and output are equal: only parentheses are inserted |
| Rewrites.WrapTopicsUnchanged | format_pleco_vocab_for_memrise.py:105 | the text is unchanged if and only if no label followed by whitespace occurs in it (a label followed by `)` is not wrapped again) |
| Rewrites.ChineseMedicineFirst | format_pleco_vocab_for_memrise.py:18-31 | at "Chinese medicine" followed by whitespace the match is the whole 16-character label, not the later "medicine" |
| Rewrites.CollapseDoubleSpaces | format_pleco_vocab_for_memrise.py:108 | `str.replace('  ', ' ')` as a scanner; no contract of its own: it is stated by the lemmas below |
| Rewrites.CollapseDeletesOnlySpaces | format_pleco_vocab_for_memrise.py:108 | the output is a subsequence of the input, and with spaces erased the two are equal |
| Rewrites.CollapseIsSubsequence | format_pleco_vocab_for_memrise.py:108 | the output is the input with some characters deleted |
| Rewrites.CollapseKeepsNonBlanks | format_pleco_vocab_for_memrise.py:108 | with spaces erased, input and output are equal |
| Rewrites.CollapseRun | format_pleco_vocab_for_memrise.py:108 | a run of `k` spaces becomes `(k + 1) / 2` spaces, and the rest of the text is collapsed on its own |
| Rewrites.CollapseKeepsHead | format_pleco_vocab_for_memrise.py:108 | a first character other than a space is kept, and the rest is collapsed on its own |
| Rewrites.CollapsePlainPrefix | format_pleco_vocab_for_memrise.py:108 | text without a space is kept as it is, and the text after it is collapsed on its own |
| Rewrites.CollapseRunInside | format_pleco_vocab_for_memrise.py:108 | a run of `k` spaces after text without spaces and before a non-space becomes `(k + 1) / 2` spaces; the text around it is kept |
| Rewrites.CollapseUnchanged | format_pleco_vocab_for_memrise.py:108 | the text is unchanged if and only if it does not contain two adjacent spaces |
| Rewrites.SubsequenceStrict | format_pleco_vocab_for_memrise.py:108 | a subsequence that differs from the whole is strictly shorter |
| Rewrites.DoubleSpacesCollapsed | format_pleco_vocab_for_memrise.py:108 | "a  b" becomes "a b", and "a   b" becomes "a  b" |
| Rewrites.FourSpacesCollapsed | format_pleco_vocab_for_memrise.py:108 | "x    y" becomes "x  y" |
| Rewrites.WordRun | format_pleco_vocab_for_memrise.py:35 | the greedy `\w+` run at the front: all word characters, and no word character right after it |
| Rewrites.TipLengthSound | format_pleco_vocab_for_memrise.py:35 | a tip match is "See ", word characters, a space, ideographs, then either nothing before whitespace or one non-whitespace character |
| Rewrites.TipLengthComplete | format_pleco_vocab_for_memrise.py:35 | conversely, "See " + word + " " + ideographs + a non-ideograph `x` is matched, and the match takes `x` exactly when `x` is not whitespace |
| Rewrites.TipLength | format_pleco_vocab_for_memrise.py:35 | the match length of the tip pattern at the front, never past the end; its shape is stated by `Rewrites.TipLengthSound` and `Rewrites.TipLengthComplete` |
| Rewrites.TipAtEndLength | format_pleco_vocab_for_memrise.py:35 | at the end of the text, "See " + word + " " + ideographs is matched whole when there are two or more ideographs, and not at all with one |
| Rewrites.WrapTips | format_pleco_vocab_for_memrise.py:111 | wrapping never shortens the text; where the parentheses go is stated by the lemmas below |
| Rewrites.WrapTipBeforeSpace | format_pleco_vocab_for_memrise.py:111 | "See " + word + " " + ideographs before whitespace is put between "(" and ")", and the scan goes on at the whitespace |
| Rewrites.WrapTipTakesChar | format_pleco_vocab_for_memrise.py:111 | before a character that is neither an ideograph nor whitespace, that character goes inside the parentheses too |
| Rewrites.WrapTipAt | format_pleco_vocab_for_memrise.py:111 | a match covering exactly a prefix `p` gives "(" + p + ")" followed by the wrap of the rest |
| Rewrites.WrapTipAtEnd | format_pleco_vocab_for_memrise.py:111 | at the end of the text, "See " + word + " " + two or more ideographs is wrapped whole |
| Rewrites.WrapTipsPlainPrefix | format_pleco_vocab_for_memrise.py:111 | text at none of whose positions a tip starts is kept as it is, and the text after it is scanned on its own |
| Rewrites.WrapTipsUnchanged | format_pleco_vocab_for_memrise.py:111 | the text is unchanged if and only if no position of it starts a tip match |
| Rewrites.WrapTipsOnlyAddsParens | format_pleco_vocab_for_memrise.py:111 | with parentheses erased, input and output are equal |
| Rewrites.WrapTipsWithoutSee | format_pleco_vocab_for_memrise.py:35 | text in which "See " does not occur is unchanged |
| Rewrites.ClassRun | format_pleco_vocab_for_memrise.py:32 | the greedy run of class characters at the front: all class characters, and none right after it |
| Rewrites.SwapLeadingNumber | format_pleco_vocab_for_memrise.py:116 | the swap keeps the length |
| Rewrites.SwapLeadingNumberPermutes | format_pleco_vocab_for_memrise.py:116 | the output is a permutation of the input |
| Rewrites.MovePermutes | format_pleco_vocab_for_memrise.py:116 | moving one slice of a text to its front permutes the text |
| Rewrites.SwapLeadingNumberForm | format_pleco_vocab_for_memrise.py:32 | "(" + X + ") " + d + " " + rest becomes d + " (" + X + ") " + rest, for X of one or more class characters and d a digit |
| Rewrites.SwapLeadingNumberOtherwise | format_pleco_vocab_for_memrise.py:32 | the text is unchanged unless it opens with such a pair; if it does, only its first `k + 5` characters move |
| Rewrites.CleanUpGloss | format_pleco_vocab_for_memrise.py:92-118 | the seven rewrites composed in source order; no contract of its own: `FlashCards.FlashCard.CleanUp` is proved equal to it and `Rewrites.CleanTextUnchanged` states when it changes nothing |
| Rewrites.CleanTextUnchanged | format_pleco_vocab_for_memrise.py:92-118 | a gloss with no glyph, link number, pinyin link, bare topic, double space, "See " or leading pair leaves the clean-up unchanged |
| Rewrites.LoneDigitExample | format_pleco_vocab_for_memrise.py:98 | "1x12你" becomes "1x": the lone digit stays, "12你" is deleted |
| Rewrites.LinkNumberRemoved | format_pleco_vocab_for_memrise.py:33 | "12你好" is deleted entirely from any gloss, when no digit comes before it and no ideograph right after it; the text before it is kept, and the text after it is scanned on its own |
| Rewrites.PinyinLinkSpaced | format_pleco_vocab_for_memrise.py:34 | "a1你" becomes "a1 你" |
| Rewrites.LiteraryOne | format_pleco_vocab_for_memrise.py:32 | "(literary) 1 old term" becomes "1 (literary) old term" |
| PartOfSpeech.StripStep | format_pleco_vocab_for_memrise.py:73-75 | when the gloss starts with the label, the label becomes the part of speech; otherwise nothing changes; what is cut is stated by `PartOfSpeech.StripStepCuts` |
| PartOfSpeech.StripStepCuts | format_pleco_vocab_for_memrise.py:75 | after a turn on a matching label, the old gloss is the label, one more character (whatever it is) and the new gloss; when nothing follows the label the new gloss is empty |
| PartOfSpeech.StripThrough | format_pleco_vocab_for_memrise.py:72-75 | the first `n` turns of the loop; no contract of its own: it is stated by `PartOfSpeech.StripThroughShape`, `PartOfSpeech.StripThroughNone` and `PartOfSpeech.StripThroughHit` |
| PartOfSpeech.StripLeading | format_pleco_vocab_for_memrise.py:72-75 | the whole loop; no contract of its own: it is stated by `PartOfSpeech.StripLeadingChanges` and `PartOfSpeech.VerbThenAdverb` |
| PartOfSpeech.StripThroughShape | format_pleco_vocab_for_memrise.py:72-75 | after any number of turns, the gloss is a suffix of the original; the part of speech is the old one or a label already tried, and is a label whenever the gloss changed |
| PartOfSpeech.StripLeadingChanges | format_pleco_vocab_for_memrise.py:72-75 | the prefix loop changes the card if and only if some label is a prefix of the gloss; it changes the gloss under the same condition; the part of speech is then a label from the list |
| PartOfSpeech.StripThroughNone | format_pleco_vocab_for_memrise.py:72-75 | without a label prefix, no turn changes anything |
| PartOfSpeech.StripThroughHit | format_pleco_vocab_for_memrise.py:72-75 | once a non-empty label is a prefix, the gloss ends shorter and the part of speech is a label already tried |
| PartOfSpeech.NoLabelAfter | format_pleco_vocab_for_memrise.py:72-75 | once no remaining label starts the gloss, the remaining turns change nothing |
| PartOfSpeech.NoLabelPrefixHead | format_pleco_vocab_for_memrise.py:14-15 | a gloss whose first character is not one of the label initials has no label prefix |
| PartOfSpeech.VerbThenAdverb | format_pleco_vocab_for_memrise.py:72-75 | "verb adverb " followed by text `x` that starts no label is stripped twice, to `x` with part of speech "adverb", whatever the old part of speech |
| PartOfSpeech.StripStepOver | format_pleco_vocab_for_memrise.py:73-75 | a gloss made of a label, a space and a rest loses the label and the space, and the label becomes the part of speech |
| PartOfSpeech.LabelInsideWord | format_pleco_vocab_for_memrise.py:73-75 | "nouns are" loses "nouns", leaving " are" with part of speech "noun": the character after the label is not checked |
| PartOfSpeech.FoundLabels | format_pleco_vocab_for_memrise.py:77 | a label is in the match set if and only if it is in the list and stands in the gloss at some index |
| PartOfSpeech.AppendLabels | format_pleco_vocab_for_memrise.py:79-83 | the loop over the matches in a given order; no contract of its own: it is stated by `PartOfSpeech.AppendLabelsJoins` and `PartOfSpeech.AppendLabelsSnoc` |
| PartOfSpeech.AppendLabelsJoins | format_pleco_vocab_for_memrise.py:79-83 | appending in a given order gives the old value followed by ", m" for each match when the old value is non-empty; otherwise the matches joined by ", " |
| PartOfSpeech.AppendLabelsSnoc | format_pleco_vocab_for_memrise.py:79-83 | one more loop turn adds the next match to the value built so far |
| PartOfSpeech.Detect | format_pleco_vocab_for_memrise.py:71-83 | the whole detection for a given order; no contract of its own: it is stated by `PartOfSpeech.DetectShape` |
| PartOfSpeech.DetectShape | format_pleco_vocab_for_memrise.py:71-83 | after detection, the part of speech is the value after the strip loop followed by ", m" once for each distinct label `m` that occurs in the remaining gloss, for any iteration order |
| PartOfSpeech.NothingFound | format_pleco_vocab_for_memrise.py:77-78 | when no label occurs in the remaining gloss, nothing is appended |
| PartOfSpeech.DefaultIsExtended | format_pleco_vocab_for_memrise.py:80-83 | with the default "unknown", matches are always appended after ", "; without a label prefix the result is "unknown" followed by ", m" for each match |
| Senses.SplitUp | format_pleco_vocab_for_memrise.py:123-132 | `split_up`; no contract of its own: it is stated by `Senses.SplitUpJoins` and the lemmas below |
| Senses.Senses | format_pleco_vocab_for_memrise.py:124-129 | the pieces the cuts leave, at least one; what they are is stated by `Senses.SensesConcat`, `Senses.SensesShape` and `Senses.SensesCount` |
| Senses.FirstSenseMark | format_pleco_vocab_for_memrise.py:124 | `re.search(' \d ')`: the index found holds a mark and no earlier index does; with no result, no index holds one |
| Senses.SensesConcat | format_pleco_vocab_for_memrise.py:127-129 | the pieces cut at the marks make up the input again |
| Senses.SensesShape | format_pleco_vocab_for_memrise.py:124-129 | every piece but the last ends with the space of a mark; every piece but the first starts with that mark's digit and a space |
| Senses.SensesCount | format_pleco_vocab_for_memrise.py:124-129 | there is exactly one more piece than there are positions holding a mark, overlapping marks included |
| Senses.CountNoMarks | format_pleco_vocab_for_memrise.py:124 | a text in which no position holds a mark has count zero |
| Senses.CountSkip | format_pleco_vocab_for_memrise.py:124-129 | the count is one more than the count of the text from the first mark's digit on |
| Senses.SplitUpJoins | format_pleco_vocab_for_memrise.py:123-132 | the output is the pieces joined: every piece but the last stripped and followed by the separator, the last piece not stripped |
| Senses.SplitUpWithoutMarks | format_pleco_vocab_for_memrise.py:124-132 | input without a mark is returned unchanged |
| Senses.SplitUpWithMark | format_pleco_vocab_for_memrise.py:125-130 | input with a mark comes out containing the separator |
| Senses.FirstMarkAt | format_pleco_vocab_for_memrise.py:124-130 | for the first mark at `i`, the output is the stripped `s[..i+1]`, the separator, then the split of `s[i+1..]` |
| Senses.DigitAfterSeparator | format_pleco_vocab_for_memrise.py:126-130 | each separator is followed directly by the digit of the mark that caused it |
| Senses.StripKeepsHead | format_pleco_vocab_for_memrise.py:130 | stripping text that starts with a non-space keeps its first character |
| Senses.CutAfter | format_pleco_vocab_for_memrise.py:124-130 | text ending in a space, with no digit after its first character, followed by a digit and a space, is cut after that space |
| Senses.ThreeSenses | format_pleco_vocab_for_memrise.py:123-132 | a text made of two cut pieces and a final piece without marks gives three senses, and the last is not stripped |
| Senses.LastSense | format_pleco_vocab_for_memrise.py:124-132 | a piece with no digit after its first character is returned unchanged |
| FlashCards.FlashCard.constructor | format_pleco_vocab_for_memrise.py:47-54 | the entry and pinyin are kept. The gloss becomes the split of the cleaned-up remainder of the strip loop. The part of speech is the strip loop's value with every contained label appended, in some order listing each label once |
| FlashCards.FlashCard.FindPartOfSpeech | format_pleco_vocab_for_memrise.py:71-88 | the fields end as the strip loop over the list leaves them, then each distinct contained label is appended once; entry and pinyin are unchanged |
| FlashCards.FlashCard.CleanUp | format_pleco_vocab_for_memrise.py:92-118 | the gloss becomes the seven rewrites applied in order; the other fields are unchanged |
| FlashCards.FlashCard.Describe | format_pleco_vocab_for_memrise.py:57-64 | the text starts with the tagged entry line and the pinyin tag, ends with a line break and the tagged part of speech, and has the length of the four tagged fields plus three line breaks |
| FlashCards.GlyphHidesLabel | format_pleco_vocab_for_memrise.py:52-53 | a bad glyph before a label keeps the strip loop from changing the card, and the glyph filter then deletes the glyph, so the label stays in the gloss |

## Left out

- `main` (format_pleco_vocab_for_memrise.py:143-162) is not modelled. It is directory listing, file reading and printing.
- `is_int` (format_pleco_vocab_for_memrise.py:135-140) is not modelled. It is unused and wraps Python's `int()` parser.
- Python's regular-expression engine in general is not modelled. Only the seven patterns used are written out, each as its own scanner.
- `\s` is Python's `str.isspace` set. `\d` is read as the ASCII digits only, while Python also accepts other Unicode decimal digits. `\w` is read as ASCII letters and digits, `_`, the Latin-1 and Latin Extended-A/B letters and the CJK ideographs; Python's full Unicode word class is wider.
- Surrogate code points 0xD800–0xDFFF fall inside the glyph range but cannot be Dafny characters. The glyph filter is therefore stated only for the characters a Dafny string can hold.
- The iteration order of the match set (format_pleco_vocab_for_memrise.py:79) depends on Python's string hashing. The model fixes no order: `FlashCards.FlashCard.FindPartOfSpeech` picks labels by arbitrary choice and ensures the result for some order that lists each match once.
- The commented-out patterns at format_pleco_vocab_for_memrise.py:37-39 and the commented-out check at :85-86 are dead code and are not modelled.
- Rewrites.WrapTopics: the model does not prove that wrapping twice equals wrapping once. That would need a fact about each pair of the 52 topic labels.
- Rewrites.SwapLeadingNumber: its own contract only keeps the length. The permutation and the exact shape of the result are stated in `Rewrites.SwapLeadingNumberPermutes`, `Rewrites.SwapLeadingNumberForm` and `Rewrites.SwapLeadingNumberOtherwise`.
- Rewrites.WrapTopics: its own contract only bounds the length. Where the parentheses go is stated in `Rewrites.WrapTopicsLabel`, `Rewrites.ChineseMedicineWrapped` and `Rewrites.WrapTopicsPlainPrefix`.
- Rewrites.WrapTips: its own contract only bounds the length. Where the parentheses go is stated in `Rewrites.WrapTipBeforeSpace`, `Rewrites.WrapTipTakesChar`, `Rewrites.WrapTipAtEnd`, `Rewrites.WrapTipsPlainPrefix` and `Rewrites.WrapTipsUnchanged`.
- Rewrites.RemoveLinkNumbers: its own contract only bounds the length. What is deleted is stated in `Rewrites.RemoveLinkNumbersUnchanged`, `Rewrites.RemoveLinkNumbersKeepsText`, `Rewrites.LinkNumberDeleted`, `Rewrites.RemoveLinkNumbersKeepsHead`, `Rewrites.LoneDigitKept` and `Rewrites.RemoveLinkNumbersPlainPrefix`.
- Senses.SensesCount: it counts the pieces, not the separator strings in the output. A gloss that already contains the separator text would hold more separator strings than marks.
- FlashCards.FlashCard.Describe: it states the start, the end and the length of the text, not every character of the middle two lines.
