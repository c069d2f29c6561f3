/** Part-of-speech detection on a card's gloss
    (format_pleco_vocab_for_memrise.py:71-88), as functions on values.  The
    card's method that performs it is proved against these functions. */
module PartOfSpeech {
  import opened Text
  import opened Labels

  /** A gloss and the part of speech recorded for it. */
  datatype Tagged = Tagged(gloss: string, pos: string)

  // ---------------------------------------------------------------------
  // The prefix loop (format_pleco_vocab_for_memrise.py:72-75)
  // ---------------------------------------------------------------------

  /** One turn of the prefix loop: when the gloss starts with `l`, the
      label becomes the part of speech and the label and the one character
      after it are cut off, whatever that character is; a gloss that is
      just the label is left empty. */
  function StripStep(t: Tagged, l: string): (r: Tagged)
    ensures StartsWith(t.gloss, l) ==> r.pos == l
    ensures !StartsWith(t.gloss, l) ==> r == t
  {
    if StartsWith(t.gloss, l) then Tagged(DropFirst(t.gloss, |l| + 1), l) else t
  }

  /** What a turn cuts: the old gloss is the label, one more character and
      the new gloss, or the new gloss is empty when nothing follows the
      label. */
  lemma StripStepCuts(t: Tagged, l: string)
    requires StartsWith(t.gloss, l)
    ensures |t.gloss| > |l| ==> t.gloss == l + [t.gloss[|l|]] + StripStep(t, l).gloss
    ensures |t.gloss| <= |l| ==> StripStep(t, l).gloss == []
  {
    var g := t.gloss;
    if |g| > |l| {
      assert g == g[..|l|] + [g[|l|]] + g[|l| + 1..];
    }
  }

  /** The state after the first `n` turns of the prefix loop over the
      labels `ls`. */
  function StripThrough(ls: seq<string>, t: Tagged, n: nat): Tagged
    requires n <= |ls|
  {
    if n == 0 then t else StripStep(StripThrough(ls, t, n - 1), ls[n - 1])
  }

  /** The state after the whole prefix loop. */
  function StripLeading(t: Tagged): Tagged {
    StripThrough(PartsOfSpeech, t, |PartsOfSpeech|)
  }

  /** `p` is one of the first `n` labels of `ls`. */
  predicate LabelBefore(ls: seq<string>, p: string, n: int) {
    exists k :: 0 <= k < n && k < |ls| && ls[k] == p
  }

  /** No label of `ls` is a prefix of `g`. */
  predicate NoPrefixIn(ls: seq<string>, g: string) {
    forall j :: 0 <= j < |ls| ==> !StartsWith(g, ls[j])
  }

  /** No part-of-speech label is a prefix of `g`. */
  predicate NoLabelPrefix(g: string) {
    NoPrefixIn(PartsOfSpeech, g)
  }

  /** Each turn leaves a suffix of the gloss: the gloss only loses
      characters from its front; and the part of speech is the old one or,
      as soon as the gloss has lost anything, a label already tried. */
  lemma {:induction false} StripThroughShape(ls: seq<string>, t: Tagged, n: nat)
    requires n <= |ls|
    ensures IsSuffix(StripThrough(ls, t, n).gloss, t.gloss)
    ensures StripThrough(ls, t, n).pos == t.pos || LabelBefore(ls, StripThrough(ls, t, n).pos, n)
    ensures StripThrough(ls, t, n).gloss != t.gloss ==> LabelBefore(ls, StripThrough(ls, t, n).pos, n)
  {
    if n > 0 {
      var u := StripThrough(ls, t, n - 1);
      var l := ls[n - 1];
      var r := StripThrough(ls, t, n);
      assert r == StripStep(u, l);
      StripThroughShape(ls, t, n - 1);
      StripStepShape(u, l);
      SuffixTrans(r.gloss, u.gloss, t.gloss);
      assert LabelBefore(ls, l, n) by { assert ls[n - 1] == l; }
      if LabelBefore(ls, u.pos, n - 1) {
        LabelBeforeGrows(ls, u.pos, n - 1, n);
      }
    }
  }

  /** One turn cuts at most the front of the gloss, and sets the part of
      speech to its label whenever it cuts. */
  lemma StripStepShape(u: Tagged, l: string)
    ensures IsSuffix(StripStep(u, l).gloss, u.gloss)
    ensures StripStep(u, l).pos == u.pos || StripStep(u, l).pos == l
    ensures StripStep(u, l).gloss != u.gloss ==> StripStep(u, l).pos == l
  {
    DropFirstSuffix(u.gloss, |l| + 1);
  }

  lemma LabelBeforeGrows(ls: seq<string>, p: string, m: int, n: int)
    requires LabelBefore(ls, p, m) && m <= n
    ensures LabelBefore(ls, p, n)
  {
    var k :| 0 <= k < m && k < |ls| && ls[k] == p;
    assert 0 <= k < n;
  }

  /** The gloss loses its front exactly when some label is a prefix of it,
      and the card is then tagged with a label of the list. */
  lemma StripLeadingChanges(t: Tagged)
    ensures StripLeading(t) == t <==> NoLabelPrefix(t.gloss)
    ensures StripLeading(t).gloss == t.gloss <==> NoLabelPrefix(t.gloss)
    ensures !NoLabelPrefix(t.gloss) ==> StripLeading(t).pos in PartsOfSpeech
  {
    LabelsArePlain();
    if NoLabelPrefix(t.gloss) {
      StripThroughNone(PartsOfSpeech, t, |PartsOfSpeech|);
    } else {
      var j :| 0 <= j < |PartsOfSpeech| && StartsWith(t.gloss, PartsOfSpeech[j]);
      StripThroughHit(PartsOfSpeech, t, j, |PartsOfSpeech|);
      var k :| 0 <= k < |PartsOfSpeech| && PartsOfSpeech[k] == StripLeading(t).pos;
    }
  }

  /** Without a label prefix no turn changes anything. */
  lemma {:induction false} StripThroughNone(ls: seq<string>, t: Tagged, n: nat)
    requires n <= |ls| && NoPrefixIn(ls, t.gloss)
    ensures StripThrough(ls, t, n) == t
  {
    if n > 0 {
      StripThroughNone(ls, t, n - 1);
    }
  }

  /** Once the label with index `j`, which is not empty, is a prefix, the
      gloss is shorter after turn `j` and every later one, and the part of
      speech is a label. */
  lemma {:induction false} StripThroughHit(ls: seq<string>, t: Tagged, j: nat, n: nat)
    requires j < n <= |ls| && StartsWith(t.gloss, ls[j])
    requires forall k :: 0 <= k < |ls| ==> ls[k] != []
    ensures |StripThrough(ls, t, n).gloss| < |t.gloss|
    ensures LabelBefore(ls, StripThrough(ls, t, n).pos, n)
    decreases n
  {
    var u := StripThrough(ls, t, n - 1);
    var l := ls[n - 1];
    if n - 1 == j {
      StripThroughShape(ls, t, n - 1);
      if u.gloss != t.gloss {
        SuffixShorter(u.gloss, t.gloss);
      }
    } else {
      StripThroughHit(ls, t, j, n - 1);
    }
    if StartsWith(u.gloss, l) {
      StepOnLabel(ls, u, n);
    } else {
      StepAfterCut(ls, u, n);
    }
  }

  /** The turn for the `n`-th label, when that label starts the gloss: the
      gloss gets shorter and the label is the part of speech. */
  lemma StepOnLabel(ls: seq<string>, u: Tagged, n: nat)
    requires 1 <= n <= |ls| && ls[n - 1] != [] && StartsWith(u.gloss, ls[n - 1])
    ensures |StripStep(u, ls[n - 1]).gloss| < |u.gloss|
    ensures LabelBefore(ls, StripStep(u, ls[n - 1]).pos, n)
  {
    assert StripStep(u, ls[n - 1]).pos == ls[n - 1];
  }

  /** The turn for the `n`-th label, once the part of speech is a label
      tried before: the gloss does not grow and the part of speech stays a
      label tried so far. */
  lemma StepAfterCut(ls: seq<string>, u: Tagged, n: nat)
    requires 1 <= n <= |ls| && LabelBefore(ls, u.pos, n - 1)
    ensures |StripStep(u, ls[n - 1]).gloss| <= |u.gloss|
    ensures LabelBefore(ls, StripStep(u, ls[n - 1]).pos, n)
  {
    var l := ls[n - 1];
    StripStepShape(u, l);
    assert LabelBefore(ls, l, n) by { assert ls[n - 1] == l; }
    LabelBeforeGrows(ls, u.pos, n - 1, n);
  }

  // ---------------------------------------------------------------------
  // The contained labels (format_pleco_vocab_for_memrise.py:77-83)
  // ---------------------------------------------------------------------

  /** The labels that occur anywhere in the gloss, as a set: a label is
      found exactly when it stands in the gloss at some index. */
  function FoundLabels(g: string): (r: set<string>)
    ensures forall l :: l in r <==> l in PartsOfSpeech && exists i :: OccursAt(l, g, i)
  {
    OccursIffLabels(g);
    set l | l in PartsOfSpeech && Occurs(l, g)
  }

  /** Containment of each label is containment at some index. */
  lemma OccursIffLabels(g: string)
    ensures forall l :: l in PartsOfSpeech ==> (Occurs(l, g) <==> exists i :: OccursAt(l, g, i))
  {
    forall l | l in PartsOfSpeech
      ensures Occurs(l, g) <==> exists i :: OccursAt(l, g, i)
    {
      OccursIff(l, g);
    }
  }

  /** One label added to the part of speech: it replaces an empty one, and
      is joined with ", " to any other. */
  function AppendLabel(p: string, m: string): string {
    if p == "" then m else p + ", " + m
  }

  /** The labels of `order` added one after another, first to last. */
  function AppendLabels(p: string, order: seq<string>): string
    decreases |order|
  {
    if order == [] then p else AppendLabels(AppendLabel(p, order[0]), order[1..])
  }

  /** `order` lists the elements of `found`, each once: an order in which a
      loop over the set can visit them. */
  predicate Enumerates(order: seq<string>, found: set<string>) {
    (forall i, j :: 0 <= i < j < |order| ==> order[i] != order[j]) &&
    found == set l | l in order
  }

  /** `, m1, m2, ...`: each label of `order` after the separator. */
  function CommaList(order: seq<string>): string
    decreases |order|
  {
    if order == [] then "" else ", " + order[0] + CommaList(order[1..])
  }

  /** Adding the labels one at a time gives the labels joined by ", ": after
      the old part of speech when it is not empty, on their own otherwise. */
  lemma {:induction false} AppendLabelsJoins(p: string, order: seq<string>)
    ensures p != "" ==> AppendLabels(p, order) == p + CommaList(order)
    ensures p == "" && order != [] && order[0] != "" ==>
      AppendLabels(p, order) == order[0] + CommaList(order[1..])
    decreases |order|
  {
    if order != [] {
      if p != "" {
        AppendLabelsJoins(p + ", " + order[0], order[1..]);
        assert p + ", " + order[0] + CommaList(order[1..]) == p + CommaList(order);
      } else if order[0] != "" {
        AppendLabelsJoins(order[0], order[1..]);
      }
    }
  }

  /** Adding one more label at the end extends the fold by one step. */
  lemma {:induction false} AppendLabelsSnoc(p: string, order: seq<string>, m: string)
    ensures AppendLabels(p, order + [m]) == AppendLabel(AppendLabels(p, order), m)
    decreases |order|
  {
    if order == [] {
      assert [] + [m] == [m];
      assert [m][1..] == [];
    } else {
      assert (order + [m])[1..] == order[1..] + [m];
      AppendLabelsSnoc(AppendLabel(p, order[0]), order[1..], m);
    }
  }

  /** The whole detection: the prefix loop, then every contained label
      added in the order `order`. */
  function Detect(t: Tagged, order: seq<string>): Tagged {
    var u := StripLeading(t);
    Tagged(u.gloss, AppendLabels(u.pos, order))
  }

  /** After detection the part of speech has this shape: a label set by the
      prefix loop or the old value, then one ", label" per label found in
      what is left of the gloss. */
  lemma DetectShape(t: Tagged, order: seq<string>)
    requires t.pos != "" || !NoLabelPrefix(t.gloss)
    requires Enumerates(order, FoundLabels(StripLeading(t).gloss))
    ensures Detect(t, order).pos == StripLeading(t).pos + CommaList(order)
    ensures forall l :: l in order <==> l in PartsOfSpeech && Occurs(l, StripLeading(t).gloss)
  {
    var u := StripLeading(t);
    StripLeadingChanges(t);
    if NoLabelPrefix(t.gloss) {
      assert u.pos == t.pos;
    } else {
      assert u.pos in PartsOfSpeech;
      LabelsArePlain();
      assert u.pos != "";
    }
    AppendLabelsJoins(u.pos, order);
  }

  /** The first label of an enumeration is one of the labels enumerated. */
  lemma EnumeratedHead(order: seq<string>, found: set<string>)
    requires Enumerates(order, found)
    ensures order != [] ==> order[0] in found
  {
  }

  /** When no label occurs in what is left of the gloss, nothing is
      added. */
  lemma NothingFound(t: Tagged, order: seq<string>)
    requires Enumerates(order, FoundLabels(StripLeading(t).gloss))
    requires FoundLabels(StripLeading(t).gloss) == {}
    ensures Detect(t, order) == StripLeading(t)
  {
    EnumeratedHead(order, FoundLabels(StripLeading(t).gloss));
  }

  /** With the default part of speech the empty case never arises: the
      labels found are added after "unknown", or after the label the prefix
      loop set. */
  lemma DefaultIsExtended(g: string, order: seq<string>)
    requires Enumerates(order, FoundLabels(StripLeading(Tagged(g, Unknown)).gloss))
    ensures Detect(Tagged(g, Unknown), order).pos == StripLeading(Tagged(g, Unknown)).pos + CommaList(order)
    ensures NoLabelPrefix(g) ==> Detect(Tagged(g, Unknown), order).pos == Unknown + CommaList(order)
  {
    DetectShape(Tagged(g, Unknown), order);
    StripLeadingChanges(Tagged(g, Unknown));
  }

  // ---------------------------------------------------------------------
  // Consequences of the code as written
  // ---------------------------------------------------------------------

  /** Two labels can be stripped one after the other: "verb", then
      "adverb", which comes later in the list, whatever the old part of
      speech and whatever text that starts no label follows. */
  lemma VerbThenAdverb(x: string, p: string)
    requires x != [] && x[0] !in "acimnpv"
    ensures StripLeading(Tagged("verb " + "adverb " + x, p)) == Tagged(x, "adverb")
  {
    var P := PartsOfSpeech;
    var rest := "adverb" + " " + x;
    var t := Tagged("verb" + " " + rest, p);
    assert "verb " + "adverb " + x == "verb" + " " + rest;
    assert t.gloss[0] == 'v';
    FirstTwoMiss(t);
    StripStepOver("verb", rest, p);
    assert StripThrough(P, t, 3) == Tagged(rest, "verb");
    StripStepOver("adverb", x, "verb");
    assert StripThrough(P, t, 4) == Tagged(x, "adverb");
    NoLabelPrefixHead(x);
    NoLabelAfter(P, t, 4, |P|);
  }

  /** A gloss starting with 'v' passes the first two labels, "noun" and
      "adjective", unchanged. */
  lemma FirstTwoMiss(t: Tagged)
    requires t.gloss != [] && t.gloss[0] == 'v'
    ensures StripThrough(PartsOfSpeech, t, 2) == t
  {
    var P := PartsOfSpeech;
    assert P[0][0] == 'n' && P[1][0] == 'a';
    assert !StartsWith(t.gloss, P[0]) && !StartsWith(t.gloss, P[1]);
    assert StripThrough(P, t, 1) == t;
  }

  /** A gloss that starts with label `l` and a space loses both to the
      step for `l`. */
  lemma StripStepOver(l: string, rest: string, p: string)
    ensures StripStep(Tagged(l + " " + rest, p), l) == Tagged(rest, l)
  {
    var g := l + " " + rest;
    assert g[..|l|] == l;
    assert g[|l| + 1..] == rest;
  }

  /** A gloss whose first character starts no label has no label prefix. */
  lemma NoLabelPrefixHead(g: string)
    requires g != [] && g[0] !in "acimnpv"
    ensures NoLabelPrefix(g)
  {
    LabelInitials();
    forall j | 0 <= j < |PartsOfSpeech|
      ensures !StartsWith(g, PartsOfSpeech[j])
    {
      var l := PartsOfSpeech[j];
      assert l in PartsOfSpeech;
    }
  }

  /** Once no remaining label starts the gloss, the later turns change
      nothing. */
  lemma {:induction false} NoLabelAfter(ls: seq<string>, t: Tagged, n: nat, m: nat)
    requires n <= m <= |ls|
    requires forall j :: n <= j < |ls| ==> !StartsWith(StripThrough(ls, t, n).gloss, ls[j])
    ensures StripThrough(ls, t, m) == StripThrough(ls, t, n)
    decreases m
  {
    if m > n {
      NoLabelAfter(ls, t, n, m - 1);
    }
  }

  /** A label that only begins a longer word is still stripped, and the
      character after it goes too: "nouns are" leaves " are". */
  lemma LabelInsideWord()
    ensures StripLeading(Tagged("nouns are", Unknown)) == Tagged(" are", "noun")
  {
    var P := PartsOfSpeech;
    var t := Tagged("nouns are", Unknown);
    var t1 := StripThrough(P, t, 1);
    assert t1 == Tagged(" are", "noun");
    NoLabelPrefixHead(" are");
    NoLabelAfter(P, t, 1, |PartsOfSpeech|);
  }
}
