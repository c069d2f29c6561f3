/** Splitting a gloss into its numbered senses
    (format_pleco_vocab_for_memrise.py:123-132).  A sense mark is a digit
    with a space on either side; the text is cut after the first space of
    the first mark, the piece before the cut is stripped, and the rest,
    which starts with the digit, is split the same way. */
module Senses {
  import opened Text

  /** What goes between two senses: a semicolon, a line break and three
      tabs. */
  const Separator: string := ";\n\t\t\t"

  /** A sense mark ` \d ` stands at index `i` of `s`. */
  predicate SenseMarkAt(s: string, i: int) {
    0 <= i && i + 2 < |s| && s[i] == ' ' && IsDigit(s[i + 1]) && s[i + 2] == ' '
  }

  /** `re.search(' \d ', s)`: the index of the first mark, if any. */
  function FirstSenseMark(s: string): (r: Option<nat>)
    ensures r.Some? ==> SenseMarkAt(s, r.value) && forall i :: 0 <= i < r.value ==> !SenseMarkAt(s, i)
    ensures r.None? ==> forall i :: 0 <= i < |s| ==> !SenseMarkAt(s, i)
    decreases |s|
  {
    if |s| < 3 then None
    else if SenseMarkAt(s, 0) then Some(0)
    else match FirstSenseMark(s[1..])
      case None =>
        assert forall i :: 1 <= i < |s| ==> (SenseMarkAt(s, i) <==> SenseMarkAt(s[1..], i - 1));
        None
      case Some(i) =>
        assert forall k :: 1 <= k < |s| ==> (SenseMarkAt(s, k) <==> SenseMarkAt(s[1..], k - 1));
        Some(i + 1)
  }

  /** `split_up(s)`. */
  function SplitUp(s: string): string
    decreases |s|
  {
    match FirstSenseMark(s)
    case None => s
    case Some(i) => Strip(s[..i + 1]) + Separator + SplitUp(s[i + 1..])
  }

  /** The senses, as the pieces the cuts leave, before any stripping. */
  function Senses(s: string): (r: seq<string>)
    ensures |r| >= 1
    decreases |s|
  {
    match FirstSenseMark(s)
    case None => [s]
    case Some(i) => [s[..i + 1]] + Senses(s[i + 1..])
  }

  /** The pieces laid end to end. */
  function Concat(ps: seq<string>): string
    decreases |ps|
  {
    if ps == [] then "" else ps[0] + Concat(ps[1..])
  }

  /** The pieces joined the way the output shows them: each but the last
      stripped and followed by the separator, the last as it is. */
  function JoinSenses(ps: seq<string>): string
    requires |ps| >= 1
    decreases |ps|
  {
    if |ps| == 1 then ps[0] else Strip(ps[0]) + Separator + JoinSenses(ps[1..])
  }

  /** The number of positions of `s` at which a mark stands. */
  function CountSenseMarks(s: string): nat
    decreases |s|
  {
    if |s| < 3 then 0 else (if SenseMarkAt(s, 0) then 1 else 0) + CountSenseMarks(s[1..])
  }

  /** The cuts lose nothing: the pieces make up the text again. */
  lemma {:induction false} SensesConcat(s: string)
    ensures Concat(Senses(s)) == s
    decreases |s|
  {
    match FirstSenseMark(s)
    case None =>
      assert Concat([s]) == s + Concat([]);
    case Some(i) =>
      SensesConcat(s[i + 1..]);
      assert Senses(s)[1..] == Senses(s[i + 1..]);
      assert s == s[..i + 1] + s[i + 1..];
  }

  /** Every piece but the last ends with the space before a mark, and every
      piece but the first starts with the mark's digit and a space. */
  lemma {:induction false} SensesShape(s: string)
    ensures forall k :: 0 <= k < |Senses(s)| - 1 ==>
      Senses(s)[k] != [] && Senses(s)[k][|Senses(s)[k]| - 1] == ' '
    ensures forall k :: 1 <= k < |Senses(s)| ==>
      |Senses(s)[k]| >= 2 && IsDigit(Senses(s)[k][0]) && Senses(s)[k][1] == ' '
    decreases |s|
  {
    match FirstSenseMark(s)
    case None =>
    case Some(i) =>
      var rest := s[i + 1..];
      SensesShape(rest);
      var ps := Senses(s);
      assert ps == [s[..i + 1]] + Senses(rest);
      assert forall k :: 1 <= k < |ps| ==> ps[k] == Senses(rest)[k - 1];
      match FirstSenseMark(rest)
      case None =>
        assert ps[1] == rest;
      case Some(i2) =>
        assert ps[1] == rest[..i2 + 1];
  }

  /** There is one sense more than there are marks: marks that share a
      space, as in " 1 2 ", are all found, since the search starts again at
      the digit. */
  lemma {:induction false} SensesCount(s: string)
    ensures |Senses(s)| == 1 + CountSenseMarks(s)
    decreases |s|
  {
    match FirstSenseMark(s)
    case None =>
      CountNoMarks(s);
    case Some(i) =>
      SensesCount(s[i + 1..]);
      CountSkip(s, i);
  }

  /** Without marks the count is zero. */
  lemma {:induction false} CountNoMarks(s: string)
    requires forall i :: 0 <= i < |s| ==> !SenseMarkAt(s, i)
    ensures CountSenseMarks(s) == 0
    decreases |s|
  {
    if |s| >= 3 {
      assert !SenseMarkAt(s, 0);
      forall i | 0 <= i < |s[1..]|
        ensures !SenseMarkAt(s[1..], i)
      {
        assert !SenseMarkAt(s, i + 1);
      }
      CountNoMarks(s[1..]);
    }
  }

  /** When the first mark stands at `i`, the count is one more than the
      count from the digit on. */
  lemma {:induction false} CountSkip(s: string, i: nat)
    requires SenseMarkAt(s, i) && forall k :: 0 <= k < i ==> !SenseMarkAt(s, k)
    ensures CountSenseMarks(s) == 1 + CountSenseMarks(s[i + 1..])
    decreases i
  {
    if i == 0 {
      assert CountSenseMarks(s) == 1 + CountSenseMarks(s[1..]);
    } else {
      assert !SenseMarkAt(s, 0);
      assert SenseMarkAt(s[1..], i - 1);
      forall k | 0 <= k < i - 1
        ensures !SenseMarkAt(s[1..], k)
      {
        assert !SenseMarkAt(s, k + 1);
      }
      CountSkip(s[1..], i - 1);
      assert s[1..][i..] == s[i + 1..];
    }
  }

  /** The output is the pieces joined: every sense but the last stripped,
      then the separator, the last sense left as it is. */
  lemma {:induction false} SplitUpJoins(s: string)
    ensures SplitUp(s) == JoinSenses(Senses(s))
    decreases |s|
  {
    match FirstSenseMark(s)
    case None =>
    case Some(i) =>
      SplitUpJoins(s[i + 1..]);
      assert Senses(s)[1..] == Senses(s[i + 1..]);
  }

  /** A gloss without a mark comes out as it went in. */
  lemma SplitUpWithoutMarks(s: string)
    requires CountSenseMarks(s) == 0
    ensures SplitUp(s) == s
  {
    SensesCount(s);
    SplitUpJoins(s);
  }

  /** A gloss with a mark comes out with the separator in it. */
  lemma SplitUpWithMark(s: string)
    requires CountSenseMarks(s) > 0
    ensures Occurs(Separator, SplitUp(s))
  {
    SensesCount(s);
    var i := FirstSenseMark(s).value;
    var a := Strip(s[..i + 1]);
    var b := SplitUp(s[i + 1..]);
    assert SplitUp(s) == a + Separator + b;
    assert OccursAt(Separator, SplitUp(s), |a|);
    OccursIff(Separator, SplitUp(s));
  }

  /** The search finds the mark at `i` when there is one there and none
      before, so the text is cut there. */
  lemma FirstMarkAt(s: string, i: nat)
    requires SenseMarkAt(s, i) && forall k :: 0 <= k < i ==> !SenseMarkAt(s, k)
    ensures SplitUp(s) == Strip(s[..i + 1]) + Separator + SplitUp(s[i + 1..])
  {
  }

  /** Text `a`, which ends with a space and holds no digit after its first
      character, followed by a digit and a space, is cut after `a`. */
  lemma CutAfter(a: string, rest: string)
    requires a != [] && a[|a| - 1] == ' ' && forall k :: 1 <= k < |a| ==> !IsDigit(a[k])
    requires |rest| >= 2 && IsDigit(rest[0]) && rest[1] == ' '
    ensures SplitUp(a + rest) == Strip(a) + Separator + SplitUp(rest)
  {
    var s := a + rest;
    var i := |a| - 1;
    assert SenseMarkAt(s, i);
    forall k | 0 <= k < i
      ensures !SenseMarkAt(s, k)
    {
      assert s[k + 1] == a[k + 1];
    }
    FirstMarkAt(s, i);
    assert s[..i + 1] == a && s[i + 1..] == rest;
  }

  /** Text `a` that is cut after its last character, then text `b` that is
      cut after its own, then a last piece `c` without marks: three senses. */
  lemma ThreeSenses(a: string, b: string, c: string)
    requires a != [] && a[|a| - 1] == ' ' && forall k :: 1 <= k < |a| ==> !IsDigit(a[k])
    requires |b| >= 2 && b[|b| - 1] == ' ' && IsDigit(b[0]) && b[1] == ' '
    requires forall k :: 1 <= k < |b| ==> !IsDigit(b[k])
    requires |c| >= 2 && IsDigit(c[0]) && c[1] == ' ' && forall k :: 1 <= k < |c| ==> !IsDigit(c[k])
    ensures SplitUp(a + (b + c)) == Strip(a) + Separator + (Strip(b) + Separator + c)
  {
    CutAfter(a, b + c);
    CutAfter(b, c);
    LastSense(c);
  }

  /** A piece with no digit after its first character holds no mark. */
  lemma LastSense(c: string)
    requires forall k :: 1 <= k < |c| ==> !IsDigit(c[k])
    ensures SplitUp(c) == c
  {
    CountNoMarks(c);
    SplitUpWithoutMarks(c);
  }

  /** Stripping text that starts with a non-space keeps its first
      character. */
  lemma StripKeepsHead(p: string)
    requires p != [] && !IsSpace(p[0])
    ensures Strip(p) != [] && Strip(p)[0] == p[0]
  {
    var r := Strip(p);
    var k :| StrippedAt(p, r, k);
    assert r == [] ==> AllSpace(p);
  }

  /** Each separator is followed by the digit of the mark that caused it. */
  lemma DigitAfterSeparator(s: string, i: nat)
    requires FirstSenseMark(s) == Some(i)
    ensures SplitUp(s) == Strip(s[..i + 1]) + Separator + SplitUp(s[i + 1..])
    ensures SplitUp(s[i + 1..]) != [] && SplitUp(s[i + 1..])[0] == s[i + 1] && IsDigit(s[i + 1])
  {
    var rest := s[i + 1..];
    assert rest[0] == s[i + 1];
    assert !IsSpace(rest[0]);
    match FirstSenseMark(rest)
    case None =>
    case Some(i2) =>
      StripKeepsHead(rest[..i2 + 1]);
  }
}
