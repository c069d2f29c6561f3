/** Character classes and string helpers, with the meaning Python 3 gives them
    for `str` values.  Text is a Dafny `string`, one `char` per code point. */
module Text {

  datatype Option<T> = None | Some(value: T)

  /** Python's `str.isspace()`: the characters that `\s` matches in a `str`
      pattern and that `str.strip()` removes. */
  predicate IsSpace(c: char) {
    var n := c as int;
    (0x09 <= n <= 0x0D) || (0x1C <= n <= 0x20) || n == 0x85 || n == 0xA0 ||
    n == 0x1680 || (0x2000 <= n <= 0x200A) || n == 0x2028 || n == 0x2029 ||
    n == 0x202F || n == 0x205F || n == 0x3000
  }

  /** `[0-9]`, and the ASCII reading of `\d`. */
  predicate IsDigit(c: char) {
    '0' <= c <= '9'
  }

  /** `[a-zA-Z]`. */
  predicate IsAsciiLetter(c: char) {
    'a' <= c <= 'z' || 'A' <= c <= 'Z'
  }

  /** `[一-鿿]`: the CJK Unified Ideographs block. */
  predicate IsIdeograph(c: char) {
    0x4E00 <= c as int <= 0x9FFF
  }

  /** `\w`, read as: ASCII letters and digits, the underscore, the letters of
      Latin-1 and of Latin Extended-A and -B (which hold the pinyin tone
      vowels), and the CJK ideographs. */
  predicate IsWordChar(c: char) {
    var n := c as int;
    IsAsciiLetter(c) || IsDigit(c) || c == '_' ||
    (0xC0 <= n <= 0x24F && n != 0xD7 && n != 0xF7) || IsIdeograph(c)
  }

  /** Python's `s.startswith(p)`. */
  predicate StartsWith(s: string, p: string) {
    |p| <= |s| && s[..|p|] == p
  }

  /** Python's slice `s[n:]`, which is empty once `n` passes the end. */
  function DropFirst(s: string, n: nat): (r: string)
    ensures |r| == if n <= |s| then |s| - n else 0
    ensures forall i :: 0 <= i < |r| ==> r[i] == s[n + i]
  {
    if n <= |s| then s[n..] else []
  }

  /** `a` is what is left of `b` once some characters are cut from its
      front. */
  predicate IsSuffix(a: string, b: string) {
    |a| <= |b| && b[|b| - |a|..] == a
  }

  /** A suffix other than the whole text is shorter. */
  lemma SuffixShorter(a: string, b: string)
    requires IsSuffix(a, b) && a != b
    ensures |a| < |b|
  {
  }

  lemma SuffixTrans(a: string, b: string, c: string)
    requires IsSuffix(a, b) && IsSuffix(b, c)
    ensures IsSuffix(a, c)
  {
    assert c[|c| - |a|..] == c[|c| - |b|..][|b| - |a|..];
  }

  /** Cutting the front off leaves a suffix. */
  lemma DropFirstSuffix(s: string, n: nat)
    ensures IsSuffix(DropFirst(s, n), s)
  {
  }

  /** Python's `t in s` on strings: `t` occurs in `s` as a contiguous piece. */
  predicate Occurs(t: string, s: string)
    decreases |s|
  {
    StartsWith(s, t) || (|s| > 0 && Occurs(t, s[1..]))
  }

  /** `t` stands in `s` at index `i`. */
  predicate OccursAt(t: string, s: string, i: int) {
    0 <= i <= |s| - |t| && s[i..i + |t|] == t
  }

  /** `Occurs` is substring containment. */
  lemma {:induction false} OccursIff(t: string, s: string)
    ensures Occurs(t, s) <==> exists i :: OccursAt(t, s, i)
    decreases |s|
  {
    if StartsWith(s, t) {
      assert OccursAt(t, s, 0);
    } else if |s| > 0 {
      OccursIff(t, s[1..]);
      if Occurs(t, s[1..]) {
        var i :| OccursAt(t, s[1..], i);
        assert s[i + 1..i + 1 + |t|] == s[1..][i..i + |t|];
        assert OccursAt(t, s, i + 1);
      } else {
        forall i | OccursAt(t, s, i)
          ensures false
        {
          if i > 0 {
            var j := i - 1;
            assert 0 <= j <= |s[1..]| - |t|;
            assert s[1..][j..j + |t|] == s[j + 1..j + 1 + |t|];
            assert OccursAt(t, s[1..], j);
          }
        }
      }
    }
  }

  /** Python's `s.lstrip()`. */
  function LeftStrip(s: string): (r: string)
    ensures |r| <= |s| && r == s[|s| - |r|..]
    ensures forall i :: 0 <= i < |s| - |r| ==> IsSpace(s[i])
    ensures r == [] || !IsSpace(r[0])
    decreases |s|
  {
    if s != [] && IsSpace(s[0]) then LeftStrip(s[1..]) else s
  }

  /** Python's `s.rstrip()`. */
  function RightStrip(s: string): (r: string)
    ensures |r| <= |s| && r == s[..|r|]
    ensures forall i :: |r| <= i < |s| ==> IsSpace(s[i])
    ensures r == [] || !IsSpace(r[|r| - 1])
    decreases |s|
  {
    if s != [] && IsSpace(s[|s| - 1]) then RightStrip(s[..|s| - 1]) else s
  }

  /** Every character of `s` is whitespace. */
  predicate AllSpace(s: string) {
    forall i :: 0 <= i < |s| ==> IsSpace(s[i])
  }

  /** `s` is whitespace, then `r` from index `k`, then whitespace. */
  predicate StrippedAt(s: string, r: string, k: int) {
    0 <= k <= |s| - |r| && s[k..k + |r|] == r && AllSpace(s[..k]) && AllSpace(s[k + |r|..])
  }

  /** Python's `s.strip()`: whitespace, and only whitespace, goes from both
      ends, so the input is some whitespace, the result, and some more. */
  function Strip(s: string): (r: string)
    ensures r == [] || (!IsSpace(r[0]) && !IsSpace(r[|r| - 1]))
    ensures exists k :: StrippedAt(s, r, k)
  {
    var l := LeftStrip(s);
    var r := RightStrip(l);
    StripAt(s, l, r);
    r
  }

  /** Whitespace cut from the front, then from the back, leaves the input
      as whitespace, the result, and whitespace. */
  lemma StripAt(s: string, l: string, r: string)
    requires |l| <= |s| && l == s[|s| - |l|..] && forall i :: 0 <= i < |s| - |l| ==> IsSpace(s[i])
    requires |r| <= |l| && r == l[..|r|] && forall i :: |r| <= i < |l| ==> IsSpace(l[i])
    ensures StrippedAt(s, r, |s| - |l|)
  {
    var k := |s| - |l|;
    assert AllSpace(s[..k]) by {
      forall i | 0 <= i < k
        ensures IsSpace(s[..k][i])
      {
        assert s[..k][i] == s[i];
      }
    }
    var m := k + |r|;
    assert AllSpace(s[m..]) by {
      forall i | 0 <= i < |s| - m
        ensures IsSpace(s[m..][i])
      {
        assert s[m..][i] == l[|r| + i];
      }
    }
    assert s[k..k + |r|] == r;
  }

  /** `s` with every character that satisfies `p` deleted. */
  function Erase(s: string, p: char -> bool): (r: string)
    ensures |r| <= |s|
    ensures forall i :: 0 <= i < |r| ==> !p(r[i])
    decreases |s|
  {
    if s == [] then []
    else (if p(s[0]) then [] else [s[0]]) + Erase(s[1..], p)
  }

  /** A character is left after erasing exactly when it is in `s` and not
      erased. */
  lemma {:induction false} EraseKeeps(s: string, p: char -> bool)
    ensures forall c :: c in Erase(s, p) <==> c in s && !p(c)
    decreases |s|
  {
    if s != [] {
      EraseKeeps(s[1..], p);
      assert s == [s[0]] + s[1..];
    }
  }

  lemma {:induction false} EraseAppend(a: string, b: string, p: char -> bool)
    ensures Erase(a + b, p) == Erase(a, p) + Erase(b, p)
    decreases |a|
  {
    if a == [] {
      assert a + b == b;
    } else {
      assert (a + b)[1..] == a[1..] + b;
      EraseAppend(a[1..], b, p);
    }
  }

  /** Erasing characters that `s` does not hold leaves `s` as it is. */
  lemma {:induction false} EraseNone(s: string, p: char -> bool)
    requires forall i :: 0 <= i < |s| ==> !p(s[i])
    ensures Erase(s, p) == s
    decreases |s|
  {
    if s != [] {
      EraseNone(s[1..], p);
    }
  }

  predicate IsParen(c: char) {
    c == '(' || c == ')'
  }

  /** The head of `s` in front of `t` is erased or kept as it is in `s`. */
  lemma EraseCons(s: string, t: string, p: char -> bool)
    requires s != []
    ensures Erase(s, p) == (if p(s[0]) then [] else [s[0]]) + Erase(s[1..], p)
    ensures Erase([s[0]] + t, p) == (if p(s[0]) then [] else [s[0]]) + Erase(t, p)
  {
    assert ([s[0]] + t)[1..] == t;
  }

  /** `a` followed by `u` is the head of `a`, then its tail and `u`. */
  lemma ConsAppend(a: string, u: string)
    requires a != []
    ensures [a[0]] + (a[1..] + u) == a + u
  {
    assert a == [a[0]] + a[1..];
  }

  predicate IsBlank(c: char) {
    c == ' '
  }

  /** `a` is `b` with some characters deleted (the greedy test is exact). */
  predicate IsSubsequence(a: string, b: string)
    decreases |b|
  {
    if a == [] then true
    else if b == [] then false
    else if a[0] == b[0] then IsSubsequence(a[1..], b[1..])
    else IsSubsequence(a, b[1..])
  }

  /** `n` spaces. */
  function Blanks(n: nat): (r: string)
    ensures |r| == n && forall i :: 0 <= i < n ==> r[i] == ' '
  {
    if n == 0 then [] else [' '] + Blanks(n - 1)
  }
}
