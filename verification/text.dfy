/**
 The handful of Python `str` operations the review pipeline relies on, restricted
 to ASCII: `lower()`, `isspace()`, `strip()`, the `in` substring test,
 `split()` with no separator and `' '.join(...)`.
 */
module Text {

  /** Whitespace as `str.isspace()` and the regex class `\s` see it, restricted
      to ASCII: tab, line feed, vertical tab, form feed, carriage return, the
      four separators 0x1C-0x1F and the blank. */
  predicate IsSpace(c: char) {
    c == ' ' || (9 <= c as int <= 13) || (28 <= c as int <= 31)
  }

  predicate IsLowerLetter(c: char) {
    'a' <= c <= 'z'
  }

  predicate IsUpperLetter(c: char) {
    'A' <= c <= 'Z'
  }

  /** `c.lower()` for an ASCII character; every other character is unchanged. */
  function LowerChar(c: char): (d: char)
    ensures !IsUpperLetter(d)
    ensures IsUpperLetter(c) ==> IsLowerLetter(d) && d as int == c as int + 32
    ensures !IsUpperLetter(c) ==> d == c
  {
    if IsUpperLetter(c) then (c as int + 32) as char else c
  }

  /** `s.lower()`: a character-by-character map that only touches `A`-`Z`. */
  function Lower(s: string): (r: string)
    ensures |r| == |s|
    ensures forall i :: 0 <= i < |r| ==> !IsUpperLetter(r[i])
    ensures forall i :: 0 <= i < |s| && !IsUpperLetter(s[i]) ==> r[i] == s[i]
    ensures forall i :: 0 <= i < |s| && IsUpperLetter(s[i]) ==> r[i] as int == s[i] as int + 32
  {
    if |s| == 0 then [] else [LowerChar(s[0])] + Lower(s[1..])
  }

  predicate HasNoUpper(s: string) {
    forall i :: 0 <= i < |s| ==> !IsUpperLetter(s[i])
  }

  /** Lowering is the identity exactly on text without capitals. */
  lemma LowerFixesIff(s: string)
    ensures Lower(s) == s <==> HasNoUpper(s)
  {
    if HasNoUpper(s) {
      assert forall i :: 0 <= i < |s| ==> Lower(s)[i] == s[i];
    }
  }

  lemma LowerIdempotent(s: string)
    ensures Lower(Lower(s)) == Lower(s)
  {
    LowerFixesIff(Lower(s));
  }

  /** `s.strip()`: drops leading and trailing whitespace. The result is empty
      exactly for all-whitespace text; otherwise it starts and ends with a
      non-whitespace character. */
  function Strip(s: string): (r: string)
    ensures |r| <= |s|
    ensures r == "" <==> IsBlank(s)
    ensures |r| > 0 ==> !IsSpace(r[0]) && !IsSpace(r[|r| - 1])
  {
    StripEmptyIffBlank(s);
    StripTrailing(StripLeading(s))
  }

  function StripLeading(s: string): (r: string)
    ensures |r| <= |s| && r == s[|s| - |r|..]
    ensures |r| > 0 ==> !IsSpace(r[0])
    ensures forall i :: 0 <= i < |s| - |r| ==> IsSpace(s[i])
  {
    if |s| > 0 && IsSpace(s[0]) then StripLeading(s[1..]) else s
  }

  function StripTrailing(s: string): (r: string)
    ensures |r| <= |s| && r == s[..|r|]
    ensures |r| > 0 ==> !IsSpace(r[|r| - 1])
    ensures forall i :: |r| <= i < |s| ==> IsSpace(s[i])
  {
    if |s| > 0 && IsSpace(s[|s| - 1]) then StripTrailing(s[..|s| - 1]) else s
  }

  predicate IsBlank(s: string) {
    forall i :: 0 <= i < |s| ==> IsSpace(s[i])
  }

  /** Stripping both ends leaves nothing exactly for the all-whitespace
      strings, the empty one included. */
  lemma StripEmptyIffBlank(s: string)
    ensures StripTrailing(StripLeading(s)) == "" <==> IsBlank(s)
  {
    if !IsBlank(s) {
      var i :| 0 <= i < |s| && !IsSpace(s[i]);
      var l := StripLeading(s);
      var off := |s| - |l|;
      assert l[i - off] == s[i];
      assert |StripTrailing(l)| > i - off;
    }
  }

  /** `k` occurs in `s` starting at position `i`. */
  ghost predicate OccursAt(s: string, k: string, i: int) {
    0 <= i && i + |k| <= |s| && s[i..i + |k|] == k
  }

  /** What `k in s` means for two strings: `k` is a prefix of `s` or of one of
      its suffixes. */
  predicate Contains(s: string, k: string)
    decreases |s|
  {
    (|k| <= |s| && s[..|k|] == k) || (|s| > 0 && Contains(s[1..], k))
  }

  /** The scan finds `k` exactly when `k` occurs somewhere in `s`. */
  lemma {:induction false} ContainsIffOccurs(s: string, k: string)
    ensures Contains(s, k) <==> exists i :: OccursAt(s, k, i)
    decreases |s|
  {
    if |k| <= |s| && s[..|k|] == k {
      assert OccursAt(s, k, 0);
    }
    if |s| > 0 {
      ContainsIffOccurs(s[1..], k);
      if Contains(s[1..], k) {
        var i :| OccursAt(s[1..], k, i);
        assert s[1..][i..i + |k|] == s[i + 1..i + 1 + |k|];
        assert OccursAt(s, k, i + 1);
      }
      if exists i :: OccursAt(s, k, i) {
        var i :| OccursAt(s, k, i);
        if i > 0 {
          assert s[1..][i - 1..i - 1 + |k|] == s[i..i + |k|];
          assert OccursAt(s[1..], k, i - 1);
        }
      }
    }
  }

  /** The empty string occurs in every string. */
  lemma ContainsEmpty(s: string)
    ensures Contains(s, "")
  {
    assert s[..0] == "";
  }

  /** A string occurs in itself. */
  lemma ContainsSelf(s: string)
    ensures Contains(s, s)
  {
    assert s[..|s|] == s;
  }

  /** Containment is transitive: a string that contains `m` contains everything
      `m` contains. */
  lemma ContainsTransitive(s: string, m: string, k: string)
    requires Contains(s, m) && Contains(m, k)
    ensures Contains(s, k)
  {
    ContainsIffOccurs(s, m);
    ContainsIffOccurs(m, k);
    var i :| OccursAt(s, m, i);
    var j :| OccursAt(m, k, j);
    assert forall t :: 0 <= t < |k| ==> k[t] == m[j + t] == s[i + j + t];
    assert s[i + j..i + j + |k|] == k;
    assert OccursAt(s, k, i + j);
    ContainsIffOccurs(s, k);
  }

  /** A string that contains `m` contains every piece of `m`. */
  lemma ContainsPiece(s: string, m: string, k: string, p: int)
    requires Contains(s, m)
    requires 0 <= p && p + |k| <= |m| && m[p..p + |k|] == k
    ensures Contains(s, k)
  {
    assert OccursAt(m, k, p);
    ContainsIffOccurs(m, k);
    ContainsTransitive(s, m, k);
  }

  /** A needle with a capital letter never occurs in lowered text. */
  lemma UpperNeverInLower(s: string, k: string, j: int)
    requires 0 <= j < |k| && IsUpperLetter(k[j])
    ensures !Contains(Lower(s), k)
  {
    var l := Lower(s);
    forall i | 0 <= i && i + |k| <= |l|
      ensures !OccursAt(l, k, i)
    {
      assert l[i..i + |k|][j] == l[i + j];
    }
    ContainsIffOccurs(l, k);
  }

  /** A needle that has a character the haystack lacks is never found. */
  lemma MissingCharNotContained(s: string, k: string, c: char)
    requires c in k && c !in s
    ensures !Contains(s, k)
  {
    var j :| 0 <= j < |k| && k[j] == c;
    forall i | 0 <= i && i + |k| <= |s|
      ensures !OccursAt(s, k, i)
    {
      assert s[i..i + |k|][j] == s[i + j];
    }
    ContainsIffOccurs(s, k);
  }

  predicate IsWordChars(w: string) {
    forall i :: 0 <= i < |w| ==> !IsSpace(w[i])
  }

  /** Length of the run of non-whitespace characters at the start of `s`. */
  function WordLength(s: string): (n: nat)
    ensures n <= |s|
    ensures IsWordChars(s[..n])
    ensures n < |s| ==> IsSpace(s[n])
    ensures |s| > 0 && !IsSpace(s[0]) ==> n > 0
  {
    if |s| == 0 || IsSpace(s[0]) then 0 else 1 + WordLength(s[1..])
  }

  /** `s.split()`: the maximal runs of non-whitespace characters, in order;
      leading, trailing and repeated whitespace produce no empty pieces. */
  function Split(s: string): (r: seq<string>)
    ensures forall i :: 0 <= i < |r| ==> |r[i]| > 0 && IsWordChars(r[i])
    decreases |s|
  {
    if |s| == 0 then []
    else if IsSpace(s[0]) then Split(s[1..])
    else
      var n := WordLength(s);
      [s[..n]] + Split(s[n..])
  }

  /** `' '.join(ws)`. */
  function Join(ws: seq<string>): string {
    if |ws| == 0 then ""
    else if |ws| == 1 then ws[0]
    else ws[0] + " " + Join(ws[1..])
  }

  /** The pieces that `Split` can produce: non-empty and free of whitespace. */
  predicate AreWords(ws: seq<string>) {
    forall i :: 0 <= i < |ws| ==> |ws[i]| > 0 && IsWordChars(ws[i])
  }

  lemma {:induction false} WordLengthOfWord(w: string, t: string)
    requires IsWordChars(w)
    requires |t| == 0 || IsSpace(t[0])
    ensures WordLength(w + t) == |w|
    decreases |w|
  {
    if |w| > 0 {
      assert (w + t)[1..] == w[1..] + t;
      WordLengthOfWord(w[1..], t);
    } else {
      assert w + t == t;
    }
  }

  /** A word followed by whitespace or nothing is split off whole. */
  lemma SplitWordThen(w: string, t: string)
    requires |w| > 0 && IsWordChars(w)
    requires |t| == 0 || IsSpace(t[0])
    ensures Split(w + t) == [w] + Split(t)
  {
    WordLengthOfWord(w, t);
    assert (w + t)[..|w|] == w;
    assert (w + t)[|w|..] == t;
  }

  /** Leading whitespace produces no piece. */
  lemma SplitSkipsSpace(c: char, t: string)
    requires IsSpace(c)
    ensures Split([c] + t) == Split(t)
  {
    assert ([c] + t)[1..] == t;
  }

  /** One step of `SplitJoin`: a word in front of a joined list. */
  lemma SplitJoinStep(w: string, tail: seq<string>)
    requires |w| > 0 && IsWordChars(w) && |tail| > 0
    ensures Split(Join([w] + tail)) == [w] + Split(Join(tail))
  {
    var ws, rest := [w] + tail, Join(tail);
    assert |ws| > 1 && ws[0] == w && ws[1..] == tail;
    assert Join(ws) == w + " " + rest;
    var t := " " + rest;
    assert t[0] == ' ';
    assert IsSpace(t[0]);
    AppendAssoc(w, " ", rest);
    SplitWordThen(w, t);
    SplitSkipsSpace(' ', rest);
  }

  lemma AppendAssoc<T>(a: seq<T>, b: seq<T>, c: seq<T>)
    ensures a + b + c == a + (b + c)
  {
  }

  /** Splitting undoes joining, as long as the pieces are words. */
  lemma {:induction false} SplitJoin(ws: seq<string>)
    requires AreWords(ws)
    ensures Split(Join(ws)) == ws
    decreases |ws|
  {
    if |ws| == 1 {
      SplitWordThen(ws[0], "");
      assert ws[0] + "" == ws[0];
    } else if |ws| > 1 {
      var w, tail := ws[0], ws[1..];
      assert AreWords(tail) by {
        forall i | 0 <= i < |tail| ensures |tail[i]| > 0 && IsWordChars(tail[i]) {
          assert tail[i] == ws[i + 1];
        }
      }
      SplitJoin(tail);
      assert ws == [w] + tail;
      SplitJoinStep(w, tail);
    }
  }

  predicate NoDuplicates<T(==)>(s: seq<T>) {
    forall i, j :: 0 <= i < j < |s| ==> s[i] != s[j]
  }

  /** `a` is obtained from `b` by deleting elements, keeping the rest in order. */
  predicate IsSubsequence<T(==)>(a: seq<T>, b: seq<T>)
    decreases |b|
  {
    |a| == 0 || (|b| > 0 && ((a[0] == b[0] && IsSubsequence(a[1..], b[1..])) || IsSubsequence(a, b[1..])))
  }
}
