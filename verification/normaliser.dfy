/**
 The text normaliser that prepares review text for keyword extraction and for
 the theme classifier: lower-case, delete every character other than `a`-`z`
 and whitespace, split into tokens, drop stopwords, lemmatize the rest and
 join them with single blanks. The stopword list and the lemmatizer belong to
 an external library and are parameters here.
 */
module Normaliser {
  import opened Text

  /** The characters the pattern `[^a-z\s]` does not match, and so leaves. */
  predicate Kept(c: char) {
    IsLowerLetter(c) || IsSpace(c)
  }

  predicate AllKept(s: string) {
    forall i :: 0 <= i < |s| ==> Kept(s[i])
  }

  /** `re.sub(r'[^a-z\s]', '', s)`. */
  function Clean(s: string): (r: string)
    ensures |r| <= |s|
    ensures AllKept(r)
  {
    if |s| == 0 then [] else (if Kept(s[0]) then [s[0]] else []) + Clean(s[1..])
  }

  /** Cleaning works character by character: it distributes over
      concatenation, so a deleted character leaves no trace, not even a
      separator. */
  lemma {:induction false} CleanAppend(a: string, b: string)
    ensures Clean(a + b) == Clean(a) + Clean(b)
    decreases |a|
  {
    if |a| == 0 {
      assert a + b == b;
    } else {
      var head: string := if Kept(a[0]) then [a[0]] else [];
      assert (a + b)[0] == a[0];
      assert (a + b)[1..] == a[1..] + b;
      assert Clean(a + b) == head + Clean(a[1..] + b);
      CleanAppend(a[1..], b);
      AppendAssoc(head, Clean(a[1..]), Clean(b));
    }
  }

  /** Cleaning changes exactly the texts that hold a character outside
      `a`-`z` and whitespace. */
  lemma {:induction false} CleanFixesIff(s: string)
    ensures Clean(s) == s <==> AllKept(s)
    decreases |s|
  {
    if |s| > 0 {
      CleanFixesIff(s[1..]);
      if AllKept(s) {
        assert AllKept(s[1..]);
        assert s == [s[0]] + s[1..];
      }
    }
  }

  /** The deleted character between two pieces glues them together. */
  lemma DeletedCharJoins(a: string, c: char, b: string)
    requires !Kept(c)
    ensures Clean(a + [c] + b) == Clean(a) + Clean(b)
  {
    assert Clean([c]) == [] by {
      assert [c][1..] == [];
    }
    CleanAppend(a, [c]);
    assert Clean(a + [c]) == Clean(a);
    CleanAppend(a + [c], b);
  }

  /** A token of the normalised text: non-empty and made of `a`-`z` only. */
  predicate IsWord(w: string) {
    |w| > 0 && forall i :: 0 <= i < |w| ==> IsLowerLetter(w[i])
  }

  predicate AllWords(ws: seq<string>) {
    forall i :: 0 <= i < |ws| ==> IsWord(ws[i])
  }

  /** The lemmatizer turns tokens into tokens. */
  ghost predicate KeepsWords(lemmatize: string -> string) {
    forall w :: IsWord(w) ==> IsWord(lemmatize(w))
  }

  /** `str(text).lower()`, cleaned and split. */
  function Tokens(text: string): (r: seq<string>)
    ensures AllWords(r)
  {
    var r := Split(Clean(Lower(text)));
    assert AllWords(r) by {
      forall i, j | 0 <= i < |r| && 0 <= j < |r[i]| ensures IsLowerLetter(r[i][j]) {
        SplitPiecesFromText(Clean(Lower(text)), i, j);
      }
    }
    r
  }

  /** Every character of a piece of `Split(s)` is a non-whitespace character
      of `s`. */
  lemma {:induction false} SplitPiecesFromText(s: string, i: int, j: int)
    requires 0 <= i < |Split(s)| && 0 <= j < |Split(s)[i]|
    ensures Split(s)[i][j] in s
    decreases |s|
  {
    if IsSpace(s[0]) {
      SplitPiecesFromText(s[1..], i, j);
    } else {
      var n := WordLength(s);
      if i == 0 {
        assert Split(s)[0] == s[..n];
        assert s[..n][j] == s[j];
      } else {
        assert Split(s)[i] == Split(s[n..])[i - 1];
        SplitPiecesFromText(s[n..], i - 1, j);
      }
    }
  }

  /** `[w for w in ws if w not in stop]`. */
  function DropStopwords(ws: seq<string>, stop: set<string>): (r: seq<string>)
    ensures IsSubsequence(r, ws)
    ensures forall w :: w in r <==> w in ws && w !in stop
  {
    if |ws| == 0 then []
    else
      var rest := DropStopwords(ws[1..], stop);
      if ws[0] in stop then rest
      else
        assert ([ws[0]] + rest)[1..] == rest;
        [ws[0]] + rest
  }

  /** The filter keeps every copy of a non-stopword token and no copy of a
      stopword; with `IsSubsequence` this fixes its result. */
  lemma {:induction false} DropStopwordsCounts(ws: seq<string>, stop: set<string>, w: string)
    ensures multiset(DropStopwords(ws, stop))[w] == if w in stop then 0 else multiset(ws)[w]
    decreases |ws|
  {
    if |ws| > 0 {
      assert ws == [ws[0]] + ws[1..];
      DropStopwordsCounts(ws[1..], stop, w);
    }
  }

  /** `[lemmatize(w) for w in ws]`. */
  function LemmatizeAll(ws: seq<string>, lemmatize: string -> string): (r: seq<string>)
    ensures |r| == |ws|
    ensures forall i :: 0 <= i < |ws| ==> r[i] == lemmatize(ws[i])
  {
    if |ws| == 0 then [] else [lemmatize(ws[0])] + LemmatizeAll(ws[1..], lemmatize)
  }

  /** `preprocess_text_for_tfidf(text)`. */
  function Normalise(text: string, stop: set<string>, lemmatize: string -> string): string {
    Join(LemmatizeAll(DropStopwords(Tokens(text), stop), lemmatize))
  }

  /** Text in normal form: only `a`-`z` and blanks, no blank at either end and
      never two blanks in a row. */
  predicate IsNormalForm(s: string) {
    && (forall i :: 0 <= i < |s| ==> IsLowerLetter(s[i]) || s[i] == ' ')
    && (|s| > 0 ==> s[0] != ' ' && s[|s| - 1] != ' ')
    && (forall i :: 0 <= i < |s| - 1 && s[i] == ' ' ==> s[i + 1] != ' ')
  }

  /** Joining words with single blanks gives text in normal form. */
  lemma {:induction false} JoinWordsNormal(ws: seq<string>)
    requires AllWords(ws)
    ensures IsNormalForm(Join(ws))
    decreases |ws|
  {
    if |ws| > 1 {
      JoinWordsNormal(ws[1..]);
      var w, rest := ws[0], Join(ws[1..]);
      var s := w + " " + rest;
      assert |rest| > 0 by {
        JoinLength(ws[1..]);
      }
      forall i | 0 <= i < |s| - 1 ensures s[i] == ' ' ==> s[i + 1] != ' ' {
        if i < |w| {
          assert s[i] == w[i];
        } else if i > |w| {
          assert s[i] == rest[i - |w| - 1];
          assert s[i + 1] == rest[i - |w|];
        }
      }
      assert forall i :: 0 <= i < |s| ==> IsLowerLetter(s[i]) || s[i] == ' ' by {
        forall i | 0 <= i < |s| ensures IsLowerLetter(s[i]) || s[i] == ' ' {
          if i < |w| {
            assert s[i] == w[i];
          } else if i > |w| {
            assert s[i] == rest[i - |w| - 1];
          }
        }
      }
      assert s[|s| - 1] == rest[|rest| - 1];
    }
  }

  lemma JoinLength(ws: seq<string>)
    requires AllWords(ws) && |ws| > 0
    ensures |Join(ws)| >= |ws[0]| > 0
  {
  }

  /** Under a lemmatizer that maps tokens to tokens, the normaliser's output
      consists of `a`-`z` and single blanks between tokens. */
  lemma NormaliseIsNormalForm(text: string, stop: set<string>, lemmatize: string -> string)
    requires KeepsWords(lemmatize)
    ensures IsNormalForm(Normalise(text, stop, lemmatize))
  {
    var kept := DropStopwords(Tokens(text), stop);
    var lemmas := LemmatizeAll(kept, lemmatize);
    forall i | 0 <= i < |kept| ensures IsWord(kept[i]) {
      assert kept[i] in kept;
    }
    assert AllWords(lemmas);
    JoinWordsNormal(lemmas);
  }

  /** Re-splitting the normaliser's output gives back exactly the lemmas of the
      non-stopword tokens, in their original order. */
  lemma NormaliseTokens(text: string, stop: set<string>, lemmatize: string -> string)
    requires KeepsWords(lemmatize)
    ensures Split(Normalise(text, stop, lemmatize)) == LemmatizeAll(DropStopwords(Tokens(text), stop), lemmatize)
  {
    var kept := DropStopwords(Tokens(text), stop);
    var lemmas := LemmatizeAll(kept, lemmatize);
    forall i | 0 <= i < |kept| ensures IsWord(kept[i]) {
      assert kept[i] in kept;
    }
    assert AllWords(lemmas);
    forall i | 0 <= i < |lemmas| ensures |lemmas[i]| > 0 && IsWordChars(lemmas[i]) {
      assert IsWord(lemmas[i]);
    }
    SplitJoin(lemmas);
  }

  /** Normal-form text is already lower case. */
  lemma NormalFormIsLower(s: string)
    requires IsNormalForm(s)
    ensures Lower(s) == s
  {
    LowerFixesIff(s);
  }

  /** Text that is already a blank-separated list of lower-case words passes
      through lowering and cleaning untouched and splits back into those
      words. */
  lemma TokensOfJoinedWords(ws: seq<string>)
    requires AllWords(ws)
    ensures Tokens(Join(ws)) == ws
  {
    var s := Join(ws);
    JoinWordsNormal(ws);
    NormalFormIsLower(s);
    CleanFixesIff(s);
    forall i | 0 <= i < |ws| ensures |ws[i]| > 0 && IsWordChars(ws[i]) {
      assert IsWord(ws[i]);
    }
    SplitJoin(ws);
  }

  /** Neither lowering nor cleaning introduces whitespace. */
  lemma {:induction false} CleanKeepsWordChars(s: string)
    requires IsWordChars(s)
    ensures IsWordChars(Clean(Lower(s))) && IsWordChars(Clean(s))
    decreases |s|
  {
    assert IsWordChars(Lower(s));
    if |s| > 0 {
      CleanKeepsWordChars(s[1..]);
      CleanKeepsWordChars(Lower(s)[1..]);
    }
  }

  /** A text without whitespace is one token or none. */
  lemma SplitWordChars(s: string)
    requires IsWordChars(s)
    ensures |s| == 0 ==> Split(s) == []
    ensures |s| > 0 ==> Split(s) == [s]
  {
    if |s| > 0 {
      WordLengthOfWord(s, "");
      assert s + "" == s;
      assert s[..|s|] == s && s[|s|..] == "";
    }
  }

  /** A review without whitespace normalises to at most one lemma, so its
      processed text has no blank in it. */
  lemma NoBlankInSingleTokenReview(review: string, stop: set<string>, lemmatize: string -> string)
    requires IsWordChars(review)
    requires KeepsWords(lemmatize)
    ensures ' ' !in Normalise(review, stop, lemmatize)
  {
    var c := Clean(Lower(review));
    CleanKeepsWordChars(review);
    SplitWordChars(c);
    var kept := DropStopwords(Tokens(review), stop);
    assert |kept| <= 1;
    if |kept| == 1 {
      assert kept[0] in Tokens(review);
      assert IsWord(lemmatize(kept[0]));
      assert LemmatizeAll(kept, lemmatize) == [lemmatize(kept[0])];
    }
  }
}
