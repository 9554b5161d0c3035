/**
 The theme column of the pipeline: the classifier applied, with the shipped
 table, to the normaliser's output rather than to the raw review.
 */
module Pipeline {
  import opened Text
  import opened Normaliser
  import opened Themes
  import opened ReferenceTable

  /** The themes the pipeline records for a raw review. */
  function IdentifiedThemes(review: string, stop: set<string>, lemmatize: string -> string): (r: seq<string>)
    ensures |r| > 0 && NoDuplicates(r)
    ensures r == [Other] || (Other !in r && IsSubsequence(r, Names(Table)))
  {
    ResultShape(Normalise(review, stop, lemmatize));
    AssignThemes(Normalise(review, stop, lemmatize), Table)
  }

  /** The classifier lowers text that the normaliser has already lowered, so on
      the pipeline's input its lowering step changes nothing. */
  lemma LoweringIsRedundant(review: string, stop: set<string>, lemmatize: string -> string)
    requires KeepsWords(lemmatize)
    ensures Lower(Normalise(review, stop, lemmatize)) == Normalise(review, stop, lemmatize)
  {
    NormaliseIsNormalForm(review, stop, lemmatize);
    NormalFormIsLower(Normalise(review, stop, lemmatize));
  }

  /** A keyword holding anything but `a`-`z` and the blank can never fire on
      normalised text. */
  lemma OffAlphabetKeywordNeverFires(review: string, stop: set<string>, lemmatize: string -> string, k: string, c: char)
    requires KeepsWords(lemmatize)
    requires c in k && !IsLowerLetter(c) && c != ' '
    ensures !Contains(Normalise(review, stop, lemmatize), k)
  {
    NormaliseIsNormalForm(review, stop, lemmatize);
    MissingCharNotContained(Normalise(review, stop, lemmatize), k, c);
  }

  /** A stopword between two words disappears: `a s b` normalises to the two
      lemmas of `a` and `b` separated by one blank. */
  lemma StopwordBetweenVanishes(a: string, s: string, b: string, stop: set<string>, lemmatize: string -> string)
    requires IsWord(a) && IsWord(s) && IsWord(b)
    requires s in stop && a !in stop && b !in stop
    ensures Normalise(a + " " + s + " " + b, stop, lemmatize) == lemmatize(a) + " " + lemmatize(b)
  {
    var ws := [a, s, b];
    assert ws[1..] == [s, b] && ws[1..][1..] == [b];
    assert Join([s, b]) == s + " " + b;
    assert Join(ws) == a + " " + s + " " + b;
    TokensOfJoinedWords(ws);
    assert DropStopwords([b], stop) == [b];
    assert DropStopwords([s, b], stop) == [b];
    assert DropStopwords(ws, stop) == [a, b];
    var lemmas := [lemmatize(a), lemmatize(b)];
    assert LemmatizeAll([a, b], lemmatize) == lemmas;
    assert lemmas[1..] == [lemmatize(b)];
    assert Join(lemmas) == lemmatize(a) + " " + lemmatize(b);
    assert Normalise(Join(ws), stop, lemmatize) == Join(lemmas);
  }

  /** Stopword removal is what lets the phrase keyword `easy use` fire on the
      review "easy to use", given a stopword list holding `to` but not `easy` or
      `use`, and a lemmatizer that leaves both words alone. */
  lemma EasyToUseFiresInterface(review: string, stop: set<string>, lemmatize: string -> string)
    requires review == "easy to use"
    requires "to" in stop && "easy" !in stop && "use" !in stop
    requires lemmatize("easy") == "easy" && lemmatize("use") == "use"
    ensures InterfaceName in IdentifiedThemes(review, stop, lemmatize)
  {
    var a, s, b := "easy", "to", "use";
    assert review == a + " " + s + " " + b;
    StopwordBetweenVanishes(a, s, b, stop, lemmatize);
    ProcessedKeywordFires(review, stop, lemmatize, 2, 2);
  }

  /** A processed review that is exactly keyword `j` of theme `i` gets theme
      `i`. */
  lemma ProcessedKeywordFires(review: string, stop: set<string>, lemmatize: string -> string, i: int, j: int)
    requires 0 <= i < |Table| && 0 <= j < |Table[i].keywords|
    requires Normalise(review, stop, lemmatize) == Table[i].keywords[j]
    requires HasNoUpper(Table[i].keywords[j])
    ensures Table[i].name in IdentifiedThemes(review, stop, lemmatize)
  {
    var t := Normalise(review, stop, lemmatize);
    LowerFixesIff(t);
    ContainsSelf(t);
    assert Matches(Table[i], Lower(t));
  }

  /** A review whose processed text contains a keyword of theme `i` anywhere
      gets theme `i`. */
  lemma ProcessedTextFires(review: string, stop: set<string>, lemmatize: string -> string, i: int, j: int)
    requires KeepsWords(lemmatize)
    requires 0 <= i < |Table| && 0 <= j < |Table[i].keywords|
    requires Contains(Normalise(review, stop, lemmatize), Table[i].keywords[j])
    ensures Table[i].name in IdentifiedThemes(review, stop, lemmatize)
  {
    LoweringIsRedundant(review, stop, lemmatize);
    assert Matches(Table[i], Lower(Normalise(review, stop, lemmatize)));
  }

  /** Filtering happens before lemmatizing, so a token whose lemma is a
      stopword survives as that stopword. */
  lemma StopwordLemmaSurvives(w: string, stop: set<string>, lemmatize: string -> string)
    requires IsWord(w) && w !in stop && lemmatize(w) in stop
    ensures Normalise(w, stop, lemmatize) == lemmatize(w)
    ensures Split(Normalise(w, stop, lemmatize)) == [lemmatize(w)] || !IsWord(lemmatize(w))
  {
    TokensOfJoinedWords([w]);
    assert DropStopwords([w], stop) == [w];
    if IsWord(lemmatize(w)) {
      SplitJoin([lemmatize(w)]);
    }
  }

  /** A phrase keyword never fires on a review without whitespace: the hyphen of
      "user-friendly" is deleted, not turned into a blank, so the keyword
      `user friendly` misses it. */
  lemma UserFriendlyMissesPhrase(review: string, stop: set<string>, lemmatize: string -> string)
    requires review == "user-friendly"
    requires KeepsWords(lemmatize)
    ensures !Contains(Normalise(review, stop, lemmatize), Table[2].keywords[6])
  {
    assert IsWordChars(review);
    NoBlankInSingleTokenReview(review, stop, lemmatize);
    MissingCharNotContained(Normalise(review, stop, lemmatize), Table[2].keywords[6], ' ');
  }

  /** Punctuation between two words is deleted, not replaced by a blank, so
      the two words fuse into one token. */
  lemma PunctuationFusesWords(a: string, c: char, b: string)
    requires IsWord(a) && IsWord(b)
    requires !IsLowerLetter(c) && !IsUpperLetter(c) && !IsSpace(c)
    ensures Tokens(a + [c] + b) == [a + b]
  {
    var s := a + [c] + b;
    assert HasNoUpper(s) by {
      forall i | 0 <= i < |s| ensures !IsUpperLetter(s[i]) {
        if i < |a| {
          assert s[i] == a[i];
        } else if i > |a| {
          assert s[i] == b[i - |a| - 1];
        }
      }
    }
    LowerFixesIff(s);
    DeletedCharJoins(a, c, b);
    CleanFixesIff(a);
    CleanFixesIff(b);
    assert IsWord(a + b);
    SplitWordChars(a + b);
  }

  /** The hyphen of "user-friendly" is deleted: the review is the single token
      `userfriendly`. */
  lemma UserFriendlyIsOneToken(review: string)
    requires review == "user-friendly"
    ensures Tokens(review) == ["userfriendly"]
  {
    var a, b := "user", "friendly";
    assert review == a + ['-'] + b;
    PunctuationFusesWords(a, '-', b);
    assert a + b == "userfriendly";
  }
}
