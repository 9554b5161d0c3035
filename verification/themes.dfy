/**
 The rule-based theme classifier: a review is tagged with every theme of an
 ordered theme table one of whose keywords occurs in the lowered review text,
 and with the single fallback label "Other" when none does.
 */
module Themes {
  import opened Text

  /** One entry of the theme table: a theme name and its keywords, in
      declaration order. */
  datatype Theme = Theme(name: string, keywords: seq<string>)

  /** The fallback label for a review that matches no theme. */
  const Other: string := "Other"

  /** The theme names of a table, in table order. */
  function Names(table: seq<Theme>): (r: seq<string>)
    ensures |r| == |table|
    ensures forall i :: 0 <= i < |table| ==> r[i] == table[i].name
  {
    seq(|table|, i requires 0 <= i < |table| => table[i].name)
  }

  /** The table is a dictionary, so no theme name is declared twice. */
  predicate DistinctNames(table: seq<Theme>) {
    forall i, j :: 0 <= i < j < |table| ==> table[i].name != table[j].name
  }

  /** `any(keyword in text for keyword in keywords)`. */
  predicate AnyKeyword(keywords: seq<string>, text: string)
    ensures AnyKeyword(keywords, text) <==> exists j :: 0 <= j < |keywords| && Contains(text, keywords[j])
  {
    |keywords| > 0 && (Contains(text, keywords[0]) || AnyKeyword(keywords[1..], text))
  }

  /** The theme fires on `text`. */
  predicate Matches(theme: Theme, text: string) {
    AnyKeyword(theme.keywords, text)
  }

  /** Some theme called `n` fires on `text`. */
  ghost predicate Qualifies(table: seq<Theme>, text: string, n: string) {
    exists i :: 0 <= i < |table| && table[i].name == n && Matches(table[i], text)
  }

  predicate NoneMatch(table: seq<Theme>, text: string) {
    forall i :: 0 <= i < |table| ==> !Matches(table[i], text)
  }

  /** A non-empty table qualifies `n` through its head or through its tail. */
  lemma QualifiesUncons(table: seq<Theme>, text: string)
    requires |table| > 0
    ensures forall n :: Qualifies(table, text, n) <==>
      (n == table[0].name && Matches(table[0], text)) || Qualifies(table[1..], text, n)
    ensures NoneMatch(table, text) <==> !Matches(table[0], text) && NoneMatch(table[1..], text)
  {
    forall n | Qualifies(table, text, n)
      ensures (n == table[0].name && Matches(table[0], text)) || Qualifies(table[1..], text, n)
    {
      var i :| 0 <= i < |table| && table[i].name == n && Matches(table[i], text);
      if i > 0 {
        assert table[1..][i - 1] == table[i];
      }
    }
    forall n | Qualifies(table[1..], text, n) ensures Qualifies(table, text, n) {
      var i :| 0 <= i < |table[1..]| && table[1..][i].name == n && Matches(table[1..][i], text);
      assert table[i + 1] == table[1..][i];
    }
    if !Matches(table[0], text) && NoneMatch(table[1..], text) {
      forall i | 0 <= i < |table| ensures !Matches(table[i], text) {
        if i > 0 {
          assert table[1..][i - 1] == table[i];
        }
      }
    }
  }

  /** The names of the firing themes, collected in one pass over the table. */
  function MatchedThemes(text: string, table: seq<Theme>): (r: seq<string>)
    ensures forall n :: n in r <==> Qualifies(table, text, n)
    ensures r == [] <==> NoneMatch(table, text)
    ensures IsSubsequence(r, Names(table))
    ensures DistinctNames(table) ==> NoDuplicates(r)
  {
    if |table| == 0 then []
    else
      var rest := MatchedThemes(text, table[1..]);
      QualifiesUncons(table, text);
      assert Names(table)[1..] == Names(table[1..]);
      assert DistinctNames(table) ==> DistinctNames(table[1..]) && table[0].name !in rest;
      if Matches(table[0], text) then [table[0].name] + rest else rest
  }

  /** `assign_themes(text, table)`. */
  function AssignThemes(text: string, table: seq<Theme>): (r: seq<string>)
    ensures |r| > 0
    ensures NoneMatch(table, Lower(text)) ==> r == [Other]
    ensures forall n :: n in r <==> Qualifies(table, Lower(text), n) || (n == Other && NoneMatch(table, Lower(text)))
    ensures NoneMatch(table, Lower(text)) || IsSubsequence(r, Names(table))
    ensures DistinctNames(table) ==> NoDuplicates(r)
    ensures Other !in Names(table) && Other in r ==> r == [Other]
  {
    var found := MatchedThemes(Lower(text), table);
    if found == [] then [Other] else found
  }

  /** Matching one table after another gives the two match lists one after the
      other. */
  lemma {:induction false} MatchedThemesAppend(text: string, a: seq<Theme>, b: seq<Theme>)
    ensures MatchedThemes(text, a + b) == MatchedThemes(text, a) + MatchedThemes(text, b)
    decreases |a|
  {
    if |a| > 0 {
      assert (a + b)[1..] == a[1..] + b;
      MatchedThemesAppend(text, a[1..], b);
    } else {
      assert a + b == b;
    }
  }

  /** Two firing themes at the end of the table are the last two labels, in
      table order. */
  lemma LastTwoFire(text: string, pre: seq<Theme>, a: Theme, b: Theme)
    requires Matches(a, Lower(text)) && Matches(b, Lower(text))
    ensures var r := AssignThemes(text, pre + [a, b]); |r| >= 2 && r[|r| - 2..] == [a.name, b.name]
  {
    var t := Lower(text);
    MatchedThemesAppend(t, pre, [a, b]);
    assert [a, b][1..] == [b];
    assert MatchedThemes(t, [a, b]) == [a.name, b.name];
  }

  /** The classifier lowers its input first, so it cannot tell a text from its
      lowered copy. */
  lemma CaseInsensitive(text: string, table: seq<Theme>)
    ensures AssignThemes(text, table) == AssignThemes(Lower(text), table)
  {
    LowerIdempotent(text);
  }

  /** A keyword with a capital letter never fires, because only the text is
      lowered, never the keywords. */
  lemma CapitalisedKeywordNeverFires(text: string, table: seq<Theme>, i: int, j: int, c: int)
    requires 0 <= i < |table| && 0 <= j < |table[i].keywords|
    requires 0 <= c < |table[i].keywords[j]| && IsUpperLetter(table[i].keywords[j][c])
    ensures !Contains(Lower(text), table[i].keywords[j])
  {
    UpperNeverInLower(text, table[i].keywords[j], c);
  }

  /** Matching is substring containment, not whole-word: when keyword `ka` of
      theme `a` itself contains keyword `kb` of theme `b`, every text that fires
      `a` through `ka` fires `b` as well. */
  lemma KeywordSubsumption(text: string, table: seq<Theme>, a: int, ka: int, b: int, kb: int)
    requires 0 <= a < |table| && 0 <= ka < |table[a].keywords|
    requires 0 <= b < |table| && 0 <= kb < |table[b].keywords|
    requires Contains(table[a].keywords[ka], table[b].keywords[kb])
    requires Contains(Lower(text), table[a].keywords[ka])
    ensures table[a].name in AssignThemes(text, table)
    ensures table[b].name in AssignThemes(text, table)
  {
    ContainsTransitive(Lower(text), table[a].keywords[ka], table[b].keywords[kb]);
    assert Matches(table[a], Lower(text));
    assert Matches(table[b], Lower(text));
  }

  /** No keyword of the table is the empty string. */
  predicate NoEmptyKeyword(table: seq<Theme>) {
    forall i :: 0 <= i < |table| ==> "" !in table[i].keywords
  }

  /** Python finds the empty string in every string, so a theme with an empty
      keyword tags every review. */
  lemma EmptyKeywordAlwaysFires(text: string, table: seq<Theme>, i: int)
    requires 0 <= i < |table| && "" in table[i].keywords
    ensures table[i].name in AssignThemes(text, table)
    ensures Other !in Names(table) ==> Other !in AssignThemes(text, table)
  {
    var j :| 0 <= j < |table[i].keywords| && table[i].keywords[j] == "";
    ContainsEmpty(Lower(text));
    assert Matches(table[i], Lower(text));
  }

  /** With no empty keyword, the empty review falls back to "Other". */
  lemma EmptyTextIsOther(table: seq<Theme>)
    requires NoEmptyKeyword(table)
    ensures AssignThemes("", table) == [Other]
  {
    forall i, j | 0 <= i < |table| && 0 <= j < |table[i].keywords|
      ensures !Contains("", table[i].keywords[j])
    {
      assert table[i].keywords[j] in table[i].keywords;
    }
  }
}
