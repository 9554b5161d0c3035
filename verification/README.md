# Bank review analysis: theme tagging and sentiment labelling

This project models the per-review core of a pipeline that analyses mobile
banking app reviews. It has two parts.

- **Theme tagging** (`analyze_themes.py`):
  - The normaliser `preprocess_text_for_tfidf` lowers a review and deletes
    every character other than `a`-`z` and whitespace. It then splits the text
    into tokens, drops stopwords, lemmatizes the remaining tokens and joins
    them with single blanks.
  - The classifier `assign_themes` walks the ordered theme table. It tags the
    review with each theme that has a keyword occurring as a substring of the
    lowered text. When no theme fires, the review gets the single label
    `Other`.
  - The pipeline applies the classifier, with the shipped six-theme table, to
    the normalised text.
- **Sentiment labelling** (`analyze_sentiment.py`):
  - `get_vader_sentiment` gives a missing, non-string or whitespace-only
    review `NEUTRAL` with score 0.0.
  - For any other review, it takes the scorer's compound score:
    - at or above 0.05 the label is `POSITIVE`;
    - at or below -0.05 it is `NEGATIVE`;
    - otherwise it is `NEUTRAL`.
  - The reported score is the component that belongs to the label.
  - `sentiment_mapping` turns the label into 1, 0 or -1.

Modules:

- `Wrappers`: `Option`.
- `Text`: ASCII versions of the Python string operations used:
  - `lower`, `isspace`, `strip`, `split`, `' '.join`
  - the substring test `in`, as the recursive predicate `Contains`
  - generic `NoDuplicates` and `IsSubsequence`
- `Themes`: the theme table as a sequence of `Theme(name, keywords)` in
  declaration order, and the classifier. A Python dict keeps insertion order
  and has distinct keys. The model states that as `DistinctNames`.
- `ReferenceTable`: the shipped table and facts about it.
- `Normaliser`: the text normaliser.
  - The stopword set and the lemmatizer are parameters.
  - Where the lemmatizer matters, the only thing assumed about it is
    `KeepsWords`: it maps `a`-`z` words to `a`-`z` words.
- `Pipeline`: the classifier applied to the normaliser's output.
- `Sentiment`: the labelling rule.
  - The scorer is a function parameter that returns the four polarity numbers.
  - A review cell is `Missing`, `NonString` or `Str(s)`.

A review mentioning login, an OTP and support is also tagged Feature Requests
& Completeness, because `otp` is a keyword of that theme as well as of Account
Access (`analyze_themes.py:84-85`); see `ReferenceTable.OtpTagsFeatureThenAccess`.

## Model

| member | source | states |
|---|---|---|
| Text.Lower | analyze_themes.py:90 | Lowering keeps the length, leaves no capital `A`-`Z`, leaves every other character unchanged and moves each capital to its lower-case letter. |
| Text.LowerFixesIff | analyze_themes.py:90 | Lowering leaves a text unchanged exactly when it has no capital letter. |
| Text.LowerIdempotent | analyze_themes.py:90 | Lowering twice is the same as lowering once. |
| Text.StripLeading | analyze_sentiment.py:20 | The leading-strip result is a suffix of the input that does not start with whitespace, and everything dropped is whitespace. |
| Text.StripTrailing | analyze_sentiment.py:20 | The trailing-strip result is a prefix of the input that does not end with whitespace, and everything dropped is whitespace. |
| Text.Strip | analyze_sentiment.py:20 | `strip()` never lengthens the text. Its result is empty exactly when every character is whitespace, the empty text included. Otherwise the result starts and ends with a non-whitespace character. |
| Text.StripEmptyIffBlank | analyze_sentiment.py:20 | Stripping both ends leaves nothing exactly when every character is whitespace. |
| Text.Contains | analyze_themes.py:92 | The substring test `k in s`. It has no contract of its own; `Text.ContainsIffOccurs` states its meaning. |
| Text.ContainsIffOccurs | analyze_themes.py:92 | The substring test succeeds exactly when the keyword occurs at some position of the text. |
| Text.ContainsTransitive | analyze_themes.py:92 | A text that contains `m` contains every substring of `m`. |
| Text.ContainsPiece | analyze_themes.py:92 | A text that contains `m` contains each slice of `m`. |
| Text.UpperNeverInLower | analyze_themes.py:90-92 | A needle with a capital letter is never found in lowered text. |
| Text.MissingCharNotContained | analyze_themes.py:92 | A needle holding a character the text lacks is never found. |
| Text.WordLength | analyze_themes.py:33 | The first run of non-whitespace characters ends at whitespace or at the end of the text, and is non-empty when the text starts with a non-whitespace character. |
| Text.Split | analyze_themes.py:33 | `split()` yields only non-empty pieces without whitespace. |
| Text.Join | analyze_themes.py:35 | `' '.join(tokens)`. It has no contract of its own; `Text.SplitJoin` and `Normaliser.JoinWordsNormal` state what it produces. |
| Text.SplitJoin | analyze_themes.py:33-35 | Splitting a blank-joined list of words gives the list back. |
| Themes.Names | analyze_themes.py:91 | The table's theme names, in table order. |
| Themes.AnyKeyword | analyze_themes.py:92 | `any(keyword in text ...)` holds exactly when some keyword of the list occurs in the text. |
| Themes.MatchedThemes | analyze_themes.py:91-93 | The collected names are exactly the names of firing themes. The list is empty exactly when no theme fires. It keeps table order and has no duplicates when the names are distinct. |
| Themes.AssignThemes | analyze_themes.py:88-94 | The result is never empty. It is `["Other"]` when no theme fires on the lowered text. A label is in it exactly when its theme fires, or when it is `Other` and nothing fires. Real themes come in table order without duplicates. `Other` never sits next to a real theme. |
| Themes.MatchedThemesAppend | analyze_themes.py:91-93 | Classifying against two tables in sequence gives the two label lists one after the other. |
| Themes.LastTwoFire | analyze_themes.py:91-94 | When the last two themes of a table both fire, they are the last two labels, in table order. |
| Themes.CaseInsensitive | analyze_themes.py:90 | A review and its lowered copy get the same themes. |
| Themes.CapitalisedKeywordNeverFires | analyze_themes.py:90-92 | A keyword with a capital letter can never match, since only the text is lowered. |
| Themes.KeywordSubsumption | analyze_themes.py:92 | Matching is substring-based. When one theme's keyword contains another theme's keyword, the first theme firing on it brings the second. |
| Themes.EmptyKeywordAlwaysFires | analyze_themes.py:92 | A theme with an empty keyword tags every review, so `Other` never appears. |
| Themes.EmptyTextIsOther | analyze_themes.py:89-94 | With no empty keyword, the empty review is `["Other"]`. |
| ReferenceTable.Table | analyze_themes.py:79-86 | The six themes with their exact keywords, in declaration order. `ReferenceTable.TableWellFormed` and `ReferenceTable.NamesOfTable` state its shape. |
| ReferenceTable.TableWellFormed | analyze_themes.py:79-86 | The shipped table has distinct names, none of them `Other`, and no empty keyword. |
| ReferenceTable.NamesOfTable | analyze_themes.py:79-86 | The shipped table's names, in declaration order. |
| ReferenceTable.NoEmptyKeywordAt | analyze_themes.py:79-86 | No keyword of a shipped theme is empty. |
| ReferenceTable.ResultShape | analyze_themes.py:79-94 | With the shipped table every result is duplicate-free. It is either exactly `["Other"]`, or real theme names in table order without `Other`. |
| ReferenceTable.EmptyReviewIsOther | analyze_themes.py:79-94 | The empty review is tagged `["Other"]`. |
| ReferenceTable.OtpTagsFeatureThenAccess | analyze_themes.py:84-93 | A review containing `otp` ends its labels with Feature Requests & Completeness and then Account Access. |
| ReferenceTable.AddressTagsFeatureRequests | analyze_themes.py:84 | A review containing `address` is tagged Feature Requests & Completeness, through the keyword `add`. |
| ReferenceTable.QuickTagsInterfaceToo | analyze_themes.py:81-82 | A review containing `quick` is tagged both Transaction Performance and User Interface & Experience, since `ui` sits inside `quick`. |
| ReferenceTable.TransferMoneyTagsTransactionToo | analyze_themes.py:81-84 | A review containing `transfer money` is tagged both Feature Requests and Transaction Performance. |
| ReferenceTable.LoginErrorTagsAccessToo | analyze_themes.py:80-85 | A review containing `login error` is tagged both App Stability & Bugs and Account Access. |
| Normaliser.Clean | analyze_themes.py:32 | The regex deletion never lengthens the text and leaves only `a`-`z` and whitespace. |
| Normaliser.CleanAppend | analyze_themes.py:32 | Deletion works character by character, so it distributes over concatenation. |
| Normaliser.CleanFixesIff | analyze_themes.py:32 | Deletion changes the text exactly when it holds some character outside `a`-`z` and whitespace. |
| Normaliser.DeletedCharJoins | analyze_themes.py:32 | A deleted character leaves nothing behind, not even a separator. |
| Normaliser.Tokens | analyze_themes.py:31-33 | Every token is a non-empty word of `a`-`z`. |
| Normaliser.SplitPiecesFromText | analyze_themes.py:33 | Every character of a token comes from the text being split. |
| Normaliser.DropStopwords | analyze_themes.py:34 | The kept tokens are a subsequence of the input, and a token is kept exactly when it occurs in the input and is not a stopword. |
| Normaliser.DropStopwordsCounts | analyze_themes.py:34 | Every copy of a non-stopword token is kept and no copy of a stopword. Together with the subsequence clause of `DropStopwords`, this fixes the result. |
| Normaliser.LemmatizeAll | analyze_themes.py:34 | Lemmatizing maps each token to its lemma, position by position. |
| Normaliser.JoinWordsNormal | analyze_themes.py:35 | Joining words with single blanks yields only `a`-`z` and blanks, with no blank at either end and no two blanks in a row. |
| Normaliser.Normalise | analyze_themes.py:30-35 | `preprocess_text_for_tfidf` itself. It has no contract of its own; `Normaliser.NormaliseTokens` and `Normaliser.NormaliseIsNormalForm` state what it produces. |
| Normaliser.NormaliseIsNormalForm | analyze_themes.py:30-35 | The normaliser's output is in that normal form. |
| Normaliser.NormaliseTokens | analyze_themes.py:30-35 | Re-splitting the output gives exactly the lemmas of the non-stopword tokens, in order. |
| Normaliser.NormalFormIsLower | analyze_themes.py:31-35 | Normal-form text has nothing left to lower. |
| Normaliser.TokensOfJoinedWords | analyze_themes.py:31-33 | Text that is already blank-joined lower-case words tokenizes back into those words. |
| Normaliser.CleanKeepsWordChars | analyze_themes.py:31-32 | Neither lowering nor deletion introduces whitespace. |
| Normaliser.SplitWordChars | analyze_themes.py:33 | A text without whitespace splits into itself, or into nothing when empty. |
| Normaliser.NoBlankInSingleTokenReview | analyze_themes.py:30-35 | A review without whitespace normalises to a text without a blank. |
| Pipeline.IdentifiedThemes | analyze_themes.py:97 | The recorded themes of every review are non-empty and duplicate-free. They are `["Other"]` or real theme names in table order. |
| Pipeline.LoweringIsRedundant | analyze_themes.py:90-97 | The classifier's lowering changes nothing on normalised input. |
| Pipeline.OffAlphabetKeywordNeverFires | analyze_themes.py:30-35 | A keyword with a character other than `a`-`z` or the blank never occurs in normalised text. |
| Pipeline.StopwordBetweenVanishes | analyze_themes.py:33-35 | A stopword between two words disappears, leaving the two lemmas separated by one blank. |
| Pipeline.EasyToUseFiresInterface | analyze_themes.py:82 | Given a stopword list holding `to` and a lemmatizer that keeps `easy` and `use`, "easy to use" fires User Interface & Experience through the phrase `easy use`. |
| Pipeline.ProcessedKeywordFires | analyze_themes.py:92-97 | A review whose processed text is a keyword of a theme gets that theme. |
| Pipeline.ProcessedTextFires | analyze_themes.py:92-97 | A review whose processed text contains a keyword of a theme anywhere gets that theme. |
| Pipeline.StopwordLemmaSurvives | analyze_themes.py:34 | Filtering precedes lemmatizing, so a token whose lemma is a stopword survives as that lemma. |
| Pipeline.UserFriendlyMissesPhrase | analyze_themes.py:82 | The phrase keyword `user friendly` never fires on the review "user-friendly". |
| Pipeline.PunctuationFusesWords | analyze_themes.py:32-33 | Punctuation between two words is deleted, so the words fuse into one token. |
| Pipeline.UserFriendlyIsOneToken | analyze_themes.py:32-33 | "user-friendly" becomes the single token `userfriendly`. |
| Sentiment.LabelOf | analyze_sentiment.py:28-36 | POSITIVE exactly when compound >= 0.05. NEGATIVE exactly when compound <= -0.05. NEUTRAL exactly in between. |
| Sentiment.Classify | analyze_sentiment.py:26-37 | The label is that of the compound score. The score is `pos`, `neg` or `neu` according to the label. |
| Sentiment.VaderSentiment | analyze_sentiment.py:19-37 | An unscorable cell gives NEUTRAL with score 0.0. Otherwise the result is the classification of the scorer's output. The score is always 0.0 or one of the components. |
| Sentiment.UnscorableIgnoresScorer | analyze_sentiment.py:20-21 | Missing, non-string and blank cells never reach the scorer. |
| Sentiment.Unscorable | analyze_sentiment.py:20 | The guard: missing, non-string, or blank after stripping. It has no contract of its own; `Sentiment.TextUnscorableIffBlank` and `Sentiment.UnscorableIgnoresScorer` state its meaning. |
| Sentiment.TextUnscorableIffBlank | analyze_sentiment.py:20 | A string cell is unscorable exactly when it is all whitespace. |
| Sentiment.LabelMonotone | analyze_sentiment.py:28-36 | A higher compound score never gives a lower label. |
| Sentiment.ScoreInUnitRange | analyze_sentiment.py:19-37 | With components in [0, 1], the score is in [0, 1]. |
| Sentiment.Numerical | analyze_sentiment.py:55-56 | POSITIVE maps to 1, NEUTRAL to 0 and NEGATIVE to -1. Any other value maps to a missing value. |
| Sentiment.NumericalTotal | analyze_sentiment.py:55-56 | Every label the rule emits has a number: its rank. |
| Sentiment.NumericalSign | analyze_sentiment.py:28-56 | The number is 1, -1 or 0 exactly as the compound score is at or above 0.05, at or below -0.05, or in between. |

## Left out

- Keyword extraction with TF-IDF (`analyze_themes.py:39-75`) is not modelled. It is statistics over a whole corpus done by an external library, and it prints its results without feeding the theme columns.
- Loading the CSV, the group-bys, the theme distribution counts, and writing results are left out. They are I/O and aggregation, not per-review logic.
- Review scraping, `preprocess_data.py` and `data_validation.py` are not part of this model.
- The NLTK stopword list and the WordNet lemmatizer are parameters. They are external data and an external library.
- The VADER scorer is a function parameter. It is an external library.
- Downloading the NLTK resources and timing the run are left out. They are environment handling.
- Text.Lower: only ASCII capitals are lowered. Python's `lower()` also maps non-ASCII capitals such as `É` or the Kelvin sign, and can change the length of the text (`İ`).
- Text.IsSpace: only the ASCII whitespace characters count. Python's `isspace()` and the regex class `\s` also accept Unicode separators such as U+00A0 and U+2028.
- Normaliser.Tokens: `str(text)` coercion is not modelled. The review is taken to be a string already. A missing review would become the text `nan`, and its themes would depend on the lemmatizer.
- Sentiment.VaderSentiment: the scores are exact reals. The source compares binary floating-point values, and 0.05 is not exactly representable there.
- Sentiment.Numerical: labels are strings. A non-string label value is not modelled, since the labelling rule never produces one.
- Normaliser.NormaliseIsNormalForm: holds only for a lemmatizer that maps `a`-`z` words to `a`-`z` words (`KeepsWords`).
- Normaliser.NormaliseTokens: holds only under the same `KeepsWords` assumption.
- ReferenceTable.OtpTagsFeatureThenAccess: states only that the two themes are the last two labels. The labels before them depend on the rest of the text.
- Pipeline.EasyToUseFiresInterface: stated for a stopword list and a lemmatizer with the named behaviour. The real NLTK list and lemmatizer are not part of this model.
- Idempotence of a rerun and independence between reviews are not stated separately. Every operation here is a pure function of one review.
