/**
 The sentiment labelling rule: the lexicon scorer's compound score is compared
 against fixed thresholds to pick one of three labels, and the component score
 that belongs to the label becomes the review's confidence score. The scorer
 itself is an external library and is a parameter here.
 */
module Sentiment {
  import opened Wrappers
  import opened Text

  datatype Label = Positive | Neutral | Negative {
    /** The label as it is written to the output table. */
    function Name(): string {
      match this
      case Positive => "POSITIVE"
      case Neutral => "NEUTRAL"
      case Negative => "NEGATIVE"
    }

    /** Position in the order NEGATIVE < NEUTRAL < POSITIVE. */
    function Rank(): int {
      match this
      case Negative => -1
      case Neutral => 0
      case Positive => 1
    }
  }

  /** The four numbers the lexicon scorer reports for a text. */
  datatype Polarity = Polarity(neg: real, neu: real, pos: real, compound: real)

  /** The result record: the label (the `label` key of the source's dictionary;
      `label` is reserved in Dafny) and the score. */
  datatype Scored = Scored(tag: Label, score: real)

  /** A cell of the review-text column: a missing value, a value that is not a
      string, or a string. */
  datatype Cell = Missing | NonString | Str(value: string)

  const PositiveThreshold: real := 0.05
  const NegativeThreshold: real := -0.05

  /** The text is not scored: missing, not a string, or nothing but
      whitespace. */
  predicate Unscorable(cell: Cell) {
    match cell
    case Missing => true
    case NonString => true
    case Str(s) => Strip(s) == ""
  }

  /** The three-way split on the compound score. */
  function LabelOf(compound: real): (l: Label)
    ensures l == Positive <==> compound >= PositiveThreshold
    ensures l == Negative <==> compound <= NegativeThreshold
    ensures l == Neutral <==> NegativeThreshold < compound < PositiveThreshold
  {
    if compound >= PositiveThreshold then Positive
    else if compound <= NegativeThreshold then Negative
    else Neutral
  }

  /** The label of the compound score, scored by the component that belongs to
      that label. */
  function Classify(vs: Polarity): (r: Scored)
    ensures r.tag == LabelOf(vs.compound)
    ensures r.tag == Positive ==> r.score == vs.pos
    ensures r.tag == Negative ==> r.score == vs.neg
    ensures r.tag == Neutral ==> r.score == vs.neu
  {
    if vs.compound >= PositiveThreshold then Scored(Positive, vs.pos)
    else if vs.compound <= NegativeThreshold then Scored(Negative, vs.neg)
    else Scored(Neutral, vs.neu)
  }

  /** `get_vader_sentiment(text)`, with the scorer passed in. */
  function VaderSentiment(cell: Cell, analyze: string -> Polarity): (r: Scored)
    ensures Unscorable(cell) ==> r == Scored(Neutral, 0.0)
    ensures !Unscorable(cell) ==> r == Classify(analyze(cell.value))
    ensures r.score == 0.0 || (cell.Str? && r.score in {analyze(cell.value).pos, analyze(cell.value).neg, analyze(cell.value).neu})
  {
    if Unscorable(cell) then Scored(Neutral, 0.0) else Classify(analyze(cell.value))
  }

  /** Missing, non-string and whitespace-only cells never reach the scorer:
      any two scorers give the same result on them. */
  lemma UnscorableIgnoresScorer(cell: Cell, a: string -> Polarity, b: string -> Polarity)
    requires Unscorable(cell)
    ensures VaderSentiment(cell, a) == VaderSentiment(cell, b) == Scored(Neutral, 0.0)
  {
  }

  /** A string cell is unscorable exactly when it holds only whitespace. */
  lemma TextUnscorableIffBlank(s: string)
    ensures Unscorable(Str(s)) <==> IsBlank(s)
  {
  }

  /** Raising the compound score never lowers the label. */
  lemma LabelMonotone(c1: real, c2: real)
    requires c1 <= c2
    ensures LabelOf(c1).Rank() <= LabelOf(c2).Rank()
  {
  }

  predicate InUnitRange(vs: Polarity) {
    0.0 <= vs.neg <= 1.0 && 0.0 <= vs.neu <= 1.0 && 0.0 <= vs.pos <= 1.0
  }

  /** With components in [0, 1] the score is in [0, 1] too. */
  lemma ScoreInUnitRange(cell: Cell, analyze: string -> Polarity)
    requires cell.Str? ==> InUnitRange(analyze(cell.value))
    ensures 0.0 <= VaderSentiment(cell, analyze).score <= 1.0
  {
  }

  /** `sentiment_mapping`. */
  const SentimentMapping: map<string, int> := map["POSITIVE" := 1, "NEUTRAL" := 0, "NEGATIVE" := -1]

  /** `Series.map(sentiment_mapping)` on one value: a label outside the
      mapping becomes a missing value. */
  function Numerical(name: string): (r: Option<int>)
    ensures r.Some? <==> name in {"POSITIVE", "NEUTRAL", "NEGATIVE"}
    ensures name == "POSITIVE" ==> r == Some(1)
    ensures name == "NEUTRAL" ==> r == Some(0)
    ensures name == "NEGATIVE" ==> r == Some(-1)
  {
    if name in SentimentMapping then Some(SentimentMapping[name]) else None
  }

  /** Every label the rule emits has a number, and the number is the label's
      rank: the numerical column has no missing values and keeps the order. */
  lemma NumericalTotal(cell: Cell, analyze: string -> Polarity)
    ensures var l := VaderSentiment(cell, analyze).tag; Numerical(l.Name()) == Some(l.Rank())
  {
  }

  /** The number sends the compound score's side of the thresholds to 1, 0 or
      -1. */
  lemma NumericalSign(s: string, analyze: string -> Polarity)
    requires !Unscorable(Str(s))
    ensures var c := analyze(s).compound;
      var n := Numerical(VaderSentiment(Str(s), analyze).tag.Name()).value;
      && (n == 1 <==> c >= PositiveThreshold)
      && (n == -1 <==> c <= NegativeThreshold)
      && (n == 0 <==> NegativeThreshold < c < PositiveThreshold)
  {
    NumericalTotal(Str(s), analyze);
  }
}
