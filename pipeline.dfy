/** The reusable chain `pipeline[:-1]`: text cleaning, lemmatisation and
    hashing, in that order, as training, prediction and retraining all call
    it. The classifier that ends the pipeline is not part of this model. */
module Pipeline {
  import opened Frames
  import opened Text
  import Cleaner
  import Lemmatiser
  import Hashing

  /** The foreign collaborators every stage draws on. */
  datatype Tools = Tools(
    tokenize: string -> seq<string>,             // NLTK word_tokenize, Spanish
    stopwords: set<string>,                      // NLTK's Spanish stopword list
    nlp: string -> seq<Lemmatiser.Token>,        // spaCy es_core_news_sm
    nfkd: string -> string,                      // unicodedata.normalize('NFKD', _)
    hash: string -> int,                         // the feature hasher's hash
    alnum: char -> bool)                         // str.isalnum beyond ASCII, for `\b`

  /** The stage configuration: only the vectoriser has a parameter. */
  datatype Pipeline = Pipeline(vectoriser: Hashing.Vectoriser)

  /** The pipeline the training script builds. */
  const Trained := Pipeline(Hashing.Vectoriser(Hashing.PipelineFeatures))

  /** `pipeline[:-1].transform(X)`: on success, one vector of the
      configured width per row of a non-empty frame. */
  function Preprocess(p: Pipeline, f: Frame, tools: Tools): (r: Result<seq<seq<nat>>>)
    ensures r.Ok? ==> |f.rows| >= 1 && |r.value| == |f.rows|
    ensures r.Ok? ==> forall i :: 0 <= i < |r.value| ==> |r.value[i]| == p.vectoriser.nFeatures
  {
    var cleaned :- Cleaner.Transform(f, tools.tokenize, tools.stopwords);
    var lemmatised :- Lemmatiser.Transform(cleaned, tools.nlp, tools.nfkd);
    Hashing.Transform(p.vectoriser, lemmatised, tools.hash, tools.alnum)
  }

  /** One text through cleaning and lemmatisation. */
  function PrepareText(text: string, tools: Tools): (r: string)
    ensures IsAscii(r)
  {
    var lemmatised := Lemmatiser.LemmatiseSeries([Cleaner.CleanText(text, tools.tokenize, tools.stopwords)], tools.nlp, tools.nfkd);
    lemmatised[0]
  }

  /** The vector of one (title, description) pair. */
  function PreprocessRow(p: Pipeline, title: string, body: string, tools: Tools): (v: seq<nat>)
    requires p.vectoriser.nFeatures >= 1
    ensures |v| == p.vectoriser.nFeatures
  {
    Hashing.VectoriseText(PrepareText(title, tools) + " " + PrepareText(body, tools), tools.hash, p.vectoriser.nFeatures, tools.alnum)
  }

  /** Preprocessing succeeds exactly when both text columns are there with a
      text in every row, there is at least one row and the width is at least
      1; the errors come in the order the stages raise them. */
  lemma PreprocessOutcome(p: Pipeline, f: Frame, tools: Tools)
    ensures Preprocess(p, f, tools).Ok? <==>
      && TitleColumn in f.columns && BodyColumn in f.columns && AllText(f, TitleColumn) && AllText(f, BodyColumn)
      && p.vectoriser.nFeatures >= 1 && |f.rows| >= 1
    ensures Preprocess(p, f, tools).Err? ==>
      Preprocess(p, f, tools).error == (
        if TitleColumn !in f.columns then MissingColumn(TitleColumn)
        else if !AllText(f, TitleColumn) then NotText(TitleColumn)
        else if BodyColumn !in f.columns then MissingColumn(BodyColumn)
        else if !AllText(f, BodyColumn) then NotText(BodyColumn)
        else if p.vectoriser.nFeatures < 1 then InvalidFeatureCount(p.vectoriser.nFeatures)
        else EmptyBatch)
  {
    var cleaned := Cleaner.Transform(f, tools.tokenize, tools.stopwords);
    if cleaned.Ok? {
      var lemmatised := Lemmatiser.Transform(cleaned.value, tools.nlp, tools.nfkd);
      assert lemmatised.Ok?;
      assert Hashing.Documents(lemmatised.value);
    }
  }

  /** One vector per row, in order, each of the configured width and each
      depending on its own row's title and description alone. */
  lemma PreprocessRows(p: Pipeline, f: Frame, tools: Tools)
    requires Preprocess(p, f, tools).Ok?
    ensures p.vectoriser.nFeatures >= 1
    ensures |Preprocess(p, f, tools).value| == |f.rows|
    ensures forall i :: 0 <= i < |f.rows| ==>
      Cell(f.rows[i], TitleColumn).Some? && Cell(f.rows[i], BodyColumn).Some? &&
      Preprocess(p, f, tools).value[i] ==
        PreprocessRow(p, Cell(f.rows[i], TitleColumn).value, Cell(f.rows[i], BodyColumn).value, tools)
  {
    PreprocessOutcome(p, f, tools);
    var cleaned := Cleaner.Transform(f, tools.tokenize, tools.stopwords).value;
    var lemmatised := Lemmatiser.Transform(cleaned, tools.nlp, tools.nfkd).value;
    forall i | 0 <= i < |f.rows|
      ensures Preprocess(p, f, tools).value[i] ==
        PreprocessRow(p, Cell(f.rows[i], TitleColumn).value, Cell(f.rows[i], BodyColumn).value, tools)
    {
      var t := Cell(f.rows[i], TitleColumn).value;
      var d := Cell(f.rows[i], BodyColumn).value;
      Lemmatiser.LemmatiseSeriesAt([Cleaner.CleanText(t, tools.tokenize, tools.stopwords)], tools.nlp, tools.nfkd, 0);
      Lemmatiser.LemmatiseSeriesAt([Cleaner.CleanText(d, tools.tokenize, tools.stopwords)], tools.nlp, tools.nfkd, 0);
      assert Cell(lemmatised.rows[i], TitleColumn).value == PrepareText(t, tools);
      assert Cell(lemmatised.rows[i], BodyColumn).value == PrepareText(d, tools);
    }
  }

  /** Training, prediction and retraining see the same vector for the same
      title and description, whatever else their frames hold. */
  lemma PreprocessParity(p: Pipeline, f: Frame, g: Frame, tools: Tools, i: nat, j: nat)
    requires Preprocess(p, f, tools).Ok? && Preprocess(p, g, tools).Ok?
    requires i < |f.rows| && j < |g.rows|
    requires Cell(f.rows[i], TitleColumn) == Cell(g.rows[j], TitleColumn)
    requires Cell(f.rows[i], BodyColumn) == Cell(g.rows[j], BodyColumn)
    ensures Preprocess(p, f, tools).value[i] == Preprocess(p, g, tools).value[j]
  {
    PreprocessRows(p, f, tools);
    PreprocessRows(p, g, tools);
  }

  /** Every token the hasher counts in the pipeline is a run of two or more
      letters a-z: lemmatisation has already folded the text to ASCII, so
      the accented letters of the pattern never occur. */
  lemma PipelineTokens(title: string, body: string, tools: Tools)
    ensures forall k :: 0 <= k < |Hashing.Analyze(PrepareText(title, tools) + " " + PrepareText(body, tools), tools.alnum)| ==>
      var token := Hashing.Analyze(PrepareText(title, tools) + " " + PrepareText(body, tools), tools.alnum)[k];
      |token| >= 2 && forall c :: 0 <= c < |token| ==> 'a' <= token[c] <= 'z'
  {
    var doc := PrepareText(title, tools) + " " + PrepareText(body, tools);
    assert IsAscii(doc);
  }

  /** The trained pipeline produces vectors of 5000 counts. */
  lemma TrainedWidth(f: Frame, tools: Tools)
    requires Preprocess(Trained, f, tools).Ok?
    ensures forall i :: 0 <= i < |Preprocess(Trained, f, tools).value| ==> |Preprocess(Trained, f, tools).value[i]| == 5000
  {
  }
}
