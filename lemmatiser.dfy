/** LematizarTransformer: run each text through spaCy's Spanish pipeline, keep
    the lemma of every token that is not punctuation, join the lemmas with
    single spaces, decompose the result (NFKD, Unicode Standard Annex #15) and
    drop every code point outside ASCII. spaCy and the decomposition tables are
    foreign: the analyser and the decomposition are parameters. */
module Lemmatiser {
  import opened Sequences
  import opened Frames
  import opened Text

  /** What the analyser reports of one token: its lemma (`lemma_`) and whether it is punctuation (`is_punct`). */
  datatype Token = Token(baseForm: string, isPunct: bool)

  predicate IsWordToken(t: Token) {
    !t.isPunct
  }

  function Lemmas(tokens: seq<Token>): (r: seq<string>)
    ensures |r| == |tokens|
  {
    seq(|tokens|, i requires 0 <= i < |tokens| => tokens[i].baseForm)
  }

  /** `" ".join([token.lemma_ for token in doc if not token.is_punct])`.
      When some token is not punctuation and no lemma holds a space, the text
      splits on single spaces into exactly the lemmas of the non-punctuation
      tokens, in order. */
  function LemmaText(doc: seq<Token>): (r: string)
    ensures (exists k :: 0 <= k < |doc| && IsWordToken(doc[k])) &&
            (forall k :: 0 <= k < |doc| ==> NoSpace(doc[k].baseForm))
      ==> SplitSpaced(r) == Lemmas(Filter(doc, IsWordToken))
  {
    JoinLemmas(doc);
    JoinSpaced(Lemmas(Filter(doc, IsWordToken)))
  }

  lemma JoinLemmas(doc: seq<Token>)
    ensures (exists k :: 0 <= k < |doc| && IsWordToken(doc[k])) &&
            (forall k :: 0 <= k < |doc| ==> NoSpace(doc[k].baseForm))
      ==> SplitSpaced(JoinSpaced(Lemmas(Filter(doc, IsWordToken)))) == Lemmas(Filter(doc, IsWordToken))
  {
    var words := Filter(doc, IsWordToken);
    var lemmas := Lemmas(words);
    if (exists k :: 0 <= k < |doc| && IsWordToken(doc[k])) && (forall k :: 0 <= k < |doc| ==> NoSpace(doc[k].baseForm)) {
      var k :| 0 <= k < |doc| && IsWordToken(doc[k]);
      assert doc[k] in words;
      forall j | 0 <= j < |lemmas|
        ensures NoSpace(lemmas[j])
      {
        assert words[j] in doc;
      }
      SplitJoin(lemmas);
    }
  }

  /** `normalize('NFKD', text).encode('ascii', 'ignore').decode('utf-8')`:
      ASCII, and the decomposition itself when that is already ASCII. */
  function Fold(text: string, nfkd: string -> string): (r: string)
    ensures IsAscii(r) && |r| <= |nfkd(text)|
    ensures IsAscii(nfkd(text)) ==> r == nfkd(text)
  {
    AsciiFoldFixes(nfkd(text));
    AsciiFold(nfkd(text))
  }

  /** The whole treatment of one document; the result is ASCII. */
  function LemmatiseText(text: string, nlp: string -> seq<Token>, nfkd: string -> string): (r: string)
    ensures IsAscii(r)
  {
    Fold(LemmaText(nlp(text)), nfkd)
  }

  /** lemmatize_series: the first comprehension lemmatises every document of
      the batch, the second folds every lemmatised text. */
  function LemmatiseSeries(texts: seq<string>, nlp: string -> seq<Token>, nfkd: string -> string): (r: seq<string>)
    ensures |r| == |texts|
    ensures forall i :: 0 <= i < |r| ==> IsAscii(r[i])
  {
    var docs := seq(|texts|, i requires 0 <= i < |texts| => nlp(texts[i]));
    var lemmatised := seq(|docs|, i requires 0 <= i < |docs| => LemmaText(docs[i]));
    seq(|lemmatised|, i requires 0 <= i < |lemmatised| => Fold(lemmatised[i], nfkd))
  }

  /** One output per input, in the same order, each a function of its own
      document alone. */
  lemma LemmatiseSeriesAt(texts: seq<string>, nlp: string -> seq<Token>, nfkd: string -> string, i: nat)
    requires i < |texts|
    ensures LemmatiseSeries(texts, nlp, nfkd)[i] == LemmatiseText(texts[i], nlp, nfkd)
  {
  }

  /** Splitting a batch does not change any document's output: there is no
      state carried from one document to the next. */
  lemma LemmatiseSeriesConcat(a: seq<string>, b: seq<string>, nlp: string -> seq<Token>, nfkd: string -> string)
    ensures LemmatiseSeries(a + b, nlp, nfkd) == LemmatiseSeries(a, nlp, nfkd) + LemmatiseSeries(b, nlp, nfkd)
  {
    var whole := LemmatiseSeries(a + b, nlp, nfkd);
    var parts := LemmatiseSeries(a, nlp, nfkd) + LemmatiseSeries(b, nlp, nfkd);
    forall i | 0 <= i < |whole|
      ensures whole[i] == parts[i]
    {
      LemmatiseSeriesAt(a + b, nlp, nfkd, i);
      if i < |a| {
        LemmatiseSeriesAt(a, nlp, nfkd, i);
      } else {
        LemmatiseSeriesAt(b, nlp, nfkd, i - |a|);
      }
    }
  }

  /** What NFKD does at a space: a space decomposes to itself and is a
      starter, so canonical reordering never moves a mark across it, and the
      two sides decompose on their own. */
  ghost predicate SpaceSplits(nfkd: string -> string) {
    forall a: string, b: string :: nfkd(a + " " + b) == nfkd(a) + " " + nfkd(b)
  }

  /** Each lemma folded on its own. */
  function Folds(lemmas: seq<string>, nfkd: string -> string): (r: seq<string>)
    ensures |r| == |lemmas|
  {
    seq(|lemmas|, k requires 0 <= k < |lemmas| => Fold(lemmas[k], nfkd))
  }

  /** Folding a joined text folds each word of it. */
  lemma {:induction false} FoldJoin(words: seq<string>, nfkd: string -> string)
    requires |words| >= 1 && SpaceSplits(nfkd)
    ensures Fold(JoinSpaced(words), nfkd) == JoinSpaced(Folds(words, nfkd))
  {
    if |words| > 1 {
      var rest := JoinSpaced(words[1..]);
      FoldJoin(words[1..], nfkd);
      assert JoinSpaced(words) == words[0] + " " + rest;
      assert nfkd(words[0] + " " + rest) == nfkd(words[0]) + " " + nfkd(rest);
      AsciiFoldConcat(nfkd(words[0]) + " ", nfkd(rest));
      AsciiFoldConcat(nfkd(words[0]), " ");
      assert AsciiFold(" ") == " " by {
        AsciiFoldFixes(" ");
      }
      assert Folds(words, nfkd)[1..] == Folds(words[1..], nfkd);
    }
  }

  /** When the decomposition of no lemma holds a space (a no-break space,
      U+00A8 or U+00B4 would decompose to one), the output splits on single
      spaces into exactly the folded lemmas of the non-punctuation tokens, in
      order: an accented lemma comes out with its marks dropped. */
  lemma LemmatiseTextWords(text: string, nlp: string -> seq<Token>, nfkd: string -> string)
    requires SpaceSplits(nfkd)
    requires forall k :: 0 <= k < |nlp(text)| ==> NoSpace(nfkd(nlp(text)[k].baseForm))
    requires exists k :: 0 <= k < |nlp(text)| && IsWordToken(nlp(text)[k])
    ensures SplitSpaced(LemmatiseText(text, nlp, nfkd)) == Folds(Lemmas(Filter(nlp(text), IsWordToken)), nfkd)
  {
    var doc := nlp(text);
    var words := Filter(doc, IsWordToken);
    var lemmas := Lemmas(words);
    var k :| 0 <= k < |doc| && IsWordToken(doc[k]);
    assert doc[k] in words;
    var folded := Folds(lemmas, nfkd);
    forall j | 0 <= j < |folded|
      ensures NoSpace(folded[j])
    {
      assert words[j] in doc;
      var t := nfkd(lemmas[j]);
      forall i | 0 <= i < |folded[j]|
        ensures folded[j][i] != ' '
      {
        assert folded[j][i] in t;
      }
    }
    FoldJoin(lemmas, nfkd);
    SplitJoin(folded);
  }

  /** `df[c] = lemmatize_series(df[c])`. */
  function LemmatiseColumn(f: Frame, c: string, nlp: string -> seq<Token>, nfkd: string -> string): Result<Frame> {
    var texts :- TextColumn(f, c);
    Ok(WithColumn(f, c, LemmatiseSeries(texts, nlp, nfkd)))
  }

  /** LematizarTransformer.transform: the title column, then the description
      column. */
  function Transform(f: Frame, nlp: string -> seq<Token>, nfkd: string -> string): (r: Result<Frame>)
    ensures r.Ok? <==> TitleColumn in f.columns && BodyColumn in f.columns && AllText(f, TitleColumn) && AllText(f, BodyColumn)
    ensures r.Err? ==>
      r.error == (if TitleColumn !in f.columns then MissingColumn(TitleColumn)
                  else if !AllText(f, TitleColumn) then NotText(TitleColumn)
                  else if BodyColumn !in f.columns then MissingColumn(BodyColumn)
                  else NotText(BodyColumn))
    ensures r.Ok? ==> r.value.columns == f.columns && |r.value.rows| == |f.rows|
    ensures r.Ok? ==> forall i :: 0 <= i < |f.rows| ==>
      && Cell(r.value.rows[i], TitleColumn) == Some(LemmatiseText(Cell(f.rows[i], TitleColumn).value, nlp, nfkd))
      && Cell(r.value.rows[i], BodyColumn) == Some(LemmatiseText(Cell(f.rows[i], BodyColumn).value, nlp, nfkd))
    ensures r.Ok? ==> forall i, d :: 0 <= i < |f.rows| && d != TitleColumn && d != BodyColumn ==>
      Cell(r.value.rows[i], d) == Cell(f.rows[i], d)
  {
    var titled :- LemmatiseColumn(f, TitleColumn, nlp, nfkd);
    assert titled.columns == f.columns;
    assert forall i :: 0 <= i < |f.rows| ==> Cell(titled.rows[i], BodyColumn) == Cell(f.rows[i], BodyColumn);
    LemmatiseColumn(titled, BodyColumn, nlp, nfkd)
  }
}
