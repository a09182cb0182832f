/** LimpiarTextoTransformer: lower-case each title and description, tokenize
    it, drop the stopwords and join what is left with single spaces. The
    tokenizer (NLTK's word_tokenize for Spanish) and the stopword list are
    foreign, so both are parameters. */
module Cleaner {
  import opened Sequences
  import opened Frames
  import opened Text

  /** `[palabra for palabra in tokens if palabra not in stop_words]`: every
      kept token is a token and not a stopword, and every token that is not a
      stopword is kept. */
  function NonStop(tokens: seq<string>, stopwords: set<string>): (kept: seq<string>)
    ensures forall k :: 0 <= k < |kept| ==> kept[k] in tokens && kept[k] !in stopwords
    ensures forall k :: 0 <= k < |tokens| && tokens[k] !in stopwords ==> tokens[k] in kept
  {
    Filter(tokens, (w: string) => w !in stopwords)
  }

  /** limpiar_texto_aux. When no token holds a space and some token is kept,
      splitting the cleaned text on single spaces gives back exactly the
      non-stopword tokens of the lower-cased text, in order. */
  function CleanText(text: string, tokenize: string -> seq<string>, stopwords: set<string>): (r: string)
    ensures (forall k :: 0 <= k < |tokenize(Lower(text))| ==> NoSpace(tokenize(Lower(text))[k])) &&
            NonStop(tokenize(Lower(text)), stopwords) != []
      ==> SplitSpaced(r) == NonStop(tokenize(Lower(text)), stopwords)
  {
    var tokens := tokenize(Lower(text));
    JoinKept(tokens, stopwords);
    JoinSpaced(NonStop(tokens, stopwords))
  }

  lemma JoinKept(tokens: seq<string>, stopwords: set<string>)
    ensures (forall k :: 0 <= k < |tokens| ==> NoSpace(tokens[k])) && NonStop(tokens, stopwords) != []
      ==> SplitSpaced(JoinSpaced(NonStop(tokens, stopwords))) == NonStop(tokens, stopwords)
  {
    var kept := NonStop(tokens, stopwords);
    if (forall k :: 0 <= k < |tokens| ==> NoSpace(tokens[k])) && kept != [] {
      forall k | 0 <= k < |kept|
        ensures NoSpace(kept[k])
      {
        assert kept[k] in tokens;
      }
      SplitJoin(kept);
    }
  }

  /** The cleaned text is empty when every token is a stopword, and, when the
      tokenizer yields no empty token, only then. */
  lemma CleanTextEmpty(text: string, tokenize: string -> seq<string>, stopwords: set<string>)
    ensures (forall k :: 0 <= k < |tokenize(Lower(text))| ==> tokenize(Lower(text))[k] in stopwords)
      ==> CleanText(text, tokenize, stopwords) == ""
    ensures (forall k :: 0 <= k < |tokenize(Lower(text))| ==> tokenize(Lower(text))[k] != "")
      ==> (CleanText(text, tokenize, stopwords) == "" <==>
           forall k :: 0 <= k < |tokenize(Lower(text))| ==> tokenize(Lower(text))[k] in stopwords)
  {
    var tokens := tokenize(Lower(text));
    var kept := NonStop(tokens, stopwords);
    JoinEmpty(kept);
    if kept != [] {
      assert kept[0] in tokens && kept[0] !in stopwords;
    }
    if exists k :: 0 <= k < |tokens| && tokens[k] !in stopwords {
      var k :| 0 <= k < |tokens| && tokens[k] !in stopwords;
      assert tokens[k] in kept;
    }
  }

  /** Upper and lower case spell the same cleaned text. */
  lemma CleanTextIgnoresCase(a: string, b: string, tokenize: string -> seq<string>, stopwords: set<string>)
    requires Lower(a) == Lower(b)
    ensures CleanText(a, tokenize, stopwords) == CleanText(b, tokenize, stopwords)
  {
  }

  function CleanAll(texts: seq<string>, tokenize: string -> seq<string>, stopwords: set<string>): (r: seq<string>)
    ensures |r| == |texts|
  {
    seq(|texts|, i requires 0 <= i < |texts| => CleanText(texts[i], tokenize, stopwords))
  }

  /** `df[c] = df[c].apply(limpiar_texto_aux)`. */
  function CleanColumn(f: Frame, c: string, tokenize: string -> seq<string>, stopwords: set<string>): Result<Frame> {
    var texts :- TextColumn(f, c);
    Ok(WithColumn(f, c, CleanAll(texts, tokenize, stopwords)))
  }

  /** LimpiarTextoTransformer.transform: the title column, then the
      description column. */
  function Transform(f: Frame, tokenize: string -> seq<string>, stopwords: set<string>): (r: Result<Frame>)
    ensures r.Ok? <==> TitleColumn in f.columns && BodyColumn in f.columns && AllText(f, TitleColumn) && AllText(f, BodyColumn)
    ensures r.Err? ==>
      r.error == (if TitleColumn !in f.columns then MissingColumn(TitleColumn)
                  else if !AllText(f, TitleColumn) then NotText(TitleColumn)
                  else if BodyColumn !in f.columns then MissingColumn(BodyColumn)
                  else NotText(BodyColumn))
    ensures r.Ok? ==> r.value.columns == f.columns && |r.value.rows| == |f.rows|
    ensures r.Ok? ==> forall i :: 0 <= i < |f.rows| ==>
      && Cell(r.value.rows[i], TitleColumn) == Some(CleanText(Cell(f.rows[i], TitleColumn).value, tokenize, stopwords))
      && Cell(r.value.rows[i], BodyColumn) == Some(CleanText(Cell(f.rows[i], BodyColumn).value, tokenize, stopwords))
    ensures r.Ok? ==> forall i, d :: 0 <= i < |f.rows| && d != TitleColumn && d != BodyColumn ==>
      Cell(r.value.rows[i], d) == Cell(f.rows[i], d)
  {
    var titled :- CleanColumn(f, TitleColumn, tokenize, stopwords);
    assert titled.columns == f.columns;
    assert forall i :: 0 <= i < |f.rows| ==> Cell(titled.rows[i], BodyColumn) == Cell(f.rows[i], BodyColumn);
    CleanColumn(titled, BodyColumn, tokenize, stopwords)
  }
}
