/** VectorizarHashingTransformer up to the integer bucket counts: join each
    row's title and description with a space, lower-case the document (the
    vectoriser's default preprocessing), extract the tokens that the pattern
    `(?u)\b[a-zA-Z` + the Spanish accented letters + `]{2,}\b` finds, and count
    each token into one of n_features buckets, always with sign +1. The hash
    function and Unicode's table of alphanumeric characters (which decides
    what `\b` sees outside ASCII) are parameters. */
module Hashing {
  import opened Frames
  import opened Text

  /** The constructor's default width, and the width the pipeline asks for. */
  const DefaultFeatures := 1000
  const PipelineFeatures := 5000

  /** The transformer's configuration, with the constructor's default width;
      nothing is learnt by fit. */
  datatype Vectoriser = Vectoriser(nFeatures: int := DefaultFeatures)

  /** The accented letters of the pattern's character class, lower then upper case. */
  predicate IsPatternAccent(c: char) {
    || c == '\U{E1}' || c == '\U{E9}' || c == '\U{ED}' || c == '\U{F3}' || c == '\U{FA}' || c == '\U{FC}' || c == '\U{F1}'
    || c == '\U{C1}' || c == '\U{C9}' || c == '\U{CD}' || c == '\U{D3}' || c == '\U{DA}' || c == '\U{DC}' || c == '\U{D1}'
  }

  /** The pattern's character class. */
  predicate IsPatternLetter(c: char) {
    ('a' <= c <= 'z') || ('A' <= c <= 'Z') || IsPatternAccent(c)
  }

  /** What a counted token can be made of once the document is lower-cased. */
  predicate IsLowerPatternLetter(c: char) {
    ('a' <= c <= 'z') || c == '\U{E1}' || c == '\U{E9}' || c == '\U{ED}' || c == '\U{F3}' || c == '\U{FA}' || c == '\U{FC}' || c == '\U{F1}'
  }

  /** `\w` under `(?u)`: ASCII letters, digits and `_`, and beyond ASCII the
      characters Unicode calls alphanumeric (which include the pattern's
      accented letters). */
  predicate IsWordChar(c: char, alnum: char -> bool) {
    || ('a' <= c <= 'z') || ('A' <= c <= 'Z') || ('0' <= c <= '9') || c == '_'
    || IsPatternAccent(c)
    || (c as int >= 128 && alnum(c))
  }

  /** `\b` at position p: a word character on exactly one side. */
  predicate Boundary(s: string, p: nat, alnum: char -> bool)
    requires p <= |s|
  {
    (p > 0 && IsWordChar(s[p - 1], alnum)) != (p < |s| && IsWordChar(s[p], alnum))
  }

  /** The length of the run of pattern letters starting at p: how far the
      greedy `[...]{2,}` reaches before it backtracks. */
  function LetterRun(s: string, p: nat): (k: nat)
    requires p <= |s|
    ensures p + k <= |s|
    ensures forall i :: p <= i < p + k ==> IsPatternLetter(s[i])
    ensures p + k == |s| || !IsPatternLetter(s[p + k])
    decreases |s| - p
  {
    if p == |s| || !IsPatternLetter(s[p]) then 0 else 1 + LetterRun(s, p + 1)
  }

  /** The backtracking of `[...]{2,}\b`: try the end e, then e - 1, down to
      two letters, and stop at the first end where `\b` holds. */
  function TryEnd(s: string, p: nat, e: nat, alnum: char -> bool): (r: Option<nat>)
    requires p <= e <= |s|
    ensures r.Some? ==> p + 2 <= r.value <= e && Boundary(s, r.value, alnum)
    ensures e >= p + 2 && Boundary(s, e, alnum) ==> r == Some(e)
    decreases e
  {
    if e < p + 2 then None
    else if Boundary(s, e, alnum) then Some(e)
    else TryEnd(s, p, e - 1, alnum)
  }

  /** An attempt of the whole pattern at position p: the end of the match.
      It matches exactly at a token start, and then takes the whole run of
      letters: backtracking never yields a shorter token. */
  function MatchAt(s: string, p: nat, alnum: char -> bool): (r: Option<nat>)
    requires p <= |s|
    ensures r.Some? <==> Starts(s, p, alnum)
    ensures r.Some? ==> r.value == p + LetterRun(s, p)
  {
    if Boundary(s, p, alnum) then TryEnd(s, p, p + LetterRun(s, p), alnum) else None
  }

  /** Position q starts a token: a word boundary, then at least two pattern
      letters, then a word boundary right where the letters end. So a token is
      a whole word made only of pattern letters. */
  predicate Starts(s: string, q: nat, alnum: char -> bool)
    requires q <= |s|
  {
    Boundary(s, q, alnum) && LetterRun(s, q) >= 2 && Boundary(s, q + LetterRun(s, q), alnum)
  }

  /** re.finditer: try the pattern at each position from p on; after a
      match, go on from its end. Each match is a (start, end) pair. */
  function Matches(s: string, p: nat, alnum: char -> bool): (m: seq<(nat, nat)>)
    requires p <= |s|
    ensures forall k :: 0 <= k < |m| ==>
      p <= m[k].0 && m[k].0 + 2 <= m[k].1 <= |s| && Starts(s, m[k].0, alnum) && m[k].1 == m[k].0 + LetterRun(s, m[k].0)
    ensures forall k, l :: 0 <= k < l < |m| ==> m[k].1 <= m[l].0
    decreases |s| - p
  {
    if p == |s| then []
    else
      match MatchAt(s, p, alnum)
      case Some(e) => [(p, e)] + Matches(s, e, alnum)
      case None => Matches(s, p + 1, alnum)
  }

  /** The scan misses no token: every token start from p on is matched. */
  lemma {:induction false} MatchesComplete(s: string, p: nat, q: nat, alnum: char -> bool)
    requires p <= q <= |s| && Starts(s, q, alnum)
    ensures (q, q + LetterRun(s, q)) in Matches(s, p, alnum)
    decreases |s| - p
  {
    if p == q {
      assert MatchAt(s, p, alnum) == Some(q + LetterRun(s, q));
      assert Matches(s, p, alnum)[0] == (q, q + LetterRun(s, q));
    } else {
      match MatchAt(s, p, alnum)
      case None =>
        MatchesComplete(s, p + 1, q, alnum);
        assert Matches(s, p, alnum) == Matches(s, p + 1, alnum);
      case Some(e) =>
        MatchEndsBefore(s, p, q, alnum);
        MatchesComplete(s, e, q, alnum);
        var rest := Matches(s, e, alnum);
        assert Matches(s, p, alnum) == [(p, e)] + rest;
        assert (q, q + LetterRun(s, q)) in rest;
    }
  }

  /** A match from p ends no later than the next token start after p: no
      position strictly inside a run of letters is a word boundary. */
  lemma MatchEndsBefore(s: string, p: nat, q: nat, alnum: char -> bool)
    requires p < q <= |s| && Starts(s, q, alnum) && MatchAt(s, p, alnum).Some?
    ensures MatchAt(s, p, alnum).value <= q
  {
    var e := MatchAt(s, p, alnum).value;
    forall i | p < i < e
      ensures !Boundary(s, i, alnum)
    {
      assert IsPatternLetter(s[i - 1]) && IsPatternLetter(s[i]);
    }
  }

  /** The matches are exactly the token starts, each with its whole run. */
  lemma MatchesExact(s: string, q: nat, alnum: char -> bool)
    requires q <= |s|
    ensures Starts(s, q, alnum) <==> exists k :: 0 <= k < |Matches(s, 0, alnum)| && Matches(s, 0, alnum)[k].0 == q
  {
    if Starts(s, q, alnum) {
      MatchesComplete(s, 0, q, alnum);
    }
  }

  /** The tokens of a document, in order. */
  function Tokens(s: string, alnum: char -> bool): (ts: seq<string>)
    ensures forall k :: 0 <= k < |ts| ==> |ts[k]| >= 2 && forall i :: 0 <= i < |ts[k]| ==> IsPatternLetter(ts[k][i])
  {
    var m := Matches(s, 0, alnum);
    seq(|m|, k requires 0 <= k < |m| => s[m[k].0 .. m[k].1])
  }

  /** The analyser: lower-case, then extract the tokens. Every token has at
      least two characters, all lower-case letters of the pattern; when the
      document is ASCII they are all in a-z. */
  function Analyze(doc: string, alnum: char -> bool): (ts: seq<string>)
    ensures forall k :: 0 <= k < |ts| ==>
      |ts[k]| >= 2 && forall i :: 0 <= i < |ts[k]| ==> IsLowerPatternLetter(ts[k][i])
    ensures IsAscii(doc) ==> forall k :: 0 <= k < |ts| ==>
      forall i :: 0 <= i < |ts[k]| ==> 'a' <= ts[k][i] <= 'z'
  {
    LowerTokens(doc, alnum);
    Tokens(Lower(doc), alnum)
  }

  lemma LowerTokens(doc: string, alnum: char -> bool)
    ensures forall k, i :: 0 <= k < |Tokens(Lower(doc), alnum)| && 0 <= i < |Tokens(Lower(doc), alnum)[k]| ==>
      IsLowerPatternLetter(Tokens(Lower(doc), alnum)[k][i]) &&
      (IsAscii(doc) ==> 'a' <= Tokens(Lower(doc), alnum)[k][i] <= 'z')
  {
    var ts := Tokens(Lower(doc), alnum);
    forall k, i | 0 <= k < |ts| && 0 <= i < |ts[k]|
      ensures IsLowerPatternLetter(ts[k][i])
      ensures IsAscii(doc) ==> 'a' <= ts[k][i] <= 'z'
    {
      var j := TokenSource(Lower(doc), alnum, k, i);
      LowerAt(doc, j);
    }
  }

  /** Each character of a token is a character of the document. */
  lemma TokenSource(s: string, alnum: char -> bool, k: nat, i: nat) returns (j: nat)
    requires k < |Tokens(s, alnum)| && i < |Tokens(s, alnum)[k]|
    ensures j < |s| && Tokens(s, alnum)[k][i] == s[j]
  {
    var m := Matches(s, 0, alnum);
    j := m[k].0 + i;
  }

  /** A lower-cased character is never upper case, and is ASCII when the
      original was. */
  lemma LowerAt(doc: string, j: nat)
    requires j < |doc|
    ensures !IsUpperLatin1(Lower(doc)[j])
    ensures IsAsciiChar(doc[j]) ==> IsAsciiChar(Lower(doc)[j])
  {
  }

  /** The bucket of a token: an abstract hash reduced modulo the width. */
  function Bucket(token: string, hash: string -> int, n: int): (b: nat)
    requires n >= 1
    ensures b < n
  {
    hash(token) % n
  }

  /** How many of the tokens fall into bucket b. */
  function Occurrences(tokens: seq<string>, hash: string -> int, n: int, b: nat): nat
    requires n >= 1
  {
    if tokens == [] then 0
    else (if Bucket(tokens[0], hash, n) == b then 1 else 0) + Occurrences(tokens[1..], hash, n, b)
  }

  lemma {:induction false} OccurrencesConcat(a: seq<string>, c: seq<string>, hash: string -> int, n: int, b: nat)
    requires n >= 1
    ensures Occurrences(a + c, hash, n, b) == Occurrences(a, hash, n, b) + Occurrences(c, hash, n, b)
  {
    if a == [] {
      assert a + c == c;
    } else {
      assert (a + c)[0] == a[0];
      assert (a + c)[1..] == a[1..] + c;
      OccurrencesConcat(a[1..], c, hash, n, b);
    }
  }

  /** The feature hasher's accumulation: one count added per token, to its
      bucket, with sign +1 (alternate_sign=False). */
  function CountBuckets(tokens: seq<string>, hash: string -> int, n: int): (v: seq<nat>)
    requires n >= 1
    ensures |v| == n
  {
    if tokens == [] then seq(n, _ => 0)
    else
      var v := CountBuckets(tokens[..|tokens| - 1], hash, n);
      var b := Bucket(tokens[|tokens| - 1], hash, n);
      v[b := v[b] + 1]
  }

  /** Bucket b holds exactly the number of tokens that hash to it. */
  lemma {:induction false} CountBucketsAt(tokens: seq<string>, hash: string -> int, n: int, b: nat)
    requires n >= 1 && b < n
    ensures CountBuckets(tokens, hash, n)[b] == Occurrences(tokens, hash, n, b)
  {
    if tokens != [] {
      var init := tokens[..|tokens| - 1];
      var last := tokens[|tokens| - 1];
      CountBucketsAt(init, hash, n, b);
      OccurrencesConcat(init, [last], hash, n, b);
      assert init + [last] == tokens;
    }
  }

  function Sum(v: seq<nat>): nat {
    if v == [] then 0 else v[0] + Sum(v[1..])
  }

  lemma {:induction false} SumIncrement(v: seq<nat>, b: nat)
    requires b < |v|
    ensures Sum(v[b := v[b] + 1]) == Sum(v) + 1
  {
    if b > 0 {
      SumIncrement(v[1..], b - 1);
      assert v[b := v[b] + 1][1..] == v[1..][b - 1 := v[b] + 1];
    }
  }

  lemma {:induction false} SumZeros(n: nat)
    ensures Sum(seq(n, _ => 0)) == 0
  {
    if n > 0 {
      assert seq(n, _ => 0)[1..] == seq(n - 1, _ => 0);
      SumZeros(n - 1);
    }
  }

  /** Every token is counted once: the counts add up to the number of tokens. */
  lemma {:induction false} CountBucketsTotal(tokens: seq<string>, hash: string -> int, n: int)
    requires n >= 1
    ensures Sum(CountBuckets(tokens, hash, n)) == |tokens|
  {
    if tokens == [] {
      SumZeros(n);
    } else {
      CountBucketsTotal(tokens[..|tokens| - 1], hash, n);
      SumIncrement(CountBuckets(tokens[..|tokens| - 1], hash, n), Bucket(tokens[|tokens| - 1], hash, n));
    }
  }

  /** The counts of one document: bucket b holds the number of the
      document's tokens that hash to b, and the counts add up to the number
      of tokens. */
  function VectoriseText(doc: string, hash: string -> int, n: int, alnum: char -> bool): (v: seq<nat>)
    requires n >= 1
    ensures |v| == n
    ensures forall b :: 0 <= b < n ==> v[b] == Occurrences(Analyze(doc, alnum), hash, n, b)
    ensures Sum(v) == |Analyze(doc, alnum)|
  {
    var tokens := Analyze(doc, alnum);
    CountBucketsEvery(tokens, hash, n);
    CountBucketsTotal(tokens, hash, n);
    CountBuckets(tokens, hash, n)
  }

  lemma CountBucketsEvery(tokens: seq<string>, hash: string -> int, n: int)
    requires n >= 1
    ensures forall b :: 0 <= b < n ==> CountBuckets(tokens, hash, n)[b] == Occurrences(tokens, hash, n, b)
  {
    forall b | 0 <= b < n
      ensures CountBuckets(tokens, hash, n)[b] == Occurrences(tokens, hash, n, b)
    {
      CountBucketsAt(tokens, hash, n, b);
    }
  }

  /** Every row has a title and a description. */
  predicate Documents(f: Frame) {
    AllText(f, TitleColumn) && AllText(f, BodyColumn)
  }

  /** VectorizarHashingTransformer.transform: KeyError for a missing column,
      a library error for a width below 1, for a batch with no document or
      for a missing document; otherwise one count vector per row, from
      `Titulo + " " + Descripcion`. */
  function Transform(v: Vectoriser, f: Frame, hash: string -> int, alnum: char -> bool): (r: Result<seq<seq<nat>>>)
    ensures r.Ok? <==> TitleColumn in f.columns && BodyColumn in f.columns && v.nFeatures >= 1 && |f.rows| >= 1 && Documents(f)
    ensures r.Err? ==>
      r.error == (if TitleColumn !in f.columns then MissingColumn(TitleColumn)
                  else if BodyColumn !in f.columns then MissingColumn(BodyColumn)
                  else if v.nFeatures < 1 then InvalidFeatureCount(v.nFeatures)
                  else if |f.rows| == 0 then EmptyBatch
                  else InvalidDocument)
    ensures r.Ok? ==> |r.value| == |f.rows|
    ensures r.Ok? ==> forall i :: 0 <= i < |f.rows| ==>
      r.value[i] == VectoriseText(Cell(f.rows[i], TitleColumn).value + " " + Cell(f.rows[i], BodyColumn).value, hash, v.nFeatures, alnum)
  {
    if TitleColumn !in f.columns then Err(MissingColumn(TitleColumn))
    else if BodyColumn !in f.columns then Err(MissingColumn(BodyColumn))
    else if v.nFeatures < 1 then Err(InvalidFeatureCount(v.nFeatures))
    else if |f.rows| == 0 then Err(EmptyBatch)
    else if !Documents(f) then Err(InvalidDocument)
    else
      Ok(seq(|f.rows|, i requires 0 <= i < |f.rows| && Documents(f) =>
        VectoriseText(Cell(f.rows[i], TitleColumn).value + " " + Cell(f.rows[i], BodyColumn).value, hash, v.nFeatures, alnum)))
  }
}
