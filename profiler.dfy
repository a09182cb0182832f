/** PerfilamientoTransformer.transform: drop the identifier and date columns,
    then every row with a missing cell, then every row whose title repeats an
    earlier surviving row's. Applied once to the raw corpus by the training
    script, ahead of the reusable pipeline. */
module Profiler {
  import opened Sequences
  import opened Frames

  const Dropped: set<string> := {"ID", "Fecha"}

  function Title(r: Row): Option<string> {
    Cell(r, TitleColumn)
  }

  /** The columns of cols outside drop, in their order. */
  function Without(cols: seq<string>, drop: set<string>): (r: seq<string>)
    ensures forall c :: c in r <==> c in cols && c !in drop
  {
    Filter(cols, (c: string) => c !in drop)
  }

  lemma WithoutNothing(cols: seq<string>, drop: set<string>)
    requires forall c :: c in cols ==> c !in drop
    ensures Without(cols, drop) == cols
  {
    FilterIdentity(cols, (c: string) => c !in drop);
  }

  lemma WithoutDistinct(cols: seq<string>, drop: set<string>)
    requires forall i, j :: 0 <= i < j < |cols| ==> cols[i] != cols[j]
    ensures forall i, j :: 0 <= i < j < |Without(cols, drop)| ==> Without(cols, drop)[i] != Without(cols, drop)[j]
  {
    FilterDistinct(cols, (c: string) => c !in drop);
  }

  /** `df.drop(columns=drop, errors="ignore")`: absent names are no error;
      every row loses its cells in those columns and keeps all the others. */
  function DropColumns(f: Frame, drop: set<string>): (g: Frame)
    ensures g.columns == Without(f.columns, drop) && |g.rows| == |f.rows|
    ensures forall i :: 0 <= i < |g.rows| ==> g.rows[i].Keys !! drop
    ensures forall i, c :: 0 <= i < |g.rows| && c !in drop ==> Cell(g.rows[i], c) == Cell(f.rows[i], c)
  {
    Frame(Without(f.columns, drop), seq(|f.rows|, i requires 0 <= i < |f.rows| => f.rows[i] - drop))
  }

  /** No cell of r in the columns cols is missing. */
  predicate Complete(r: Row, cols: seq<string>) {
    forall c :: c in cols ==> Cell(r, c).Some?
  }

  function CompleteMask(f: Frame): (m: seq<bool>)
    ensures |m| == |f.rows|
  {
    seq(|f.rows|, i requires 0 <= i < |f.rows| => Complete(f.rows[i], f.columns))
  }

  /** `df.dropna()`: keeps, in order, the rows with no missing cell in any
      column; every row without a missing cell is kept. */
  function DropNA(f: Frame): (g: Frame)
    ensures g.columns == f.columns && |g.rows| <= |f.rows|
    ensures forall k :: 0 <= k < |g.rows| ==> Complete(g.rows[k], g.columns) && g.rows[k] in f.rows
    ensures forall i :: 0 <= i < |f.rows| && Complete(f.rows[i], f.columns) ==> f.rows[i] in g.rows
  {
    var idx := Kept(CompleteMask(f));
    var g := Frame(f.columns, Where(f.rows, CompleteMask(f)));
    assert forall k :: 0 <= k < |g.rows| ==> g.rows[k] == f.rows[idx[k]];
    assert forall i :: 0 <= i < |f.rows| && Complete(f.rows[i], f.columns) ==> i in idx;
    g
  }

  /** `duplicated(subset=[key])` with keep='first': a single pass that marks a
      row when its key is among the keys already seen. */
  function Duplicated(rows: seq<Row>, key: string, seen: set<Option<string>>): (d: seq<bool>)
    ensures |d| == |rows|
  {
    if rows == [] then []
    else
      var k := Cell(rows[0], key);
      [k in seen] + Duplicated(rows[1..], key, seen + {k})
  }

  /** A row is marked exactly when its key was seen before the pass began or
      appears on an earlier row. */
  lemma {:induction false} DuplicatedAt(rows: seq<Row>, key: string, seen: set<Option<string>>, i: nat)
    requires i < |rows|
    ensures Duplicated(rows, key, seen)[i] <==>
      Cell(rows[i], key) in seen || exists j :: 0 <= j < i && Cell(rows[j], key) == Cell(rows[i], key)
  {
    if i > 0 {
      var k := Cell(rows[0], key);
      DuplicatedAt(rows[1..], key, seen + {k}, i - 1);
      if exists j :: 0 <= j < i - 1 && Cell(rows[1..][j], key) == Cell(rows[i], key) {
        var j :| 0 <= j < i - 1 && Cell(rows[1..][j], key) == Cell(rows[i], key);
        assert Cell(rows[j + 1], key) == Cell(rows[i], key);
      }
      if exists j :: 0 <= j < i && Cell(rows[j], key) == Cell(rows[i], key) {
        var j :| 0 <= j < i && Cell(rows[j], key) == Cell(rows[i], key);
        if j > 0 {
          assert Cell(rows[1..][j - 1], key) == Cell(rows[i], key);
        }
      }
    }
  }

  function FirstMask(rows: seq<Row>, key: string): (m: seq<bool>)
    ensures |m| == |rows|
  {
    var d := Duplicated(rows, key, {});
    seq(|rows|, i requires 0 <= i < |rows| => !d[i])
  }

  /** `df.drop_duplicates(subset=[key])`: a frame with no rows or no columns
      comes back as it is, before the key is looked at; otherwise a KeyError
      when key is not a column, and else the first row of each key survives. */
  function DropDuplicates(f: Frame, key: string): (r: Result<Frame>)
    ensures r.Err? <==> key !in f.columns && |f.rows| > 0 && f.columns != []
    ensures r.Err? ==> r.error == MissingColumn(key)
    ensures r.Ok? ==> r.value.columns == f.columns && |r.value.rows| <= |f.rows|
    ensures r.Ok? ==> forall k :: 0 <= k < |r.value.rows| ==> r.value.rows[k] in f.rows
    ensures r.Ok? && key !in f.columns ==> r.value == f
  {
    if |f.rows| == 0 || f.columns == [] then Ok(f)
    else if key !in f.columns then Err(MissingColumn(key))
    else
      var idx := Kept(FirstMask(f.rows, key));
      var g := Frame(f.columns, Where(f.rows, FirstMask(f.rows, key)));
      assert forall k :: 0 <= k < |g.rows| ==> g.rows[k] == f.rows[idx[k]];
      Ok(g)
  }

  /** dropna keeps, in their order, exactly the input rows with no missing
      cell. */
  lemma DropNARows(f: Frame)
    ensures exists idx ::
      && SelectsAt(DropNA(f).rows, f.rows, idx)
      && forall i :: 0 <= i < |f.rows| ==> (i in idx <==> Complete(f.rows[i], f.columns))
  {
    var idx := Kept(CompleteMask(f));
    assert SelectsAt(DropNA(f).rows, f.rows, idx);
  }

  /** With the key a column, drop_duplicates keeps, in their order, exactly
      the rows whose key appears on no earlier row: the first row of each key
      survives and every later one goes. */
  lemma DropDuplicatesRows(f: Frame, key: string)
    requires key in f.columns
    ensures DropDuplicates(f, key).Ok?
    ensures exists idx ::
      && SelectsAt(DropDuplicates(f, key).value.rows, f.rows, idx)
      && forall i :: 0 <= i < |f.rows| ==>
           (i in idx <==> forall j :: 0 <= j < i ==> Cell(f.rows[j], key) != Cell(f.rows[i], key))
  {
    var g := DropDuplicates(f, key).value;
    if f.rows == [] {
      assert SelectsAt(g.rows, f.rows, []);
    } else {
      var mask := FirstMask(f.rows, key);
      var idx := Kept(mask);
      assert SelectsAt(g.rows, f.rows, idx);
      forall i | 0 <= i < |f.rows|
        ensures i in idx <==> forall j :: 0 <= j < i ==> Cell(f.rows[j], key) != Cell(f.rows[i], key)
      {
        DuplicatedAt(f.rows, key, {}, i);
        assert i in idx <==> mask[i];
      }
    }
  }

  /** The whole transform, in the source's order. */
  function Profile(f: Frame): (r: Result<Frame>)
    ensures r.Err? ==> r.error == MissingColumn(TitleColumn)
    ensures r.Ok? ==> r.value.columns == Without(f.columns, Dropped) && |r.value.rows| <= |f.rows|
  {
    DropDuplicates(DropNA(DropColumns(f, Dropped)), TitleColumn)
  }

  /** Row i has no missing cell outside the dropped columns. */
  predicate Clean(f: Frame, i: nat)
    requires i < |f.rows|
  {
    forall c :: c in f.columns && c !in Dropped ==> Cell(f.rows[i], c).Some?
  }

  /** Row i is clean and, when there is a title column, no earlier clean
      row has its title. */
  predicate FirstClean(f: Frame, i: nat)
    requires i < |f.rows|
  {
    && Clean(f, i)
    && (TitleColumn in f.columns ==> forall j :: 0 <= j < i && Clean(f, j) ==> Title(f.rows[j]) != Title(f.rows[i]))
  }

  /** The input positions of the profiled rows. */
  function Sources(f: Frame): seq<nat> {
    if TitleColumn in f.columns then TitleSources(f) else CompletePositions(f)
  }

  /** The input positions that survive the title pass. */
  function TitleSources(f: Frame): seq<nat> {
    var a := CompletePositions(f);
    var b := Kept(FirstMask(CompleteRows(f), TitleColumn));
    seq(|b|, k requires 0 <= k < |b| => a[b[k]])
  }

  /** Profiling fails exactly when there is no title column and the frame
      reaching the duplicate pass is not empty: some column other than ID and
      Fecha remains and some row is clean. The failure is a KeyError on the
      title. */
  lemma ProfileFails(f: Frame)
    ensures Profile(f).Err? <==>
      && TitleColumn !in f.columns
      && (exists c :: c in f.columns && c !in Dropped)
      && (exists i :: 0 <= i < |f.rows| && Clean(f, i))
    ensures Profile(f).Err? ==> Profile(f).error == MissingColumn(TitleColumn)
  {
    SomeClean(f);
    SomeColumn(f.columns);
  }

  /** Some row survives dropna exactly when some row is clean. */
  lemma SomeClean(f: Frame)
    ensures |DropNA(DropColumns(f, Dropped)).rows| > 0 <==> exists i :: 0 <= i < |f.rows| && Clean(f, i)
  {
    var f1 := DropColumns(f, Dropped);
    var f2 := DropNA(f1);
    if |f2.rows| > 0 {
      var i :| 0 <= i < |f1.rows| && f1.rows[i] == f2.rows[0];
      CleanIsComplete(f, i);
    }
    if exists i :: 0 <= i < |f.rows| && Clean(f, i) {
      var i :| 0 <= i < |f.rows| && Clean(f, i);
      CleanIsComplete(f, i);
      assert f1.rows[i] in f2.rows;
    }
  }

  /** Some column survives the drop exactly when one is neither ID nor Fecha. */
  lemma SomeColumn(cols: seq<string>)
    ensures Without(cols, Dropped) != [] <==> exists c :: c in cols && c !in Dropped
  {
    var w := Without(cols, Dropped);
    if w != [] {
      assert w[0] in w;
    }
    if exists c :: c in cols && c !in Dropped {
      var c :| c in cols && c !in Dropped;
      assert c in w;
    }
  }

  /** The columns after profiling are the input's without ID and Fecha, in
      their order; an input with neither keeps its columns. */
  lemma ProfileColumns(f: Frame)
    requires Profile(f).Ok?
    ensures Profile(f).value.columns == Without(f.columns, Dropped)
    ensures "ID" !in Profile(f).value.columns && "Fecha" !in Profile(f).value.columns
    ensures "ID" !in f.columns && "Fecha" !in f.columns ==> Profile(f).value.columns == f.columns
  {
    if "ID" !in f.columns && "Fecha" !in f.columns {
      WithoutNothing(f.columns, Dropped);
    }
  }

  lemma CleanIsComplete(f: Frame, i: nat)
    requires i < |f.rows|
    ensures Clean(f, i) <==> CompleteMask(DropColumns(f, Dropped))[i]
  {
    var f1 := DropColumns(f, Dropped);
    assert f1.rows[i] == f.rows[i] - Dropped;
    forall c | c !in Dropped
      ensures Cell(f1.rows[i], c) == Cell(f.rows[i], c)
    {
    }
  }

  /** The positions the title pass works on: the complete rows of the frame
      without ID and Fecha. */
  function CompletePositions(f: Frame): seq<nat> {
    Kept(CompleteMask(DropColumns(f, Dropped)))
  }

  function CompleteRows(f: Frame): seq<Row> {
    var f1 := DropColumns(f, Dropped);
    Pick(f1.rows, Kept(CompleteMask(f1)))
  }

  lemma TitleSourcesShape(f: Frame)
    ensures Ascending(TitleSources(f))
    ensures forall k :: 0 <= k < |TitleSources(f)| ==> TitleSources(f)[k] < |f.rows|
  {
    var a := CompletePositions(f);
    var b := Kept(FirstMask(CompleteRows(f), TitleColumn));
    forall k, l | 0 <= k < l < |TitleSources(f)|
      ensures TitleSources(f)[k] < TitleSources(f)[l]
    {
      assert b[k] < b[l];
    }
  }

  lemma SourcesSound(f: Frame, i: nat)
    requires i < |f.rows| && i in Sources(f)
    ensures FirstClean(f, i)
  {
    if TitleColumn in f.columns {
      TitleSourcesSound(f, i);
    } else {
      CleanIsComplete(f, i);
    }
  }

  lemma SourcesComplete(f: Frame, i: nat)
    requires i < |f.rows| && FirstClean(f, i)
    ensures i in Sources(f)
  {
    if TitleColumn in f.columns {
      TitleSourcesComplete(f, i);
    } else {
      CleanIsComplete(f, i);
    }
  }

  lemma TitleSourcesSound(f: Frame, i: nat)
    requires TitleColumn in f.columns
    requires i < |f.rows| && i in TitleSources(f)
    ensures FirstClean(f, i)
  {
    var a := CompletePositions(f);
    var rows2 := CompleteRows(f);
    var m2 := FirstMask(rows2, TitleColumn);
    var b := Kept(m2);
    var k :| 0 <= k < |TitleSources(f)| && TitleSources(f)[k] == i;
    var m := b[k];
    assert a[m] == i && m2[m];
    CleanIsComplete(f, i);
    DuplicatedAt(rows2, TitleColumn, {}, m);
    forall j | 0 <= j < i && Clean(f, j)
      ensures Title(f.rows[j]) != Title(f.rows[i])
    {
      CleanIsComplete(f, j);
      assert j in a;
      var m' :| 0 <= m' < |a| && a[m'] == j;
      assert m' < m;
      assert Title(rows2[m']) == Title(f.rows[j]);
      assert Title(rows2[m]) == Title(f.rows[i]);
    }
  }

  lemma TitleSourcesComplete(f: Frame, i: nat)
    requires TitleColumn in f.columns
    requires i < |f.rows| && FirstClean(f, i)
    ensures i in TitleSources(f)
  {
    var a := CompletePositions(f);
    var rows2 := CompleteRows(f);
    var m2 := FirstMask(rows2, TitleColumn);
    var b := Kept(m2);
    CleanIsComplete(f, i);
    assert i in a;
    var m :| 0 <= m < |a| && a[m] == i;
    CompleteRowAt(f, m);
    forall m' | 0 <= m' < m
      ensures Title(rows2[m']) != Title(rows2[m])
    {
      CompleteRowAt(f, m');
    }
    DuplicatedAt(rows2, TitleColumn, {}, m);
    assert m2[m];
    assert m in b;
    var k :| 0 <= k < |b| && b[k] == m;
    assert TitleSources(f)[k] == i;
  }

  /** The m-th row the title pass sees is the clean input row at the m-th
      complete position, with the same title. */
  lemma CompleteRowAt(f: Frame, m: nat)
    requires m < |CompletePositions(f)|
    ensures |CompleteRows(f)| == |CompletePositions(f)|
    ensures CompletePositions(f)[m] < |f.rows| && Clean(f, CompletePositions(f)[m])
    ensures Title(CompleteRows(f)[m]) == Title(f.rows[CompletePositions(f)[m]])
  {
    var i := CompletePositions(f)[m];
    CleanIsComplete(f, i);
    TitleKept(f.rows[i]);
  }

  /** The profiled rows are, in order, the input rows that are clean and carry
      the first clean occurrence of their title, each without ID and Fecha. */
  lemma ProfileRows(f: Frame)
    requires Profile(f).Ok?
    ensures Ascending(Sources(f)) && |Sources(f)| == |Profile(f).value.rows|
    ensures forall k :: 0 <= k < |Sources(f)| ==>
      Sources(f)[k] < |f.rows| && Profile(f).value.rows[k] == f.rows[Sources(f)[k]] - Dropped
    ensures forall i :: 0 <= i < |f.rows| ==> (i in Sources(f) <==> FirstClean(f, i))
  {
    if TitleColumn in f.columns {
      TitleSourcesShape(f);
    }
    forall i | 0 <= i < |f.rows|
      ensures i in Sources(f) <==> FirstClean(f, i)
    {
      if i in Sources(f) { SourcesSound(f, i); }
      if FirstClean(f, i) { SourcesComplete(f, i); }
    }
  }

  /** No profiled row has a missing cell, and no two share a title. */
  lemma ProfileClean(f: Frame)
    requires Profile(f).Ok?
    ensures forall k :: 0 <= k < |Profile(f).value.rows| ==>
      Complete(Profile(f).value.rows[k], Profile(f).value.columns)
    ensures TitleColumn in f.columns ==> forall k, l :: 0 <= k < l < |Profile(f).value.rows| ==>
      Title(Profile(f).value.rows[k]) != Title(Profile(f).value.rows[l])
    ensures TitleColumn !in f.columns ==> Profile(f).value.rows == [] || Profile(f).value.columns == []
  {
    ProfileComplete(f);
    if TitleColumn in f.columns {
      ProfileDistinct(f);
    }
  }

  lemma ProfileComplete(f: Frame)
    requires Profile(f).Ok?
    ensures forall k :: 0 <= k < |Profile(f).value.rows| ==>
      Complete(Profile(f).value.rows[k], Profile(f).value.columns)
  {
    var g := Profile(f).value;
    var src := Sources(f);
    ProfileRows(f);
    ProfileColumns(f);
    forall k | 0 <= k < |g.rows|
      ensures Complete(g.rows[k], g.columns)
    {
      assert src[k] in src;
      forall c | c in g.columns
        ensures Cell(g.rows[k], c).Some?
      {
        assert Cell(g.rows[k], c) == Cell(f.rows[src[k]], c);
      }
    }
  }

  lemma ProfileDistinct(f: Frame)
    requires Profile(f).Ok? && TitleColumn in f.columns
    ensures forall k, l :: 0 <= k < l < |Profile(f).value.rows| ==>
      Title(Profile(f).value.rows[k]) != Title(Profile(f).value.rows[l])
  {
    var g := Profile(f).value;
    var src := Sources(f);
    ProfileRows(f);
    forall k, l | 0 <= k < l < |g.rows|
      ensures Title(g.rows[k]) != Title(g.rows[l])
    {
      assert src[k] in src && src[l] in src;
      assert src[k] < src[l];
      assert FirstClean(f, src[k]) && FirstClean(f, src[l]);
      TitleKept(f.rows[src[k]]);
      TitleKept(f.rows[src[l]]);
    }
  }

  /** Dropping ID and Fecha leaves the title alone. */
  lemma TitleKept(r: Row)
    ensures Title(r - Dropped) == Title(r)
  {
    assert TitleColumn !in Dropped;
  }

  /** Nothing is lost but duplicates: every clean input row's title is the
      title of some profiled row. */
  lemma {:induction false} ProfileCoversTitles(f: Frame, i: nat)
    requires Profile(f).Ok? && i < |f.rows| && Clean(f, i)
    ensures exists k :: 0 <= k < |Profile(f).value.rows| && Title(Profile(f).value.rows[k]) == Title(f.rows[i])
    decreases i
  {
    ProfileRows(f);
    var src := Sources(f);
    if FirstClean(f, i) {
      var k :| 0 <= k < |src| && src[k] == i;
      assert Title(Profile(f).value.rows[k]) == Title(f.rows[i]);
    } else {
      var j :| 0 <= j < i && Clean(f, j) && Title(f.rows[j]) == Title(f.rows[i]);
      ProfileCoversTitles(f, j);
    }
  }

  /** A row whose only missing cells are in ID or Fecha is not dropped for
      them: when its title is new among the clean rows it survives. */
  lemma NullIdOrDateKept(f: Frame, i: nat)
    requires Profile(f).Ok? && i < |f.rows|
    requires forall c :: c in f.columns && Cell(f.rows[i], c).None? ==> c == "ID" || c == "Fecha"
    requires forall j :: 0 <= j < i && Clean(f, j) ==> Title(f.rows[j]) != Title(f.rows[i])
    ensures f.rows[i] - Dropped in Profile(f).value.rows
  {
    ProfileRows(f);
    assert FirstClean(f, i);
    var k :| 0 <= k < |Sources(f)| && Sources(f)[k] == i;
    assert Profile(f).value.rows[k] == f.rows[i] - Dropped;
  }

  /** Profiling a profiled frame changes nothing. */
  lemma ProfileIdempotent(f: Frame)
    requires Profile(f).Ok?
    ensures Profile(Profile(f).value) == Profile(f)
  {
    var g := Profile(f).value;
    ReprofileKeepsRows(f);
    assert Profile(g) == DropDuplicates(g, TitleColumn);
    if TitleColumn in f.columns {
      NoDuplicatesLeft(f);
    } else {
      // Only an empty frame gets past the duplicate pass without a title.
      ProfileClean(f);
    }
  }

  /** The duplicate pass finds nothing to drop in a profiled frame. */
  lemma NoDuplicatesLeft(f: Frame)
    requires Profile(f).Ok? && TitleColumn in f.columns
    ensures DropDuplicates(Profile(f).value, TitleColumn) == Profile(f)
  {
    var g := Profile(f).value;
    ProfileColumns(f);
    assert TitleColumn in g.columns;
    if g.rows != [] {
      ProfileDistinct(f);
      // Titles are distinct, so nothing is a duplicate.
      forall i | 0 <= i < |g.rows|
        ensures FirstMask(g.rows, TitleColumn)[i]
      {
        DuplicatedAt(g.rows, TitleColumn, {}, i);
      }
      WhereAll(g.rows, FirstMask(g.rows, TitleColumn));
    }
  }

  /** Dropping ID and Fecha and then the incomplete rows of a profiled frame
      gives it back. */
  lemma ReprofileKeepsRows(f: Frame)
    requires Profile(f).Ok?
    ensures DropNA(DropColumns(Profile(f).value, Dropped)) == Profile(f).value
  {
    var g := Profile(f).value;
    ProfileRows(f);
    ProfileColumns(f);
    ProfileComplete(f);
    var src := Sources(f);
    WithoutNothing(g.columns, Dropped);
    var g1 := DropColumns(g, Dropped);
    forall k | 0 <= k < |g.rows|
      ensures g1.rows[k] == g.rows[k]
    {
      assert g.rows[k] == f.rows[src[k]] - Dropped;
      assert g.rows[k] - Dropped == g.rows[k];
    }
    assert g1 == g;
    WhereAll(g.rows, CompleteMask(g));
  }

  /** A well-formed frame profiles to a well-formed frame: distinct columns,
      and every row holds exactly the remaining columns. */
  lemma ProfileWellFormed(f: Frame)
    requires WellFormed(f) && Profile(f).Ok?
    ensures WellFormed(Profile(f).value)
  {
    var g := Profile(f).value;
    ProfileRows(f);
    ProfileColumns(f);
    WithoutDistinct(f.columns, Dropped);
    forall k | 0 <= k < |g.rows|
      ensures g.rows[k].Keys == set c | c in g.columns
    {
      var i := Sources(f)[k];
      assert g.rows[k] == f.rows[i] - Dropped;
      assert f.rows[i].Keys == set c | c in f.columns;
    }
  }
}
