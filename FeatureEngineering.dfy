/**
 * `create_temporal_dataset`: the features of year T joined, student by student,
 * with the next year's `Defasagem`, and labelled with the risk target.
 *
 * The join is an inner merge on the id column `RA`: for each row of T's table, in
 * order, and each row of T+1's table with the same id, in order, one output row.
 */
module FeatureEngineering {
  import opened Wrappers
  import opened Tables
  import opened Config

  /** Why the assembler raises: a missing merge key, or a non-numeric next-year gap. */
  datatype AssembleError = KeyError(column: string) | TypeError

  const NextCol: string := "Defasagem_Next"
  const RiskCol: string := "Target_Risk"

  /** `r` is `s` with some elements deleted, the rest kept in order. */
  predicate IsSubsequence<T(==)>(r: seq<T>, s: seq<T>)
    decreases |s|
  {
    if r == [] then true
    else if s == [] then false
    else (r[0] == s[0] && IsSubsequence(r[1..], s[1..])) || IsSubsequence(r, s[1..])
  }

  /** The names of `wanted` that the table has, in the order of `wanted`. */
  function Present(wanted: seq<string>, cols: set<string>): (r: seq<string>)
    ensures forall c :: c in r <==> c in wanted && c in cols
    ensures IsSubsequence(r, wanted)
    ensures Distinct(wanted) ==> Distinct(r)
  {
    if wanted == [] then []
    else if wanted[0] in cols then
      [wanted[0]] + Present(wanted[1..], cols)
    else Present(wanted[1..], cols)
  }

  /** `['RA'] + INDICATOR_COLS`, filtered by what the table has. */
  function FeatureColumns(t: Table): (r: seq<string>)
    ensures forall c | c in r :: c in t.columns
    ensures IsSubsequence(r, ["RA"] + IndicatorCols)
  {
    Present(["RA"] + IndicatorCols, set c | c in t.columns)
  }

  /** The positions from `j` on whose id is `key`, in increasing order. */
  function Matches(key: Cell, rk: seq<Cell>, j: nat): (r: seq<nat>)
    requires j <= |rk|
    ensures forall m | 0 <= m < |r| :: j <= r[m] < |rk| && rk[r[m]] == key
    ensures forall q | j <= q < |rk| && rk[q] == key :: q in r
    ensures forall a, b | 0 <= a < b < |r| :: r[a] < r[b]
    decreases |rk| - j
  {
    if j == |rk| then []
    else if rk[j] == key then [j] + Matches(key, rk, j + 1)
    else Matches(key, rk, j + 1)
  }

  /** Row `a` of the left table comes before row `b`, or they tie and the right rows are ordered. */
  predicate PairBefore(p: (nat, nat), q: (nat, nat)) {
    p.0 < q.0 || (p.0 == q.0 && p.1 < q.1)
  }

  /** One left row's pairs, in right order, followed by the pairs of later left rows, stay ordered. */
  lemma ConcatOrdered(here: seq<(nat, nat)>, rest: seq<(nat, nat)>, i: nat)
    requires forall x, y | 0 <= x < y < |here| :: here[x].0 == i && here[x].1 < here[y].1
    requires forall k | 0 <= k < |here| :: here[k].0 == i
    requires forall k | 0 <= k < |rest| :: i < rest[k].0
    requires forall x, y | 0 <= x < y < |rest| :: PairBefore(rest[x], rest[y])
    ensures forall x, y | 0 <= x < y < |here + rest| :: PairBefore((here + rest)[x], (here + rest)[y])
  {
  }

  /**
   * The row pairs of the inner merge, from left row `i` on: exactly the pairs with
   * equal ids, left order first, right order within one left row.
   */
  function Pairs(lk: seq<Cell>, rk: seq<Cell>, i: nat): (r: seq<(nat, nat)>)
    requires i <= |lk|
    ensures forall k | 0 <= k < |r| :: i <= r[k].0 < |lk| && r[k].1 < |rk| && lk[r[k].0] == rk[r[k].1]
    ensures forall a, b | i <= a < |lk| && 0 <= b < |rk| && lk[a] == rk[b] :: (a, b) in r
    ensures forall x, y | 0 <= x < y < |r| :: PairBefore(r[x], r[y])
    decreases |lk| - i
  {
    if i == |lk| then []
    else
      var m := Matches(lk[i], rk, 0);
      var here := seq(|m|, k requires 0 <= k < |m| => (i, m[k]));
      var rest := Pairs(lk, rk, i + 1);
      forall a, b | i <= a < |lk| && 0 <= b < |rk| && lk[a] == rk[b]
        ensures (a, b) in here + rest
      {
        if a == i {
          var k :| 0 <= k < |m| && m[k] == b;
          assert here[k] == (a, b);
        } else {
          assert (a, b) in rest;
        }
      }
      ConcatOrdered(here, rest, i);
      here + rest
  }

  /** The join's cells for column `c` of the left table. */
  function LeftColumn(col: seq<Cell>, pairs: seq<(nat, nat)>): (r: seq<Cell>)
    requires forall k | 0 <= k < |pairs| :: pairs[k].0 < |col|
    ensures |r| == |pairs| && forall k | 0 <= k < |pairs| :: r[k] == col[pairs[k].0]
  {
    seq(|pairs|, k requires 0 <= k < |pairs| => col[pairs[k].0])
  }

  /** The join's cells for the right table's target column. */
  function RightColumn(col: seq<Cell>, pairs: seq<(nat, nat)>): (r: seq<Cell>)
    requires forall k | 0 <= k < |pairs| :: pairs[k].1 < |col|
    ensures |r| == |pairs| && forall k | 0 <= k < |pairs| :: r[k] == col[pairs[k].1]
  {
    seq(|pairs|, k requires 0 <= k < |pairs| => col[pairs[k].1])
  }

  /** `(next < 0).astype(int)`: a missing gap compares false. */
  function Risk(next: Cell): (r: Cell)
    requires !next.Text?
    ensures r == Num(1.0) <==> next.Num? && next.value < 0.0
    ensures r == Num(0.0) <==> !(next.Num? && next.value < 0.0)
  {
    if next.Num? && next.value < 0.0 then Num(1.0) else Num(0.0)
  }

  function RiskColumn(next: seq<Cell>): (r: seq<Cell>)
    requires forall k | 0 <= k < |next| :: !next[k].Text?
    ensures |r| == |next| && forall k | 0 <= k < |next| :: r[k] == Risk(next[k])
  {
    seq(|next|, k requires 0 <= k < |next| => Risk(next[k]))
  }

  /** The merged table: the chosen feature columns, then `Defasagem_Next`, then `Target_Risk`. */
  function Joined(x: Table, feats: seq<string>, pairs: seq<(nat, nat)>, next: seq<Cell>): (r: Table)
    requires x.Valid() && x.columns == feats && |next| == |pairs|
    requires NextCol !in feats && RiskCol !in feats
    requires forall k | 0 <= k < |pairs| :: pairs[k].0 < |x.index|
    requires forall k | 0 <= k < |next| :: !next[k].Text?
    ensures r.Valid() && r.columns == feats + [NextCol, RiskCol] && r.index == RangeIndex(|pairs|)
  {
    var cells := (map c | c in feats :: LeftColumn(x.cells[c], pairs))[NextCol := next][RiskCol := RiskColumn(next)];
    assert cells.Keys == set c | c in feats + [NextCol, RiskCol];
    Table(feats + [NextCol, RiskCol], cells, RangeIndex(|pairs|))
  }

  /**
   * `pd.merge(X, Y, on='RA', how='inner')` followed by the risk label, where `Y` is
   * the next year's `RA` and `Defasagem`, the latter renamed `Defasagem_Next`.
   */
  function MergeNext(x: Table, feats: seq<string>, dfNext: Table): (r: Result<Table, AssembleError>)
    requires x.Valid() && x.columns == feats && "RA" in x.cells
    requires NextCol !in feats && RiskCol !in feats
    requires dfNext.Valid() && "RA" in dfNext.cells && "Defasagem" in dfNext.cells
    ensures r.Success? ==> r.value.Valid()
  {
    var pairs := Pairs(x.cells["RA"], dfNext.cells["RA"], 0);
    var next := RightColumn(dfNext.cells["Defasagem"], pairs);
    if exists k | 0 <= k < |next| :: next[k].Text? then Failure(TypeError)
    else Success(Joined(x, feats, pairs, next))
  }

  /**
   * `create_temporal_dataset(data, year_t)`. An empty table when either year is
   * absent or the next year has no `Defasagem`; a `KeyError` when either side
   * lacks `RA`; a `TypeError` when a joined next-year gap is text.
   */
  function CreateTemporalDataset(data: map<int, Table>, yearT: int): (r: Result<Table, AssembleError>)
    requires forall y | y in data :: data[y].Valid()
    ensures r.Success? ==> r.value.Valid()
  {
    if yearT !in data || yearT + 1 !in data then Success(EmptyTable)
    else
      var dfT, dfNext := data[yearT], data[yearT + 1];
      var feats := FeatureColumns(dfT);
      FeatureColumnsFacts(dfT);
      var x := Select(dfT, feats);
      if "Defasagem" !in dfNext.cells then Success(EmptyTable)
      else if "RA" !in dfNext.cells then Failure(KeyError("RA"))
      else if "RA" !in x.cells then Failure(KeyError("RA"))
      else MergeNext(x, feats, dfNext)
  }

  /**
   * The feature columns: distinct, `RA` first when T has it, every present
   * indicator in configured order, and never one of the two added names.
   */
  lemma FeatureColumnsFacts(t: Table)
    ensures var f := FeatureColumns(t);
      && Distinct(f)
      && (forall c :: c in f <==> (c == "RA" || c in IndicatorCols) && c in t.columns)
      && IsSubsequence(f, ["RA"] + IndicatorCols)
      && ("RA" in t.columns ==> f[0] == "RA")
      && NextCol !in f && RiskCol !in f
  {
    var wanted := ["RA"] + IndicatorCols;
    CandidatesDistinct();
    assert wanted[1..] == IndicatorCols;
  }

  /** The candidate feature names are distinct and include neither added name. */
  lemma CandidatesDistinct()
    ensures Distinct(["RA"] + IndicatorCols)
    ensures NextCol !in ["RA"] + IndicatorCols && RiskCol !in ["RA"] + IndicatorCols
  {
  }

  /** Either year missing, or no `Defasagem` in the next year: an empty table, no error. */
  lemma EmptyCases(data: map<int, Table>, yearT: int)
    requires forall y | y in data :: data[y].Valid()
    ensures yearT !in data || yearT + 1 !in data ==> CreateTemporalDataset(data, yearT) == Success(EmptyTable)
    ensures yearT + 1 in data && "Defasagem" !in data[yearT + 1].columns ==>
              CreateTemporalDataset(data, yearT) == Success(EmptyTable)
  {
  }

  /**
   * When the assembler raises: `KeyError('RA')` exactly when both years and the
   * target are there but either side lacks `RA`, and otherwise `TypeError` exactly
   * when some joined next-year gap is text.
   */
  lemma DatasetErrors(data: map<int, Table>, yearT: int)
    requires forall y | y in data :: data[y].Valid()
    requires yearT in data && yearT + 1 in data && "Defasagem" in data[yearT + 1].columns
    ensures var r := CreateTemporalDataset(data, yearT);
      var dfT, dfNext := data[yearT], data[yearT + 1];
      && (r == Failure(KeyError("RA")) <==> "RA" !in dfT.columns || "RA" !in dfNext.columns)
      && (r == Failure(TypeError) <==>
            && "RA" in dfT.columns && "RA" in dfNext.columns
            && exists k | 0 <= k < |Pairs(dfT.cells["RA"], dfNext.cells["RA"], 0)| ::
                 dfNext.cells["Defasagem"][Pairs(dfT.cells["RA"], dfNext.cells["RA"], 0)[k].1].Text?)
      && (r.Failure? ==> r == Failure(KeyError("RA")) || r == Failure(TypeError))
  {
    var dfT, dfNext := data[yearT], data[yearT + 1];
    if "RA" in dfT.columns && "RA" in dfNext.columns {
      DatasetIsMerge(data, yearT);
      var feats := FeatureColumns(dfT);
      MergeNextFails(Select(dfT, feats), feats, dfNext);
    } else {
      FeatureColumnsFacts(dfT);
    }
  }

  /** The merge fails only with `TypeError`, and exactly when a joined next-year gap is text. */
  lemma MergeNextFails(x: Table, feats: seq<string>, dfNext: Table)
    requires x.Valid() && x.columns == feats && "RA" in x.cells
    requires NextCol !in feats && RiskCol !in feats
    requires dfNext.Valid() && "RA" in dfNext.cells && "Defasagem" in dfNext.cells
    ensures var r := MergeNext(x, feats, dfNext);
      var pairs := Pairs(x.cells["RA"], dfNext.cells["RA"], 0);
      && (r.Failure? ==> r == Failure(TypeError))
      && (r == Failure(TypeError) <==> exists k | 0 <= k < |pairs| :: dfNext.cells["Defasagem"][pairs[k].1].Text?)
  {
  }

  /**
   * The rows of a successful merge: one per matching pair, in pair order, each
   * carrying the left row's feature cells, the right row's gap as
   * `Defasagem_Next`, and `Target_Risk` 1 exactly when that gap is below zero.
   */
  lemma MergedRows(x: Table, feats: seq<string>, dfNext: Table)
    requires x.Valid() && x.columns == feats && "RA" in x.cells
    requires NextCol !in feats && RiskCol !in feats
    requires dfNext.Valid() && "RA" in dfNext.cells && "Defasagem" in dfNext.cells
    requires MergeNext(x, feats, dfNext).Success?
    ensures var r := MergeNext(x, feats, dfNext).value;
      var pairs := Pairs(x.cells["RA"], dfNext.cells["RA"], 0);
      && r.columns == feats + [NextCol, RiskCol]
      && r.index == RangeIndex(|pairs|)
      && (forall c, k | c in feats && 0 <= k < |pairs| :: r.cells[c][k] == x.cells[c][pairs[k].0])
      && (forall k | 0 <= k < |pairs| :: r.cells[NextCol][k] == dfNext.cells["Defasagem"][pairs[k].1])
      && (forall k | 0 <= k < |pairs| ::
            r.cells[RiskCol][k] == if r.cells[NextCol][k].Num? && r.cells[NextCol][k].value < 0.0 then Num(1.0) else Num(0.0))
  {
  }

  /**
   * With both years present, the target there and `RA` on both sides, the dataset
   * is the merge of T's feature columns with the next year's gaps.
   */
  lemma DatasetIsMerge(data: map<int, Table>, yearT: int)
    requires forall y | y in data :: data[y].Valid()
    requires yearT in data && yearT + 1 in data
    requires "Defasagem" in data[yearT + 1].columns && "RA" in data[yearT + 1].columns && "RA" in data[yearT].columns
    ensures var dfT := data[yearT];
      var feats := FeatureColumns(dfT);
      && Distinct(feats) && "RA" in feats && (forall c | c in feats :: c in dfT.cells)
      && NextCol !in feats && RiskCol !in feats
      && Select(dfT, feats).cells["RA"] == dfT.cells["RA"]
      && CreateTemporalDataset(data, yearT) == MergeNext(Select(dfT, feats), feats, data[yearT + 1])
  {
    FeatureColumnsFacts(data[yearT]);
  }

  /** With distinct right ids, a key matches once if present and never otherwise. */
  lemma {:induction false} MatchesCount(key: Cell, rk: seq<Cell>, j: nat)
    requires j <= |rk| && Distinct(rk)
    ensures |Matches(key, rk, j)| == if key in rk[j..] then 1 else 0
    decreases |rk| - j
  {
    if j < |rk| {
      MatchesCount(key, rk, j + 1);
      assert rk[j..] == [rk[j]] + rk[j + 1..];
      if rk[j] == key {
        assert key !in rk[j + 1..];
      }
    }
  }

  /** The set of ids in a column. */
  function Ids(s: seq<Cell>): set<Cell> {
    set x | x in s
  }

  /** Peeling the first id off a distinct column: it is not among the later ones. */
  lemma IdsCons(s: seq<Cell>, i: nat)
    requires i < |s| && Distinct(s)
    ensures Ids(s[i..]) == {s[i]} + Ids(s[i + 1..]) && s[i] !in Ids(s[i + 1..])
  {
    assert s[i..] == [s[i]] + s[i + 1..];
  }

  /** One id's share in the count of ids two columns have in common. */
  lemma CardinalityStep(a: Cell, later: set<Cell>, right: set<Cell>)
    requires a !in later
    ensures |({a} + later) * right| == (if a in right then 1 else 0) + |later * right|
  {
    if a in right {
      assert ({a} + later) * right == {a} + later * right;
    } else {
      assert ({a} + later) * right == later * right;
    }
  }

  /** With distinct ids on both sides, one pair per id the two sides share. */
  lemma {:induction false} PairsCount(lk: seq<Cell>, rk: seq<Cell>, i: nat)
    requires i <= |lk| && Distinct(lk) && Distinct(rk)
    ensures |Pairs(lk, rk, i)| == |Ids(lk[i..]) * Ids(rk)|
    decreases |lk| - i
  {
    if i == |lk| {
      assert Ids(lk[i..]) == {};
    } else {
      PairsCount(lk, rk, i + 1);
      MatchesCount(lk[i], rk, 0);
      IdsCons(lk, i);
      CardinalityStep(lk[i], Ids(lk[i + 1..]), Ids(rk));
      assert rk[0..] == rk;
    }
  }

  /**
   * With unique ids in both years, the dataset has one row per student present in
   * both, and a student present in only one year contributes no row.
   */
  lemma {:induction false} DatasetCount(data: map<int, Table>, yearT: int, id: Cell)
    requires forall y | y in data :: data[y].Valid()
    requires yearT in data && yearT + 1 in data
    requires "Defasagem" in data[yearT + 1].columns && "RA" in data[yearT + 1].columns && "RA" in data[yearT].columns
    requires CreateTemporalDataset(data, yearT).Success?
    ensures var r := CreateTemporalDataset(data, yearT).value;
      var ids, nextIds := data[yearT].cells["RA"], data[yearT + 1].cells["RA"];
      && (Distinct(ids) && Distinct(nextIds) ==> |r.index| == |Ids(ids) * Ids(nextIds)|)
      && (id !in ids || id !in nextIds ==> forall k | 0 <= k < |r.index| :: r.cells["RA"][k] != id)
  {
    var dfT, dfNext := data[yearT], data[yearT + 1];
    DatasetIsMerge(data, yearT);
    var feats := FeatureColumns(dfT);
    var x := Select(dfT, feats);
    MergedRows(x, feats, dfNext);
    var pairs := Pairs(x.cells["RA"], dfNext.cells["RA"], 0);
    if Distinct(dfT.cells["RA"]) && Distinct(dfNext.cells["RA"]) {
      PairsCount(dfT.cells["RA"], dfNext.cells["RA"], 0);
      assert dfT.cells["RA"][0..] == dfT.cells["RA"];
    }
  }

  /**
   * Ids 1, 2, 3 in one year and 1, 3 in the next: students 1 and 3 are joined, in
   * that order, and student 2 is dropped.
   */
  lemma {:induction false} PairsExample()
    ensures Pairs([Text("1"), Text("2"), Text("3")], [Text("1"), Text("3")], 0) == [(0, 0), (2, 1)]
  {
    var rk := [Text("1"), Text("3")];
    assert Text("1") != Text("3") && Text("2") != Text("1") && Text("2") != Text("3");
    assert Matches(Text("1"), rk, 0) == [0];
    assert Matches(Text("2"), rk, 0) == [];
    assert Matches(Text("3"), rk, 0) == [1];
  }
}
