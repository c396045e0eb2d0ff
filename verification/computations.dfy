/** The decomposition engine: for one stressor and one target producer
    j = (region, sector), the stressor's total footprint
    `sum_i S[stressor, i] * L[i, j]` is split into the target's direct
    intensity, a domestic supply-chain part and a foreign supply-chain
    part. */
module Computations {
  import opened Wrappers
  import opened Seqs
  import opened Tables

  /** The two accepted names of the domestic-indirect policy; the first is
      the default. */
  const MinusDirect: string := "minus_direct"
  const ExcludeDiagonal: string := "exclude_diagonal"

  /** At most this many missing producers are named in an alignment error. */
  const MaxReported: nat := 10

  datatype Error =
    | UnknownStressor(stressor: string)
    | UnknownTarget(target: Key)
    | AlignmentGap(firstMissing: seq<Key>)
      /** The target is a column of L but not one of its rows, so its own
          intensity cannot be looked up in the aligned row. */
    | TargetNotProducer(target: Key)
    | InvalidPolicy(definition: string)

  /** The result record handed to the presentation layer. `rColumn` is the
      contribution of every producer of L's row index. */
  datatype Decomposition = Decomposition(
    stressor: string,
    colKey: Key,
    direct: real,
    domesticIndirect: real,
    foreignIndirect: real,
    total: real,
    rColumn: map<Key, real>,
    definition: string)

  /** S holds an intensity of `stressor` for every producer of L's rows:
      reindexing the stressor's row onto L's row index leaves no gap. */
  predicate Aligned(S: StressorMatrix, stressor: string, producers: seq<Key>) {
    forall i :: i in producers ==> (stressor, i) in S.cell
  }

  function MissingMask(S: StressorMatrix, stressor: string): Key -> bool {
    (i: Key) => (stressor, i) !in S.cell
  }

  /** The producers with no intensity for `stressor`, in index order. */
  function Missing(S: StressorMatrix, stressor: string, producers: seq<Key>): (r: seq<Key>)
    ensures forall i :: i in r <==> i in producers && (stressor, i) !in S.cell
    ensures |r| == 0 <==> Aligned(S, stressor, producers)
  {
    var r := Filter(producers, MissingMask(S, stressor));
    assert forall i :: i in producers && (stressor, i) !in S.cell ==> i in r;
    assert |r| > 0 ==> r[0] in r;
    r
  }

  function DomesticMask(region: string): Key -> bool {
    (i: Key) => i.region == region
  }

  function ForeignMask(region: string): Key -> bool {
    (i: Key) => i.region != region
  }

  function OtherDomesticMask(j: Key): Key -> bool {
    (i: Key) => i.region == j.region && i != j
  }

  /** The producers located in `region`, in index order. */
  function Domestic(producers: seq<Key>, region: string): (r: seq<Key>)
    ensures forall i :: i in r <==> i in producers && i.region == region
  {
    Filter(producers, DomesticMask(region))
  }

  /** The producers located outside `region`, in index order. */
  function Foreign(producers: seq<Key>, region: string): (r: seq<Key>)
    ensures forall i :: i in r <==> i in producers && i.region != region
  {
    Filter(producers, ForeignMask(region))
  }

  /** The producers in the target's region other than the target itself:
      the domestic supply chain in the strict sense. */
  function OtherDomestic(producers: seq<Key>, j: Key): (r: seq<Key>)
    ensures forall i :: i in r <==> i in producers && i.region == j.region && i != j
  {
    Filter(producers, OtherDomesticMask(j))
  }

  /** Every producer's contribution to the target: intensity times
      requirement, over exactly L's row index. */
  function Contribution(S: StressorMatrix, L: LeontiefMatrix, stressor: string, j: Key): (r: map<Key, real>)
    requires L.ColumnComplete(j) && j in L.cols
    requires Aligned(S, stressor, L.rows)
    ensures forall i :: i in r <==> i in L.rows
  {
    map i | i in L.rows :: S.cell[(stressor, i)] * L.cell[(i, j)]
  }

  /** The numeric part of the decomposition, once the stressor, the target
      and the alignment have been checked; only the policy can still fail. */
  function Evaluate(S: StressorMatrix, L: LeontiefMatrix, stressor: string,
                    j: Key, definition: string): (r: Result<Decomposition, Error>)
    requires L.ColumnComplete(j) && j in L.cols && j in L.rows
    requires Aligned(S, stressor, L.rows)
    ensures r.Failure? <==> definition != MinusDirect && definition != ExcludeDiagonal
    ensures r.Failure? ==> r.error == InvalidPolicy(definition)
    ensures r.Success? ==>
              && r.value.stressor == stressor && r.value.colKey == j && r.value.definition == definition
              && r.value.rColumn == Contribution(S, L, stressor, j)
              && (forall i :: i in r.value.rColumn <==> i in L.rows)
              && (forall i :: i in L.rows ==> r.value.rColumn[i] == S.cell[(stressor, i)] * L.cell[(i, j)])
              && r.value.direct == S.cell[(stressor, j)]
              && r.value.foreignIndirect == Sum(Foreign(L.rows, j.region), r.value.rColumn)
              && (definition == MinusDirect ==>
                    r.value.domesticIndirect == Sum(Domestic(L.rows, j.region), r.value.rColumn) - r.value.direct)
              && (definition == ExcludeDiagonal ==>
                    r.value.domesticIndirect == Sum(Domestic(L.rows, j.region), r.value.rColumn) - r.value.rColumn[j])
              && r.value.total == r.value.direct + r.value.domesticIndirect + r.value.foreignIndirect
  {
    var rCol := Contribution(S, L, stressor, j);
    var direct := S.cell[(stressor, j)];
    var domesticTotal := Sum(Domestic(L.rows, j.region), rCol);
    var foreignTotal := Sum(Foreign(L.rows, j.region), rCol);
    if definition == MinusDirect then
      var domesticIndirect := domesticTotal - direct;
      Success(Decomposition(stressor, j, direct, domesticIndirect, foreignTotal,
                            direct + domesticIndirect + foreignTotal, rCol, definition))
    else if definition == ExcludeDiagonal then
      var domesticIndirect := domesticTotal - rCol[j];
      Success(Decomposition(stressor, j, direct, domesticIndirect, foreignTotal,
                            direct + domesticIndirect + foreignTotal, rCol, definition))
    else Failure(InvalidPolicy(definition))
  }

  /** The decomposition for `stressor` and target (region, sector) under the
      named domestic-indirect policy. Errors are reported in the order the
      checks are made: stressor, target column, alignment, target row,
      policy. The policy defaults to `minus_direct`. L is read only in the
      target's column, which must have no missing value. */
  function Decompose(S: StressorMatrix, L: LeontiefMatrix, stressor: string,
                     region: string, sector: string, definition: string := MinusDirect): (r: Result<Decomposition, Error>)
    requires S.Valid() && L.Valid()
    requires Key(region, sector) in L.cols ==> L.ColumnComplete(Key(region, sector))
    ensures stressor !in S.rows <==> r == Failure(UnknownStressor(stressor))
    ensures stressor in S.rows ==>
              (Key(region, sector) !in L.cols <==> r == Failure(UnknownTarget(Key(region, sector))))
    ensures stressor in S.rows && Key(region, sector) in L.cols ==>
              (!Aligned(S, stressor, L.rows) <==> r.Failure? && r.error.AlignmentGap?)
    ensures r.Failure? && r.error.AlignmentGap? ==>
              && 0 < |r.error.firstMissing| <= MaxReported
              && forall i :: i in r.error.firstMissing ==> i in L.rows && (stressor, i) !in S.cell
    ensures r == Failure(TargetNotProducer(Key(region, sector))) <==>
              && stressor in S.rows && Key(region, sector) in L.cols
              && Aligned(S, stressor, L.rows) && Key(region, sector) !in L.rows
    ensures r.Success? || r == Failure(InvalidPolicy(definition)) <==>
              && stressor in S.rows && Key(region, sector) in L.cols
              && Aligned(S, stressor, L.rows) && Key(region, sector) in L.rows
    ensures r.Success? || r == Failure(InvalidPolicy(definition)) ==>
              r == Evaluate(S, L, stressor, Key(region, sector), definition)
  {
    var j := Key(region, sector);
    if stressor !in S.rows then Failure(UnknownStressor(stressor))
    else if j !in L.cols then Failure(UnknownTarget(j))
    else
      var missing := Missing(S, stressor, L.rows);
      if |missing| > 0 then
        var shown := Take(missing, MaxReported);
        assert forall i :: i in shown ==> i in missing;
        Failure(AlignmentGap(shown))
      else if j !in L.rows then Failure(TargetNotProducer(j))
      else Evaluate(S, L, stressor, j, definition)
  }
}
