/** What the decomposition engine guarantees across calls and policies:
    the region split is exact, `minus_direct` is additive, `exclude_diagonal`
    diverges from it by exactly the target's self-feedback, and the
    alignment error names the earliest missing producers. */
module DecompositionLaws {
  import opened Wrappers
  import opened Seqs
  import opened Tables
  import opened Computations

  /** The inputs the engine expects for target `j`: unique labels, and no
      missing value in L's column for `j` when there is one. */
  predicate WellFormed(S: StressorMatrix, L: LeontiefMatrix, j: Key) {
    S.Valid() && L.Valid() && (j in L.cols ==> L.ColumnComplete(j))
  }

  /** Leaving out the policy is choosing `minus_direct`. */
  lemma DefaultPolicyIsMinusDirect(S: StressorMatrix, L: LeontiefMatrix, stressor: string, region: string, sector: string)
    requires WellFormed(S, L, Key(region, sector))
    ensures Decompose(S, L, stressor, region, sector) == Decompose(S, L, stressor, region, sector, MinusDirect)
    ensures Decompose(S, L, stressor, region, sector).Success? ==>
              Decompose(S, L, stressor, region, sector).value.definition == MinusDirect
  {
  }

  /** Every producer lands in exactly one of the two buckets, so the
      domestic and foreign totals add up to the whole column. */
  lemma PartitionComplete(producers: seq<Key>, region: string, f: map<Key, real>)
    requires forall i :: i in producers ==> i in f
    ensures Sum(Domestic(producers, region), f) + Sum(Foreign(producers, region), f) == Sum(producers, f)
  {
    SumPartition(producers, f, DomesticMask(region), ForeignMask(region));
  }

  /** The stage after validation: the target is a row and a column of L
      and the stressor's row covers every producer. */
  predicate Ready(S: StressorMatrix, L: LeontiefMatrix, stressor: string, j: Key) {
    L.ColumnComplete(j) && j in L.cols && j in L.rows && Aligned(S, stressor, L.rows)
  }

  /** Under `minus_direct` the direct term cancels: the three parts add up
      to the whole contribution column. */
  lemma MinusDirectIsAdditive(S: StressorMatrix, L: LeontiefMatrix, stressor: string, j: Key)
    requires Ready(S, L, stressor, j)
    ensures var d := Evaluate(S, L, stressor, j, MinusDirect).value;
            d.total == Sum(L.rows, d.rColumn)
  {
    var d := Evaluate(S, L, stressor, j, MinusDirect).value;
    PartitionComplete(L.rows, j.region, d.rColumn);
  }

  /** Under `exclude_diagonal` the total is the whole column plus the raw
      intensity minus the target's own contribution. */
  lemma ExcludeDiagonalTotal(S: StressorMatrix, L: LeontiefMatrix, stressor: string, j: Key)
    requires Ready(S, L, stressor, j)
    ensures var d := Evaluate(S, L, stressor, j, ExcludeDiagonal).value;
            d.total == Sum(L.rows, d.rColumn) + d.direct - d.rColumn[j]
  {
    var d := Evaluate(S, L, stressor, j, ExcludeDiagonal).value;
    PartitionComplete(L.rows, j.region, d.rColumn);
  }

  /** `exclude_diagonal` counts exactly the domestic producers other than
      the target itself. */
  lemma ExcludeDiagonalIsOtherDomestic(S: StressorMatrix, L: LeontiefMatrix, stressor: string, j: Key)
    requires Ready(S, L, stressor, j) && NoDuplicates(L.rows)
    ensures var d := Evaluate(S, L, stressor, j, ExcludeDiagonal).value;
            d.domesticIndirect == Sum(OtherDomestic(L.rows, j), d.rColumn)
  {
    var d := Evaluate(S, L, stressor, j, ExcludeDiagonal).value;
    SumRemoveOne(L.rows, d.rColumn, DomesticMask(j.region), OtherDomesticMask(j), j);
  }

  /** `minus_direct` counts the other domestic producers plus the target's
      self-feedback `r_col[j] - s[j]`, which `SelfFeedbackTerm` shows is
      `s[j] * (L[j, j] - 1)`. */
  lemma MinusDirectKeepsSelfFeedback(S: StressorMatrix, L: LeontiefMatrix, stressor: string, j: Key)
    requires Ready(S, L, stressor, j) && NoDuplicates(L.rows)
    ensures var d := Evaluate(S, L, stressor, j, MinusDirect).value;
            d.domesticIndirect == Sum(OtherDomestic(L.rows, j), d.rColumn) + (d.rColumn[j] - d.direct)
  {
    var d := Evaluate(S, L, stressor, j, MinusDirect).value;
    SumRemoveOne(L.rows, d.rColumn, DomesticMask(j.region), OtherDomesticMask(j), j);
  }

  /** The target's own contribution is its intensity scaled by the diagonal
      of L, so it exceeds the raw intensity by `s[j] * (L[j, j] - 1)`, which
      is non-zero when `s[j] != 0` and `L[j, j] != 1`. */
  lemma SelfFeedbackTerm(S: StressorMatrix, L: LeontiefMatrix, stressor: string, j: Key)
    requires Ready(S, L, stressor, j)
    ensures var r, s, l := Contribution(S, L, stressor, j), S.cell[(stressor, j)], L.cell[(j, j)];
            && r[j] == s * l
            && r[j] - s == s * (l - 1.0)
            && (s != 0.0 && l != 1.0 ==> r[j] != s)
  {
  }

  /** The policy decides the domestic-indirect part and nothing else: both
      policies give the same contribution column, direct and foreign parts,
      and their domestic-indirect parts differ by `r_col[j] - s[j]`. */
  lemma PolicyOnlyChangesDomesticIndirect(S: StressorMatrix, L: LeontiefMatrix, stressor: string, j: Key)
    requires Ready(S, L, stressor, j)
    ensures var a := Evaluate(S, L, stressor, j, MinusDirect).value;
            var b := Evaluate(S, L, stressor, j, ExcludeDiagonal).value;
            && b.rColumn == a.rColumn
            && b.direct == a.direct
            && b.foreignIndirect == a.foreignIndirect
            && a.domesticIndirect - b.domesticIndirect == a.rColumn[j] - a.direct
  {
  }

  /** With no self-feedback (`L[j, j] == 1`) the two policies give the same
      numbers. */
  lemma PoliciesAgreeOnUnitDiagonal(S: StressorMatrix, L: LeontiefMatrix, stressor: string, j: Key)
    requires Ready(S, L, stressor, j)
    requires L.cell[(j, j)] == 1.0
    ensures Evaluate(S, L, stressor, j, ExcludeDiagonal) ==
            Success(Evaluate(S, L, stressor, j, MinusDirect).value.(definition := ExcludeDiagonal))
  {
  }

  /** With self-feedback and a non-zero intensity, `exclude_diagonal` does
      not add up to the contribution column; it misses it by exactly
      `s[j] - r_col[j]`. */
  lemma ExcludeDiagonalNotAdditive(S: StressorMatrix, L: LeontiefMatrix, stressor: string, j: Key)
    requires Ready(S, L, stressor, j)
    requires L.cell[(j, j)] != 1.0
    requires S.cell[(stressor, j)] != 0.0
    ensures var d := Evaluate(S, L, stressor, j, ExcludeDiagonal).value;
            && d.total - Sum(L.rows, d.rColumn) == d.direct - d.rColumn[j]
            && d.total != Sum(L.rows, d.rColumn)
  {
    SelfFeedbackTerm(S, L, stressor, j);
    ExcludeDiagonalTotal(S, L, stressor, j);
  }

  /** The alignment error lists the earliest missing producers, once each,
      in L's row order: whenever it names a producer, it also names every
      missing producer that comes before it. */
  lemma GapReportsEarliest(S: StressorMatrix, L: LeontiefMatrix, stressor: string, region: string,
                           sector: string, definition: string, shown: seq<Key>)
    requires WellFormed(S, L, Key(region, sector))
    requires Decompose(S, L, stressor, region, sector, definition) == Failure(AlignmentGap(shown))
    ensures NoDuplicates(shown)
    ensures InOrder(shown, L.rows)
    ensures forall a, b :: 0 <= a < b < |L.rows| && L.rows[b] in shown && (stressor, L.rows[a]) !in S.cell ==>
              L.rows[a] in shown
  {
    var mask := MissingMask(S, stressor);
    assert shown == Take(Filter(L.rows, mask), MaxReported);
    FilterInOrder(L.rows, mask);
    FilterNoDuplicates(L.rows, mask);
    TakeKeepsOrder(Filter(L.rows, mask), L.rows, MaxReported);
    forall a, b | 0 <= a < b < |L.rows| && L.rows[b] in shown && (stressor, L.rows[a]) !in S.cell
      ensures L.rows[a] in shown
    {
      TakeFilterIsEarliest(L.rows, mask, MaxReported, a, b);
    }
  }

  /** The alignment error names all missing producers when there are at
      most ten of them, and ten otherwise: with `GapReportsEarliest`, the
      report is exactly the first `min(10, #missing)` missing producers. */
  lemma GapReportSize(S: StressorMatrix, L: LeontiefMatrix, stressor: string, region: string,
                      sector: string, definition: string, shown: seq<Key>)
    requires WellFormed(S, L, Key(region, sector))
    requires Decompose(S, L, stressor, region, sector, definition) == Failure(AlignmentGap(shown))
    ensures |shown| == if |Missing(S, stressor, L.rows)| <= MaxReported then |Missing(S, stressor, L.rows)| else MaxReported
    ensures |Missing(S, stressor, L.rows)| <= MaxReported ==>
              forall i :: i in L.rows && (stressor, i) !in S.cell ==> i in shown
  {
  }
}
