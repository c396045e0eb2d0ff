/** How the loader's checks meet the engine's needs: a loaded pair has S's
    columns equal to L's columns equal to L's rows, which is what the engine
    relies on to look up the target's own intensity. */
module LoaderContract {
  import opened Wrappers
  import opened Seqs
  import opened Tables
  import opened Computations
  import opened DataLoader

  /** Given an L whose target column has no missing value, a loaded pair
      meets the engine's precondition, the target-row error cannot occur,
      and an unknown target is exactly a producer that is not a column of S. */
  lemma LoadedPairFitsEngine(S: StressorMatrix, L: LeontiefMatrix, stressor: string,
                             region: string, sector: string, definition: string)
    requires S.Valid() && L.Valid()
    requires Key(region, sector) in L.cols ==> L.ColumnComplete(Key(region, sector))
    requires LoadSL(S, L).Success?
    ensures var p := LoadSL(S, L).value;
            && p.s.Valid() && p.l.Valid()
            && (Key(region, sector) in p.l.cols ==> p.l.ColumnComplete(Key(region, sector)))
            && Decompose(p.s, p.l, stressor, region, sector, definition) != Failure(TargetNotProducer(Key(region, sector)))
            && (stressor in p.s.rows ==>
                  (Decompose(p.s, p.l, stressor, region, sector, definition) == Failure(UnknownTarget(Key(region, sector)))
                   <==> Key(region, sector) !in p.s.cols))
  {
  }

  /** When S had to be reindexed, the loader already rejected every gap, so
      the engine never reports one for a known stressor. */
  lemma ReindexedPairHasNoGap(S: StressorMatrix, L: LeontiefMatrix, stressor: string,
                              region: string, sector: string, definition: string)
    requires S.Valid() && L.Valid()
    requires Key(region, sector) in L.cols ==> L.ColumnComplete(Key(region, sector))
    requires S.cols != L.cols && LoadSL(S, L).Success?
    requires stressor in S.rows
    ensures var p := LoadSL(S, L).value;
            Aligned(p.s, stressor, p.l.rows)
            && !(Decompose(p.s, p.l, stressor, region, sector, definition).Failure?
                 && Decompose(p.s, p.l, stressor, region, sector, definition).error.AlignmentGap?)
  {
  }

  const A: Key := Key("A", "x")
  const B: Key := Key("B", "x")

  /** Columns that already match skip the missing-value check: this S lacks
      a value at B yet loads, and the engine then reports B as missing. */
  lemma MatchingColumnsSkipMissingCheck()
    ensures var S := Table(["CO2"], [A, B], map[("CO2", A) := 1.0]);
            var L := Table([A, B], [A, B], map[(A, A) := 1.0, (A, B) := 0.0, (B, A) := 0.0, (B, B) := 1.0]);
            && LoadSL(S, L) == Success(Loaded(S, L))
            && Decompose(S, L, "CO2", "A", "x", MinusDirect) == Failure(AlignmentGap([B]))
  {
    var S := Table(["CO2"], [A, B], map[("CO2", A) := 1.0]);
    var L := Table([A, B], [A, B], map[(A, A) := 1.0, (A, B) := 0.0, (B, A) := 0.0, (B, B) := 1.0]);
    assert Missing(S, "CO2", L.rows) == [B] by {
      assert L.rows == [A] + [B];
      FilterAppend([A], [B], MissingMask(S, "CO2"));
    }
  }
}
