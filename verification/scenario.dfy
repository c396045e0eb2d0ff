/** A worked example: CO2 with intensity 5.0 at US construction and 2.0 at
    CN construction, decomposed for the target US construction. */
module Scenario {
  import opened Wrappers
  import opened Seqs
  import opened Tables
  import opened Computations

  const US: Key := Key("US", "Construction")
  const CN: Key := Key("CN", "Construction")

  function ExampleS(): (S: StressorMatrix)
    ensures S.Valid()
  {
    Table(["CO2"], [US, CN], map[("CO2", US) := 5.0, ("CO2", CN) := 2.0])
  }

  /** Only the target's column (1.2, 0.3) enters the results; the values in
      the other column are arbitrary. */
  function ExampleL(): (L: LeontiefMatrix)
    ensures L.Valid() && L.Complete()
  {
    Table([US, CN], [US, CN], map[(US, US) := 1.2, (CN, US) := 0.3, (US, CN) := 0.1, (CN, CN) := 1.1])
  }

  lemma ExampleReady()
    ensures Aligned(ExampleS(), "CO2", ExampleL().rows)
    ensures US in ExampleL().rows && US in ExampleL().cols
    ensures Domestic(ExampleL().rows, "US") == [US]
    ensures Foreign(ExampleL().rows, "US") == [CN]
  {
  }

  lemma ExampleColumn()
    ensures Contribution(ExampleS(), ExampleL(), "CO2", US) == map[US := 6.0, CN := 0.6]
  {
  }

  /** Under `minus_direct`: r_col = {US: 6.0, CN: 0.6}, direct 5.0, domestic
      indirect 1.0, foreign indirect 0.6, total 6.6 = sum of r_col. */
  lemma MinusDirectExample()
    ensures Decompose(ExampleS(), ExampleL(), "CO2", "US", "Construction", MinusDirect)
         == Success(Decomposition("CO2", US, 5.0, 1.0, 0.6, 6.6, map[US := 6.0, CN := 0.6], MinusDirect))
  {
    ExampleReady();
    ExampleColumn();
    var rCol := map[US := 6.0, CN := 0.6];
    assert Sum([US], rCol) == 6.0;
    assert Sum([CN], rCol) == 0.6;
  }

  /** Under `exclude_diagonal` the whole target contribution 6.0 is removed:
      domestic indirect 0.0 and total 5.6, which is not the column sum 6.6
      because L[US, US] = 1.2 is not 1. */
  lemma ExcludeDiagonalExample()
    ensures Decompose(ExampleS(), ExampleL(), "CO2", "US", "Construction", ExcludeDiagonal)
         == Success(Decomposition("CO2", US, 5.0, 0.0, 0.6, 5.6, map[US := 6.0, CN := 0.6], ExcludeDiagonal))
  {
    ExampleReady();
    ExampleColumn();
    var rCol := map[US := 6.0, CN := 0.6];
    assert Sum([US], rCol) == 6.0;
    assert Sum([CN], rCol) == 0.6;
  }

  /** An unknown policy name yields no numbers, only the error. */
  lemma BogusPolicyExample()
    ensures Decompose(ExampleS(), ExampleL(), "CO2", "US", "Construction", "bogus")
         == Failure(InvalidPolicy("bogus"))
  {
  }

  /** With no CO2 intensity at all, the default-policy call reports both
      producers, in L's row order. */
  lemma GapOrderExample()
    ensures Decompose(Table(["CO2"], [US, CN], map[]), ExampleL(), "CO2", "US", "Construction")
         == Failure(AlignmentGap([US, CN]))
  {
    var S: StressorMatrix := Table(["CO2"], [US, CN], map[]);
    assert Missing(S, "CO2", ExampleL().rows) == [US, CN] by {
      assert ExampleL().rows == [US] + [CN];
      FilterAppend([US], [CN], MissingMask(S, "CO2"));
    }
  }
}
