/** The structural checks applied to freshly parsed tables, and the catalog
    of stressors, regions and sectors offered for selection. Parsing the
    files themselves is not modelled: the checks start from parsed tables. */
module DataLoader {
  import opened Wrappers
  import opened Seqs
  import opened Tables
  import opened StringOrder

  datatype LoadError =
      /** L's row index and column index differ (as sets or in order). */
    | NotSquare
      /** Reindexing S onto L's columns left a missing value. */
    | MissingAfterAlignment

  /** The loaded pair (S, L). */
  datatype Loaded = Loaded(s: StressorMatrix, l: LeontiefMatrix)

  /** Every stressor has a value at every one of `cols`. */
  predicate Covers(S: StressorMatrix, cols: seq<Key>) {
    forall r, c | r in S.rows && c in cols :: (r, c) in S.cell
  }

  /** S with its columns replaced by `cols`, in that order: a column S lacks
      becomes all-missing and a column S has but `cols` lacks is dropped. */
  function ReindexColumns(S: StressorMatrix, cols: seq<Key>): (r: StressorMatrix)
    requires S.Valid() && NoDuplicates(cols)
    ensures r.Valid()
    ensures r.rows == S.rows && r.cols == cols
    ensures forall s, c :: (s, c) in r.cell <==> (s, c) in S.cell && c in cols
    ensures forall rc :: rc in r.cell ==> r.cell[rc] == S.cell[rc]
    ensures r.Complete() <==> Covers(S, cols)
  {
    Table(S.rows, cols, map rc | rc in S.cell && rc.1 in cols :: S.cell[rc])
  }

  /** The checks made after parsing: L must be square with the same labels
      in the same order on both axes; S is reindexed onto L's columns when
      its own columns differ, and must then have no missing value. */
  function LoadSL(S: StressorMatrix, L: LeontiefMatrix): (r: Result<Loaded, LoadError>)
    requires S.Valid() && L.Valid()
    ensures r == Failure(NotSquare) <==> L.rows != L.cols
    ensures r == Failure(MissingAfterAlignment) <==>
              L.rows == L.cols && S.cols != L.cols && !Covers(S, L.cols)
    ensures r.Success? ==>
              && r.value.l == L
              && r.value.s.Valid()
              && r.value.s.rows == S.rows
              && r.value.s.cols == L.cols && L.cols == L.rows
              && (forall rc :: rc in r.value.s.cell ==> rc in S.cell && r.value.s.cell[rc] == S.cell[rc])
              && (forall s, c :: s in S.rows && c in L.cols && (s, c) in S.cell ==> (s, c) in r.value.s.cell)
    ensures r.Success? && S.cols != L.cols ==> r.value.s.Complete()
    ensures L.rows == L.cols && S.cols == L.cols ==> r == Success(Loaded(S, L))
  {
    if L.rows != L.cols then Failure(NotSquare)
    else if S.cols != L.cols then
      var aligned := ReindexColumns(S, L.cols);
      if !aligned.Complete() then Failure(MissingAfterAlignment)
      else Success(Loaded(aligned, L))
    else Success(Loaded(S, L))
  }

  /** The lists offered for selection. */
  datatype Catalog = Catalog(stressors: seq<string>, regions: seq<string>, sectors: seq<string>)

  function RegionsOf(ks: seq<Key>): (r: seq<string>)
    ensures forall x :: x in r <==> exists k :: k in ks && k.region == x
  {
    if |ks| == 0 then [] else [ks[0].region] + RegionsOf(ks[1..])
  }

  function SectorsOf(ks: seq<Key>): (r: seq<string>)
    ensures forall x :: x in r <==> exists k :: k in ks && k.sector == x
  {
    if |ks| == 0 then [] else [ks[0].sector] + SectorsOf(ks[1..])
  }

  /** Sorted, duplicate-free stressor names, regions and sectors of S;
      every column label counts, whatever its values. */
  function BuildCatalog(S: StressorMatrix): (c: Catalog)
    ensures StrictlySorted(c.stressors) && NoDuplicates(c.stressors)
    ensures StrictlySorted(c.regions) && NoDuplicates(c.regions)
    ensures StrictlySorted(c.sectors) && NoDuplicates(c.sectors)
    ensures forall x :: x in c.stressors <==> x in S.rows
    ensures forall x :: x in c.regions <==> exists k :: k in S.cols && k.region == x
    ensures forall x :: x in c.sectors <==> exists k :: k in S.cols && k.sector == x
  {
    var c := Catalog(SortUnique(S.rows), SortUnique(RegionsOf(S.cols)), SortUnique(SectorsOf(S.cols)));
    StrictlySortedNoDuplicates(c.stressors);
    StrictlySortedNoDuplicates(c.regions);
    StrictlySortedNoDuplicates(c.sectors);
    c
  }
}
