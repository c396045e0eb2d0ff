/** The two labelled tables the system works on: the stressor-intensity
    matrix S (stressor names by producers) and the Leontief inverse L
    (producers by producers). A producer is a (region, sector) pair. */
module Tables {
  import opened Seqs

  /** A producer: one sector in one region. Components compare by exact
      string equality. */
  datatype Key = Key(region: string, sector: string)

  /** A labelled table. `cell` holds the defined values; a row/column pair
      without an entry is a missing (NaN) value. */
  datatype Table<R(==), C(==)> = Table(rows: seq<R>, cols: seq<C>, cell: map<(R, C), real>) {

    /** Labels are unique on both axes and every value sits at a labelled
        position. */
    predicate Valid() {
      && NoDuplicates(rows)
      && NoDuplicates(cols)
      && forall rc :: rc in cell ==> rc.0 in rows && rc.1 in cols
    }

    /** No missing value anywhere (pandas: `not df.isna().any().any()`). */
    predicate Complete() {
      forall r, c | r in rows && c in cols :: (r, c) in cell
    }

    /** No missing value in column `c`. */
    predicate ColumnComplete(c: C) {
      forall r | r in rows :: (r, c) in cell
    }
  }

  /** Stressor names by producers. */
  type StressorMatrix = Table<string, Key>

  /** Producers by producers. */
  type LeontiefMatrix = Table<Key, Key>
}
