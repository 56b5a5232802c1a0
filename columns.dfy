/**
 * The column list of the extractor's output table (CLIMBra_extration.py
 * lines 68-140): the columns each merged frame brings, the ones the CO2 join
 * and the derived columns add, the two renamings, and the final
 * `column_order` selection.
 */
module Columns {
  import Extraction

  /** The names the table's columns go by at some point of the run. */
  datatype Header =
    | City | Latitude | Longitude | Altitude | Date
    | Rss | RssMJ | Tasmax | Tasmin | Pr | SfcWind | Hur
    | YYYY | CO2year | CO2ppm | HuKPa | WindKmh | DD | MM | YYYYDDD
    | RssKJ | HurPercent

  /** The column's name as it appears in the CSV header. */
  function Name(h: Header): string {
    match h
    case City => "City"
    case Latitude => "Latitude"
    case Longitude => "Longitude"
    case Altitude => "Altitude"
    case Date => "Date"
    case Rss => "rss"
    case RssMJ => "rss_MJ/m2/d"
    case Tasmax => "tasmax"
    case Tasmin => "tasmin"
    case Pr => "pr"
    case SfcWind => "sfcWind"
    case Hur => "hur"
    case YYYY => "YYYY"
    case CO2year => "CO2year"
    case CO2ppm => "CO2ppm"
    case HuKPa => "hu_kPa"
    case WindKmh => "Wind_km/h"
    case DD => "DD"
    case MM => "MM"
    case YYYYDDD => "YYYYDDD"
    case RssKJ => "rss_kJ/m2d"
    case HurPercent => "hur_%"
  }

  predicate NoRepeats(cols: seq<Header>) {
    forall i, j :: 0 <= i < j < |cols| ==> cols[i] != cols[j]
  }

  // ---------------------------------------------------------------------------
  // pandas' column operations
  // ---------------------------------------------------------------------------

  /** `df[c] = ...`: a new column is appended; assigning to an existing one keeps its place. */
  function AddColumn(cols: seq<Header>, c: Header): seq<Header> {
    if c in cols then cols else cols + [c]
  }

  /** Assigning the columns `cs`, one after the other. */
  function AddColumns(cols: seq<Header>, cs: seq<Header>): seq<Header>
    decreases |cs|
  {
    if cs == [] then cols else AddColumns(AddColumn(cols, cs[0]), cs[1..])
  }

  /** Assigning new, distinct columns appends them in assignment order. */
  lemma {:induction false} AddColumnsFresh(cols: seq<Header>, cs: seq<Header>)
    requires NoRepeats(cs)
    requires forall c :: c in cs ==> c !in cols
    ensures AddColumns(cols, cs) == cols + cs
    decreases |cs|
  {
    if cs != [] {
      assert cs[0] !in cs[1..];
      AddColumnsFresh(cols + [cs[0]], cs[1..]);
      assert cols + [cs[0]] + cs[1..] == cols + cs;
    }
  }

  lemma {:induction false} AddColumnsConcat(cols: seq<Header>, a: seq<Header>, b: seq<Header>)
    ensures AddColumns(cols, a + b) == AddColumns(AddColumns(cols, a), b)
    decreases |a|
  {
    if a != [] {
      assert (a + b)[0] == a[0] && (a + b)[1..] == a[1..] + b;
      AddColumnsConcat(AddColumn(cols, a[0]), a[1..], b);
    } else {
      assert a + b == b;
    }
  }

  /** `drop(columns=[c])`: the column `c` removed, the others kept in order. */
  function DropColumn(cols: seq<Header>, c: Header): (rest: seq<Header>)
    ensures c !in rest
    ensures |rest| <= |cols|
  {
    if cols == [] then [] else (if cols[0] == c then [] else [cols[0]]) + DropColumn(cols[1..], c)
  }

  lemma {:induction false} DropColumnConcat(a: seq<Header>, b: seq<Header>, c: Header)
    ensures DropColumn(a + b, c) == DropColumn(a, c) + DropColumn(b, c)
    decreases |a|
  {
    if a != [] {
      assert (a + b)[1..] == a[1..] + b;
      DropColumnConcat(a[1..], b, c);
      assert DropColumn(a + b, c)
        == (if a[0] == c then [] else [a[0]]) + (DropColumn(a[1..], c) + DropColumn(b, c));
    } else {
      assert a + b == b;
    }
  }

  lemma {:induction false} DropColumnAbsent(cols: seq<Header>, c: Header)
    requires c !in cols
    ensures DropColumn(cols, c) == cols
    decreases |cols|
  {
    if cols != [] {
      DropColumnAbsent(cols[1..], c);
    }
  }

  /** `rename(columns={from: to})`: the column `from` renamed, every column in place. */
  function RenameColumn(cols: seq<Header>, from: Header, to: Header): (renamed: seq<Header>)
    ensures |renamed| == |cols|
    ensures forall i :: 0 <= i < |cols| ==> renamed[i] == if cols[i] == from then to else cols[i]
  {
    seq(|cols|, i requires 0 <= i < |cols| => if cols[i] == from then to else cols[i])
  }

  // ---------------------------------------------------------------------------
  // The columns of the run (lines 68-134)
  // ---------------------------------------------------------------------------

  /** The merge key's columns, which every frame starts with. */
  const KeyColumns: seq<Header> := [City, Latitude, Longitude, Altitude, Date]

  /** The columns a variable's frame adds to the table. */
  function VariableColumns(v: Extraction.Variable): seq<Header> {
    match v
    case Rss => [Rss, RssMJ]
    case Tasmax => [Tasmax]
    case Tasmin => [Tasmin]
    case Pr => [Pr]
    case SfcWind => [SfcWind]
    case Hur => [Hur]
  }

  /** The table's columns after merging the frames of `vs`, in order, into the first one. */
  function MergedColumns(vs: seq<Extraction.Variable>): seq<Header> {
    if vs == [] then KeyColumns else MergedColumns(vs[..|vs| - 1]) + VariableColumns(vs[|vs| - 1])
  }

  /** The columns after the CO2 join (lines 105-108), when all six variables and the CO2 table were read. */
  function ColumnsAfterJoin(): seq<Header> {
    DropColumn(AddColumn(MergedColumns(Extraction.Variables), YYYY) + [CO2year, CO2ppm], CO2year)
  }

  /** The columns after the derived ones are added (lines 121-132). */
  function ColumnsAfterDerivation(): seq<Header> {
    AddColumns(ColumnsAfterJoin(), [HuKPa, WindKmh, DD, MM, YYYY, YYYYDDD])
  }

  /** The columns just before line 136: radiation and humidity renamed (line 134). */
  function ColumnsBeforeOrdering(): seq<Header> {
    RenameColumn(RenameColumn(ColumnsAfterDerivation(), Rss, RssKJ), Hur, HurPercent)
  }

  // ---------------------------------------------------------------------------
  // column_order (lines 136-140)
  // ---------------------------------------------------------------------------

  const Leading: seq<Header> := [City, Latitude, Longitude, Altitude, DD, MM, YYYY]
  const Trailing: seq<Header> := [YYYYDDD, CO2ppm]

  /** The columns of `cols` that are neither leading nor trailing, in their order. */
  function Remaining(cols: seq<Header>): (rest: seq<Header>)
    ensures |rest| <= |cols|
  {
    if cols == [] then []
    else if cols[0] in Leading || cols[0] in Trailing then Remaining(cols[1..])
    else [cols[0]] + Remaining(cols[1..])
  }

  /** The `column_order` list: the leading columns, the remaining ones in table order, the trailing ones. */
  function ColumnOrder(cols: seq<Header>): (order: seq<Header>)
    ensures |order| == |Remaining(cols)| + 9
    ensures order[..7] == Leading && order[|order| - 2..] == Trailing
    ensures order[7..|order| - 2] == Remaining(cols)
  {
    Leading + Remaining(cols) + Trailing
  }

  lemma {:induction false} RemainingMembers(cols: seq<Header>)
    ensures forall c :: c in Remaining(cols) <==> c in cols && c !in Leading && c !in Trailing
    decreases |cols|
  {
    if cols != [] {
      RemainingMembers(cols[1..]);
      assert forall c :: c in cols <==> c == cols[0] || c in cols[1..];
    }
  }

  lemma {:induction false} RemainingConcat(a: seq<Header>, b: seq<Header>)
    ensures Remaining(a + b) == Remaining(a) + Remaining(b)
    decreases |a|
  {
    if a != [] {
      assert (a + b)[0] == a[0] && (a + b)[1..] == a[1..] + b;
      RemainingConcat(a[1..], b);
    } else {
      assert a + b == b;
    }
  }

  /** Columns none of which is leading or trailing are all kept, in order. */
  lemma {:induction false} RemainingAll(cols: seq<Header>)
    requires forall c :: c in cols ==> c !in Leading && c !in Trailing
    ensures Remaining(cols) == cols
    decreases |cols|
  {
    if cols != [] {
      assert cols[0] in cols;
      RemainingAll(cols[1..]);
    }
  }

  /** Leading and trailing columns are all left out. */
  lemma {:induction false} RemainingNone(cols: seq<Header>)
    requires forall c :: c in cols ==> c in Leading || c in Trailing
    ensures Remaining(cols) == []
    decreases |cols|
  {
    if cols != [] {
      assert cols[0] in cols;
      RemainingNone(cols[1..]);
    }
  }

  lemma {:induction false} RemainingNoRepeats(cols: seq<Header>)
    requires NoRepeats(cols)
    ensures NoRepeats(Remaining(cols))
    decreases |cols|
  {
    if cols != [] {
      RemainingNoRepeats(cols[1..]);
      RemainingMembers(cols[1..]);
      assert cols[0] !in cols[1..];
    }
  }

  /**
   * For columns without repeats the ordered list repeats none either, and when
   * every leading and trailing name is among the columns it holds exactly the
   * columns given: `df_final[column_order]` reorders and neither drops nor
   * duplicates.
   */
  lemma ColumnOrderPermutes(cols: seq<Header>)
    requires NoRepeats(cols)
    ensures NoRepeats(ColumnOrder(cols))
    ensures (forall c :: c in Leading || c in Trailing ==> c in cols) ==>
      forall c :: c in ColumnOrder(cols) <==> c in cols
  {
    RemainingNoRepeats(cols);
    RemainingMembers(cols);
    var order := ColumnOrder(cols);
    var rest := Remaining(cols);
    forall i, j | 0 <= i < j < |order| ensures order[i] != order[j] {
      if i < 7 && 7 <= j < 7 + |rest| {
        assert order[j] == rest[j - 7];
        assert order[j] in rest;
      } else if i < 7 + |rest| && j >= 7 + |rest| {
        if i >= 7 {
          assert order[i] == rest[i - 7];
          assert order[i] in rest;
        }
      } else if 7 <= i && j < 7 + |rest| {
        assert order[i] == rest[i - 7] && order[j] == rest[j - 7];
      }
    }
  }

  // ---------------------------------------------------------------------------
  // The output file's header
  // ---------------------------------------------------------------------------

  /** The header of the output file, in the field order of `OutRow`. */
  const OutColumns: seq<Header> := [
    City, Latitude, Longitude, Altitude, DD, MM, YYYY, Date,
    RssKJ, RssMJ, Tasmax, Tasmin, Pr, SfcWind, HurPercent,
    HuKPa, WindKmh, YYYYDDD, CO2ppm]

  const AllMerged: seq<Header> := KeyColumns + [Rss, RssMJ, Tasmax, Tasmin, Pr, SfcWind, Hur]

  lemma MergedColumnsOfVariables()
    ensures MergedColumns(Extraction.Variables) == AllMerged
  {
    var vs := Extraction.Variables;
    assert vs[..0] == [];
    assert vs[..1][..0] == vs[..0] && vs[..2][..1] == vs[..1] && vs[..3][..2] == vs[..2];
    assert vs[..4][..3] == vs[..3] && vs[..5][..4] == vs[..4] && vs[..5] == vs[..|vs| - 1];
    assert MergedColumns(vs[..1]) == KeyColumns + [Rss, RssMJ];
    assert MergedColumns(vs[..2]) == KeyColumns + [Rss, RssMJ, Tasmax];
    assert MergedColumns(vs[..3]) == KeyColumns + [Rss, RssMJ, Tasmax, Tasmin];
    assert MergedColumns(vs[..4]) == KeyColumns + [Rss, RssMJ, Tasmax, Tasmin, Pr];
    assert MergedColumns(vs[..5]) == KeyColumns + [Rss, RssMJ, Tasmax, Tasmin, Pr, SfcWind];
  }

  lemma JoinAddsYear()
    ensures AddColumn(MergedColumns(Extraction.Variables), YYYY) == AllMerged + [YYYY]
  {
    MergedColumnsOfVariables();
  }

  lemma JoinDropsCO2year()
    ensures DropColumn(AllMerged + [YYYY] + [CO2year, CO2ppm], CO2year) == AllMerged + [YYYY, CO2ppm]
  {
    var withYear := AllMerged + [YYYY];
    DropColumnConcat(withYear, [CO2year, CO2ppm], CO2year);
    DropColumnAbsent(withYear, CO2year);
    assert DropColumn([CO2year, CO2ppm], CO2year) == [CO2ppm] by {
      assert [CO2year, CO2ppm][1..] == [CO2ppm];
      assert [CO2ppm][1..] == [];
    }
  }

  /** The CO2 join adds YYYY and CO2ppm after the merged columns; CO2year is dropped again. */
  lemma ColumnsAfterJoinAre()
    ensures ColumnsAfterJoin() == AllMerged + [YYYY, CO2ppm]
  {
    JoinAddsYear();
    JoinDropsCO2year();
  }

  /** The derived columns come after them in the order they are assigned; YYYY, assigned again, stays where it was. */
  lemma ColumnsAfterDerivationAre()
    ensures ColumnsAfterDerivation() == AllMerged + [YYYY, CO2ppm, HuKPa, WindKmh, DD, MM, YYYYDDD]
  {
    ColumnsAfterJoinAre();
    DerivedColumns(ColumnsAfterJoin());
  }

  lemma DerivedColumns(c0: seq<Header>)
    requires c0 == AllMerged + [YYYY, CO2ppm]
    ensures AddColumns(c0, [HuKPa, WindKmh, DD, MM, YYYY, YYYYDDD]) == c0 + [HuKPa, WindKmh, DD, MM, YYYYDDD]
  {
    AddColumnsConcat(c0, [HuKPa, WindKmh, DD, MM], [YYYY, YYYYDDD]);
    assert [HuKPa, WindKmh, DD, MM] + [YYYY, YYYYDDD] == [HuKPa, WindKmh, DD, MM, YYYY, YYYYDDD];
    DerivedFresh(c0);
    DerivedDates(c0 + [HuKPa, WindKmh, DD, MM]);
  }

  lemma DerivedFresh(c0: seq<Header>)
    requires c0 == AllMerged + [YYYY, CO2ppm]
    ensures AddColumns(c0, [HuKPa, WindKmh, DD, MM]) == c0 + [HuKPa, WindKmh, DD, MM]
  {
    AddColumnsFresh(c0, [HuKPa, WindKmh, DD, MM]);
  }

  lemma DerivedDates(c4: seq<Header>)
    requires c4 == AllMerged + [YYYY, CO2ppm] + [HuKPa, WindKmh, DD, MM]
    ensures AddColumns(c4, [YYYY, YYYYDDD]) == c4 + [YYYYDDD]
  {
    assert c4[|AllMerged|] == YYYY;
    assert AddColumns(c4, [YYYY, YYYYDDD]) == AddColumns(c4, [YYYYDDD]) by {
      assert [YYYY, YYYYDDD][1..] == [YYYYDDD];
    }
    AddColumnsFresh(c4, [YYYYDDD]);
  }

  const BeforeOrdering: seq<Header> := [
    City, Latitude, Longitude, Altitude, Date,
    RssKJ, RssMJ, Tasmax, Tasmin, Pr, SfcWind, HurPercent,
    YYYY, CO2ppm, HuKPa, WindKmh, DD, MM, YYYYDDD]

  lemma ColumnsBeforeOrderingAre()
    ensures ColumnsBeforeOrdering() == BeforeOrdering
  {
    ColumnsAfterDerivationAre();
    Renamed(ColumnsAfterDerivation());
  }

  lemma Renamed(cols: seq<Header>)
    requires cols == AllMerged + [YYYY, CO2ppm, HuKPa, WindKmh, DD, MM, YYYYDDD]
    ensures RenameColumn(RenameColumn(cols, Rss, RssKJ), Hur, HurPercent) == BeforeOrdering
  {
  }

  lemma RemainingBeforeOrdering(cols: seq<Header>)
    requires cols == BeforeOrdering
    ensures Remaining(cols) == [Date, RssKJ, RssMJ, Tasmax, Tasmin, Pr, SfcWind, HurPercent, HuKPa, WindKmh]
  {
    var a, b, c, d, e := [City, Latitude, Longitude, Altitude],
      [Date, RssKJ, RssMJ, Tasmax, Tasmin, Pr, SfcWind, HurPercent],
      [YYYY, CO2ppm], [HuKPa, WindKmh], [DD, MM, YYYYDDD];
    assert cols == a + b + c + d + e;
    PlacedPartsRemaining(a, c, e);
    KeptPartsRemaining();
    RemainingOfParts(a, b, c, d, e);
  }

  lemma PlacedPartsRemaining(a: seq<Header>, c: seq<Header>, e: seq<Header>)
    requires a == [City, Latitude, Longitude, Altitude] && c == [YYYY, CO2ppm] && e == [DD, MM, YYYYDDD]
    ensures Remaining(a) == [] && Remaining(c) == [] && Remaining(e) == []
  {
    RemainingNone(a);
    RemainingNone(c);
    RemainingNone(e);
  }

  lemma KeptPartsRemaining()
    ensures Remaining([Date, RssKJ, RssMJ, Tasmax, Tasmin, Pr, SfcWind, HurPercent])
      == [Date, RssKJ, RssMJ, Tasmax, Tasmin, Pr, SfcWind, HurPercent]
    ensures Remaining([HuKPa, WindKmh]) == [HuKPa, WindKmh]
  {
    KeptMeasured([Date, RssKJ, RssMJ, Tasmax, Tasmin, Pr, SfcWind, HurPercent]);
    RemainingAll([HuKPa, WindKmh]);
  }

  lemma KeptMeasured(b: seq<Header>)
    requires b == [Date, RssKJ, RssMJ, Tasmax, Tasmin, Pr, SfcWind, HurPercent]
    ensures Remaining(b) == b
  {
    assert forall c :: c in b ==> c !in Leading && c !in Trailing;
    RemainingAll(b);
  }

  lemma RemainingOfParts(a: seq<Header>, b: seq<Header>, c: seq<Header>, d: seq<Header>, e: seq<Header>)
    requires Remaining(a) == [] && Remaining(c) == [] && Remaining(e) == []
    requires Remaining(b) == b && Remaining(d) == d
    ensures Remaining(a + b + c + d + e) == b + d
  {
    var ab, abc, abcd := a + b, a + b + c, a + b + c + d;
    RemainingConcat(a, b);
    assert Remaining(ab) == b;
    RemainingConcat(ab, c);
    assert Remaining(abc) == b;
    RemainingConcat(abc, d);
    RemainingConcat(abcd, e);
    assert Remaining(abcd + e) == b + d;
  }

  /**
   * The output file's columns: identity and day, month, year first, then the
   * date and the variables in merge order with the two derived columns, and
   * YYYYDDD and CO2ppm last; no column is repeated and none of the table's
   * columns is lost.
   */
  lemma OutputColumns()
    ensures ColumnOrder(ColumnsBeforeOrdering()) == OutColumns
    ensures NoRepeats(OutColumns)
    ensures forall c :: c in OutColumns <==> c in ColumnsBeforeOrdering()
  {
    ColumnsBeforeOrderingAre();
    var cols := ColumnsBeforeOrdering();
    OrderOfBeforeOrdering(cols);
    BeforeOrderingNoRepeats(cols);
    ColumnOrderPermutes(cols);
  }

  lemma OrderOfBeforeOrdering(cols: seq<Header>)
    requires cols == BeforeOrdering
    ensures ColumnOrder(cols) == OutColumns
    ensures forall c :: c in Leading || c in Trailing ==> c in cols
  {
    RemainingBeforeOrdering(cols);
    OrderFromRemaining(cols);
    LeadingTrailingPresent(cols);
  }

  lemma LeadingTrailingPresent(cols: seq<Header>)
    requires cols == BeforeOrdering
    ensures forall c :: c in Leading || c in Trailing ==> c in cols
  {
    assert cols[0] == City && cols[1] == Latitude && cols[2] == Longitude && cols[3] == Altitude;
    assert cols[16] == DD && cols[17] == MM && cols[12] == YYYY;
    assert cols[18] == YYYYDDD && cols[13] == CO2ppm;
  }

  lemma OrderFromRemaining(cols: seq<Header>)
    requires Remaining(cols) == [Date, RssKJ, RssMJ, Tasmax, Tasmin, Pr, SfcWind, HurPercent, HuKPa, WindKmh]
    ensures ColumnOrder(cols) == OutColumns
  {
  }

  /** The position of each column in the table just before the ordering (the others after them). */
  function Rank(h: Header): nat {
    match h
    case City => 0
    case Latitude => 1
    case Longitude => 2
    case Altitude => 3
    case Date => 4
    case RssKJ => 5
    case RssMJ => 6
    case Tasmax => 7
    case Tasmin => 8
    case Pr => 9
    case SfcWind => 10
    case HurPercent => 11
    case YYYY => 12
    case CO2ppm => 13
    case HuKPa => 14
    case WindKmh => 15
    case DD => 16
    case MM => 17
    case YYYYDDD => 18
    case Rss => 19
    case Hur => 20
    case CO2year => 21
  }

  lemma {:induction false} RanksIncreasing(cols: seq<Header>)
    requires forall i :: 0 <= i < |cols| - 1 ==> Rank(cols[i]) < Rank(cols[i + 1])
    ensures forall i, j :: 0 <= i < j < |cols| ==> Rank(cols[i]) < Rank(cols[j])
    decreases |cols|
  {
    if |cols| > 1 {
      RanksIncreasing(cols[1..]);
      forall j | 1 <= j < |cols| ensures Rank(cols[0]) < Rank(cols[j]) {
        assert cols[1..][j - 1] == cols[j];
        if j > 1 {
          assert cols[1..][0] == cols[1];
        }
      }
      forall i, j | 0 <= i < j < |cols| ensures Rank(cols[i]) < Rank(cols[j]) {
        if i > 0 {
          assert cols[1..][i - 1] == cols[i] && cols[1..][j - 1] == cols[j];
        }
      }
    }
  }

  lemma BeforeOrderingNoRepeats(cols: seq<Header>)
    requires cols == BeforeOrdering
    ensures NoRepeats(cols)
  {
    RanksIncreasing(cols);
  }
}
