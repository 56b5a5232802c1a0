/**
 * The SWAP weather-file writer (SWAP_station_gen.py): for each city of an
 * extractor output table, the city's rows with ten columns selected and
 * renamed, rounded, given a constant ETref column and a wet-day flag, and
 * labelled with a quoted station name, written to `<station><scenario>.met`.
 */
module Swap {
  import opened Wrappers
  import opened Text
  import opened Extraction
  import opened Grouping
  import Columns
  import Calendar

  // ---------------------------------------------------------------------------
  // Column selection and renaming (lines 26-37 and 66)
  // ---------------------------------------------------------------------------

  /** `column_mapping`: each extractor column kept, with its name in the `.met` file. */
  const ColumnMapping: seq<(Columns.Header, string)> := [
    (Columns.City, "station"), (Columns.DD, "DD"), (Columns.MM, "MM"), (Columns.YYYY, "YYYY"),
    (Columns.RssKJ, "Rad"), (Columns.Tasmin, "Tmin"), (Columns.Tasmax, "Tmax"),
    (Columns.HuKPa, "Hum"), (Columns.SfcWind, "Wind"), (Columns.Pr, "Rain")]

  /** The columns after selection and renaming, in the mapping's order. */
  const SelectedColumns: seq<string> := ["station", "DD", "MM", "YYYY", "Rad", "Tmin", "Tmax", "Hum", "Wind", "Rain"]

  /** The columns of a `.met` file. */
  const MetColumns: seq<string> := SelectedColumns + ["ETref", "Wet"]

  /** One value of a table. */
  datatype Cell = Text(text: string) | Whole(n: int) | Number(x: Option<real>) | Day(date: Calendar.CalendarDate)

  /** The value of column `h` in an extractor output row; None for a column the output does not have. */
  function OutCell(r: OutRow, h: Columns.Header): Option<Cell> {
    match h
    case City => Some(Text(r.city))
    case Latitude => Some(Number(Some(r.latitude)))
    case Longitude => Some(Number(Some(r.longitude)))
    case Altitude => Some(Number(Some(r.altitude)))
    case DD => Some(Whole(r.dd))
    case MM => Some(Whole(r.mm))
    case YYYY => Some(Whole(r.yyyy))
    case Date => Some(Day(r.date))
    case RssKJ => Some(Number(r.rssKJ))
    case RssMJ => Some(Number(r.rssMJ))
    case Tasmax => Some(Number(r.tasmax))
    case Tasmin => Some(Number(r.tasmin))
    case Pr => Some(Number(r.pr))
    case SfcWind => Some(Number(r.sfcWind))
    case HurPercent => Some(Number(r.hurPercent))
    case HuKPa => Some(Number(r.huKPa))
    case WindKmh => Some(Number(r.windKmh))
    case YYYYDDD => Some(Text(r.yyyyddd))
    case CO2ppm => Some(Number(r.co2ppm))
    case Rss => None
    case Hur => None
    case CO2year => None
  }

  /** A row of a `.met` table; `etref` and `wet` are None until their columns are added. */
  datatype MetRow = MetRow(
    station: string,
    dd: int,
    mm: int,
    yyyy: int,
    rad: Option<real>,
    tmin: Option<real>,
    tmax: Option<real>,
    hum: Option<real>,
    wind: Option<real>,
    rain: Option<real>,
    etref: Option<real>,
    wet: Option<real>)

  /** The value of the `.met` column named `name`, or None for a name the table does not have. */
  function MetCell(m: MetRow, name: string): Option<Cell> {
    if name == "station" then Some(Text(m.station))
    else if name == "DD" then Some(Whole(m.dd))
    else if name == "MM" then Some(Whole(m.mm))
    else if name == "YYYY" then Some(Whole(m.yyyy))
    else if name == "Rad" then Some(Number(m.rad))
    else if name == "Tmin" then Some(Number(m.tmin))
    else if name == "Tmax" then Some(Number(m.tmax))
    else if name == "Hum" then Some(Number(m.hum))
    else if name == "Wind" then Some(Number(m.wind))
    else if name == "Rain" then Some(Number(m.rain))
    else if name == "ETref" && m.etref.Some? then Some(Number(m.etref))
    else if name == "Wet" && m.wet.Some? then Some(Number(m.wet))
    else None
  }

  /** `city_data[list(column_mapping.keys())].rename(columns=column_mapping)` on one row. */
  function Select(r: OutRow): MetRow {
    MetRow(r.city, r.dd, r.mm, r.yyyy, r.rssKJ, r.tasmin, r.tasmax, r.huKPa, r.sfcWind, r.pr, None, None)
  }

  /**
   * Every column the mapping selects is a column of the extractor's output,
   * so the selection finds all ten; and the mapping's new names are the
   * selected columns, in order.
   */
  lemma MappingSources(m: seq<(Columns.Header, string)>)
    requires m == ColumnMapping
    ensures |m| == |SelectedColumns|
    ensures forall i :: 0 <= i < |m| ==> m[i].0 in Columns.OutColumns && m[i].1 == SelectedColumns[i]
  {
    forall i | 0 <= i < |m| ensures m[i].0 in Columns.OutColumns && m[i].1 == SelectedColumns[i] {
      assert m[i].0 in [Columns.City, Columns.DD, Columns.MM, Columns.YYYY, Columns.RssKJ,
        Columns.Tasmin, Columns.Tasmax, Columns.HuKPa, Columns.SfcWind, Columns.Pr];
    }
  }

  /**
   * Selection follows the mapping: the `.met` column of each new name holds
   * the extractor column it is mapped from — Rad the kJ radiation, Wind the
   * wind in m/s (not km/h), Hum the vapour pressure in kPa, and the dates
   * unchanged — and no ETref or Wet column exists yet.
   */
  lemma SelectFollowsMapping(r: OutRow)
    ensures forall i :: 0 <= i < |ColumnMapping| ==>
      MetCell(Select(r), ColumnMapping[i].1) == OutCell(r, ColumnMapping[i].0)
    ensures MetCell(Select(r), "ETref") == None && MetCell(Select(r), "Wet") == None
  {
    forall i | 0 <= i < |ColumnMapping|
      ensures MetCell(Select(r), ColumnMapping[i].1) == OutCell(r, ColumnMapping[i].0)
    {
      if i == 0 {
      } else if i == 1 {
      } else if i == 2 {
      } else if i == 3 {
      } else if i == 4 {
      } else if i == 5 {
      } else if i == 6 {
      } else if i == 7 {
      } else if i == 8 {
      } else {
      }
    }
  }

  /** The output row has a value in each of its header's columns, and in no other. */
  lemma OutCellsPresent(r: OutRow, h: Columns.Header)
    ensures OutCell(r, h).Some? <==> h in Columns.OutColumns
  {
  }

  // ---------------------------------------------------------------------------
  // Rounding (lines 69-74)
  // ---------------------------------------------------------------------------

  /** The integer nearest to `s`, a tie going to the even one (numpy's rounding). */
  function Nearest(s: real): (n: int)
    ensures -0.5 <= n as real - s <= 0.5
  {
    var k := s.Floor;
    var f := s - k as real;
    if f < 0.5 then k
    else if f > 0.5 then k + 1
    else if k % 2 == 0 then k else k + 1
  }

  /** Only a tie can be rounded either way, and it goes to the even neighbour. */
  lemma NearestTie(s: real)
    ensures Nearest(s) as real - s == 0.5 || Nearest(s) as real - s == -0.5 ==> Nearest(s) % 2 == 0
  {
  }

  lemma NearestWhole(n: int)
    ensures Nearest(n as real) == n
  {
  }

  /** The two precisions the file rounds to: one decimal, and three for Hum. */
  datatype Places = Tenths | Thousandths

  function Scale(p: Places): real {
    if p == Tenths then 10.0 else 1000.0
  }

  /** `Series.round(n)` on an exact value: the nearest multiple of 10^-n, a tie going to the even one. */
  function RoundTo(x: real, p: Places): real {
    Nearest(x * Scale(p)) as real / Scale(p)
  }

  /** The rounded value is a whole number of steps of 10^-n, at most half a step away. */
  lemma RoundToSpec(x: real, p: Places)
    ensures RoundTo(x, p) * Scale(p) == Nearest(x * Scale(p)) as real
    ensures -0.5 <= (RoundTo(x, p) - x) * Scale(p) <= 0.5
  {
  }

  /** Rounding a rounded value changes nothing. */
  lemma RoundToIdempotent(x: real, p: Places)
    ensures RoundTo(RoundTo(x, p), p) == RoundTo(x, p)
  {
    var n := Nearest(x * Scale(p));
    RoundToSpec(x, p);
    NearestWhole(n);
  }

  lemma RoundToExamples(a: real, b: real, c: real)
    requires a == 5.04 && b == 5.05 && c == 5.15
    ensures RoundTo(a, Tenths) == 5.0 && RoundTo(b, Tenths) == 5.0 && RoundTo(c, Tenths) == 5.2
  {
  }

  /** A missing value (NaN) stays missing. */
  function RoundCell(x: Option<real>, p: Places): (y: Option<real>)
    ensures y.Some? <==> x.Some?
  {
    match x
    case None => None
    case Some(v) => Some(RoundTo(v, p))
  }

  /** The columns rounded, with their number of decimals. */
  datatype Rounded = Rad | Tmin | Tmax | Rain | Wind | Hum

  function RoundField(m: MetRow, c: Rounded): MetRow {
    match c
    case Rad => m.(rad := RoundCell(m.rad, Tenths))
    case Tmin => m.(tmin := RoundCell(m.tmin, Tenths))
    case Tmax => m.(tmax := RoundCell(m.tmax, Tenths))
    case Rain => m.(rain := RoundCell(m.rain, Tenths))
    case Wind => m.(wind := RoundCell(m.wind, Tenths))
    case Hum => m.(hum := RoundCell(m.hum, Thousandths))
  }

  // ---------------------------------------------------------------------------
  // ETref and the wet-day flag (lines 40, 77 and 80-81)
  // ---------------------------------------------------------------------------

  const FixedETref: real := -999.0

  /** `(Rain > 5).astype(float).round(1)`: NaN compares false, so a missing rain gives 0.0. */
  function WetFlag(rain: Option<real>): real {
    RoundTo(if rain.Some? && rain.value > 5.0 then 1.0 else 0.0, Tenths)
  }

  /** The flag is 1.0 exactly when the rain is present and strictly above 5, and 0.0 otherwise. */
  lemma WetFlagSpec(rain: Option<real>)
    ensures WetFlag(rain) == 1.0 <==> rain.Some? && rain.value > 5.0
    ensures WetFlag(rain) == 0.0 <==> !(rain.Some? && rain.value > 5.0)
  {
    NearestWhole(10);
    NearestWhole(0);
  }

  lemma WetFlagBoundary()
    ensures WetFlag(Some(5.0)) == 0.0 && WetFlag(Some(5.1)) == 1.0 && WetFlag(None) == 0.0
  {
    WetFlagSpec(Some(5.0));
    WetFlagSpec(Some(5.1));
    WetFlagSpec(None);
  }

  /**
   * The flag is computed from the rain already rounded to tenths, so a raw
   * rain value counts as wet exactly when it is above 5.05 (5.05 itself
   * rounds down to 5.0, its even neighbour).
   */
  lemma WetFromRawRain(x: real)
    ensures WetFlag(RoundCell(Some(x), Tenths)) == 1.0 <==> x > 5.05
  {
    WetFlagSpec(RoundCell(Some(x), Tenths));
    RoundToSpec(x, Tenths);
    var n := Nearest(x * 10.0);
    NearestTie(x * 10.0);
    assert RoundTo(x, Tenths) * 10.0 == n as real;
    if x > 5.05 {
      assert n >= 51;
    } else {
      assert n <= 50;
    }
  }

  // ---------------------------------------------------------------------------
  // Station names and file names (lines 84-88)
  // ---------------------------------------------------------------------------

  /** `s.replace(" ", "")`: only the space character is removed. */
  function RemoveSpaces(s: string): (t: string)
    ensures ' ' !in t
    ensures |t| == |s| - Count(s, ' ')
  {
    if s == [] then ""
    else (if s[0] == ' ' then "" else [s[0]]) + RemoveSpaces(s[1..])
  }

  lemma {:induction false} RemoveSpacesConcat(a: string, b: string)
    ensures RemoveSpaces(a + b) == RemoveSpaces(a) + RemoveSpaces(b)
    decreases |a|
  {
    if a == [] {
      assert a + b == b;
    } else {
      assert (a + b)[1..] == a[1..] + b;
      RemoveSpacesConcat(a[1..], b);
    }
  }

  /** A name without spaces is left as it is. */
  lemma {:induction false} RemoveSpacesNone(s: string)
    requires ' ' !in s
    ensures RemoveSpaces(s) == s
    decreases |s|
  {
    if s != [] {
      RemoveSpacesNone(s[1..]);
    }
  }

  /** `city.replace(" ", "")[:6]`. */
  function StationName(city: string): string {
    var t := RemoveSpaces(city);
    if |t| <= 6 then t else t[..6]
  }

  /**
   * The station name holds no space, has at most six characters — six
   * exactly when the city has six or more non-space characters — and is a
   * prefix of the city's name with its spaces removed.
   */
  lemma StationNameSpec(city: string)
    ensures var t := RemoveSpaces(city);
      var name := StationName(city);
      && ' ' !in name
      && |name| == (if |t| <= 6 then |t| else 6)
      && name == t[..|name|]
  {
  }

  /** Two cities may share a station name, and so a file: "Campinas" and "Campina Grande". */
  lemma StationNamesCollide(a: string, b: string)
    requires a == "Campinas" && b == "Campina Grande"
    ensures StationName(a) == StationName(b)
  {
    RemoveSpacesNone(a);
    var x, y := b[..7], b[7..];
    assert x == a[..7] && ' ' !in x;
    assert b == x + y;
    RemoveSpacesConcat(x, y);
    RemoveSpacesNone(x);
  }

  /** The `station` value of every row of the file: `'<station><scenario>'`, quotes included. */
  function QuotedStation(name: string, scenario: string): string {
    "'" + name + scenario + "'"
  }

  /** The text between a pair of enclosing single quotes. */
  function Unquote(s: string): Option<string> {
    if |s| >= 2 && s[0] == '\'' && s[|s| - 1] == '\'' then Some(s[1..|s| - 1]) else None
  }

  /** The quoted station value unquotes to the station name followed by the scenario. */
  lemma QuotedStationSpec(name: string, scenario: string)
    ensures Unquote(QuotedStation(name, scenario)) == Some(name + scenario)
  {
    var q := QuotedStation(name, scenario);
    assert q[1..|q| - 1] == name + scenario;
  }

  function MetFileName(name: string, scenario: string): string {
    name + scenario + ".met"
  }

  /** The file name is the station name, the scenario and ".met"; it differs from the quoted value only by the quotes and extension. */
  lemma MetFileNameSpec(name: string, scenario: string)
    ensures var f := MetFileName(name, scenario);
      && |f| == |name| + |scenario| + 4
      && f[..|name| + |scenario|] == Unquote(QuotedStation(name, scenario)).value
      && f[|f| - 4..] == ".met"
  {
    QuotedStationSpec(name, scenario);
    var f := MetFileName(name, scenario);
    assert f[..|name| + |scenario|] == name + scenario;
  }

  // ---------------------------------------------------------------------------
  // One `.met` table (lines 66-85)
  // ---------------------------------------------------------------------------

  /** `df[name] = value` on the header: a new column goes last, an existing one keeps its place. */
  function AddName(columns: seq<string>, name: string): (cs: seq<string>)
    ensures name in cs
  {
    if name in columns then columns else columns + [name]
  }

  /** Lines 69-74: Rad, Tmin, Tmax, Rain and Wind rounded to tenths, then Hum to thousandths. */
  function RoundSelected(m: MetRow): MetRow {
    RoundField(RoundField(RoundField(RoundField(RoundField(RoundField(m, Rad), Tmin), Tmax), Rain), Wind), Hum)
  }

  /**
   * The row the shaping turns an extractor row into: the selected columns,
   * Rad, Tmin, Tmax, Rain and Wind rounded to tenths and Hum to thousandths,
   * ETref -999.0, the wet flag of the rounded rain, and the quoted station.
   */
  function Shape(r: OutRow, quoted: string): MetRow {
    WithFixedColumns(RoundSelected(Select(r)), quoted)
  }

  /** Lines 77-85 on one row: ETref -999.0, the wet flag of the row's rain, and the station value. */
  function WithFixedColumns(m: MetRow, quoted: string): MetRow {
    m.(etref := Some(FixedETref)).(wet := Some(WetFlag(m.rain))).(station := quoted)
  }

  /**
   * A shaped row keeps the date, carries the selected values rounded (a
   * missing value stays missing, a present one moves by at most half of its
   * last decimal), has ETref -999.0 and a wet flag of 1.0 exactly when the
   * rounded rain is above 5 (0.0 otherwise), and the given station value.
   */
  lemma ShapeSpec(r: OutRow, quoted: string)
    ensures var m := Shape(r, quoted);
      && m.station == quoted && m.dd == r.dd && m.mm == r.mm && m.yyyy == r.yyyy
      && m.rad == RoundCell(r.rssKJ, Tenths) && m.tmin == RoundCell(r.tasmin, Tenths) && m.tmax == RoundCell(r.tasmax, Tenths)
      && m.rain == RoundCell(r.pr, Tenths) && m.wind == RoundCell(r.sfcWind, Tenths) && m.hum == RoundCell(r.huKPa, Thousandths)
      && m.etref == Some(FixedETref)
      && (m.wet == Some(1.0) <==> m.rain.Some? && m.rain.value > 5.0)
      && (m.wet == Some(0.0) <==> !(m.rain.Some? && m.rain.value > 5.0))
    ensures var m := Shape(r, quoted);
      r.pr.Some? ==> (m.wet == Some(1.0) <==> r.pr.value > 5.05)
  {
    var m := Shape(r, quoted);
    WetFlagSpec(m.rain);
    if r.pr.Some? {
      WetFromRawRain(r.pr.value);
    }
  }

  /** Rounding a shaped row again changes nothing. */
  lemma ShapeRoundingSettled(r: OutRow, quoted: string, c: Rounded)
    ensures RoundField(Shape(r, quoted), c) == Shape(r, quoted)
  {
    var m := Shape(r, quoted);
    match c
    case Rad => if r.rssKJ.Some? { RoundToIdempotent(r.rssKJ.value, Tenths); }
    case Tmin => if r.tasmin.Some? { RoundToIdempotent(r.tasmin.value, Tenths); }
    case Tmax => if r.tasmax.Some? { RoundToIdempotent(r.tasmax.value, Tenths); }
    case Rain => if r.pr.Some? { RoundToIdempotent(r.pr.value, Tenths); }
    case Wind => if r.sfcWind.Some? { RoundToIdempotent(r.sfcWind.value, Tenths); }
    case Hum => if r.huKPa.Some? { RoundToIdempotent(r.huKPa.value, Thousandths); }
  }

  /** `met_data`: a header and the rows of one city, updated column by column in place. */
  class MetData {
    var columns: seq<string>
    const table: array<MetRow>

    /** A row has an ETref or Wet value exactly when the header has that column. */
    ghost predicate Valid()
      reads this, table
    {
      forall i :: 0 <= i < table.Length ==>
        && (table[i].etref.Some? <==> "ETref" in columns)
        && (table[i].wet.Some? <==> "Wet" in columns)
    }

    /** The selection and renaming of a city's rows. */
    constructor (group: seq<OutRow>)
      ensures columns == SelectedColumns
      ensures table.Length == |group| && forall i :: 0 <= i < |group| ==> table[i] == Select(group[i])
      ensures fresh(table)
      ensures Valid()
    {
      columns := SelectedColumns;
      table := new MetRow[|group|](i requires 0 <= i < |group| => Select(group[i]));
      new;
      assert "ETref" !in SelectedColumns && "Wet" !in SelectedColumns;
    }

    /** `met_data[c] = met_data[c].round(d)`. */
    method RoundColumn(c: Rounded)
      requires Valid()
      modifies table
      ensures Valid()
      ensures forall i :: 0 <= i < table.Length ==> table[i] == RoundField(old(table[i]), c)
    {
      for i := 0 to table.Length
        invariant forall j :: 0 <= j < i ==> table[j] == RoundField(old(table[j]), c)
        invariant forall j :: i <= j < table.Length ==> table[j] == old(table[j])
      {
        table[i] := RoundField(table[i], c);
      }
    }

    /** Lines 69-74: the six rounding statements, in the script's order. */
    method RoundSelectedColumns()
      requires Valid()
      modifies table
      ensures Valid()
      ensures forall i :: 0 <= i < table.Length ==> table[i] == RoundSelected(old(table[i]))
    {
      ghost var t0 := table[..];
      RoundColumn(Rad);
      ghost var t1 := table[..];
      RoundColumn(Tmin);
      ghost var t2 := table[..];
      RoundColumn(Tmax);
      ghost var t3 := table[..];
      RoundColumn(Rain);
      ghost var t4 := table[..];
      RoundColumn(Wind);
      ghost var t5 := table[..];
      RoundColumn(Hum);
      forall i | 0 <= i < table.Length ensures table[i] == RoundSelected(t0[i]) {
        assert t1[i] == RoundField(t0[i], Rad);
        assert t2[i] == RoundField(t1[i], Tmin);
        assert t3[i] == RoundField(t2[i], Tmax);
        assert t4[i] == RoundField(t3[i], Rain);
        assert t5[i] == RoundField(t4[i], Wind);
      }
    }

    /** Lines 77-85: the ETref, Wet and station assignments, in the script's order. */
    method SetFixedColumns(quoted: string)
      requires Valid()
      modifies this, table
      ensures Valid()
      ensures columns == AddName(AddName(AddName(old(columns), "ETref"), "Wet"), "station")
      ensures forall i :: 0 <= i < table.Length ==> table[i] == WithFixedColumns(old(table[i]), quoted)
    {
      ghost var t0 := table[..];
      SetETref();
      ghost var t1 := table[..];
      SetWet();
      ghost var t2 := table[..];
      SetStation(quoted);
      forall i | 0 <= i < table.Length ensures table[i] == WithFixedColumns(t0[i], quoted) {
        assert t1[i] == t0[i].(etref := Some(FixedETref));
        assert t2[i] == t1[i].(wet := Some(WetFlag(t1[i].rain)));
      }
    }

    /** `met_data['ETref'] = fixed_etref`. */
    method SetETref()
      requires Valid()
      modifies this, table
      ensures Valid()
      ensures columns == AddName(old(columns), "ETref")
      ensures forall i :: 0 <= i < table.Length ==> table[i] == old(table[i]).(etref := Some(FixedETref))
    {
      columns := AddName(columns, "ETref");
      for i := 0 to table.Length
        invariant columns == AddName(old(columns), "ETref")
        invariant forall j :: 0 <= j < i ==> table[j] == old(table[j]).(etref := Some(FixedETref))
        invariant forall j :: i <= j < table.Length ==> table[j] == old(table[j])
      {
        table[i] := table[i].(etref := Some(FixedETref));
      }
    }

    /** `met_data['Wet'] = (met_data['Rain'] > 5).astype(float).round(1)`. */
    method SetWet()
      requires Valid()
      modifies this, table
      ensures Valid()
      ensures columns == AddName(old(columns), "Wet")
      ensures forall i :: 0 <= i < table.Length ==> table[i] == old(table[i]).(wet := Some(WetFlag(old(table[i]).rain)))
    {
      columns := AddName(columns, "Wet");
      for i := 0 to table.Length
        invariant columns == AddName(old(columns), "Wet")
        invariant forall j :: 0 <= j < i ==> table[j] == old(table[j]).(wet := Some(WetFlag(old(table[j]).rain)))
        invariant forall j :: i <= j < table.Length ==> table[j] == old(table[j])
      {
        table[i] := table[i].(wet := Some(WetFlag(table[i].rain)));
      }
    }

    /** `met_data['station'] = quoted`: the column exists already and keeps its place. */
    method SetStation(quoted: string)
      requires Valid()
      modifies this, table
      ensures Valid()
      ensures columns == AddName(old(columns), "station")
      ensures forall i :: 0 <= i < table.Length ==> table[i] == old(table[i]).(station := quoted)
    {
      columns := AddName(columns, "station");
      for i := 0 to table.Length
        invariant columns == AddName(old(columns), "station")
        invariant forall j :: 0 <= j < i ==> table[j] == old(table[j]).(station := quoted)
        invariant forall j :: i <= j < table.Length ==> table[j] == old(table[j])
      {
        table[i] := table[i].(station := quoted);
      }
    }
  }

  lemma MetColumnsOfSteps()
    ensures AddName(AddName(AddName(SelectedColumns, "ETref"), "Wet"), "station") == MetColumns
  {
    assert "ETref" !in SelectedColumns;
    assert "Wet" !in SelectedColumns + ["ETref"];
    assert "station" in MetColumns;
  }

  /**
   * Lines 66-85 for one city: the table holds, in the group's order, each of
   * the city's rows shaped, under the header station, DD, MM, YYYY, Rad,
   * Tmin, Tmax, Hum, Wind, Rain, ETref, Wet.
   */
  method MetTable(group: seq<OutRow>, quoted: string) returns (met: MetData)
    ensures fresh(met) && fresh(met.table)
    ensures met.Valid()
    ensures met.columns == MetColumns
    ensures met.table[..] == seq(|group|, i requires 0 <= i < |group| => Shape(group[i], quoted))
  {
    met := new MetData(group);
    ghost var selected := met.table[..];
    met.RoundSelectedColumns();
    ghost var rounded := met.table[..];
    met.SetFixedColumns(quoted);
    MetColumnsOfSteps();
    forall i | 0 <= i < |group| ensures met.table[i] == Shape(group[i], quoted) {
      assert rounded[i] == RoundSelected(selected[i]);
    }
  }

  // ---------------------------------------------------------------------------
  // One file per city (lines 62-89)
  // ---------------------------------------------------------------------------

  datatype MetFile = MetFile(name: string, columns: seq<string>, rows: seq<MetRow>)

  /** The `.met` file of one city. */
  function CityMetFile(rows: seq<OutRow>, city: string, scenario: string): MetFile {
    var name := StationName(city);
    var group := CityRows(rows, city);
    MetFile(MetFileName(name, scenario), MetColumns,
      seq(|group|, i requires 0 <= i < |group| => Shape(group[i], QuotedStation(name, scenario))))
  }

  /** The files of a run, one per distinct city in order of first appearance. */
  function MetFiles(rows: seq<OutRow>, scenario: string): seq<MetFile> {
    var cities := UniqueCities(rows);
    seq(|cities|, i requires 0 <= i < |cities| => CityMetFile(rows, cities[i], scenario))
  }

  /** `csv_data[csv_data['City'] == city]`. */
  method FilterCity(rows: seq<OutRow>, city: string) returns (group: seq<OutRow>)
    ensures group == CityRows(rows, city)
  {
    group := [];
    for k := 0 to |rows|
      invariant group == CityRows(rows[..k], city)
    {
      CityRowsConcat(rows[..k], [rows[k]], city);
      assert rows[..k + 1] == rows[..k] + [rows[k]];
      group := group + (if rows[k].city == city then [rows[k]] else []);
    }
    assert rows[..|rows|] == rows;
  }

  /** The loop over `csv_data['City'].unique()`. */
  method MetRun(rows: seq<OutRow>, scenario: string) returns (files: seq<MetFile>)
    ensures files == MetFiles(rows, scenario)
  {
    var cities := UniqueCities(rows);
    files := [];
    for k := 0 to |cities|
      invariant files == seq(k, i requires 0 <= i < k => CityMetFile(rows, cities[i], scenario))
    {
      var city := cities[k];
      var group := FilterCity(rows, city);
      var name := StationName(city);
      var met := MetTable(group, QuotedStation(name, scenario));
      files := files + [MetFile(MetFileName(name, scenario), met.columns, met.table[..])];
    }
  }

  /** The sum of the files' row counts. */
  function TotalRows(files: seq<MetFile>): nat {
    if files == [] then 0 else |files[0].rows| + TotalRows(files[1..])
  }

  lemma {:induction false} TotalRowsOfCities(rows: seq<OutRow>, cities: seq<string>, scenario: string)
    ensures TotalRows(seq(|cities|, i requires 0 <= i < |cities| => CityMetFile(rows, cities[i], scenario)))
      == CountAll(rows, cities)
    decreases |cities|
  {
    if cities != [] {
      var fs := seq(|cities|, i requires 0 <= i < |cities| => CityMetFile(rows, cities[i], scenario));
      TotalRowsOfCities(rows, cities[1..], scenario);
      assert fs[1..] == seq(|cities[1..]|, i requires 0 <= i < |cities[1..]| => CityMetFile(rows, cities[1..][i], scenario));
      CityRowsSpec(rows, cities[0]);
    }
  }

  /**
   * A run writes one file per distinct city, in order of first appearance,
   * and between them the files hold every row of the table exactly once: a
   * city's file holds exactly that city's rows, in table order, shaped, each
   * under the same quoted station value, with ETref -999.0 and a wet flag of
   * 0.0 or 1.0.
   */
  lemma MetFilesSpec(rows: seq<OutRow>, scenario: string)
    ensures var files := MetFiles(rows, scenario);
      && |files| == |UniqueCities(rows)|
      && TotalRows(files) == |rows|
      && forall i :: 0 <= i < |files| ==>
           var city := UniqueCities(rows)[i];
           var quoted := QuotedStation(StationName(city), scenario);
           && files[i].name == MetFileName(StationName(city), scenario)
           && files[i].columns == MetColumns
           && |files[i].rows| == CountCity(rows, city) > 0
           && forall j :: 0 <= j < |files[i].rows| ==>
                && files[i].rows[j] == Shape(CityRows(rows, city)[j], quoted)
                && CityRows(rows, city)[j].city == city
                && files[i].rows[j].station == quoted
                && files[i].rows[j].etref == Some(FixedETref)
                && (files[i].rows[j].wet == Some(0.0) || files[i].rows[j].wet == Some(1.0))
  {
    var cities := UniqueCities(rows);
    var files := MetFiles(rows, scenario);
    UniqueCitiesSpec(rows);
    TotalRowsOfCities(rows, cities, scenario);
    GroupsCoverRows(rows);
    forall i | 0 <= i < |files|
      ensures |files[i].rows| == CountCity(rows, cities[i]) > 0
      ensures forall j :: 0 <= j < |files[i].rows| ==>
        && CityRows(rows, cities[i])[j].city == cities[i]
        && files[i].rows[j].station == QuotedStation(StationName(cities[i]), scenario)
        && files[i].rows[j].etref == Some(FixedETref)
        && (files[i].rows[j].wet == Some(0.0) || files[i].rows[j].wet == Some(1.0))
    {
      assert cities[i] in cities;
      CityRowsSpec(rows, cities[i]);
      var group := CityRows(rows, cities[i]);
      forall j | 0 <= j < |group|
        ensures group[j].city == cities[i]
        ensures (files[i].rows[j].wet == Some(0.0) || files[i].rows[j].wet == Some(1.0))
      {
        assert group[j] in group;
        ShapeSpec(group[j], QuotedStation(StationName(cities[i]), scenario));
      }
    }
  }
}
