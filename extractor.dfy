/**
 * One run of the extractor for a (model, scenario) pair
 * (CLIMBra_extration.py lines 53-140): per variable, the station loop that
 * builds its frame and the merge into the accumulated table; the CO2 join;
 * the corrections and the temperature interpolation applied in place; the
 * derived columns; and the output column order.
 */
module Extractor {
  import opened Wrappers
  import opened Text
  import opened Calendar
  import opened Extraction
  import opened Merging

  // ---------------------------------------------------------------------------
  // Linear interpolation, taken as given
  // ---------------------------------------------------------------------------

  /**
   * What the model relies on of pandas' `interpolate(method='linear')`: it
   * keeps the length of the column and every value that is present, and may
   * fill NaN cells.
   */
  ghost predicate Interpolates(fill: seq<Option<real>> -> seq<Option<real>>) {
    && (forall col: seq<Option<real>> :: |fill(col)| == |col|)
    && (forall col: seq<Option<real>>, i: int :: 0 <= i < |col| && col[i].Some? ==> i < |fill(col)| && fill(col)[i] == col[i])
  }

  function NoFill(col: seq<Option<real>>): seq<Option<real>> {
    col
  }

  type Interpolation = fill: seq<Option<real>> -> seq<Option<real>> | Interpolates(fill) witness NoFill

  // ---------------------------------------------------------------------------
  // One variable's frame: the station loop (lines 62-87)
  // ---------------------------------------------------------------------------

  function KJColumn(rows: seq<Row>): (col: seq<Option<real>>)
    ensures |col| == |rows|
  {
    seq(|rows|, i requires 0 <= i < |rows| => rows[i].rss)
  }

  function MJColumn(rows: seq<Row>): (col: seq<Option<real>>)
    ensures |col| == |rows|
  {
    seq(|rows|, i requires 0 <= i < |rows| => rows[i].rssMJ)
  }

  function Column(rows: seq<Row>, v: Variable): (col: seq<Option<real>>)
    ensures |col| == |rows|
  {
    seq(|rows|, i requires 0 <= i < |rows| => Get(rows[i], v))
  }

  /**
   * One station's frame after interpolation (lines 81-83): the variable's
   * column, and for radiation the MJ column as well, each interpolated along
   * the station's own series.
   */
  function InterpolatedStationFrame(v: Variable, s: Sampled, fill: Interpolation): (rows: seq<Row>)
    ensures |rows| == |s.series|
  {
    var raw := StationFrame(v, s);
    if v == Rss then
      var kj, mj := fill(KJColumn(raw)), fill(MJColumn(raw));
      seq(|raw|, i requires 0 <= i < |raw| => raw[i].(rss := kj[i], rssMJ := mj[i]))
    else
      var col := fill(Column(raw, v));
      seq(|raw|, i requires 0 <= i < |raw| => Put(raw[i], v, col[i]))
  }

  /**
   * `pd.concat(resultados_var)`: the stations' frames one after the other, in
   * station-table order (`ReadFrames` raises before concatenating no frame at all).
   */
  function VarFrame(v: Variable, sampled: seq<Sampled>, fill: Interpolation): seq<Row> {
    if sampled == [] then []
    else VarFrame(v, sampled[..|sampled| - 1], fill) + InterpolatedStationFrame(v, sampled[|sampled| - 1], fill)
  }

  /** The station loop: append each station's frame to the list, then concatenate. */
  method BuildVarFrame(v: Variable, sampled: seq<Sampled>, fill: Interpolation) returns (frame: seq<Row>)
    ensures frame == VarFrame(v, sampled, fill)
  {
    frame := [];
    for i := 0 to |sampled|
      invariant frame == VarFrame(v, sampled[..i], fill)
    {
      assert sampled[..i + 1][..i] == sampled[..i];
      frame := frame + InterpolatedStationFrame(v, sampled[i], fill);
    }
    assert sampled[..|sampled|] == sampled;
  }

  /**
   * A station frame has one row per time step with the station's key and the
   * step's date, in series order; no other variable's cell is filled; and
   * every value present in the series is kept — for radiation as the MJ copy,
   * with the kJ cell 1000 times it.
   */
  lemma StationFrameSpec(v: Variable, s: Sampled, fill: Interpolation)
    ensures forall i :: 0 <= i < |s.series| ==>
      && InterpolatedStationFrame(v, s, fill)[i].key
         == Key(s.station.name, s.station.lat, s.station.lon, s.station.alt, s.series[i].date)
      && (forall w :: w != v ==> Get(InterpolatedStationFrame(v, s, fill)[i], w) == None)
      && (s.series[i].value.Some? && v != Rss ==>
            Get(InterpolatedStationFrame(v, s, fill)[i], v) == s.series[i].value)
      && (s.series[i].value.Some? && v == Rss ==>
            && InterpolatedStationFrame(v, s, fill)[i].rssMJ == s.series[i].value
            && RadiationAgrees(InterpolatedStationFrame(v, s, fill)[i]))
  {
    var raw := StationFrame(v, s);
    forall i | 0 <= i < |s.series|
      ensures s.series[i].value.Some? && v == Rss ==>
        && InterpolatedStationFrame(v, s, fill)[i].rssMJ == s.series[i].value
        && RadiationAgrees(InterpolatedStationFrame(v, s, fill)[i])
      ensures s.series[i].value.Some? && v != Rss ==>
        Get(InterpolatedStationFrame(v, s, fill)[i], v) == s.series[i].value
    {
      if s.series[i].value.Some? {
        if v == Rss {
          assert KJColumn(raw)[i].Some? && MJColumn(raw)[i].Some?;
        } else {
          assert Column(raw, v)[i].Some?;
        }
      }
    }
  }

  /** The key of time step `i` of a sampled station. */
  function StepKey(s: Sampled, i: int): Key
    requires 0 <= i < |s.series|
  {
    Key(s.station.name, s.station.lat, s.station.lon, s.station.alt, s.series[i].date)
  }

  /**
   * The variable's frame has as many rows as the stations have time steps,
   * and each row carries the key (city, coordinates, altitude and date) of a
   * time step of one of the stations.
   */
  lemma {:induction false} VarFrameStations(v: Variable, sampled: seq<Sampled>, fill: Interpolation)
    ensures |VarFrame(v, sampled, fill)| == TotalSteps(sampled)
    ensures forall r :: r in VarFrame(v, sampled, fill) ==>
      exists s, i :: s in sampled && 0 <= i < |s.series| && r.key == StepKey(s, i)
    decreases |sampled|
  {
    if sampled != [] {
      var init, last := sampled[..|sampled| - 1], sampled[|sampled| - 1];
      VarFrameStations(v, init, fill);
      StationFrameSpec(v, last, fill);
      forall r | r in VarFrame(v, sampled, fill)
        ensures exists s, i :: s in sampled && 0 <= i < |s.series| && r.key == StepKey(s, i)
      {
        if r in VarFrame(v, init, fill) {
          var s, i :| s in init && 0 <= i < |s.series| && r.key == StepKey(s, i);
          assert s in sampled;
        } else {
          var j :| 0 <= j < |InterpolatedStationFrame(v, last, fill)| && InterpolatedStationFrame(v, last, fill)[j] == r;
          assert last in sampled && r.key == StepKey(last, j);
        }
      }
    }
  }

  function TotalSteps(sampled: seq<Sampled>): nat {
    if sampled == [] then 0 else TotalSteps(sampled[..|sampled| - 1]) + |sampled[|sampled| - 1].series|
  }

  // ---------------------------------------------------------------------------
  // The variable loop: merge each frame into the accumulated table (lines 89-102)
  // ---------------------------------------------------------------------------

  /** The accumulated table and the variables whose columns it has. */
  datatype Merged = Merged(table: seq<Row>, columns: set<Variable>)

  /**
   * One pass of the variable loop for a frame that was read: an empty table
   * is replaced by the frame (with its columns), otherwise the frame is merged
   * in and duplicates dropped.
   */
  function MergeInto(m: Merged, v: Variable, frame: seq<Row>): Merged {
    if |m.table| == 0 then Merged(frame, {v})
    else Merged(Merge(m.table, frame, v), m.columns + {v})
  }

  /** The variable loop over the variables `vs`, whose files held `frames` (None: the file was missing and is skipped). */
  function MergeAll(vs: seq<Variable>, frames: seq<Option<seq<Row>>>): Merged
    requires |vs| == |frames|
  {
    if vs == [] then Merged([], {})
    else
      var m := MergeAll(vs[..|vs| - 1], frames[..|frames| - 1]);
      match frames[|frames| - 1]
      case None => m
      case Some(f) => MergeInto(m, vs[|vs| - 1], f)
  }

  lemma DistinctIdempotent(ks: seq<Key>)
    ensures Distinct(Distinct(ks)) == Distinct(ks)
  {
    DistinctFromSpec(ks, {});
    DistinctFromUnique(Distinct(ks), {});
  }

  /**
   * Once the table has rows, merging keeps its keys: each later frame that is
   * read leaves the distinct keys of the table as they were, in first-appearance
   * order, and adds its column.
   */
  lemma {:induction false} MergeAllKeepsKeys(vs: seq<Variable>, frames: seq<Option<seq<Row>>>, n: nat)
    requires |vs| == |frames| && n <= |vs|
    requires |MergeAll(vs[..n], frames[..n]).table| > 0
    ensures |MergeAll(vs, frames).table| > 0
    ensures Distinct(Keys(MergeAll(vs, frames).table)) == Distinct(Keys(MergeAll(vs[..n], frames[..n]).table))
    ensures MergeAll(vs[..n], frames[..n]).columns <= MergeAll(vs, frames).columns
    decreases |vs| - n
  {
    if n == |vs| {
      assert vs[..n] == vs && frames[..n] == frames;
    } else {
      var last := |vs| - 1;
      var vs', fs' := vs[..last], frames[..last];
      assert vs'[..n] == vs[..n] && fs'[..n] == frames[..n];
      MergeAllKeepsKeys(vs', fs', n);
      PassKeepsKeys(vs, frames);
    }
  }

  /**
   * After at least one later merge (the frame `i` was read), every key of the
   * table occurs once, in first-appearance order.
   */
  lemma {:induction false} MergeAllSettlesKeys(vs: seq<Variable>, frames: seq<Option<seq<Row>>>, n: nat, i: nat)
    requires |vs| == |frames| && n <= i < |vs| && frames[i].Some?
    requires |MergeAll(vs[..n], frames[..n]).table| > 0
    ensures Keys(MergeAll(vs, frames).table) == Distinct(Keys(MergeAll(vs[..n], frames[..n]).table))
    decreases |vs| - n
  {
    var last := |vs| - 1;
    var vs', fs' := vs[..last], frames[..last];
    assert vs'[..n] == vs[..n] && fs'[..n] == frames[..n];
    if frames[last].Some? {
      MergeAllKeepsKeys(vs', fs', n);
      PassKeepsKeys(vs, frames);
    } else {
      assert fs'[i] == frames[i];
      MergeAllSettlesKeys(vs', fs', n, i);
      MergeAllSkip(vs, frames);
    }
  }

  /** A pass of the variable loop whose file was missing leaves the table as it was. */
  lemma MergeAllSkip(vs: seq<Variable>, frames: seq<Option<seq<Row>>>)
    requires |vs| == |frames| > 0 && frames[|vs| - 1].None?
    ensures MergeAll(vs, frames) == MergeAll(vs[..|vs| - 1], frames[..|vs| - 1])
  {
  }

  /** The last pass of the variable loop, when the last frame was read. */
  lemma MergeAllLast(vs: seq<Variable>, frames: seq<Option<seq<Row>>>)
    requires |vs| == |frames| > 0 && frames[|vs| - 1].Some?
    ensures MergeAll(vs, frames)
         == MergeInto(MergeAll(vs[..|vs| - 1], frames[..|vs| - 1]), vs[|vs| - 1], frames[|vs| - 1].value)
  {
  }

  /**
   * The last pass of the variable loop on a table with rows keeps its
   * distinct keys and its columns; when the last frame was read, each key is
   * then left once.
   */
  lemma PassKeepsKeys(vs: seq<Variable>, frames: seq<Option<seq<Row>>>)
    requires |vs| == |frames| > 0
    requires |MergeAll(vs[..|vs| - 1], frames[..|vs| - 1]).table| > 0
    ensures var m, m' := MergeAll(vs[..|vs| - 1], frames[..|vs| - 1]), MergeAll(vs, frames);
      && |m'.table| > 0
      && Distinct(Keys(m'.table)) == Distinct(Keys(m.table))
      && m.columns <= m'.columns
      && (frames[|vs| - 1].Some? ==> Keys(m'.table) == Distinct(Keys(m.table)))
  {
    var last := |vs| - 1;
    var m := MergeAll(vs[..last], frames[..last]);
    if frames[last].Some? {
      MergeAllLast(vs, frames);
      MergeIntoKeepsKeys(m, vs[last], frames[last].value);
    } else {
      MergeAllSkip(vs, frames);
    }
  }

  /** Merging a frame into a table with rows keeps the table's distinct keys, now each once, and its columns. */
  lemma MergeIntoKeepsKeys(m: Merged, v: Variable, f: seq<Row>)
    requires |m.table| > 0
    ensures |MergeInto(m, v, f).table| > 0
    ensures Keys(MergeInto(m, v, f).table) == Distinct(Keys(m.table))
    ensures Distinct(Keys(MergeInto(m, v, f).table)) == Distinct(Keys(m.table))
    ensures m.columns <= MergeInto(m, v, f).columns
  {
    MergeSpec(m.table, f, v);
    DistinctIdempotent(Keys(m.table));
    DistinctFromSpec(Keys(m.table), {});
    assert Keys(m.table)[0] in Keys(m.table);
  }

  /** The variable loop, reassigning the accumulated table as it goes. */
  method MergeVariables(frames: seq<Option<seq<Row>>>) returns (m: Merged)
    requires |frames| == |Variables|
    ensures m == MergeAll(Variables, frames)
  {
    m := Merged([], {});
    for i := 0 to |Variables|
      invariant m == MergeAll(Variables[..i], frames[..i])
    {
      assert Variables[..i + 1][..i] == Variables[..i] && frames[..i + 1][..i] == frames[..i];
      if frames[i].Some? {
        m := MergeInto(m, Variables[i], frames[i].value);
      }
    }
    assert Variables[..|Variables|] == Variables && frames[..|frames|] == frames;
  }

  // ---------------------------------------------------------------------------
  // Missing columns: where the script raises KeyError (lines 106-140)
  // ---------------------------------------------------------------------------

  /**
   * The column whose absence makes the script raise, in the order the lines
   * touch them, or None: 'Date' for the CO2 join on a table without columns,
   * then the six variables at the corrections, then 'CO2ppm' at the final
   * selection when no CO2 table was read.
   */
  function MissingColumn(columns: set<Variable>, hasCo2: bool): (missing: Option<string>)
    ensures missing.None? <==> hasCo2 && forall v :: v in columns
  {
    AllVariablesIn(columns);
    if hasCo2 && columns == {} then
      assert Hur !in columns;
      Some("Date")
    else if Hur !in columns then Some("hur")
    else if SfcWind !in columns then Some("sfcWind")
    else if Pr !in columns then Some("pr")
    else if Rss !in columns then Some("rss")
    else if Tasmin !in columns then Some("tasmin")
    else if Tasmax !in columns then Some("tasmax")
    else if !hasCo2 then Some("CO2ppm")
    else None
  }

  lemma AllVariablesIn(columns: set<Variable>)
    ensures (forall v :: v in columns) <==>
      (Rss in columns && Tasmax in columns && Tasmin in columns
        && Pr in columns && SfcWind in columns && Hur in columns)
  {
    if Rss in columns && Tasmax in columns && Tasmin in columns && Pr in columns && SfcWind in columns && Hur in columns {
      forall v ensures v in columns {
        match v
        case Rss => case Tasmax => case Tasmin => case Pr => case SfcWind => case Hur =>
      }
    }
  }

  // ---------------------------------------------------------------------------
  // Corrections and interpolation in place (lines 111-119)
  // ---------------------------------------------------------------------------

  function Corrected(rows: seq<Row>): (out: seq<Row>)
    ensures |out| == |rows|
  {
    seq(|rows|, i requires 0 <= i < |rows| => Correct(rows[i]))
  }

  /** The masked assignments of lines 111-118, row by row over the table. */
  method ApplyCorrections(a: array<Row>)
    modifies a
    ensures a[..] == Corrected(old(a[..]))
  {
    for i := 0 to a.Length
      invariant forall j :: 0 <= j < i ==> a[j] == Correct(old(a[j]))
      invariant forall j :: i <= j < a.Length ==> a[j] == old(a[j])
    {
      a[i] := Correct(a[i]);
    }
  }

  function TasminColumn(rows: seq<Row>): (col: seq<Option<real>>)
    ensures |col| == |rows|
  {
    seq(|rows|, i requires 0 <= i < |rows| => rows[i].tasmin)
  }

  function TasmaxColumn(rows: seq<Row>): (col: seq<Option<real>>)
    ensures |col| == |rows|
  {
    seq(|rows|, i requires 0 <= i < |rows| => rows[i].tasmax)
  }

  /** Line 119: both temperature columns interpolated over the whole table, each on its own. */
  function InterpolatedTemperatures(rows: seq<Row>, fill: Interpolation): (out: seq<Row>)
    ensures |out| == |rows|
  {
    var mins, maxs := fill(TasminColumn(rows)), fill(TasmaxColumn(rows));
    seq(|rows|, i requires 0 <= i < |rows| => rows[i].(tasmin := mins[i], tasmax := maxs[i]))
  }

  method InterpolateTemperatures(a: array<Row>, fill: Interpolation)
    modifies a
    ensures a[..] == InterpolatedTemperatures(old(a[..]), fill)
  {
    var mins, maxs := fill(TasminColumn(a[..])), fill(TasmaxColumn(a[..]));
    for i := 0 to a.Length
      invariant forall j :: 0 <= j < i ==> a[j] == old(a[j]).(tasmin := mins[j], tasmax := maxs[j])
      invariant forall j :: i <= j < a.Length ==> a[j] == old(a[j])
    {
      a[i] := a[i].(tasmin := mins[i], tasmax := maxs[i]);
    }
  }

  // ---------------------------------------------------------------------------
  // Derived columns (lines 121-134)
  // ---------------------------------------------------------------------------

  /** `f` applied to each element, in order. */
  function Map<A, B>(f: A -> B, xs: seq<A>): (ys: seq<B>)
    ensures |ys| == |xs|
    ensures forall i :: 0 <= i < |xs| ==> ys[i] == f(xs[i])
  {
    seq(|xs|, i requires 0 <= i < |xs| => f(xs[i]))
  }

  lemma MapSnoc<A, B>(f: A -> B, xs: seq<A>, i: nat)
    requires i < |xs|
    ensures Map(f, xs[..i + 1]) == Map(f, xs[..i]) + [f(xs[i])]
  {
    var longer, shorter := Map(f, xs[..i + 1]), Map(f, xs[..i]);
    forall j | 0 <= j < i ensures longer[j] == shorter[j] {
      assert xs[..i + 1][j] == xs[..i][j];
    }
  }

  function Derived(rows: seq<Row>, es: real -> real): (out: seq<OutRow>)
    ensures |out| == |rows|
  {
    Map(r => Derive(r, es), rows)
  }

  /** Adding the derived columns to every row of the table. */
  method DeriveColumns(a: array<Row>, es: real -> real) returns (out: seq<OutRow>)
    ensures out == Derived(a[..], es)
  {
    var rows := a[..];
    var derive := r => Derive(r, es);
    out := [];
    for i := 0 to |rows|
      invariant out == Map(derive, rows[..i])
    {
      MapSnoc(derive, rows, i);
      out := out + [derive(rows[i])];
    }
    assert rows[..|rows|] == rows;
  }

  /** The table the corrections start from: the merged table, joined with the CO2 table when there is one. */
  function Joined(m: Merged, co2: Option<seq<Co2Entry>>): seq<Row> {
    if co2.Some? then Co2Join(m.table, co2.value) else m.table
  }

  /** The rows of one output file, from the table the corrections start from. */
  function Output(rows: seq<Row>, fill: Interpolation, es: real -> real): seq<OutRow> {
    Derived(InterpolatedTemperatures(Corrected(rows), fill), es)
  }

  /**
   * Every output row is within the corrected bounds — relative humidity at
   * most 100, wind, rain and wind in km/h not negative, kJ radiation at least
   * 3 — with wind in km/h 3.6 times the corrected wind, a YYYYDDD code that
   * reads back as year * 1000 + day of year, and the key, MJ radiation and CO2
   * of its row; a row whose temperatures were not inverted keeps the ones it
   * had, since interpolation only fills missing cells.
   */
  lemma OutputSpec(rows: seq<Row>, fill: Interpolation, es: real -> real)
    ensures |Output(rows, fill, es)| == |rows|
    ensures forall i :: 0 <= i < |rows| ==>
      var o := Output(rows, fill, es)[i];
      && o.city == rows[i].key.city && o.date == rows[i].key.date
      && o.rssMJ == rows[i].rssMJ && o.co2ppm == rows[i].co2
      && (o.hurPercent.Some? ==> o.hurPercent.value <= 100.0)
      && (o.sfcWind.Some? ==> o.sfcWind.value >= 0.0)
      && (o.pr.Some? ==> o.pr.value >= 0.0)
      && (o.rssKJ.Some? ==> o.rssKJ.value >= 3.0)
      && (o.windKmh.Some? ==> o.windKmh.value >= 0.0 && o.windKmh.value == WindFactor * o.sfcWind.value)
      && AllDigits(o.yyyyddd) && Value(o.yyyyddd) == o.yyyy * 1000 + DayOfYear(o.date)
      && (!Inverted(rows[i]) && rows[i].tasmin.Some? ==> o.tasmin == rows[i].tasmin)
      && (!Inverted(rows[i]) && rows[i].tasmax.Some? ==> o.tasmax == rows[i].tasmax)
      && o.huKPa == VapourPressure(o.tasmax, o.tasmin, o.hurPercent, es)
  {
    var c := Corrected(rows);
    forall i | 0 <= i < |rows|
      ensures !Inverted(rows[i]) && rows[i].tasmin.Some? ==> fill(TasminColumn(c))[i] == rows[i].tasmin
      ensures !Inverted(rows[i]) && rows[i].tasmax.Some? ==> fill(TasmaxColumn(c))[i] == rows[i].tasmax
      ensures WithinBounds(c[i])
    {
      CorrectSpec(rows[i]);
    }
    var t := InterpolatedTemperatures(c, fill);
    forall i | 0 <= i < |rows| {
      DeriveSpec(t[i], es);
    }
  }

  /**
   * For a row as `OutputSpec` describes it — vapour pressure computed from the
   * row's own temperatures and humidity, humidity at most 100 — the vapour
   * pressure never exceeds the saturation pressure at the mean temperature
   * (where that is positive), and is negative exactly when the humidity is.
   */
  lemma RowVapourPressure(o: OutRow, es: real -> real)
    requires o.huKPa == VapourPressure(o.tasmax, o.tasmin, o.hurPercent, es)
    requires o.hurPercent.Some? ==> o.hurPercent.value <= 100.0
    ensures o.huKPa.Some? && es((o.tasmax.value + o.tasmin.value) / 2.0) > 0.0 ==>
      && o.huKPa.value <= es((o.tasmax.value + o.tasmin.value) / 2.0)
      && (o.huKPa.value < 0.0 <==> o.hurPercent.value < 0.0)
  {
    if o.huKPa.Some? && es((o.tasmax.value + o.tasmin.value) / 2.0) > 0.0 {
      VapourPressureBounds(o.tasmax, o.tasmin, o.hurPercent, es);
    }
  }

  /**
   * One run of the extractor for a (model, scenario) pair. `inputs` holds, per
   * variable in file order, the series sampled at each station, or None when
   * the variable's file is missing; `co2` is the scenario's CO2 table, or None
   * when it is missing. The run fails with pandas' ValueError message when a
   * variable's file exists but the station table is empty, else with the name
   * of the column whose absence raises KeyError; otherwise it yields the
   * output rows.
   */
  method Extract(inputs: seq<Option<seq<Sampled>>>, co2: Option<seq<Co2Entry>>, fill: Interpolation, es: real -> real)
    returns (result: Result<seq<OutRow>, string>)
    requires |inputs| == |Variables|
    ensures ConcatOfNothing(inputs) ==> result == Failure(NoObjects)
    ensures !ConcatOfNothing(inputs) ==> var m := MergeAll(Variables, Frames(inputs, fill));
      && (result.Failure? <==> MissingColumn(m.columns, co2.Some?).Some?)
      && (result.Failure? ==> result.error == MissingColumn(m.columns, co2.Some?).value)
      && (result.Success? ==> result.value == Output(Joined(m, co2), fill, es))
  {
    var read := ReadFrames(inputs, fill);
    if read.Failure? {
      return Failure(read.error);
    }
    var frames := read.value;
    var m := MergeVariables(frames);
    var missing := MissingColumn(m.columns, co2.Some?);
    if missing.Some? {
      return Failure(missing.value);
    }
    var out := Finish(Joined(m, co2), fill, es);
    return Success(out);
  }

  /**
   * `pd.concat` of an empty list raises ValueError, which the loop does not
   * catch: some variable's file exists while the station table is empty.
   */
  predicate ConcatOfNothing(inputs: seq<Option<seq<Sampled>>>) {
    exists i :: 0 <= i < |inputs| && NoStations(inputs[i])
  }

  /** A variable whose file exists, read for no station at all. */
  predicate NoStations(input: Option<seq<Sampled>>) {
    input.Some? && |input.value| == 0
  }

  /** The message of that ValueError. */
  const NoObjects: string := "No objects to concatenate"

  lemma StationsSoFar(inputs: seq<Option<seq<Sampled>>>, i: nat)
    requires i < |inputs| && !ConcatOfNothing(inputs[..i]) && !NoStations(inputs[i])
    ensures !ConcatOfNothing(inputs[..i + 1])
  {
    var prefix := inputs[..i + 1];
    forall j | 0 <= j < |prefix| ensures !NoStations(prefix[j]) {
      if j < i {
        assert prefix[j] == inputs[..i][j];
      }
    }
  }

  /**
   * The variable loop's reading half: each variable's frame built from its
   * stations, or None for a missing file; it stops with the ValueError at the
   * first existing file when there is no station.
   */
  method ReadFrames(inputs: seq<Option<seq<Sampled>>>, fill: Interpolation)
    returns (read: Result<seq<Option<seq<Row>>>, string>)
    requires |inputs| <= |Variables|
    ensures read.Failure? <==> ConcatOfNothing(inputs)
    ensures read.Failure? ==> read.error == NoObjects
    ensures read.Success? ==> read.value == Frames(inputs, fill)
  {
    var frames := [];
    for i := 0 to |inputs|
      invariant frames == Frames(inputs[..i], fill)
      invariant !ConcatOfNothing(inputs[..i])
    {
      if NoStations(inputs[i]) {
        return Failure(NoObjects);
      }
      StationsSoFar(inputs, i);
      assert inputs[..i + 1][..i] == inputs[..i];
      if inputs[i].Some? {
        var f := BuildVarFrame(Variables[i], inputs[i].value, fill);
        frames := frames + [Some(f)];
      } else {
        frames := frames + [None];
      }
    }
    assert inputs[..|inputs|] == inputs;
    return Success(frames);
  }

  /** Lines 111-134 on the joined table: corrections and interpolation in place, then the derived columns. */
  method Finish(rows: seq<Row>, fill: Interpolation, es: real -> real) returns (out: seq<OutRow>)
    ensures out == Output(rows, fill, es)
  {
    var a := new Row[|rows|](i requires 0 <= i < |rows| => rows[i]);
    assert a[..] == rows;
    ApplyCorrections(a);
    InterpolateTemperatures(a, fill);
    out := DeriveColumns(a, es);
  }

  /** The frames the variable loop reads: one per variable whose file is there. */
  function Frames(inputs: seq<Option<seq<Sampled>>>, fill: Interpolation): (frames: seq<Option<seq<Row>>>)
    requires |inputs| <= |Variables|
    ensures |frames| == |inputs|
    ensures forall i :: 0 <= i < |inputs| ==> (frames[i].Some? <==> inputs[i].Some?)
  {
    if inputs == [] then []
    else
      var n := |inputs| - 1;
      var init := Frames(inputs[..n], fill);
      var last := if inputs[n].Some? then Some(VarFrame(Variables[n], inputs[n].value, fill)) else None;
      FramesSnoc(inputs, init, last);
      init + [last]
  }

  lemma FramesSnoc(inputs: seq<Option<seq<Sampled>>>, init: seq<Option<seq<Row>>>, last: Option<seq<Row>>)
    requires |inputs| == |init| + 1 && (last.Some? <==> inputs[|init|].Some?)
    requires forall i :: 0 <= i < |init| ==> (init[i].Some? <==> inputs[..|init|][i].Some?)
    ensures forall i :: 0 <= i < |inputs| ==> ((init + [last])[i].Some? <==> inputs[i].Some?)
  {
    forall i | 0 <= i < |inputs| ensures (init + [last])[i].Some? <==> inputs[i].Some? {
      if i < |init| {
        assert inputs[..|init|][i] == inputs[i];
      }
    }
  }
}
