/**
 * The extractor's records and its row-wise rules (CLIMBra_extration.py):
 * building one station's frame for one variable, the four threshold
 * corrections, nulling an inverted temperature pair, and the derived columns
 * (vapour pressure, wind in km/h, day/month/year and the YYYYDDD code).
 */
module Extraction {
  import opened Wrappers
  import opened Text
  import opened Calendar

  /** The six gridded variables, in the order the extractor reads their files. */
  datatype Variable = Rss | Tasmax | Tasmin | Pr | SfcWind | Hur

  const Variables: seq<Variable> := [Rss, Tasmax, Tasmin, Pr, SfcWind, Hur]

  /** The column name a variable's values are stored under. */
  function ColumnName(v: Variable): string {
    match v
    case Rss => "rss"
    case Tasmax => "tasmax"
    case Tasmin => "tasmin"
    case Pr => "pr"
    case SfcWind => "sfcWind"
    case Hur => "hur"
  }

  /** One line of the station table: name, coordinates and elevation. */
  datatype Station = Station(name: string, lat: real, lon: real, alt: real)

  /** The merge key (City, Latitude, Longitude, Altitude, Date). */
  datatype Key = Key(city: string, lat: real, lon: real, alt: real, date: CalendarDate)

  /**
   * One row of the merged table. A cell is `None` when it holds NaN or when
   * the variable's column has not been merged in yet; `rss` is in kJ/m2/d and
   * `rssMJ` is the MJ/m2/d copy taken before the conversion.
   */
  datatype Row = Row(
    key: Key,
    rss: Option<real>,
    rssMJ: Option<real>,
    tasmax: Option<real>,
    tasmin: Option<real>,
    pr: Option<real>,
    sfcWind: Option<real>,
    hur: Option<real>,
    co2: Option<real>)

  /** One value of a station's series: the time stamp and the cell (None for NaN). */
  datatype Observation = Observation(date: CalendarDate, value: Option<real>)

  /** The series picked out of one variable's grid at one station. */
  datatype Sampled = Sampled(station: Station, series: seq<Observation>)

  /** MJ/m2/d to kJ/m2/d. */
  const RssFactor: real := 1000.0

  function Get(r: Row, v: Variable): Option<real> {
    match v
    case Rss => r.rss
    case Tasmax => r.tasmax
    case Tasmin => r.tasmin
    case Pr => r.pr
    case SfcWind => r.sfcWind
    case Hur => r.hur
  }

  /** The row with variable `v`'s cell set to `x` (for `Rss`, the kJ cell). */
  function Put(r: Row, v: Variable, x: Option<real>): (r': Row)
    ensures Get(r', v) == x
    ensures forall w :: w != v ==> Get(r', w) == Get(r, w)
    ensures r'.key == r.key && r'.rssMJ == r.rssMJ && r'.co2 == r.co2
  {
    match v
    case Rss => r.(rss := x)
    case Tasmax => r.(tasmax := x)
    case Tasmin => r.(tasmin := x)
    case Pr => r.(pr := x)
    case SfcWind => r.(sfcWind := x)
    case Hur => r.(hur := x)
  }

  function Scale(x: Option<real>, factor: real): Option<real> {
    if x.Some? then Some(x.value * factor) else None
  }

  /** A row whose radiation cells agree: both missing, or kJ = 1000 x MJ. */
  predicate RadiationAgrees(r: Row) {
    && (r.rss.Some? <==> r.rssMJ.Some?)
    && (r.rssMJ.Some? ==> r.rss.value == RssFactor * r.rssMJ.value)
  }

  /** A row that holds nothing but its key. */
  function KeyOnly(k: Key): Row {
    Row(k, None, None, None, None, None, None, None, None)
  }

  /**
   * One row of a station's frame for variable `v` (df_temp): the station's
   * identity, the date and the value; for radiation the value is kept as the
   * MJ copy and multiplied by 1000 into the kJ column.
   */
  function SampleRow(v: Variable, st: Station, o: Observation): (r: Row)
    ensures r.key == Key(st.name, st.lat, st.lon, st.alt, o.date)
    ensures v != Rss ==> Get(r, v) == o.value && r.rssMJ == None
    ensures v == Rss ==> r.rssMJ == o.value && RadiationAgrees(r)
    ensures forall w :: w != v ==> Get(r, w) == None
    ensures r.co2 == None
  {
    var blank := KeyOnly(Key(st.name, st.lat, st.lon, st.alt, o.date));
    if v == Rss then blank.(rssMJ := o.value, rss := Scale(o.value, RssFactor))
    else Put(blank, v, o.value)
  }

  /** The frame of one station for one variable, one row per time step in series order. */
  function StationFrame(v: Variable, s: Sampled): (rows: seq<Row>)
    ensures |rows| == |s.series|
    ensures forall i :: 0 <= i < |rows| ==> rows[i] == SampleRow(v, s.station, s.series[i])
  {
    seq(|s.series|, i requires 0 <= i < |s.series| => SampleRow(v, s.station, s.series[i]))
  }

  // ---------------------------------------------------------------------------
  // Corrections (lines 111-118)
  // ---------------------------------------------------------------------------

  /** Relative humidity above 100 % becomes 99.9; exactly 100, lower values and NaN stay. */
  function ClampHumidity(x: Option<real>): (y: Option<real>)
    ensures y.Some? <==> x.Some?
    ensures y.Some? ==> y.value <= 100.0
    ensures x.Some? && x.value > 100.0 ==> y == Some(99.9)
    ensures x.Some? && x.value <= 100.0 ==> y == x
  {
    if x.Some? && x.value > 100.0 then Some(99.9) else x
  }

  /** A negative wind speed becomes 0.5 m/s; others stay. */
  function ClampWind(x: Option<real>): (y: Option<real>)
    ensures y.Some? <==> x.Some?
    ensures y.Some? ==> y.value >= 0.0
    ensures x.Some? && x.value < 0.0 ==> y == Some(0.5)
    ensures x.Some? && x.value >= 0.0 ==> y == x
  {
    if x.Some? && x.value < 0.0 then Some(0.5) else x
  }

  /** A negative precipitation becomes 0; others stay. */
  function ClampRain(x: Option<real>): (y: Option<real>)
    ensures y.Some? <==> x.Some?
    ensures y.Some? ==> y.value >= 0.0
    ensures x.Some? && x.value < 0.0 ==> y == Some(0.0)
    ensures x.Some? && x.value >= 0.0 ==> y == x
  {
    if x.Some? && x.value < 0.0 then Some(0.0) else x
  }

  /** Radiation (the kJ column) below 3 becomes 3; others stay. */
  function ClampRadiation(x: Option<real>): (y: Option<real>)
    ensures y.Some? <==> x.Some?
    ensures y.Some? ==> y.value >= 3.0
    ensures x.Some? && x.value < 3.0 ==> y == Some(3.0)
    ensures x.Some? && x.value >= 3.0 ==> y == x
  {
    if x.Some? && x.value < 3.0 then Some(3.0) else x
  }

  /** Both temperatures present with the minimum above the maximum (NaN compares false). */
  predicate Inverted(r: Row) {
    r.tasmin.Some? && r.tasmax.Some? && r.tasmin.value > r.tasmax.value
  }

  /** An inverted pair has both temperatures set to NaN; every other row is left alone. */
  function NullInverted(r: Row): (r': Row)
    ensures Inverted(r) ==> r'.tasmin == None && r'.tasmax == None
    ensures !Inverted(r) ==> r' == r
    ensures r'.(tasmin := r.tasmin, tasmax := r.tasmax) == r
    ensures !Inverted(r')
  {
    if Inverted(r) then r.(tasmin := None, tasmax := None) else r
  }

  /** The four clamps, then the temperature-pair check, as lines 111-118 apply them. */
  function Correct(r: Row): Row {
    NullInverted(r.(
      hur := ClampHumidity(r.hur),
      sfcWind := ClampWind(r.sfcWind),
      pr := ClampRain(r.pr),
      rss := ClampRadiation(r.rss)))
  }

  /** The bounds a corrected row keeps. */
  predicate WithinBounds(r: Row) {
    && (r.hur.Some? ==> r.hur.value <= 100.0)
    && (r.sfcWind.Some? ==> r.sfcWind.value >= 0.0)
    && (r.pr.Some? ==> r.pr.value >= 0.0)
    && (r.rss.Some? ==> r.rss.value >= 3.0)
    && !Inverted(r)
  }

  /**
   * A corrected row is within bounds; it has the same key, MJ radiation, CO2
   * and set of present humidity, wind, rain and radiation cells; its
   * temperatures are unchanged unless the pair was inverted, in which case
   * both are missing.
   */
  lemma CorrectSpec(r: Row)
    ensures WithinBounds(Correct(r))
    ensures Correct(r).key == r.key && Correct(r).rssMJ == r.rssMJ && Correct(r).co2 == r.co2
    ensures Correct(r).hur == ClampHumidity(r.hur) && Correct(r).sfcWind == ClampWind(r.sfcWind)
    ensures Correct(r).pr == ClampRain(r.pr) && Correct(r).rss == ClampRadiation(r.rss)
    ensures Inverted(r) ==> Correct(r).tasmin == None && Correct(r).tasmax == None
    ensures !Inverted(r) ==> Correct(r).tasmin == r.tasmin && Correct(r).tasmax == r.tasmax
  {
  }

  /** Correcting twice changes nothing more: the corrections are idempotent. */
  lemma CorrectIdempotent(r: Row)
    ensures Correct(Correct(r)) == Correct(r)
  {
    CorrectSpec(r);
  }

  /** A row already within bounds is left exactly as it is. */
  lemma CorrectKeepsValidRow(r: Row)
    requires WithinBounds(r)
    ensures Correct(r) == r
  {
  }

  /**
   * The radiation clamp acts on the kJ column only: a row whose cells agree
   * still agrees after correction exactly when its MJ value is missing or at
   * least 0.003 (3 kJ); below that the kJ cell is raised to 3 and the MJ copy
   * keeps the original value.
   */
  lemma CorrectRadiationAgreement(r: Row)
    requires RadiationAgrees(r)
    ensures Correct(r).rssMJ == r.rssMJ
    ensures RadiationAgrees(Correct(r)) <==> (r.rssMJ.None? || r.rssMJ.value >= 0.003)
  {
  }

  // ---------------------------------------------------------------------------
  // Derived columns (lines 121-134)
  // ---------------------------------------------------------------------------

  /** One row of the extractor's output file, its fields in the file's column order. */
  datatype OutRow = OutRow(
    city: string,
    latitude: real,
    longitude: real,
    altitude: real,
    dd: int,
    mm: int,
    yyyy: int,
    date: CalendarDate,
    rssKJ: Option<real>,
    rssMJ: Option<real>,
    tasmax: Option<real>,
    tasmin: Option<real>,
    pr: Option<real>,
    sfcWind: Option<real>,
    hurPercent: Option<real>,
    huKPa: Option<real>,
    windKmh: Option<real>,
    yyyyddd: string,
    co2ppm: Option<real>)

  /**
   * An output row as the station writers read it back: its YYYYDDD cell is a
   * digit string, which `int(...)` reads as a number.
   */
  type ExtractedRow = o: OutRow | AllDigits(o.yyyyddd)
    witness OutRow("", 0.0, 0.0, 0.0, 1, 1, 2000, Date(2000, 1, 1),
      None, None, None, None, None, None, None, None, None, "2000001", None)

  /** m/s to km/h. */
  const WindFactor: real := 3.6

  /**
   * Actual vapour pressure: relative humidity as a fraction times the
   * saturation pressure `es` at the mean of the two temperatures; NaN when
   * any of the three inputs is NaN.
   */
  function VapourPressure(tasmax: Option<real>, tasmin: Option<real>, hur: Option<real>, es: real -> real): (e: Option<real>)
    ensures e.Some? <==> tasmax.Some? && tasmin.Some? && hur.Some?
    ensures e.Some? ==> e.value == hur.value / 100.0 * es((tasmax.value + tasmin.value) / 2.0)
  {
    if tasmax.Some? && tasmin.Some? && hur.Some? then
      Some(hur.value / 100.0 * es((tasmax.value + tasmin.value) / 2.0))
    else None
  }

  /**
   * Where the saturation pressure at the mean temperature is positive, a
   * relative humidity between 0 and 100 gives a vapour pressure between 0 and
   * that saturation pressure, a humidity of at most 100 never exceeds it, and
   * a negative humidity gives a negative vapour pressure.
   */
  lemma VapourPressureBounds(tasmax: Option<real>, tasmin: Option<real>, hur: Option<real>, es: real -> real)
    requires tasmax.Some? && tasmin.Some? && hur.Some?
    requires es((tasmax.value + tasmin.value) / 2.0) > 0.0
    ensures var e, sat := VapourPressure(tasmax, tasmin, hur, es).value, es((tasmax.value + tasmin.value) / 2.0);
      && (hur.value <= 100.0 ==> e <= sat)
      && (0.0 <= hur.value ==> 0.0 <= e)
      && (hur.value < 0.0 ==> e < 0.0)
      && (e == sat <==> hur.value == 100.0)
  {
    var sat := es((tasmax.value + tasmin.value) / 2.0);
    HumidityScaled(hur.value, sat, VapourPressure(tasmax, tasmin, hur, es).value);
  }

  lemma HumidityScaled(h: real, sat: real, e: real)
    requires sat > 0.0 && e == h / 100.0 * sat
    ensures h <= 100.0 ==> e <= sat
    ensures 0.0 <= h ==> 0.0 <= e
    ensures h < 0.0 ==> e < 0.0
    ensures e == sat <==> h == 100.0
  {
    var f := h / 100.0;
    assert (f <= 1.0 <==> h <= 100.0) && (f == 1.0 <==> h == 100.0);
    assert (0.0 <= f <==> 0.0 <= h) && (f < 0.0 <==> h < 0.0);
    if f * sat == sat {
      assert (f - 1.0) * sat == 0.0;
    }
  }

  /**
   * The output row of a corrected row: the identity and date split into day,
   * month, year and YYYYDDD; radiation and humidity renamed; vapour pressure
   * and wind in km/h derived.
   */
  function Derive(r: Row, es: real -> real): OutRow {
    var d := r.key.date;
    OutRow(
      r.key.city, r.key.lat, r.key.lon, r.key.alt,
      d.day, d.month, d.year, d,
      r.rss, r.rssMJ, r.tasmax, r.tasmin, r.pr, r.sfcWind, r.hur,
      VapourPressure(r.tasmax, r.tasmin, r.hur, es),
      Scale(r.sfcWind, WindFactor),
      YearDayCode(d),
      r.co2)
  }

  /**
   * The output row keeps the row's identity, date and measured columns; its
   * YYYYDDD code is all digits and reads back as year * 1000 + day of year
   * (seven digits up to year 9999); wind in km/h is 3.6 times the wind in m/s,
   * and the vapour pressure is NaN exactly when one of its inputs is.
   */
  lemma DeriveSpec(r: Row, es: real -> real)
    ensures var o := Derive(r, es);
      && o.city == r.key.city && o.latitude == r.key.lat && o.longitude == r.key.lon && o.altitude == r.key.alt
      && o.date == r.key.date
      && o.dd == r.key.date.day && o.mm == r.key.date.month && o.yyyy == r.key.date.year
      && AllDigits(o.yyyyddd) && Value(o.yyyyddd) == o.yyyy * 1000 + DayOfYear(o.date)
      && (o.yyyy <= 9999 ==> |o.yyyyddd| == 7)
      && o.rssKJ == r.rss && o.rssMJ == r.rssMJ && o.hurPercent == r.hur
      && o.tasmax == r.tasmax && o.tasmin == r.tasmin && o.pr == r.pr && o.sfcWind == r.sfcWind
      && o.co2ppm == r.co2
      && (o.windKmh.Some? <==> r.sfcWind.Some?)
      && (o.windKmh.Some? ==> o.windKmh.value == WindFactor * r.sfcWind.value)
      && o.huKPa == VapourPressure(r.tasmax, r.tasmin, r.hur, es)
  {
    var d := r.key.date;
    YearDayCodeValue(d);
    if d.year <= 9999 {
      YearDayCodeFields(d);
    }
  }

  /** After correction, wind in km/h is never negative and is 3.6 times the corrected m/s value. */
  lemma CorrectedWind(r: Row, es: real -> real)
    ensures Derive(Correct(r), es).windKmh.Some? <==> r.sfcWind.Some?
    ensures Derive(Correct(r), es).windKmh.Some? ==>
      && Derive(Correct(r), es).windKmh.value >= 0.0
      && Derive(Correct(r), es).windKmh.value == WindFactor * ClampWind(r.sfcWind).value
    ensures r.sfcWind.Some? && r.sfcWind.value < 0.0 ==> Derive(Correct(r), es).windKmh == Some(1.8)
  {
    CorrectSpec(r);
    DeriveSpec(Correct(r), es);
  }
}
