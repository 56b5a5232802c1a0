/**
 * The DSSAT weather-file writer (DSSAT_station_gen.py): the station
 * identifier INSI built from the city name, the `.WTH` file name, and the
 * file's text — four header lines and one fixed-width line per day, joined by
 * newlines — for each city of an extractor output table.
 */
module Dssat {
  import opened Wrappers
  import opened Text
  import opened Extraction
  import opened Grouping

  // ---------------------------------------------------------------------------
  // The station identifier (lines 9-13)
  // ---------------------------------------------------------------------------

  /** At most the first three characters of `s` (`s[:3]`). */
  function Head3(s: string): (h: string)
    ensures |h| <= 3 && |h| <= |s| && h == s[..|h|]
    ensures |s| >= 3 ==> |h| == 3
    ensures |s| < 3 ==> h == s
  {
    if |s| < 3 then s else s[..3]
  }

  /**
   * `gerar_insi`: "BR", then, for a name of two or more words, the first
   * letter of the first word and the first two of the second, otherwise the
   * first three characters of the name, all upper-cased. A second word of a
   * single character makes `partes[1][1]` raise IndexError.
   */
  function Insi(city: string): Result<string, string> {
    var parts := Words(city);
    WordsWellFormed(city);
    if |parts| > 1 then
      if |parts[1]| < 2 then Failure("IndexError")
      else Success(Upper("BR" + [parts[0][0], parts[1][0], parts[1][1]]))
    else Success(Upper("BR" + Head3(city)))
  }

  lemma UpperBR(t: string)
    ensures Upper("BR" + t) == "BR" + Upper(t)
  {
    UpperConcat("BR", t);
    UpperFixed("BR");
  }

  /**
   * The identifier's cases: for two or more words it fails exactly when the
   * second word has one character, and is otherwise "BR" and the three
   * letters upper-cased; for one word or none it is "BR" and the name's
   * first three characters (leading whitespace included) upper-cased.
   */
  lemma InsiSpec(city: string)
    ensures var ws := Words(city);
      |ws| > 1 ==> (Insi(city).Failure? <==> |ws[1]| < 2)
    ensures var ws := Words(city);
      |ws| > 1 && |ws[0]| >= 1 && |ws[1]| >= 2 ==> Insi(city) == Success("BR" + Upper([ws[0][0], ws[1][0], ws[1][1]]))
    ensures |Words(city)| <= 1 ==> Insi(city) == Success("BR" + Upper(Head3(city)))
  {
    var ws := Words(city);
    WordsWellFormed(city);
    if |ws| > 1 && |ws[1]| >= 2 {
      UpperBR([ws[0][0], ws[1][0], ws[1][1]]);
    }
    UpperBR(Head3(city));
  }

  /**
   * Every identifier starts with "BR"; for a name without the one Latin-1
   * letter whose capital is two letters (the sharp s), it has at most five
   * characters, and exactly five for a name of two or more words.
   */
  lemma InsiLength(city: string)
    ensures Insi(city).Success? ==> |Insi(city).value| >= 2 && Insi(city).value[..2] == "BR"
    ensures '\U{00DF}' !in city && Insi(city).Success? ==> |Insi(city).value| <= 5
    ensures '\U{00DF}' !in city && Insi(city).Success? && |Words(city)| > 1 ==> |Insi(city).value| == 5
  {
    InsiSpec(city);
    var ws := Words(city);
    WordsWellFormed(city);
    if '\U{00DF}' !in city {
      WordsChars(city);
      if |ws| > 1 && |ws[1]| >= 2 {
        var t := [ws[0][0], ws[1][0], ws[1][1]];
        assert ws[0][0] in city && ws[1][0] in city && ws[1][1] in city;
        UpperLength(t);
      }
      UpperLength(Head3(city));
    }
  }

  lemma Upper3(a: char, b: char, c: char)
    ensures Upper([a, b, c]) == UpperChar(a) + UpperChar(b) + UpperChar(c)
  {
    assert [c][1..] == [];
    assert Upper([c]) == UpperChar(c) + Upper([]);
    assert [b, c][1..] == [c];
    assert Upper([b, c]) == UpperChar(b) + Upper([c]);
    assert [a, b, c][1..] == [b, c];
    assert Upper([a, b, c]) == UpperChar(a) + Upper([b, c]);
  }

  /** A one-word name keeps its first three letters: "Piracicaba" gives "BRPIR". */
  lemma InsiOneWord(city: string)
    requires city == "Piracicaba"
    ensures Insi(city) == Success("BRPIR")
  {
    WordThen(city, "");
    assert city + "" == city;
    assert Head3(city) == ['P', 'i', 'r'];
    UpperBR("Pir");
    Upper3('P', 'i', 'r');
    assert Words(city) == [city];
    assert UpperChar('P') == "P" && UpperChar('i') == "I" && UpperChar('r') == "R";
    assert Upper("BR" + Head3(city)) == "BRPIR";
  }

  /** A two-word name takes one letter of the first word and two of the second: "Sao Paulo" gives "BRSPA". */
  lemma InsiTwoWords(city: string)
    requires city == "Sao Paulo"
    ensures Insi(city) == Success("BRSPA")
  {
    SaoPauloWords(city);
    assert Upper("BR" + "SPa") == "BRSPA" by {
      UpperBR("SPa");
      Upper3('S', 'P', 'a');
      assert ['S', 'P', 'a'] == "SPa";
      assert UpperChar('S') == "S" && UpperChar('P') == "P" && UpperChar('a') == "A";
    }
  }

  lemma TwoWords(a: string, b: string)
    requires |a| >= 1 && NoSpace(a) && |b| >= 1 && NoSpace(b)
    ensures Words(a + [' '] + b) == [a, b]
  {
    assert a + [' '] + b == a + ([' '] + b);
    WordThen(a, [' '] + b);
    assert [' '] + b == Spaces(1) + b;
    WordsAfterSpaces(1, b);
    WordThen(b, "");
    assert b + "" == b;
  }

  lemma SaoPauloWords(city: string)
    requires city == "Sao Paulo"
    ensures Words(city) == ["Sao", "Paulo"]
  {
    var a, b := city[..3], city[4..];
    assert a == "Sao" && b == "Paulo";
    assert city == a + [' '] + b;
    TwoWords(a, b);
  }

  /** A second word of one letter makes the identifier fail: "Campo X". */
  lemma InsiShortSecondWord(city: string)
    requires city == "Campo X"
    ensures Insi(city).Failure?
  {
    assert city == "Campo" + " X";
    WordThen("Campo", " X");
    assert " X" == Spaces(1) + "X";
    WordsAfterSpaces(1, "X");
    WordThen("X", "");
    assert "X" + "" == "X";
  }

  // ---------------------------------------------------------------------------
  // The file name (lines 75-78)
  // ---------------------------------------------------------------------------

  /** `s[-2:]`: the last two characters, or the whole string when it is shorter. */
  function Last2(s: string): (t: string)
    ensures |t| <= 2 && |t| <= |s| && t == s[|s| - |t|..]
    ensures |s| >= 2 ==> |t| == 2
    ensures |s| < 2 ==> t == s
  {
    if |s| < 2 then s else s[|s| - 2..]
  }

  /** The two-digit tag of the file name: 80 for the historical run, 15 for the projections. */
  function YearTag(scenario: string): string {
    if scenario == "hist" then "80" else "15"
  }

  /** INSI, the scenario's last two characters, the year tag and ".WTH". */
  function WthFileName(insi: string, scenario: string): string {
    insi + Last2(scenario) + YearTag(scenario) + ".WTH"
  }

  /**
   * The file name is the identifier, then the scenario's last two characters
   * (the whole scenario when it is shorter), then "80" for the historical run
   * and "15" otherwise, then ".WTH".
   */
  lemma WthFileNameSpec(insi: string, scenario: string)
    ensures var name := WthFileName(insi, scenario);
      var k := Max(|scenario|, 2) - 2;
      && |name| == |insi| + |scenario| - k + 6
      && name[..|insi|] == insi
      && name[|insi|..|insi| + |scenario| - k] == scenario[k..]
      && name[|name| - 6..|name| - 4] == (if scenario == "hist" then "80" else "15")
      && name[|name| - 4..] == ".WTH"
  {
    NameSlices(insi, Last2(scenario), YearTag(scenario), ".WTH");
  }

  lemma NameSlices(a: string, b: string, c: string, e: string)
    requires |c| == 2 && |e| == 4
    ensures var n := a + b + c + e;
      && n[..|a|] == a && n[|a|..|a| + |b|] == b
      && n[|n| - 6..|n| - 4] == c && n[|n| - 4..] == e
  {
    var n := a + b + c + e;
    assert n == a + (b + (c + e));
  }

  /** The three scenarios of a run give three distinct names for the same station. */
  lemma WthFileNamesDistinct(insi: string, hist: string, mid: string, high: string)
    requires hist == "hist" && mid == "ssp245" && high == "ssp585"
    ensures WthFileName(insi, hist) == insi + "st80.WTH"
    ensures WthFileName(insi, mid) == insi + "4515.WTH"
    ensures WthFileName(insi, high) == insi + "8515.WTH"
  {
    assert Last2(hist) == "st" && Last2(mid) == "45" && Last2(high) == "85";
  }

  // ---------------------------------------------------------------------------
  // Fixed-width fields
  // ---------------------------------------------------------------------------

  /**
   * What the layout relies on of Python's `f"{x:.Nf}"`: the text of a number
   * with N decimals, or "nan" for NaN, is never empty and holds no whitespace.
   */
  ghost predicate Formats(fmt: (Option<real>, nat) -> string) {
    && (forall x: Option<real>, d: nat :: |fmt(x, d)| >= 1 && NoSpace(fmt(x, d)))
    && (forall d: nat :: fmt(None, d) == "nan")
  }

  function NanOnly(x: Option<real>, d: nat): string {
    "nan"
  }

  type Formatter = fmt: (Option<real>, nat) -> string | Formats(fmt) witness NanOnly

  datatype Align = Left | Right

  /** One replacement field of an f-string, with the literal gap of spaces before it. */
  datatype Field = Field(gap: nat, text: string, width: nat, align: Align)

  /** The field's text padded to its width on the side the alignment asks for. */
  function Pad(f: Field): string {
    if f.align == Left then LJust(f.text, f.width) else RJust(f.text, f.width)
  }

  /** The fields laid out one after the other, each after its gap. */
  function Render(fields: seq<Field>): string {
    if fields == [] then "" else Spaces(fields[0].gap) + Pad(fields[0]) + Render(fields[1..])
  }

  /** The non-empty texts of the fields, in order. */
  function Texts(fields: seq<Field>): seq<string> {
    if fields == [] then [] else Word(fields[0]) + Texts(fields[1..])
  }

  /** The field's text as a word, or nothing for a blank field. */
  function Word(f: Field): seq<string> {
    if f.text == "" then [] else [f.text]
  }

  /** The width each field takes: its gap and its text padded, never truncated. */
  function Width(fields: seq<Field>): nat {
    if fields == [] then 0 else fields[0].gap + Max(|fields[0].text|, fields[0].width) + Width(fields[1..])
  }

  predicate Separated(fields: seq<Field>) {
    && (forall i :: 0 <= i < |fields| ==> NoSpace(fields[i].text))
    && (forall i :: 0 < i < |fields| ==> fields[i].gap >= 1)
  }

  lemma WordsOfPad(f: Field)
    requires NoSpace(f.text)
    ensures Words(Spaces(f.gap) + Pad(f)) == if f.text == "" then [] else [f.text]
  {
    var k := Max(|f.text|, f.width) - |f.text|;
    assert Pad(f) == if f.align == Left then f.text + Spaces(k) else Spaces(k) + f.text;
    WordsAfterSpaces(f.gap, Pad(f));
    if f.align == Left {
      WordsConcat(f.text, Spaces(k));
      WordsAfterSpaces(k, "");
      assert Spaces(k) + "" == Spaces(k);
    } else {
      WordsAfterSpaces(k, f.text);
    }
    if f.text != "" {
      WordThen(f.text, "");
      assert f.text + "" == f.text;
    }
  }

  /**
   * Splitting a line of separated fields on whitespace gives back the texts of
   * the non-empty fields, in order: padding and blank fields add no word.
   */
  lemma {:induction false} RenderWords(fields: seq<Field>)
    requires Separated(fields)
    ensures Words(Render(fields)) == Texts(fields)
    ensures |Render(fields)| == Width(fields)
    ensures fields != [] ==> Render(fields)[..fields[0].gap] == Spaces(fields[0].gap)
    decreases |fields|
  {
    if fields != [] {
      var rest := fields[1..];
      assert Separated(rest);
      RenderWords(rest);
      WordsOfPad(fields[0]);
      if rest != [] {
        assert Render(rest)[0] == Render(rest)[..rest[0].gap][0];
      }
      WordsConcat(Spaces(fields[0].gap) + Pad(fields[0]), Render(rest));
    }
  }

  lemma {:induction false} RenderNoNewline(fields: seq<Field>)
    requires forall i :: 0 <= i < |fields| ==> '\n' !in fields[i].text
    ensures '\n' !in Render(fields)
    decreases |fields|
  {
    if fields != [] {
      RenderNoNewline(fields[1..]);
    }
  }

  /** A text without whitespace has in particular no line break. */
  lemma NoSpaceNoNewline(w: string)
    requires NoSpace(w)
    ensures '\n' !in w
  {
    forall i | 0 <= i < |w| ensures w[i] != '\n' {
      assert !IsSpace(w[i]);
    }
  }

  /** The layout of the fields from the `i`-th on: the `i`-th, then the rest. */
  lemma RenderAt(fields: seq<Field>, i: nat)
    requires i < |fields|
    ensures Render(fields[i..]) == Spaces(fields[i].gap) + Pad(fields[i]) + Render(fields[i + 1..])
  {
    assert fields[i..][1..] == fields[i + 1..];
  }

  lemma TextsAt(fields: seq<Field>, i: nat)
    requires i < |fields|
    ensures Texts(fields[i..]) == Word(fields[i]) + Texts(fields[i + 1..])
  {
    assert fields[i..][1..] == fields[i + 1..];
  }

  lemma WidthAt(fields: seq<Field>, i: nat)
    requires i < |fields|
    ensures Width(fields[i..]) == fields[i].gap + Max(|fields[i].text|, fields[i].width) + Width(fields[i + 1..])
  {
    assert fields[i..][1..] == fields[i + 1..];
  }

  // ---------------------------------------------------------------------------
  // The lines of the file (lines 16-27)
  // ---------------------------------------------------------------------------

  function TitleLine(city: string, scenario: string): string {
    "$WEATHER DATA : " + city + "_" + scenario
  }

  /** The station header line (written in four pieces only to keep the literals short). */
  const StationHeader: string := "@ INSI       LAT" + "     LONG  ELEV" + "   TAV   AMP" + " REFHT WNDHT"

  /** The daily header line, in pieces likewise. */
  const DailyHeader: string := "@  DATE  SRAD" + "  TMAX  TMIN" + "  RAIN  DEWP" + "  WIND   PAR" + "  RHUM    CO2"

  /**
   * `f"  {insi}  {latitude:<7.3f}  {longitude:<8.3f}  {altitude:<5.0f}"`
   * followed by the constant TAV, AMP, REFHT and WNDHT columns
   * " 0.0   0.0   2.0  10.0".
   */
  function StationFields(insi: string, lat: real, lon: real, alt: real, fmt: Formatter): seq<Field> {
    [Field(2, insi, 0, Left), Field(2, fmt(Some(lat), 3), 7, Left),
     Field(2, fmt(Some(lon), 3), 8, Left), Field(2, fmt(Some(alt), 0), 5, Left),
     Field(1, "0.0", 0, Left), Field(3, "0.0", 0, Left),
     Field(3, "2.0", 0, Left), Field(2, "10.0", 0, Left)]
  }

  function StationLine(insi: string, lat: real, lon: real, alt: real, fmt: Formatter): string {
    Render(StationFields(insi, lat, lon, alt, fmt))
  }

  /**
   * The daily line's fields: the integer YYYYDDD left-justified to 6, then
   * SRAD (the MJ radiation), TMAX, TMIN and RAIN right-justified to 4 with
   * one decimal, a blank DEWP of 6, WIND in km/h, a blank PAR of 5, RHUM
   * (relative humidity) and CO2.
   */
  function DailyFields(r: ExtractedRow, fmt: Formatter): seq<Field> {
    [Field(0, Digits(Value(r.yyyyddd)), 6, Left),
     Field(2, fmt(r.rssMJ, 1), 4, Right),
     Field(2, fmt(r.tasmax, 1), 4, Right),
     Field(2, fmt(r.tasmin, 1), 4, Right),
     Field(2, fmt(r.pr, 1), 4, Right),
     Field(1, "", 6, Right),
     Field(1, fmt(r.windKmh, 1), 4, Right),
     Field(1, "", 5, Right),
     Field(2, fmt(r.hurPercent, 1), 4, Right),
     Field(2, fmt(r.co2ppm, 1), 4, Right)]
  }

  function DailyLine(r: ExtractedRow, fmt: Formatter): string {
    Render(DailyFields(r, fmt))
  }

  lemma DigitsNoSpace(n: nat)
    ensures NoSpace(Digits(n))
  {
  }

  lemma Texts10(fs: seq<Field>)
    requires |fs| == 10
    ensures Texts(fs) == Word(fs[0]) + (Word(fs[1]) + (Word(fs[2]) + (Word(fs[3]) + (Word(fs[4])
      + (Word(fs[5]) + (Word(fs[6]) + (Word(fs[7]) + (Word(fs[8]) + Word(fs[9])))))))))
  {
    assert fs[10..] == [];
    TextsAt(fs, 9);
    var t := Word(fs[9]);
    assert Texts(fs[9..]) == t;
    TextsAt(fs, 8);
    t := Word(fs[8]) + t;
    assert Texts(fs[8..]) == t;
    TextsAt(fs, 7);
    t := Word(fs[7]) + t;
    assert Texts(fs[7..]) == t;
    TextsAt(fs, 6);
    t := Word(fs[6]) + t;
    assert Texts(fs[6..]) == t;
    TextsAt(fs, 5);
    t := Word(fs[5]) + t;
    assert Texts(fs[5..]) == t;
    TextsAt(fs, 4);
    t := Word(fs[4]) + t;
    assert Texts(fs[4..]) == t;
    TextsAt(fs, 3);
    t := Word(fs[3]) + t;
    assert Texts(fs[3..]) == t;
    TextsAt(fs, 2);
    t := Word(fs[2]) + t;
    assert Texts(fs[2..]) == t;
    TextsAt(fs, 1);
    t := Word(fs[1]) + t;
    assert Texts(fs[1..]) == t;
    TextsAt(fs, 0);
    assert fs[0..] == fs;
  }

  /** The width a field takes. */
  function Span(f: Field): nat {
    f.gap + Max(|f.text|, f.width)
  }

  lemma Width10(fs: seq<Field>)
    requires |fs| == 10
    ensures Width(fs) == Span(fs[0]) + Span(fs[1]) + Span(fs[2]) + Span(fs[3]) + Span(fs[4])
      + Span(fs[5]) + Span(fs[6]) + Span(fs[7]) + Span(fs[8]) + Span(fs[9])
  {
    assert fs[10..] == [];
    WidthAt(fs, 9);
    WidthAt(fs, 8);
    WidthAt(fs, 7);
    WidthAt(fs, 6);
    WidthAt(fs, 5);
    WidthAt(fs, 4);
    WidthAt(fs, 3);
    WidthAt(fs, 2);
    WidthAt(fs, 1);
    WidthAt(fs, 0);
    assert fs[0..] == fs;
  }

  /** The texts of the daily fields, the two blank ones left out. */
  lemma DailyTexts(r: ExtractedRow, fmt: Formatter)
    ensures var fs := DailyFields(r, fmt);
      Texts(fs) == [fs[0].text, fs[1].text, fs[2].text, fs[3].text, fs[4].text,
                    fs[6].text, fs[8].text, fs[9].text]
  {
    var fs := DailyFields(r, fmt);
    Texts10(fs);
  }

  /** Every value of the row fits the four characters of its column. */
  predicate Fits(r: ExtractedRow, fmt: Formatter) {
    && |fmt(r.rssMJ, 1)| <= 4 && |fmt(r.tasmax, 1)| <= 4 && |fmt(r.tasmin, 1)| <= 4
    && |fmt(r.pr, 1)| <= 4 && |fmt(r.windKmh, 1)| <= 4 && |fmt(r.hurPercent, 1)| <= 4
    && |fmt(r.co2ppm, 1)| <= 4
  }

  lemma DailyWidth(r: ExtractedRow, fmt: Formatter)
    requires Fits(r, fmt)
    ensures Width(DailyFields(r, fmt)) == Max(|Digits(Value(r.yyyyddd))|, 6) + 54
  {
    var fs := DailyFields(r, fmt);
    Width10(fs);
    assert Span(fs[1]) == 6 && Span(fs[2]) == 6 && Span(fs[3]) == 6 && Span(fs[4]) == 6;
    assert Span(fs[5]) == 7 && Span(fs[6]) == 5 && Span(fs[7]) == 6;
    assert Span(fs[8]) == 6 && Span(fs[9]) == 6;
  }

  /**
   * Split on whitespace, a daily line gives back the day's code as a number
   * and the seven values in order, the DEWP and PAR columns being blank.
   */
  lemma DailyLineWords(r: ExtractedRow, fmt: Formatter)
    ensures Words(DailyLine(r, fmt)) == [Digits(Value(r.yyyyddd)),
      fmt(r.rssMJ, 1), fmt(r.tasmax, 1), fmt(r.tasmin, 1), fmt(r.pr, 1),
      fmt(r.windKmh, 1), fmt(r.hurPercent, 1), fmt(r.co2ppm, 1)]
  {
    var fs := DailyFields(r, fmt);
    DigitsNoSpace(Value(r.yyyyddd));
    assert Separated(fs);
    RenderWords(fs);
    DailyTexts(r, fmt);
  }

  /**
   * A daily line starts with the day's code written as a number and padded
   * with spaces to six characters, never cut: a longer code pushes the rest
   * of the line right.
   */
  lemma DailyLineStart(r: ExtractedRow, fmt: Formatter)
    ensures var code := Digits(Value(r.yyyyddd));
      && |DailyLine(r, fmt)| >= Max(|code|, 6)
      && DailyLine(r, fmt)[..|code|] == code
      && Value(code) == Value(r.yyyyddd)
      && DailyLine(r, fmt)[|code|..Max(|code|, 6)] == Spaces(Max(|code|, 6) - |code|)
  {
    var fs := DailyFields(r, fmt);
    var code := Digits(Value(r.yyyyddd));
    assert fs[0] == Field(0, code, 6, Left);
    ValueOfDigits(Value(r.yyyyddd));
    RenderLeftFirst(fs, code, 6);
  }

  /** A line whose first field has no gap and is left-justified starts with that field padded. */
  lemma RenderLeftFirst(fs: seq<Field>, t: string, width: nat)
    requires fs != [] && fs[0] == Field(0, t, width, Left)
    ensures |Render(fs)| >= Max(|t|, width)
    ensures Render(fs)[..|t|] == t
    ensures Render(fs)[|t|..Max(|t|, width)] == Spaces(Max(|t|, width) - |t|)
  {
    var w := Max(|t|, width);
    var padded := LJust(t, width);
    assert Render(fs) == Spaces(0) + padded + Render(fs[1..]);
    assert Spaces(0) + padded == padded;
    assert padded[..|t|] == t;
    assert padded[|t|..w] == Spaces(w - |t|);
  }

  /** When every value takes at most four characters the line is 54 characters longer than its first field. */
  lemma DailyLineLength(r: ExtractedRow, fmt: Formatter)
    requires Fits(r, fmt)
    ensures |DailyLine(r, fmt)| == Max(|Digits(Value(r.yyyyddd))|, 6) + 54
  {
    var fs := DailyFields(r, fmt);
    DigitsNoSpace(Value(r.yyyyddd));
    assert Separated(fs);
    RenderWords(fs);
    DailyWidth(r, fmt);
  }

  /** The file's lines: the title, the station header and line, the daily header, then one line per row. */
  function WthLines(city: string, scenario: string, insi: string, lat: real, lon: real, alt: real,
                    rows: seq<ExtractedRow>, fmt: Formatter): (lines: seq<string>)
    ensures |lines| == 4 + |rows|
  {
    [TitleLine(city, scenario), StationHeader, StationLine(insi, lat, lon, alt, fmt), DailyHeader]
      + seq(|rows|, i requires 0 <= i < |rows| => DailyLine(rows[i], fmt))
  }

  /** `criar_arquivo_wth`: the lines joined with newlines, with none at the end. */
  function WthContent(city: string, scenario: string, insi: string, lat: real, lon: real, alt: real,
                      rows: seq<ExtractedRow>, fmt: Formatter): string {
    Join(WthLines(city, scenario, insi, lat, lon, alt, rows, fmt), '\n')
  }

  lemma HeadersNoNewline()
    ensures '\n' !in "$WEATHER DATA : " && '\n' !in StationHeader && '\n' !in DailyHeader
  {
    StationHeaderNoNewline();
    DailyHeaderNoNewline();
  }

  lemma StationHeaderNoNewline()
    ensures '\n' !in StationHeader
  {
    assert '\n' !in "@ INSI       LAT";
    assert '\n' !in "     LONG  ELEV";
    assert '\n' !in "   TAV   AMP";
    assert '\n' !in " REFHT WNDHT";
  }

  lemma DailyHeaderNoNewline()
    ensures '\n' !in DailyHeader
  {
    assert '\n' !in "@  DATE  SRAD";
    assert '\n' !in "  TMAX  TMIN";
    assert '\n' !in "  RAIN  DEWP";
    assert '\n' !in "  WIND   PAR";
    assert '\n' !in "  RHUM    CO2";
  }

  lemma StationLineNoNewline(insi: string, lat: real, lon: real, alt: real, fmt: Formatter)
    requires '\n' !in insi
    ensures '\n' !in StationLine(insi, lat, lon, alt, fmt)
  {
    var fs := StationFields(insi, lat, lon, alt, fmt);
    forall j | 0 <= j < |fs| ensures '\n' !in fs[j].text {
      if 1 <= j < 4 {
        NoSpaceNoNewline(fs[j].text);
      } else if j >= 4 {
        assert fs[j].text in ["0.0", "2.0", "10.0"];
      }
    }
    RenderNoNewline(fs);
  }

  lemma DailyLineNoNewline(r: ExtractedRow, fmt: Formatter)
    ensures '\n' !in DailyLine(r, fmt)
  {
    var fs := DailyFields(r, fmt);
    forall j | 0 <= j < |fs| ensures '\n' !in fs[j].text {
      if j == 0 {
        DigitsNoSpace(Value(r.yyyyddd));
      }
      NoSpaceNoNewline(fs[j].text);
    }
    RenderNoNewline(fs);
  }

  /**
   * For a city, scenario and identifier without line breaks, the content
   * splits back on newlines into exactly its 4 + n lines — the title, the
   * two fixed headers around the station line, then one line per row in row
   * order — so it holds 3 + n newlines and none at the end.
   */
  lemma WthContentLines(city: string, scenario: string, insi: string, lat: real, lon: real, alt: real,
                        rows: seq<ExtractedRow>, fmt: Formatter)
    requires '\n' !in city && '\n' !in scenario && '\n' !in insi
    ensures var lines := Split(WthContent(city, scenario, insi, lat, lon, alt, rows, fmt), '\n');
      && |lines| == 4 + |rows|
      && lines[0] == "$WEATHER DATA : " + city + "_" + scenario
      && lines[1] == StationHeader && lines[3] == DailyHeader
      && lines[2] == StationLine(insi, lat, lon, alt, fmt)
      && forall i :: 0 <= i < |rows| ==> lines[4 + i] == DailyLine(rows[i], fmt)
    ensures Count(WthContent(city, scenario, insi, lat, lon, alt, rows, fmt), '\n') == 3 + |rows|
  {
    var lines := WthLines(city, scenario, insi, lat, lon, alt, rows, fmt);
    WthLinesNoNewline(city, scenario, insi, lat, lon, alt, rows, fmt);
    SplitJoin(lines, '\n');
    CountJoin(lines, '\n');
  }

  lemma WthLinesNoNewline(city: string, scenario: string, insi: string, lat: real, lon: real, alt: real,
                          rows: seq<ExtractedRow>, fmt: Formatter)
    requires '\n' !in city && '\n' !in scenario && '\n' !in insi
    ensures var lines := WthLines(city, scenario, insi, lat, lon, alt, rows, fmt);
      forall i :: 0 <= i < |lines| ==> '\n' !in lines[i]
  {
    var head := [TitleLine(city, scenario), StationHeader, StationLine(insi, lat, lon, alt, fmt), DailyHeader];
    var body := seq(|rows|, i requires 0 <= i < |rows| => DailyLine(rows[i], fmt));
    assert '\n' !in "$WEATHER DATA : " && '\n' !in "_";
    assert '\n' !in head[0];
    StationHeaderNoNewline();
    StationLineNoNewline(insi, lat, lon, alt, fmt);
    DailyHeaderNoNewline();
    forall i | 0 <= i < |body| ensures '\n' !in body[i] {
      DailyLineNoNewline(rows[i], fmt);
    }
    NoNewlineConcat(head, body);
  }

  lemma NoNewlineConcat(head: seq<string>, body: seq<string>)
    requires forall i :: 0 <= i < |head| ==> '\n' !in head[i]
    requires forall i :: 0 <= i < |body| ==> '\n' !in body[i]
    ensures forall i :: 0 <= i < |head + body| ==> '\n' !in (head + body)[i]
  {
    forall i | 0 <= i < |head + body| ensures '\n' !in (head + body)[i] {
      if i >= |head| {
        assert (head + body)[i] == body[i - |head|];
      }
    }
  }

  /**
   * The station line as the f-string writes it: two spaces, INSI, then
   * latitude, longitude and elevation left-justified to 7, 8 and 5 after two
   * spaces each, then the constant columns.
   */
  lemma StationLineLayout(insi: string, lat: real, lon: real, alt: real, fmt: Formatter)
    ensures StationLine(insi, lat, lon, alt, fmt)
      == ("  " + insi) + ("  " + LJust(fmt(Some(lat), 3), 7)) + ("  " + LJust(fmt(Some(lon), 3), 8))
         + ("  " + LJust(fmt(Some(alt), 0), 5)) + " 0.0   0.0   2.0  10.0"
  {
    var fs := StationFields(insi, lat, lon, alt, fmt);
    assert Render(fs[4..]) == " 0.0   0.0   2.0  10.0" by {
      assert fs[4..] == StationConstants;
      StationConstantsRender();
    }
    RenderFour(fs);
    LeftPiece(fs[0], insi, 0);
    LeftPiece(fs[1], fmt(Some(lat), 3), 7);
    LeftPiece(fs[2], fmt(Some(lon), 3), 8);
    LeftPiece(fs[3], fmt(Some(alt), 0), 5);
  }

  /** A left-justified field after a gap of two spaces. */
  lemma LeftPiece(f: Field, t: string, w: nat)
    requires f == Field(2, t, w, Left)
    ensures Spaces(f.gap) + Pad(f) == "  " + LJust(t, w)
    ensures w == 0 ==> LJust(t, w) == t
  {
    assert Spaces(2) == "  " by { assert Spaces(2)[0] == Spaces(2)[1] == ' '; }
  }

  /** The layout of the first four fields, each as its gap and its padded text, then the rest. */
  lemma RenderFour(fs: seq<Field>)
    requires |fs| >= 4
    ensures Render(fs) == Spaces(fs[0].gap) + Pad(fs[0]) + (Spaces(fs[1].gap) + Pad(fs[1]))
      + (Spaces(fs[2].gap) + Pad(fs[2])) + (Spaces(fs[3].gap) + Pad(fs[3])) + Render(fs[4..])
  {
    RenderTwo(fs);
    RenderTwo(fs[2..]);
    assert fs[2..][2..] == fs[4..];
    Assoc5(Spaces(fs[0].gap) + Pad(fs[0]), Spaces(fs[1].gap) + Pad(fs[1]),
           Spaces(fs[2].gap) + Pad(fs[2]), Spaces(fs[3].gap) + Pad(fs[3]), Render(fs[4..]));
  }

  /** The layout of the first two fields, then the rest. */
  lemma RenderTwo(fs: seq<Field>)
    requires |fs| >= 2
    ensures Render(fs) == Spaces(fs[0].gap) + Pad(fs[0]) + ((Spaces(fs[1].gap) + Pad(fs[1])) + Render(fs[2..]))
  {
    RenderAt(fs, 1);
    assert fs[1..][1..] == fs[2..];
  }

  /** The constant TAV, AMP, REFHT and WNDHT columns of the station line. */
  const StationConstants: seq<Field> :=
    [Field(1, "0.0", 0, Left), Field(3, "0.0", 0, Left), Field(3, "2.0", 0, Left), Field(2, "10.0", 0, Left)]

  lemma StationConstantsRender()
    ensures Render(StationConstants) == " 0.0   0.0   2.0  10.0"
  {
    var cs := StationConstants;
    assert cs[4..] == [];
    RenderFour(cs);
    UnpaddedPiece(cs[0], 1, "0.0");
    UnpaddedPiece(cs[1], 3, "0.0");
    UnpaddedPiece(cs[2], 3, "2.0");
    UnpaddedPiece(cs[3], 2, "10.0");
    StationConstantsText();
  }

  /** A field of width 0 is its text, after its gap. */
  lemma UnpaddedPiece(f: Field, gap: nat, t: string)
    requires f == Field(gap, t, 0, Left)
    ensures Spaces(f.gap) + Pad(f) == Spaces(gap) + t
  {
  }

  lemma StationConstantsText()
    ensures (Spaces(1) + "0.0") + (Spaces(3) + "0.0") + (Spaces(3) + "2.0") + (Spaces(2) + "10.0") + ""
      == " 0.0   0.0   2.0  10.0"
  {
    assert Spaces(1) == " " && Spaces(2) == "  " && Spaces(3) == "   ";
  }

  lemma Assoc5(a: string, b: string, c: string, d: string, e: string)
    ensures a + (b + (c + (d + e))) == a + b + c + d + e
  {
  }

  /**
   * Split on whitespace, the station line gives the identifier, latitude,
   * longitude and elevation, then the four constants 0.0, 0.0, 2.0 and 10.0.
   */
  lemma StationLineWords(insi: string, lat: real, lon: real, alt: real, fmt: Formatter)
    requires |insi| >= 1 && NoSpace(insi)
    ensures Words(StationLine(insi, lat, lon, alt, fmt))
      == [insi, fmt(Some(lat), 3), fmt(Some(lon), 3), fmt(Some(alt), 0), "0.0", "0.0", "2.0", "10.0"]
  {
    var fs := StationFields(insi, lat, lon, alt, fmt);
    assert Separated(fs) by {
      assert NoSpace("0.0") && NoSpace("2.0") && NoSpace("10.0");
    }
    RenderWords(fs);
    StationTexts(insi, lat, lon, alt, fmt);
  }

  lemma StationTexts(insi: string, lat: real, lon: real, alt: real, fmt: Formatter)
    requires |insi| >= 1
    ensures var fs := StationFields(insi, lat, lon, alt, fmt);
      Texts(fs) == [fs[0].text, fs[1].text, fs[2].text, fs[3].text,
                    fs[4].text, fs[5].text, fs[6].text, fs[7].text]
  {
    var fs := StationFields(insi, lat, lon, alt, fmt);
    {
      assert fs[8..] == [];
      TextsAt(fs, 7);
      TextsAt(fs, 6);
      TextsAt(fs, 5);
      TextsAt(fs, 4);
      TextsAt(fs, 3);
      TextsAt(fs, 2);
      TextsAt(fs, 1);
      TextsAt(fs, 0);
      assert fs[0..] == fs;
    }
  }

  /** The station line starts with two spaces, the identifier and two more spaces. */
  lemma StationLineStart(insi: string, lat: real, lon: real, alt: real, fmt: Formatter)
    ensures var line := StationLine(insi, lat, lon, alt, fmt);
      && |line| >= |insi| + 4
      && line[..2] == Spaces(2) && line[2..2 + |insi|] == insi && line[2 + |insi|..|insi| + 4] == Spaces(2)
  {
    var fs := StationFields(insi, lat, lon, alt, fmt);
    RenderAt(fs, 0);
    RenderAt(fs, 1);
    assert fs[0..] == fs;
    assert Pad(fs[0]) == insi;
  }

  // ---------------------------------------------------------------------------
  // One file per city (lines 66-88)
  // ---------------------------------------------------------------------------

  datatype WthFile = WthFile(name: string, content: string)

  /**
   * The file of one city: its rows in table order, the coordinates of its
   * first row, its identifier and the scenario; it fails where `gerar_insi`
   * raises.
   */
  function CityFile(rows: seq<ExtractedRow>, city: string, scenario: string, fmt: Formatter): (f: Result<WthFile, string>)
    requires HasCity(rows, city)
    ensures f.Success? <==> Insi(city).Success?
  {
    CityRowsSpec(rows, city);
    var group := CityRows(rows, city);
    assert forall r :: r in group ==> AllDigits(r.yyyyddd);
    var first := group[0];
    match Insi(city)
    case Failure(e) => Failure(e)
    case Success(insi) =>
      Success(WthFile(WthFileName(insi, scenario),
        WthContent(city, scenario, insi, first.latitude, first.longitude, first.altitude, group, fmt)))
  }

  /**
   * What a run leaves behind: the files written, in order, and the error
   * that stopped it, if any (files written before the error stay written).
   */
  datatype Run = Run(written: seq<WthFile>, error: Option<string>)

  /** The files of the attempts in order, stopping at the first failure. */
  function Collect(attempts: seq<Result<WthFile, string>>): Run
    decreases |attempts|
  {
    if attempts == [] then Run([], None)
    else
      match attempts[0]
      case Failure(e) => Run([], Some(e))
      case Success(f) =>
        var rest := Collect(attempts[1..]);
        Run([f] + rest.written, rest.error)
  }

  /**
   * A run writes the files of the leading successful attempts, in order, and
   * reports the error of the first failed one; it has no error exactly when
   * every attempt succeeds.
   */
  lemma {:induction false} CollectSpec(attempts: seq<Result<WthFile, string>>)
    ensures var run := Collect(attempts);
      && |run.written| <= |attempts|
      && (forall i :: 0 <= i < |run.written| ==> attempts[i] == Success(run.written[i]))
      && (run.error == None <==> |run.written| == |attempts|)
      && (run.error != None ==>
            |run.written| < |attempts| && attempts[|run.written|].Failure? && run.error == Some(attempts[|run.written|].error))
    decreases |attempts|
  {
    if attempts != [] {
      var tail := attempts[1..];
      CollectSpec(tail);
      var run := Collect(attempts);
      if attempts[0].Success? {
        var r := Collect(tail);
        assert run.written == [attempts[0].value] + r.written && run.error == r.error;
        forall i | 0 < i < |run.written| ensures attempts[i] == Success(run.written[i]) {
          assert tail[i - 1] == attempts[i];
        }
      }
    }
  }

  /** The attempt at each group key's file, in key order. */
  function Attempts(rows: seq<ExtractedRow>, scenario: string, fmt: Formatter): (attempts: seq<Result<WthFile, string>>)
    ensures |attempts| == |GroupKeys(rows)|
  {
    var keys := GroupKeys(rows);
    GroupKeysSpec(rows);
    seq(|keys|, i requires 0 <= i < |keys| => CityFile(rows, keys[i], scenario, fmt))
  }

  /** Each attempt is the file of a city of the table, and succeeds exactly when its identifier can be built. */
  lemma AttemptsSpec(rows: seq<ExtractedRow>, scenario: string, fmt: Formatter)
    ensures var keys := GroupKeys(rows);
      var attempts := Attempts(rows, scenario, fmt);
      forall i :: 0 <= i < |keys| ==>
        && HasCity(rows, keys[i])
        && attempts[i] == CityFile(rows, keys[i], scenario, fmt)
        && (attempts[i].Success? <==> Insi(keys[i]).Success?)
  {
    GroupKeysSpec(rows);
    var keys := GroupKeys(rows);
    forall i | 0 <= i < |keys| ensures HasCity(rows, keys[i]) {
      assert keys[i] in keys;
    }
  }

  /** The run over one (model, scenario) table: one file per group of `groupby('City')`. */
  function WthRun(rows: seq<ExtractedRow>, scenario: string, fmt: Formatter): Run {
    Collect(Attempts(rows, scenario, fmt))
  }

  /**
   * The file of a city with rows and an identifier: named from the
   * identifier and the scenario, holding the title, the station line with the
   * coordinates of the city's first row, and one daily line for each of the
   * city's rows in table order.
   */
  lemma CityFileSpec(rows: seq<ExtractedRow>, city: string, scenario: string, fmt: Formatter)
    requires HasCity(rows, city) && Insi(city).Success?
    ensures var group := CityRows(rows, city);
      && |group| == CountCity(rows, city) > 0
      && group[0] == rows[FirstIndex(rows, city)]
      && CityFile(rows, city, scenario, fmt) == Success(WthFile(WthFileName(Insi(city).value, scenario),
           WthContent(city, scenario, Insi(city).value, group[0].latitude, group[0].longitude, group[0].altitude, group, fmt)))
  {
    CityRowsSpec(rows, city);
  }

  /**
   * The run visits the cities in ascending order, one per distinct city. It
   * stops at the first city whose identifier cannot be built, having written
   * the files of the cities before it; without such a city it writes one
   * file per distinct city, the file `CityFile` describes.
   */
  lemma WthRunSpec(rows: seq<ExtractedRow>, scenario: string, fmt: Formatter)
    ensures var run := WthRun(rows, scenario, fmt);
      var keys := GroupKeys(rows);
      && |run.written| <= |keys| == |UniqueCities(rows)|
      && (run.error == None <==> forall c :: HasCity(rows, c) ==> Insi(c).Success?)
      && (run.error == None ==> |run.written| == |keys|)
      && (run.error != None ==> |run.written| < |keys| && Insi(keys[|run.written|]).Failure?)
      && forall i :: 0 <= i < |run.written| ==>
           HasCity(rows, keys[i]) && Insi(keys[i]).Success? && Success(run.written[i]) == CityFile(rows, keys[i], scenario, fmt)
  {
    GroupKeysSpec(rows);
    var keys := GroupKeys(rows);
    var attempts := Attempts(rows, scenario, fmt);
    var run := Collect(attempts);
    CollectSpec(attempts);
    AttemptsSpec(rows, scenario, fmt);
    if run.error == None {
      forall c | HasCity(rows, c) ensures Insi(c).Success? {
        assert c in keys;
        var i :| 0 <= i < |keys| && keys[i] == c;
        assert attempts[i].Success?;
      }
    } else {
      var k := |run.written|;
      assert attempts[k].Failure?;
    }
    if run.error != None {
      assert !(forall c :: HasCity(rows, c) ==> Insi(c).Success?) by {
        var k := |run.written|;
        assert HasCity(rows, keys[k]) && !Insi(keys[k]).Success?;
      }
    }
  }

  // ---------------------------------------------------------------------------
  // The output directory
  // ---------------------------------------------------------------------------

  /** The directory after writing `files` in order: a later file of the same name replaces an earlier one. */
  function Directory(files: seq<WthFile>): map<string, string>
    decreases |files|
  {
    if files == [] then map[]
    else Directory(files[..|files| - 1])[files[|files| - 1].name := files[|files| - 1].content]
  }

  /**
   * The directory holds a file for every name written and no other, and each
   * holds the content of the last file written under that name; two cities
   * whose identifiers coincide share one file, the later city's.
   */
  lemma {:induction false} DirectorySpec(files: seq<WthFile>)
    ensures forall n :: n in Directory(files) <==> exists i :: 0 <= i < |files| && files[i].name == n
    ensures forall i :: 0 <= i < |files| && (forall j :: i < j < |files| ==> files[j].name != files[i].name) ==>
      Directory(files)[files[i].name] == files[i].content
    decreases |files|
  {
    if files != [] {
      var init := files[..|files| - 1];
      DirectorySpec(init);
      forall n ensures n in Directory(files) <==> exists i :: 0 <= i < |files| && files[i].name == n {
        if n in Directory(init) {
          var i :| 0 <= i < |init| && init[i].name == n;
          assert files[i].name == n;
        }
        if exists i :: 0 <= i < |files| && files[i].name == n {
          var i :| 0 <= i < |files| && files[i].name == n;
          if i < |files| - 1 {
            assert init[i].name == n;
          }
        }
      }
      forall i | 0 <= i < |files| && (forall j :: i < j < |files| ==> files[j].name != files[i].name)
        ensures Directory(files)[files[i].name] == files[i].content
      {
        if i < |files| - 1 {
          assert init[i] == files[i];
          assert forall j :: i < j < |init| ==> init[j].name != init[i].name by {
            forall j | i < j < |init| ensures init[j].name != init[i].name {
              assert init[j] == files[j];
            }
          }
        }
      }
    }
  }
}
