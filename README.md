# CLIMBra station weather files, modelled in Dafny

This project models the data rules of three batch scripts. They turn gridded
CLIMBra climate-model output into per-station daily series, then write those
series as DSSAT weather files (`.WTH`) and SWAP meteorological files (`.met`).

- **Extractor** (`CLIMBra_extration.py`). For each variable, one frame per
  station is built; radiation is converted from MJ to kJ and the MJ copy is
  kept. The variable frames are left-joined on (City, Latitude, Longitude,
  Altitude, Date) and de-duplicated keeping the first row of each key. CO2 is
  joined by year. Four threshold clamps are applied, and inverted Tmin/Tmax
  pairs are nulled. Wind in km/h, vapour pressure, DD/MM/YYYY and the YYYYDDD
  code are derived, and the columns are put in a fixed order.
  Modules: `Calendar`, `Extraction`, `Merging`, `Columns`, `Extractor`.
- **DSSAT writer** (`DSSAT_station_gen.py`). It builds the station identifier
  INSI, the `.WTH` file name, and the file text: four header lines, then one
  fixed-width line per day, joined by newlines. There is one file per
  `groupby('City')` group. Module: `Dssat`.
- **SWAP writer** (`SWAP_station_gen.py`). It selects and renames ten
  columns and rounds them. It adds ETref = -999.0 and a wet-day flag, then
  labels each row with the quoted, sanitised station name. There is one file
  per distinct city, in order of first appearance. Module: `Swap`.
- Shared modules. `Text` holds Python string behaviour: digits, zero padding,
  justification, `join`, `split`, `split()` on whitespace and `upper()`.
  `Grouping` holds `unique()`, the per-city filter and the key order of
  `groupby`. `Wrappers` holds `Option` (a NaN cell) and `Result` (a raised
  exception).

State the scripts change in place is modelled imperatively. The corrections
and the temperature interpolation are methods over an `array<Row>`
(`Extractor.ApplyCorrections`, `Extractor.InterpolateTemperatures`). The
station and variable loops are methods proved equal to specification
functions (`Extractor.BuildVarFrame`, `Extractor.MergeVariables`). The SWAP
`met_data` table is a class whose methods update a column at a time
(`Swap.MetData`). Pure code (the YYYYDDD lambda, `column_order`, `gerar_insi`,
`criar_arquivo_wth`) is modelled as functions with lemmas.

Behaviour of the code that the model keeps as written:

- The variable loop catches `FileNotFoundError` and continues
  (`CLIMBra_extration.py`:100-102). Lines 111-119, however, index `hur`,
  `sfcWind`, `pr`, `rss`, `tasmin` and `tasmax` unconditionally, and line 140
  always selects `CO2ppm`. So a missing variable file or a missing CO2 table
  ends in `KeyError`. `Extractor.Extract` returns `Failure` with the name of
  the first column that is missing.
- With an empty station table, the first variable whose file exists reaches
  `pd.concat` with an empty list (line 87). That raises `ValueError`, which
  the loop does not catch. `Extractor.ReadFrames` and `Extractor.Extract`
  return `Failure("No objects to concatenate")` in that case.
- Line 111 replaces only humidity values above 100 with 99.9. A value of
  exactly 100 and negative values are kept.
- `gerar_insi` (`DSSAT_station_gen.py`:9-13) takes one character of the first
  word and two of the second word. For a name of at most one word it takes
  the first three characters of the raw string, including leading
  whitespace. A one-character second word raises `IndexError`.
- Line 119 interpolates `tasmin` and `tasmax` over the whole table at once,
  across station boundaries, not per station.
- The radiation clamp at line 114 (below 3 becomes 3) acts on the kJ column.
  The MJ copy made at line 78, which the DSSAT writer uses for SRAD, is never
  clamped.

## Model

| member | source | states |
|---|---|---|
| Calendar.DayOfYear | CLIMBra_extration.py:132 | `tm_yday` lies in 1..365, or 1..366 in a Gregorian leap year |
| Calendar.DateOfDayOfYear | CLIMBra_extration.py:132 | a date is recovered from its year and day of year |
| Calendar.NextDayOfYear | CLIMBra_extration.py:132 | consecutive days of one year have consecutive day numbers; 31 December is followed by day 1 of the next year |
| Calendar.YearDayCodeValue | CLIMBra_extration.py:132 | YYYYDDD is all digits and reads back as year × 1000 + day of year |
| Calendar.YearDayCodeFields | CLIMBra_extration.py:132 | for years up to 9999 the code has 7 characters: 4 spelling the year, 3 spelling the day of year |
| Calendar.YearDayCodeInjective | CLIMBra_extration.py:132 | two dates with the same code are the same date |
| Calendar.NextYearDayCode | CLIMBra_extration.py:132 | the next day's code is one more within a year, and (year+1)·1000 + 1 after 31 December |
| Extraction.SampleRow | CLIMBra_extration.py:68-79 | a station-frame row carries the station key and date; for `rss` the MJ copy is the sampled value and the kJ cell is 1000 × it |
| Extraction.StationFrame | CLIMBra_extration.py:68-75 | one row per time step, in series order |
| Extraction.ClampHumidity | CLIMBra_extration.py:111 | hur > 100 becomes exactly 99.9; 100, lower values and NaN are unchanged; afterwards no present hur exceeds 100 |
| Extraction.ClampWind | CLIMBra_extration.py:112 | a negative wind becomes 0.5; others unchanged; afterwards wind ≥ 0 |
| Extraction.ClampRain | CLIMBra_extration.py:113 | a negative rain becomes 0; others unchanged; afterwards rain ≥ 0 |
| Extraction.ClampRadiation | CLIMBra_extration.py:114 | kJ radiation below 3 becomes 3; others unchanged; afterwards rss ≥ 3 |
| Extraction.NullInverted | CLIMBra_extration.py:117-118 | exactly the rows with tasmin > tasmax get both temperatures nulled; nothing else changes; no inverted pair remains |
| Extraction.CorrectSpec | CLIMBra_extration.py:111-118 | a corrected row is within bounds, keeps key, MJ radiation and CO2, and has each cell as the matching clamp or mask gives it |
| Extraction.CorrectIdempotent | CLIMBra_extration.py:111-118 | correcting twice gives the same row as correcting once |
| Extraction.CorrectKeepsValidRow | CLIMBra_extration.py:111-118 | a row already within bounds is unchanged |
| Extraction.CorrectRadiationAgreement | CLIMBra_extration.py:114 | the clamp never touches the MJ copy; kJ = 1000 × MJ survives exactly when MJ is missing or ≥ 0.003 |
| Extraction.VapourPressureBounds | CLIMBra_extration.py:121-124 | where the saturation pressure es at the mean temperature is positive, hu_kPa is at most es when hur ≤ 100, non-negative when hur ≥ 0, negative when hur < 0, and equal to es exactly when hur = 100 |
| Extraction.DeriveSpec | CLIMBra_extration.py:121-132 | DD, MM, YYYY are the date's components; YYYYDDD reads back as year·1000 + day of year; Wind_km/h = 3.6 × sfcWind; measured columns are carried over |
| Extraction.CorrectedWind | CLIMBra_extration.py:112-127 | after correction Wind_km/h is never negative and is 3.6 × the corrected wind; a negative wind gives 1.8 km/h |
| Merging.DropDuplicatesSpec | CLIMBra_extration.py:98 | drop_duplicates keeps exactly the first row of every key, in first-appearance order; keys are then unique and none is lost |
| Merging.MergeSpec | CLIMBra_extration.py:92-98 | a merge step keeps every key of the accumulated table and no other, each once, in order, filled from the first matching frame row or NaN |
| Merging.MergeUniqueKeys | CLIMBra_extration.py:92-98 | merging into a table with unique keys keeps its keys and their order |
| Merging.Co2Lookup | CLIMBra_extration.py:107 | the CO2 value is missing exactly when the table has no line for the year; otherwise it comes from a line for that year |
| Merging.Co2JoinUniqueYears | CLIMBra_extration.py:105-108 | with one line per year, the CO2 join keeps every row in order and sets only its CO2 to the year's value |
| Merging.Co2RowRepeats | CLIMBra_extration.py:105-108 | a row whose year the table lists k ≥ 1 times becomes k copies of the row, one per matching line in table order, each with that line's CO2 and nothing else changed; a year the table lacks gives the row once, with NaN |
| Merging.Co2JoinConcat | CLIMBra_extration.py:107 | the join works row by row: joining two tables one after the other gives the two joins one after the other |
| Merging.Co2JoinDuplicatesRows | CLIMBra_extration.py:107 | an instance: a year listed twice, with 400 and 410, turns its row into two rows with those values, since no de-duplication follows |
| Extractor.BuildVarFrame | CLIMBra_extration.py:62-87 | the station loop's concatenation equals the per-variable frame function |
| Extractor.StationFrameSpec | CLIMBra_extration.py:68-83 | after interpolation a station frame keeps the key, date and every present value; for rss the MJ copy and kJ = 1000 × MJ |
| Extractor.VarFrameStations | CLIMBra_extration.py:64-87 | a variable's frame has one row per station time step, and each row's key is the name, coordinates and altitude of a station of the table with one of that station's sampled dates |
| Extractor.MergeVariables | CLIMBra_extration.py:56-102 | the variable loop (first frame taken as-is, later frames merged, missing files skipped) equals its specification |
| Extractor.MergeAllKeepsKeys | CLIMBra_extration.py:89-98 | once the table has rows, later merges keep its distinct keys and add columns |
| Extractor.MergeAllSettlesKeys | CLIMBra_extration.py:89-98 | after at least one later merge, the table's keys are the distinct keys of the first table, each once; the first table is not de-duplicated |
| Extractor.MissingColumn | CLIMBra_extration.py:105-140 | the run raises exactly when a variable column or the CO2 column is missing, naming the first column touched |
| Extractor.ApplyCorrections | CLIMBra_extration.py:111-118 | the in-place pass over the table leaves each row corrected |
| Extractor.InterpolateTemperatures | CLIMBra_extration.py:119 | both temperature columns are replaced by their interpolated versions over the whole table |
| Extractor.DeriveColumns | CLIMBra_extration.py:121-132 | the derived output rows are the table's rows each derived, in order |
| Extractor.Finish | CLIMBra_extration.py:111-134 | corrections, interpolation and derivations on the joined table give the output rows |
| Extractor.OutputSpec | CLIMBra_extration.py:111-132 | every output row is within the corrected bounds, has Wind_km/h = 3.6 × wind and a readable YYYYDDD; non-inverted temperatures survive; hu_kPa is computed from the row's own final temperatures and humidity |
| Extractor.RowVapourPressure | CLIMBra_extration.py:111-124 | in an output row, where the saturation pressure at the mean temperature is positive, hu_kPa never exceeds it, and hu_kPa is negative exactly when the humidity is |
| Extractor.ReadFrames | CLIMBra_extration.py:56-102 | each variable whose file exists gets its frame and a missing file gives none; it raises the "No objects to concatenate" ValueError exactly when some variable's file exists while there is no station |
| Extractor.Extract | CLIMBra_extration.py:53-140 | with no station and some variable file present the run fails with that ValueError; otherwise it fails with the missing column's name, or yields the corrected, derived rows of the merged, CO2-joined table |
| Columns.ColumnOrder | CLIMBra_extration.py:136-138 | column_order starts with City, Latitude, Longitude, Altitude, DD, MM, YYYY, ends with YYYYDDD, CO2ppm, and holds the rest in table order |
| Columns.ColumnOrderPermutes | CLIMBra_extration.py:136-140 | for columns without repeats the order repeats none; when all leading and trailing names exist, it holds exactly the table's columns |
| Columns.OutputColumns | CLIMBra_extration.py:68-140 | the output file's columns are the fixed list, without repeats, and none of the table's columns is lost |
| Grouping.UniqueCitiesSpec | SWAP_station_gen.py:62 | `unique()` lists every city of the table once, and no other |
| Grouping.CityRowsSpec | SWAP_station_gen.py:63 | a city's selection has as many rows as the table has for the city, is empty exactly when the city is absent, and starts with the city's first row |
| Grouping.CityRowsConcat | SWAP_station_gen.py:63 | the selection works row by row: selecting from two tables one after the other gives the two selections one after the other (and `CityRowsOne`: a single row is kept exactly when it is of the city), so a city's selection is exactly its rows, in table order |
| Grouping.GroupsCoverRows | SWAP_station_gen.py:62-63 | the city groups together hold every row exactly once |
| Grouping.GroupKeysSpec | DSSAT_station_gen.py:66 | `groupby('City')` visits each distinct city once, in ascending order |
| Dssat.InsiSpec | DSSAT_station_gen.py:9-13 | two or more words: fails exactly when word 2 has one character, else "BR" + upper(w1[0] w2[0] w2[1]); otherwise "BR" + upper(first three characters) |
| Dssat.InsiLength | DSSAT_station_gen.py:12-13 | every identifier starts with "BR"; without ß it has at most 5 characters, exactly 5 for two or more words |
| Dssat.InsiOneWord | DSSAT_station_gen.py:13 | "Piracicaba" gives "BRPIR" |
| Dssat.InsiTwoWords | DSSAT_station_gen.py:12 | "Sao Paulo" gives "BRSPA" |
| Dssat.InsiShortSecondWord | DSSAT_station_gen.py:12 | "Campo X" raises |
| Dssat.WthFileNameSpec | DSSAT_station_gen.py:75-78 | the file name is INSI, the scenario's last two characters, "80" for hist or "15" otherwise, then ".WTH" |
| Dssat.WthFileNamesDistinct | DSSAT_station_gen.py:75-78 | hist, ssp245 and ssp585 give "…st80.WTH", "…4515.WTH" and "…8515.WTH" |
| Dssat.WthLines | DSSAT_station_gen.py:17-25 | the file has 4 + n lines for n rows |
| Dssat.WthContentLines | DSSAT_station_gen.py:16-27 | for a city, scenario and INSI without line breaks, the content splits on newlines into exactly the title, the two fixed headers around the station line, and one daily line per row in order; it has 3 + n newlines and none at the end |
| Dssat.StationLineLayout | DSSAT_station_gen.py:20 | the station line is exactly two spaces and INSI, then latitude, longitude and elevation each after two spaces, left-justified to 7, 8 and 5, then " 0.0   0.0   2.0  10.0" |
| Dssat.StationLineStart | DSSAT_station_gen.py:20 | the station line starts with two spaces, INSI and two spaces |
| Dssat.StationLineWords | DSSAT_station_gen.py:20 | the station line's fields are INSI, lat, long, elev, then the constants 0.0, 0.0, 2.0, 10.0 |
| Dssat.DailyLineStart | DSSAT_station_gen.py:24 | a daily line starts with the integer YYYYDDD left-justified to 6, never truncated |
| Dssat.DailyLineWords | DSSAT_station_gen.py:24 | a daily line's fields are the code, SRAD (MJ), TMAX, TMIN, RAIN, WIND (km/h), RHUM and CO2; DEWP and PAR are blank |
| Dssat.DailyLineLength | DSSAT_station_gen.py:24 | when each value fits its 4 characters, the line is the code's padded width plus 54 characters |
| Dssat.CityFile | DSSAT_station_gen.py:66-81 | a city's file fails exactly when its identifier does |
| Dssat.CityFileSpec | DSSAT_station_gen.py:66-81 | a city's file is named from INSI and the scenario, with the first row's coordinates and one daily line per row of the city in table order |
| Dssat.CollectSpec | DSSAT_station_gen.py:66-88 | the run writes the files of the leading successful cities in order and stops at the first error |
| Dssat.WthRunSpec | DSSAT_station_gen.py:66-88 | files for the distinct cities in ascending order, each the city's file; the run fails exactly when some city's identifier cannot be built, stopping at that city, and otherwise writes one file per distinct city |
| Dssat.DirectorySpec | DSSAT_station_gen.py:84-88 | the directory holds a file for each name written, with the content of the last file written under that name |
| Swap.MappingSources | SWAP_station_gen.py:26-37 | every mapped column exists in the extractor output, and the new names are station, DD, MM, YYYY, Rad, Tmin, Tmax, Hum, Wind, Rain |
| Swap.SelectFollowsMapping | SWAP_station_gen.py:66 | each renamed column holds its source column: Rad is rss_kJ/m2d, Wind is sfcWind (m/s), Hum is hu_kPa, dates pass through |
| Swap.Nearest | SWAP_station_gen.py:69-74 | the rounded integer is at most half a unit from its argument |
| Swap.RoundToSpec | SWAP_station_gen.py:69-74 | a rounded value is a whole number of steps of 10^-n, at most half a step from the value |
| Swap.RoundToIdempotent | SWAP_station_gen.py:69-74 | rounding twice gives the same value as rounding once |
| Swap.ShapeRoundingSettled | SWAP_station_gen.py:69-74 | rounding any column of a shaped row again changes nothing |
| Swap.WetFlagSpec | SWAP_station_gen.py:81 | Wet is 1.0 exactly when rain is present and > 5, and 0.0 otherwise |
| Swap.WetFlagBoundary | SWAP_station_gen.py:80-81 | rain 5.0 gives 0.0, 5.1 gives 1.0, NaN gives 0.0 |
| Swap.WetFromRawRain | SWAP_station_gen.py:72-81 | since Rain is rounded first, a raw rain is wet exactly when it is above 5.05 |
| Swap.RemoveSpaces | SWAP_station_gen.py:84 | the result has no space and is shorter by the number of spaces |
| Swap.StationNameSpec | SWAP_station_gen.py:84 | station_name has no space and has min(6, space-free length) characters; it is a prefix of the space-free city |
| Swap.StationNamesCollide | SWAP_station_gen.py:84-88 | "Campinas" and "Campina Grande" share a station name, and so a file |
| Swap.QuotedStationSpec | SWAP_station_gen.py:85 | the station value is station_name + scenario enclosed in single quotes |
| Swap.MetFileNameSpec | SWAP_station_gen.py:88 | the file name is station_name + scenario + ".met" |
| Swap.ShapeSpec | SWAP_station_gen.py:66-85 | a shaped row keeps the date, holds the selected values rounded, ETref -999.0, Wet from the rounded rain, and the quoted station |
| Swap.MetData.constructor | SWAP_station_gen.py:66 | the table starts as the city's rows selected, under the ten selected column names |
| Swap.MetData.RoundColumn | SWAP_station_gen.py:69-74 | one column is rounded in every row, and nothing else changes |
| Swap.MetData.RoundSelectedColumns | SWAP_station_gen.py:69-74 | the six rounding statements together round Rad, Tmin, Tmax, Rain and Wind to tenths and Hum to thousandths in every row |
| Swap.MetData.SetFixedColumns | SWAP_station_gen.py:77-85 | the three assignments together append ETref, Wet and station to the header as the script does and give every row ETref -999.0, the wet flag of its rain and the quoted station |
| Swap.MetData.SetETref | SWAP_station_gen.py:77 | ETref is appended to the header and set to -999.0 on every row |
| Swap.MetData.SetWet | SWAP_station_gen.py:81 | Wet is appended to the header and set on every row from that row's Rain |
| Swap.MetData.SetStation | SWAP_station_gen.py:85 | station keeps its header place and every row gets the quoted value |
| Swap.MetTable | SWAP_station_gen.py:66-85 | the finished table has columns station, DD, MM, YYYY, Rad, Tmin, Tmax, Hum, Wind, Rain, ETref, Wet and each city row shaped, in order |
| Swap.FilterCity | SWAP_station_gen.py:63 | the filter loop yields exactly the city's rows in table order |
| Swap.MetRun | SWAP_station_gen.py:62-89 | the city loop yields one file per distinct city, in first-appearance order |
| Swap.MetFilesSpec | SWAP_station_gen.py:62-89 | the files hold every row exactly once; each city's file holds its rows in order, shaped, with the same quoted station, ETref -999.0 and Wet 0.0 or 1.0 |
| Text.ZeroPad | CLIMBra_extration.py:132 | `{:0Nd}`: zeros in front up to the width, the digits kept at the end |
| Text.LJust | DSSAT_station_gen.py:20 | `{:<N}`: the text, then spaces up to the width, never truncated |
| Text.RJust | DSSAT_station_gen.py:24 | `{:>N}`: spaces up to the width, then the text, never truncated |
| Text.SplitJoin | DSSAT_station_gen.py:27 | splitting a newline-joined text gives back its lines when none contains a newline |
| Text.WordsWellFormed | DSSAT_station_gen.py:10 | every word of `split()` is non-empty and holds no whitespace |

## Left out

- NetCDF reading, the time slice from the scenario's start date, and the nearest-grid-cell selection are left out. Each station's sampled series is an input (`Extraction.Sampled`). Tie-breaking between equidistant cells is not modelled.
- pandas `interpolate(method='linear')` is a parameter (`Extractor.Interpolation`). The model assumes only that it keeps the column length and every present value. How it fills leading or trailing gaps, index spacing, and the 29 February question raised in the extractor's header comment are not modelled.
- Extraction.VapourPressure: the saturation pressure `0.6108·exp(17.27·T/(T+237.3))` is a parameter `es`, because `exp` on floating point is not modelled.
- Floating-point arithmetic is left out. Cells are exact reals, so the ×1000, ×3.6 and /100 products, and comparisons of values such as 5.05, hold exactly rather than to binary precision.
- Swap.RoundToSpec: `round(1)`/`round(3)` is modelled as exact round-half-to-even on reals. The binary representation error of numpy's rounding is not modelled.
- Float-to-text formatting (`{:.1f}`, `{:.3f}`, `{:.0f}`) is a parameter `Dssat.Formatter`. The model assumes only that it gives a non-empty, whitespace-free text, and "nan" for NaN.
- Writing the files (`to_csv`, `open().write`), `os.makedirs`, `os.path.exists`, `print` and the hard-coded paths are left out, and so are the loops over the ten models and three scenarios. The `.met` files are modelled as a header and rows, not as CSV text. A missing extractor CSV skips a (model, scenario) pair; that skip happens in the driver, which is not modelled.
- The extractor output is passed to the two writers as `Extraction.OutRow` values, not read back from CSV. `int(linha['YYYYDDD'])` is modelled as reading the digit string back as a number.
- Dssat.InsiLength: states the five-character bound only for names without ß, and `Text.Upper` covers only ASCII and Latin-1 case mapping. Other Unicode case mappings are not modelled.
- Columns.OutputColumns: the column list is proved only for a run in which all six variables and the CO2 table were read. Other runs raise `KeyError`, which `Extractor.MissingColumn` models.
- Merge keys compare exactly. Float keys that differ in the last bit, and NaN keys, are not modelled.
