/**
 * Splitting the extractor's output table by city, as both station writers do
 * (SWAP_station_gen.py lines 62-63, DSSAT_station_gen.py line 66): the
 * distinct cities in order of first appearance, and each city's rows.
 */
module Grouping {
  import opened Extraction

  /** The cities of `rows` not in `seen`, each once, in order of first appearance. */
  function CitiesFrom(rows: seq<OutRow>, seen: set<string>): seq<string>
    decreases |rows|
  {
    if rows == [] then []
    else if rows[0].city in seen then CitiesFrom(rows[1..], seen)
    else [rows[0].city] + CitiesFrom(rows[1..], seen + {rows[0].city})
  }

  /** `csv_data['City'].unique()`: every city once, in order of first appearance. */
  function UniqueCities(rows: seq<OutRow>): seq<string> {
    CitiesFrom(rows, {})
  }

  predicate Distinct(cs: seq<string>) {
    forall i, j :: 0 <= i < j < |cs| ==> cs[i] != cs[j]
  }

  predicate HasCity(rows: seq<OutRow>, c: string) {
    exists i :: 0 <= i < |rows| && rows[i].city == c
  }

  lemma {:induction false} CitiesFromSpec(rows: seq<OutRow>, seen: set<string>)
    ensures Distinct(CitiesFrom(rows, seen))
    ensures forall c :: c in CitiesFrom(rows, seen) <==> HasCity(rows, c) && c !in seen
    decreases |rows|
  {
    if rows != [] {
      var seen' := if rows[0].city in seen then seen else seen + {rows[0].city};
      CitiesFromSpec(rows[1..], seen');
      forall c ensures HasCity(rows, c) <==> c == rows[0].city || HasCity(rows[1..], c) {
        if HasCity(rows, c) && c != rows[0].city {
          var i :| 0 <= i < |rows| && rows[i].city == c;
          assert rows[1..][i - 1].city == c;
        }
        if HasCity(rows[1..], c) {
          var i :| 0 <= i < |rows[1..]| && rows[1..][i].city == c;
          assert rows[i + 1].city == c;
        }
      }
    }
  }

  /**
   * The distinct cities are listed once each, and a city is listed exactly
   * when some row has it.
   */
  lemma UniqueCitiesSpec(rows: seq<OutRow>)
    ensures Distinct(UniqueCities(rows))
    ensures forall c :: c in UniqueCities(rows) <==> HasCity(rows, c)
  {
    CitiesFromSpec(rows, {});
  }

  /** `csv_data[csv_data['City'] == city]`: the rows of that city, in table order. */
  function CityRows(rows: seq<OutRow>, c: string): (sel: seq<OutRow>)
    ensures |sel| <= |rows|
    ensures forall r :: r in sel ==> r in rows && r.city == c
    decreases |rows|
  {
    if rows == [] then []
    else (if rows[0].city == c then [rows[0]] else []) + CityRows(rows[1..], c)
  }

  /** The number of rows of city `c`. */
  function CountCity(rows: seq<OutRow>, c: string): nat
    decreases |rows|
  {
    if rows == [] then 0 else (if rows[0].city == c then 1 else 0) + CountCity(rows[1..], c)
  }

  /**
   * A city's rows are every row of that city and no other, in table order:
   * they are as many as the rows with that city, the first of them is the
   * first row of the table with that city, and a city with no row gets none.
   */
  lemma {:induction false} CityRowsSpec(rows: seq<OutRow>, c: string)
    ensures |CityRows(rows, c)| == CountCity(rows, c)
    ensures HasCity(rows, c) <==> |CityRows(rows, c)| > 0
    ensures HasCity(rows, c) ==> CityRows(rows, c)[0] == rows[FirstIndex(rows, c)]
    decreases |rows|
  {
    if rows != [] {
      var tail := rows[1..];
      CityRowsSpec(tail, c);
      if rows[0].city != c {
        assert CityRows(rows, c) == CityRows(tail, c);
        HasCityTail(rows, c);
      } else {
        assert rows[0] == CityRows(rows, c)[0];
      }
    }
  }

  /** Past a row of another city, the city and its first row are found in the rest of the table. */
  lemma HasCityTail(rows: seq<OutRow>, c: string)
    requires rows != [] && rows[0].city != c
    ensures HasCity(rows, c) <==> HasCity(rows[1..], c)
    ensures HasCity(rows, c) ==> rows[FirstIndex(rows, c)] == rows[1..][FirstIndex(rows[1..], c)]
  {
    var tail := rows[1..];
    if HasCity(rows, c) {
      var i :| 0 <= i < |rows| && rows[i].city == c;
      assert tail[i - 1].city == c;
    }
    if HasCity(tail, c) {
      var i :| 0 <= i < |tail| && tail[i].city == c;
      assert rows[i + 1].city == c;
    }
  }

  /** The position of the first row of city `c`. */
  function FirstIndex(rows: seq<OutRow>, c: string): (i: nat)
    requires HasCity(rows, c)
    ensures i < |rows| && rows[i].city == c
    ensures forall j :: 0 <= j < i ==> rows[j].city != c
    decreases |rows|
  {
    if rows[0].city == c then 0
    else
      assert HasCity(rows[1..], c) by {
        var k :| 0 <= k < |rows| && rows[k].city == c;
        assert rows[1..][k - 1].city == c;
      }
      var i := 1 + FirstIndex(rows[1..], c);
      assert forall j :: 1 <= j < i ==> rows[j] == rows[1..][j - 1];
      i
  }

  /**
   * The filter works row by row: the selection of a concatenation is the
   * selections concatenated; with `CityRowsOne` (a single row is kept
   * exactly when it has city `c`) this fixes the selection as the rows of `c`
   * in table order, each once.
   */
  lemma {:induction false} CityRowsConcat(a: seq<OutRow>, b: seq<OutRow>, c: string)
    ensures CityRows(a + b, c) == CityRows(a, c) + CityRows(b, c)
    ensures CountCity(a + b, c) == CountCity(a, c) + CountCity(b, c)
    decreases |a|
  {
    if a == [] {
      assert a + b == b;
    } else {
      assert (a + b)[1..] == a[1..] + b;
      CityRowsConcat(a[1..], b, c);
    }
  }

  lemma CityRowsOne(r: OutRow, c: string)
    ensures CityRows([r], c) == (if r.city == c then [r] else [])
  {
    assert [r][1..] == [];
  }

  /** The total of the counts of cities `cs`. */
  function CountAll(rows: seq<OutRow>, cs: seq<string>): nat {
    if cs == [] then 0 else CountCity(rows, cs[0]) + CountAll(rows, cs[1..])
  }

  /** The groups of the cities not yet seen hold exactly the rows whose city was not seen. */
  lemma {:induction false} CitiesFromPartition(rows: seq<OutRow>, seen: set<string>)
    ensures CountAll(rows, CitiesFrom(rows, seen)) == |rows| - CountIn(rows, seen)
    decreases |rows|
  {
    if rows != [] {
      var c := rows[0].city;
      if c in seen {
        CitiesFromPartition(rows[1..], seen);
        CitiesFromSpec(rows[1..], seen);
        CountAllTail(rows, CitiesFrom(rows[1..], seen));
      } else {
        CitiesFromPartition(rows[1..], seen + {c});
        CitiesFromSpec(rows[1..], seen + {c});
        CountAllTail(rows, CitiesFrom(rows[1..], seen + {c}));
        CountInAdd(rows[1..], seen, c);
      }
    }
  }

  /** The number of rows whose city is in `seen`. */
  function CountIn(rows: seq<OutRow>, seen: set<string>): nat
    decreases |rows|
  {
    if rows == [] then 0 else (if rows[0].city in seen then 1 else 0) + CountIn(rows[1..], seen)
  }

  lemma {:induction false} CountAllTail(rows: seq<OutRow>, cs: seq<string>)
    requires rows != []
    requires rows[0].city !in cs
    ensures CountAll(rows, cs) == CountAll(rows[1..], cs)
    decreases |cs|
  {
    if cs != [] {
      CountAllTail(rows, cs[1..]);
    }
  }

  lemma {:induction false} CountInAdd(rows: seq<OutRow>, seen: set<string>, c: string)
    requires c !in seen
    ensures CountIn(rows, seen + {c}) == CountIn(rows, seen) + CountCity(rows, c)
    decreases |rows|
  {
    if rows != [] {
      CountInAdd(rows[1..], seen, c);
    }
  }

  /** Every row belongs to exactly one group: the group sizes add up to the table's size. */
  lemma GroupsCoverRows(rows: seq<OutRow>)
    ensures CountAll(rows, UniqueCities(rows)) == |rows|
  {
    CitiesFromPartition(rows, {});
    CountInEmpty(rows);
  }

  lemma {:induction false} CountInEmpty(rows: seq<OutRow>)
    ensures CountIn(rows, {}) == 0
    decreases |rows|
  {
    if rows != [] {
      CountInEmpty(rows[1..]);
    }
  }

  // ---------------------------------------------------------------------------
  // `df.groupby('City')`: the group keys in ascending order
  // ---------------------------------------------------------------------------

  /** Python's `a < b` on strings: code point by code point, a proper prefix first. */
  predicate Below(a: string, b: string)
    decreases |a|
  {
    if a == [] then b != []
    else if b == [] then false
    else if a[0] != b[0] then a[0] < b[0]
    else Below(a[1..], b[1..])
  }

  lemma {:induction false} BelowIrreflexive(a: string)
    ensures !Below(a, a)
    decreases |a|
  {
    if a != [] {
      BelowIrreflexive(a[1..]);
    }
  }

  lemma {:induction false} BelowAsymmetric(a: string, b: string)
    requires Below(a, b)
    ensures !Below(b, a)
    decreases |a|
  {
    if a != [] && b != [] && a[0] == b[0] {
      BelowAsymmetric(a[1..], b[1..]);
    }
  }

  lemma {:induction false} BelowTransitive(a: string, b: string, c: string)
    requires Below(a, b) && Below(b, c)
    ensures Below(a, c)
    decreases |a|
  {
    if a != [] && a[0] == b[0] && b[0] == c[0] {
      BelowTransitive(a[1..], b[1..], c[1..]);
    }
  }

  /** Two different strings are always ordered one way or the other. */
  lemma {:induction false} BelowTotal(a: string, b: string)
    requires a != b
    ensures Below(a, b) || Below(b, a)
    decreases |a|
  {
    if a != [] && b != [] && a[0] == b[0] {
      assert a == [a[0]] + a[1..] && b == [b[0]] + b[1..];
      BelowTotal(a[1..], b[1..]);
    }
  }

  predicate Ascending(cs: seq<string>) {
    forall i, j :: 0 <= i < j < |cs| ==> Below(cs[i], cs[j])
  }

  /** `x` put in front of the first key above it. */
  function Insert(x: string, cs: seq<string>): seq<string>
    decreases |cs|
  {
    if cs == [] then [x]
    else if Below(x, cs[0]) then [x] + cs
    else [cs[0]] + Insert(x, cs[1..])
  }

  function Sort(cs: seq<string>): seq<string>
    decreases |cs|
  {
    if cs == [] then [] else Insert(cs[0], Sort(cs[1..]))
  }

  lemma {:induction false} InsertSpec(x: string, cs: seq<string>)
    requires Ascending(cs) && x !in cs
    ensures Ascending(Insert(x, cs))
    ensures multiset(Insert(x, cs)) == multiset(cs) + multiset{x}
    decreases |cs|
  {
    if cs != [] {
      BelowTotal(x, cs[0]);
      if !Below(x, cs[0]) {
        var rest := cs[1..];
        assert Ascending(rest);
        assert x !in rest;
        InsertSpec(x, rest);
        InsertAfterHead(x, cs);
      } else {
        forall j | 0 < j < |cs| ensures Below(x, cs[j]) {
          BelowTransitive(x, cs[0], cs[j]);
        }
      }
    }
  }

  /** The step of `InsertSpec` where `x` goes after the first key. */
  lemma InsertAfterHead(x: string, cs: seq<string>)
    requires cs != [] && Ascending(cs) && Below(cs[0], x)
    requires Ascending(Insert(x, cs[1..]))
    requires multiset(Insert(x, cs[1..])) == multiset(cs[1..]) + multiset{x}
    ensures Insert(x, cs) == [cs[0]] + Insert(x, cs[1..])
    ensures Ascending(Insert(x, cs))
    ensures multiset(Insert(x, cs)) == multiset(cs) + multiset{x}
  {
    var rest := cs[1..];
    var ins := Insert(x, rest);
    BelowAsymmetric(cs[0], x);
    assert cs == [cs[0]] + rest;
    assert forall k :: 0 <= k < |rest| ==> rest[k] == cs[k + 1];
    HeadBelowAll(cs[0], x, rest, ins);
    PrependAscending(cs[0], ins);
  }

  /** A key below `x` and below every key of `rest` is below every key of a permutation of `rest + [x]`. */
  lemma HeadBelowAll(h: string, x: string, rest: seq<string>, ins: seq<string>)
    requires Below(h, x) && forall k :: 0 <= k < |rest| ==> Below(h, rest[k])
    requires multiset(ins) == multiset(rest) + multiset{x}
    ensures forall j :: 0 <= j < |ins| ==> Below(h, ins[j])
  {
    forall j | 0 <= j < |ins| ensures Below(h, ins[j]) {
      assert ins[j] in multiset(ins);
      if ins[j] != x {
        assert ins[j] in multiset(rest);
      }
    }
  }

  lemma PrependAscending(h: string, s: seq<string>)
    requires Ascending(s) && forall j :: 0 <= j < |s| ==> Below(h, s[j])
    ensures Ascending([h] + s)
  {
    forall i, j | 0 <= i < j < |[h] + s| ensures Below(([h] + s)[i], ([h] + s)[j]) {
      if i > 0 {
        assert ([h] + s)[i] == s[i - 1];
      }
      assert ([h] + s)[j] == s[j - 1];
    }
  }

  /** Sorting distinct keys lists each of them once, in ascending order. */
  lemma {:induction false} SortSpec(cs: seq<string>)
    requires Distinct(cs)
    ensures Ascending(Sort(cs))
    ensures multiset(Sort(cs)) == multiset(cs)
    decreases |cs|
  {
    if cs != [] {
      assert Distinct(cs[1..]);
      SortSpec(cs[1..]);
      assert cs == [cs[0]] + cs[1..];
      assert cs[0] !in cs[1..];
      assert cs[0] !in multiset(Sort(cs[1..]));
      InsertSpec(cs[0], Sort(cs[1..]));
    }
  }

  /** The keys `groupby('City')` visits: the distinct cities, sorted. */
  function GroupKeys(rows: seq<OutRow>): seq<string> {
    Sort(UniqueCities(rows))
  }

  /**
   * The group keys are in strictly ascending order (so none repeats), there
   * are as many as distinct cities, and a city is a key exactly when some row
   * has it.
   */
  lemma GroupKeysSpec(rows: seq<OutRow>)
    ensures Ascending(GroupKeys(rows))
    ensures Distinct(GroupKeys(rows))
    ensures |GroupKeys(rows)| == |UniqueCities(rows)|
    ensures forall c :: c in GroupKeys(rows) <==> HasCity(rows, c)
  {
    UniqueCitiesSpec(rows);
    var keys := GroupKeys(rows);
    SortSpec(UniqueCities(rows));
    assert |keys| == |multiset(keys)|;
    forall c ensures c in keys <==> c in UniqueCities(rows) {
      assert c in keys <==> c in multiset(keys);
    }
    forall i, j | 0 <= i < j < |keys| ensures keys[i] != keys[j] {
      BelowIrreflexive(keys[i]);
    }
  }
}
