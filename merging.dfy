/**
 * The table operations of the extractor's merge (CLIMBra_extration.py lines
 * 89-108): pandas' left join on the five-field key, `drop_duplicates` keeping
 * the first row of each key, and the left join of the CO2 table by year.
 */
module Merging {
  import opened Wrappers
  import opened Extraction

  function Keys(rows: seq<Row>): (ks: seq<Key>)
    ensures |ks| == |rows| && forall i :: 0 <= i < |rows| ==> ks[i] == rows[i].key
  {
    seq(|rows|, i requires 0 <= i < |rows| => rows[i].key)
  }

  predicate Unique(ks: seq<Key>) {
    forall i, j :: 0 <= i < j < |ks| ==> ks[i] != ks[j]
  }

  lemma KeysConcat(a: seq<Row>, b: seq<Row>)
    ensures Keys(a + b) == Keys(a) + Keys(b)
  {
  }

  // ---------------------------------------------------------------------------
  // drop_duplicates(subset=key): the first row of each key, in order
  // ---------------------------------------------------------------------------

  /** The keys of `ks` not in `seen`, each once, in order of first appearance. */
  function DistinctFrom(ks: seq<Key>, seen: set<Key>): seq<Key> {
    if ks == [] then []
    else if ks[0] in seen then DistinctFrom(ks[1..], seen)
    else [ks[0]] + DistinctFrom(ks[1..], seen + {ks[0]})
  }

  function Distinct(ks: seq<Key>): seq<Key> {
    DistinctFrom(ks, {})
  }

  /** The distinct keys are unique, none was already seen, and together they are the keys of `ks` not seen before. */
  lemma {:induction false} DistinctFromSpec(ks: seq<Key>, seen: set<Key>)
    ensures Unique(DistinctFrom(ks, seen))
    ensures forall k :: k in DistinctFrom(ks, seen) <==> k in ks && k !in seen
    decreases |ks|
  {
    if ks != [] {
      if ks[0] in seen {
        DistinctFromSpec(ks[1..], seen);
      } else {
        DistinctFromSpec(ks[1..], seen + {ks[0]});
      }
      assert forall k :: k in ks <==> k == ks[0] || k in ks[1..];
    }
  }

  /** A sequence of unique keys none of which was seen is its own distinct sequence. */
  lemma {:induction false} DistinctFromUnique(ks: seq<Key>, seen: set<Key>)
    requires Unique(ks)
    requires forall k :: k in ks ==> k !in seen
    ensures DistinctFrom(ks, seen) == ks
    decreases |ks|
  {
    if ks != [] {
      assert ks[0] !in ks[1..];
      DistinctFromUnique(ks[1..], seen + {ks[0]});
    }
  }

  /** The rows of `rows` whose key was not seen before, keeping the first row of each key. */
  function DedupFrom(rows: seq<Row>, seen: set<Key>): seq<Row> {
    if rows == [] then []
    else if rows[0].key in seen then DedupFrom(rows[1..], seen)
    else [rows[0]] + DedupFrom(rows[1..], seen + {rows[0].key})
  }

  /** `drop_duplicates(subset=[City, Latitude, Longitude, Altitude, Date])`, keeping the first. */
  function DropDuplicates(rows: seq<Row>): seq<Row> {
    DedupFrom(rows, {})
  }

  lemma {:induction false} DedupKeys(rows: seq<Row>, seen: set<Key>)
    ensures Keys(DedupFrom(rows, seen)) == DistinctFrom(Keys(rows), seen)
    decreases |rows|
  {
    if rows != [] {
      assert Keys(rows)[1..] == Keys(rows[1..]);
      if rows[0].key in seen {
        DedupKeys(rows[1..], seen);
      } else {
        DedupKeys(rows[1..], seen + {rows[0].key});
        KeysConcat([rows[0]], DedupFrom(rows[1..], seen + {rows[0].key}));
      }
    }
  }

  /** The first row of `rows` with key `k`. */
  function FirstWithKey(rows: seq<Row>, k: Key): (r: Row)
    requires k in Keys(rows)
    ensures r in rows && r.key == k
  {
    if rows[0].key == k then rows[0]
    else
      assert k in Keys(rows[1..]) by {
        var i :| 0 <= i < |rows| && Keys(rows)[i] == k;
        assert Keys(rows[1..])[i - 1] == k;
      }
      FirstWithKey(rows[1..], k)
  }

  /** Every row kept by the deduplication is the first row of the input with its key. */
  lemma {:induction false} DedupKeepsFirst(rows: seq<Row>, seen: set<Key>)
    ensures forall j :: 0 <= j < |DedupFrom(rows, seen)| ==>
      DedupFrom(rows, seen)[j].key in Keys(rows) &&
      DedupFrom(rows, seen)[j] == FirstWithKey(rows, DedupFrom(rows, seen)[j].key)
    decreases |rows|
  {
    if rows != [] {
      var out := DedupFrom(rows, seen);
      var seen' := if rows[0].key in seen then seen else seen + {rows[0].key};
      var tail := DedupFrom(rows[1..], seen');
      DedupKeepsFirst(rows[1..], seen');
      DedupKeys(rows[1..], seen');
      DistinctFromSpec(Keys(rows[1..]), seen');
      forall j | 0 <= j < |tail|
        ensures tail[j].key in Keys(rows) && tail[j] == FirstWithKey(rows, tail[j].key)
      {
        assert Keys(tail)[j] == tail[j].key;
        assert tail[j].key in Keys(rows[1..]);
        var i :| 0 <= i < |rows[1..]| && Keys(rows[1..])[i] == tail[j].key;
        assert Keys(rows)[i + 1] == tail[j].key;
        assert tail[j].key != rows[0].key;
      }
      if rows[0].key !in seen {
        assert Keys(rows)[0] == rows[0].key;
        forall j | 0 <= j < |out|
          ensures out[j].key in Keys(rows) && out[j] == FirstWithKey(rows, out[j].key)
        {
          if j > 0 {
            assert out[j] == tail[j - 1];
          }
        }
      }
    }
  }

  /**
   * `drop_duplicates` keeps, in order of first appearance, exactly one row per
   * key of its input — the first one — so the keys it leaves are unique and
   * are all the keys it was given.
   */
  lemma DropDuplicatesSpec(rows: seq<Row>)
    ensures Keys(DropDuplicates(rows)) == Distinct(Keys(rows))
    ensures Unique(Keys(DropDuplicates(rows)))
    ensures forall k :: k in Keys(DropDuplicates(rows)) <==> k in Keys(rows)
    ensures forall j :: 0 <= j < |DropDuplicates(rows)| ==>
      DropDuplicates(rows)[j] == FirstWithKey(rows, DropDuplicates(rows)[j].key)
  {
    DedupKeys(rows, {});
    DistinctFromSpec(Keys(rows), {});
    DedupKeepsFirst(rows, {});
  }

  // ---------------------------------------------------------------------------
  // pd.merge(left, right, on=key, how='left')
  // ---------------------------------------------------------------------------

  /** The rows of `right` with key `k`, in order. */
  function Matches(k: Key, right: seq<Row>): (ms: seq<Row>)
    ensures forall i :: 0 <= i < |ms| ==> ms[i].key == k
    ensures |ms| == 0 <==> k !in Keys(right)
  {
    if right == [] then []
    else
      assert Keys(right) == [right[0].key] + Keys(right[1..]);
      if right[0].key == k then [right[0]] + Matches(k, right[1..]) else Matches(k, right[1..])
  }

  /** Row `x` with the columns of variable `v` taken from `y` (for radiation both the kJ and the MJ cell). */
  function Fill(x: Row, y: Row, v: Variable): (r: Row)
    ensures r.key == x.key
  {
    if v == Rss then x.(rss := y.rss, rssMJ := y.rssMJ) else Put(x, v, Get(y, v))
  }

  /** Row `x` with the columns of variable `v` set to NaN, as a left row without a match gets them. */
  function Unmatched(x: Row, v: Variable): (r: Row)
    ensures r.key == x.key
  {
    if v == Rss then x.(rss := None, rssMJ := None) else Put(x, v, None)
  }

  /** What a left join makes of one left row: one row per matching right row, or the row with NaN. */
  function JoinRow(x: Row, right: seq<Row>, v: Variable): (rs: seq<Row>)
    ensures |rs| >= 1
    ensures forall i :: 0 <= i < |rs| ==> rs[i].key == x.key
  {
    var ms := Matches(x.key, right);
    if ms == [] then [Unmatched(x, v)]
    else seq(|ms|, i requires 0 <= i < |ms| => Fill(x, ms[i], v))
  }

  /** The left join, in left order. */
  function LeftJoin(left: seq<Row>, right: seq<Row>, v: Variable): seq<Row> {
    if left == [] then [] else JoinRow(left[0], right, v) + LeftJoin(left[1..], right, v)
  }

  /** The left row joined with its first match only. */
  function JoinFirst(x: Row, right: seq<Row>, v: Variable): (r: Row)
    ensures r.key == x.key
  {
    var ms := Matches(x.key, right);
    if ms == [] then Unmatched(x, v) else Fill(x, ms[0], v)
  }

  /** One merge step of the variable loop: left join, then drop duplicates (lines 92-98). */
  function Merge(left: seq<Row>, right: seq<Row>, v: Variable): seq<Row> {
    DropDuplicates(LeftJoin(left, right, v))
  }

  /** Rows whose keys were all seen already are dropped. */
  lemma {:induction false} DedupSkipsSeen(skipped: seq<Row>, rest: seq<Row>, seen: set<Key>)
    requires forall i :: 0 <= i < |skipped| ==> skipped[i].key in seen
    ensures DedupFrom(skipped + rest, seen) == DedupFrom(rest, seen)
    decreases |skipped|
  {
    if skipped != [] {
      assert (skipped + rest)[1..] == skipped[1..] + rest;
      DedupSkipsSeen(skipped[1..], rest, seen);
    } else {
      assert skipped + rest == rest;
    }
  }

  /** Each left row joined with its first match, in order. */
  function Firsts(left: seq<Row>, right: seq<Row>, v: Variable): (fs: seq<Row>)
    ensures |fs| == |left|
    ensures forall i :: 0 <= i < |left| ==> fs[i] == JoinFirst(left[i], right, v)
    decreases |left|
  {
    if left == [] then [] else [JoinFirst(left[0], right, v)] + Firsts(left[1..], right, v)
  }

  /** Deduplicating a left join is deduplicating the left rows each joined with their first match. */
  lemma {:induction false} DedupLeftJoin(left: seq<Row>, right: seq<Row>, v: Variable, seen: set<Key>)
    ensures DedupFrom(LeftJoin(left, right, v), seen)
         == DedupFrom(Firsts(left, right, v), seen)
    decreases |left|
  {
    var firsts := Firsts(left, right, v);
    if left != [] {
      var x := left[0];
      var rs := JoinRow(x, right, v);
      var rest := LeftJoin(left[1..], right, v);
      var a := JoinFirst(x, right, v);
      assert rs[0] == a;
      assert rs + rest == [a] + (rs[1..] + rest);
      if x.key in seen {
        DedupSkipsSeen(rs[1..], rest, seen);
        DedupLeftJoin(left[1..], right, v, seen);
      } else {
        DedupSkipsSeen(rs[1..], rest, seen + {x.key});
        DedupLeftJoin(left[1..], right, v, seen + {x.key});
      }
    }
  }

  lemma {:induction false} FirstWithKeyMapped(left: seq<Row>, right: seq<Row>, v: Variable, k: Key)
    requires k in Keys(left)
    ensures k in Keys(Firsts(left, right, v))
    ensures FirstWithKey(Firsts(left, right, v), k)
         == JoinFirst(FirstWithKey(left, k), right, v)
    decreases |left|
  {
    var firsts := Firsts(left, right, v);
    assert Keys(firsts) == Keys(left);
    if left[0].key != k {
      assert k in Keys(left[1..]) by {
        var i :| 0 <= i < |left| && Keys(left)[i] == k;
        assert Keys(left[1..])[i - 1] == k;
      }
      FirstWithKeyMapped(left[1..], right, v, k);
    }
  }

  /**
   * One merge step keeps every key of the accumulated table and no other, each
   * exactly once, in order of first appearance; the row kept for a key is the
   * first accumulated row with that key, filled from the first matching row of
   * the variable's frame (NaN when there is none).
   */
  lemma MergeSpec(left: seq<Row>, right: seq<Row>, v: Variable)
    ensures Keys(Merge(left, right, v)) == Distinct(Keys(left))
    ensures Unique(Keys(Merge(left, right, v)))
    ensures forall k :: k in Keys(Merge(left, right, v)) <==> k in Keys(left)
    ensures forall j :: 0 <= j < |Merge(left, right, v)| ==>
      Merge(left, right, v)[j].key in Keys(left) &&
      Merge(left, right, v)[j] == JoinFirst(FirstWithKey(left, Merge(left, right, v)[j].key), right, v)
  {
    var firsts := Firsts(left, right, v);
    assert Keys(firsts) == Keys(left);
    DedupLeftJoin(left, right, v, {});
    DropDuplicatesSpec(firsts);
    var out := Merge(left, right, v);
    forall j | 0 <= j < |out|
      ensures out[j].key in Keys(left) && out[j] == JoinFirst(FirstWithKey(left, out[j].key), right, v)
    {
      assert Keys(out)[j] == out[j].key;
      FirstWithKeyMapped(left, right, v, out[j].key);
    }
  }

  /** Merging into a table whose keys are already unique keeps its rows and their order. */
  lemma MergeUniqueKeys(left: seq<Row>, right: seq<Row>, v: Variable)
    requires Unique(Keys(left))
    ensures Keys(Merge(left, right, v)) == Keys(left)
  {
    MergeSpec(left, right, v);
    DistinctFromUnique(Keys(left), {});
  }

  // ---------------------------------------------------------------------------
  // The CO2 join by year (lines 105-108)
  // ---------------------------------------------------------------------------

  /** One line of a scenario's CO2 table: CO2year, CO2ppm. */
  datatype Co2Entry = Co2Entry(year: int, ppm: real)

  function YearMatches(y: int, table: seq<Co2Entry>): (ms: seq<Co2Entry>)
    ensures forall i :: 0 <= i < |ms| ==> ms[i].year == y && ms[i] in table
  {
    if table == [] then []
    else if table[0].year == y then [table[0]] + YearMatches(y, table[1..])
    else YearMatches(y, table[1..])
  }

  /** The CO2 concentration the table gives for year `y` (the first line for that year), or NaN. */
  function Co2Lookup(y: int, table: seq<Co2Entry>): (c: Option<real>)
    ensures c.None? <==> forall e :: e in table ==> e.year != y
    ensures c.Some? ==> Co2Entry(y, c.value) in table
  {
    if table == [] then None
    else if table[0].year == y then Some(table[0].ppm)
    else Co2Lookup(y, table[1..])
  }

  /** What the left join by year makes of one row: one row per table line for its year, or the row with NaN. */
  function Co2Row(x: Row, table: seq<Co2Entry>): (rs: seq<Row>)
    ensures |rs| >= 1
  {
    var ms := YearMatches(x.key.date.year, table);
    if ms == [] then [x.(co2 := None)]
    else seq(|ms|, i requires 0 <= i < |ms| => x.(co2 := Some(ms[i].ppm)))
  }

  /** `df.merge(co2[['CO2year', 'CO2ppm']], left_on='YYYY', right_on='CO2year', how='left')`. */
  function Co2Join(rows: seq<Row>, table: seq<Co2Entry>): (out: seq<Row>)
    ensures |out| >= |rows|
  {
    if rows == [] then [] else Co2Row(rows[0], table) + Co2Join(rows[1..], table)
  }

  predicate UniqueYears(table: seq<Co2Entry>) {
    forall i, j :: 0 <= i < j < |table| ==> table[i].year != table[j].year
  }

  lemma {:induction false} YearMatchesUnique(y: int, table: seq<Co2Entry>)
    requires UniqueYears(table)
    ensures |YearMatches(y, table)| <= 1
    ensures |YearMatches(y, table)| == 1 ==> Co2Lookup(y, table) == Some(YearMatches(y, table)[0].ppm)
    ensures |YearMatches(y, table)| == 0 ==> Co2Lookup(y, table) == None
    decreases |table|
  {
    if table != [] {
      YearMatchesUnique(y, table[1..]);
      if table[0].year == y {
        assert YearMatches(y, table[1..]) == [];
      }
    }
  }

  /**
   * With one line per year in the CO2 table the join keeps every row, in
   * order, and gives each the concentration for its year (NaN for a year the
   * table lacks); nothing else in a row changes.
   */
  lemma {:induction false} Co2JoinUniqueYears(rows: seq<Row>, table: seq<Co2Entry>)
    requires UniqueYears(table)
    ensures |Co2Join(rows, table)| == |rows|
    ensures forall i :: 0 <= i < |rows| ==>
      Co2Join(rows, table)[i] == rows[i].(co2 := Co2Lookup(rows[i].key.date.year, table))
    decreases |rows|
  {
    if rows != [] {
      YearMatchesUnique(rows[0].key.date.year, table);
      Co2JoinUniqueYears(rows[1..], table);
    }
  }

  /** The years of the CO2 table's lines, in order. */
  function Years(table: seq<Co2Entry>): (ys: seq<int>)
    ensures |ys| == |table| && forall i :: 0 <= i < |table| ==> ys[i] == table[i].year
  {
    seq(|table|, i requires 0 <= i < |table| => table[i].year)
  }

  /** The lines matching a year are as many as the times the year is listed. */
  lemma {:induction false} YearMatchesCount(y: int, table: seq<Co2Entry>)
    ensures |YearMatches(y, table)| == multiset(Years(table))[y]
    decreases |table|
  {
    if table != [] {
      YearMatchesCount(y, table[1..]);
      assert Years(table) == [table[0].year] + Years(table[1..]);
    }
  }

  /**
   * The join turns a row whose year the table lists k >= 1 times into k
   * copies of the row, one per matching line in table order, each with that
   * line's concentration; a year the table lacks gives the row once, with NaN.
   */
  lemma Co2RowRepeats(x: Row, table: seq<Co2Entry>)
    ensures var y, rs := x.key.date.year, Co2Row(x, table);
      var k, ms := multiset(Years(table))[y], YearMatches(y, table);
      && |ms| == k
      && (k == 0 ==> rs == [x.(co2 := None)])
      && (k >= 1 ==> |rs| == k && forall i :: 0 <= i < k ==>
            && rs[i] == x.(co2 := Some(ms[i].ppm))
            && Co2Entry(y, rs[i].co2.value) in table)
  {
    YearMatchesCount(x.key.date.year, table);
  }

  /** The join works row by row: joining a table split in two joins each part, in order. */
  lemma {:induction false} Co2JoinConcat(a: seq<Row>, b: seq<Row>, table: seq<Co2Entry>)
    ensures Co2Join(a + b, table) == Co2Join(a, table) + Co2Join(b, table)
    decreases |a|
  {
    if a != [] {
      assert (a + b)[1..] == a[1..] + b;
      Co2JoinConcat(a[1..], b, table);
    } else {
      assert a + b == b;
    }
  }

  /** A year listed twice in the CO2 table duplicates every row of that year, since no deduplication follows. */
  lemma Co2JoinDuplicatesRows(x: Row)
    ensures Co2Join([x], [Co2Entry(x.key.date.year, 400.0), Co2Entry(x.key.date.year, 410.0)])
         == [x.(co2 := Some(400.0)), x.(co2 := Some(410.0))]
  {
    var y := x.key.date.year;
    var table := [Co2Entry(y, 400.0), Co2Entry(y, 410.0)];
    assert YearMatches(y, table[1..][1..]) == [];
    assert YearMatches(y, table) == table;
  }
}
