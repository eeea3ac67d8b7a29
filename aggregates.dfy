/** The counting aggregates of `generate_summary_stats` and
    `create_visualizations` (deepseek.py): `len`, `nunique`, `unique`,
    `value_counts`, `head(10)` and `groupby([...]).size().unstack().fillna(0)`.
    Only the values handed to the console and to the plotting library are
    modelled, not the printing or the drawing. */
module Aggregates {

  import opened Tables
  import opened Seqs
  import opened Cleaning

  /** The non-missing values of a column, in order. */
  function NonMissing(col: seq<Cell>): (r: seq<Cell>)
    ensures Missing !in r
    ensures forall c :: c != Missing ==> Count(r, c) == Count(col, c)
    ensures Missing !in col ==> r == col
  {
    if col == [] then []
    else
      var head := if col[0] == Missing then [] else [col[0]];
      var rest := NonMissing(col[1..]);
      forall c | c != Missing ensures Count(head + rest, c) == Count(col, c) {
        CountConcat(head, rest, c);
      }
      assert Missing !in col ==> col == [col[0]] + col[1..];
      head + rest
  }

  lemma NonMissingMembers(col: seq<Cell>)
    ensures forall c :: c in NonMissing(col) <==> c in col && c != Missing
  {
    forall c | c != Missing ensures c in NonMissing(col) <==> c in col {
      assert Count(NonMissing(col), c) == Count(col, c);
    }
  }

  /** `Series.nunique()`: the number of distinct non-missing values. */
  function NUnique(col: seq<Cell>): (n: nat)
    ensures n == |set c | c in col && c != Missing|
  {
    var xs := NonMissing(col);
    var d := Dedup(xs);
    DistinctCardinality(d);
    DedupMembers(xs);
    NonMissingMembers(col);
    assert (set c | c in d) == (set c | c in col && c != Missing);
    |d|
  }

  /** `Series.value_counts()`: each distinct non-missing value with the number
      of rows holding it, by non-increasing count. */
  function ValueCounts(col: seq<Cell>): (vc: seq<(Cell, nat)>)
    ensures NonIncreasing(vc)
  {
    var xs := NonMissing(col);
    SortByCount(Tally(Dedup(xs), xs))
  }

  /** The entries of the value counts are exactly the non-missing values of
      the column, each with its number of occurrences. */
  lemma ValueCountsEntries(col: seq<Cell>)
    ensures forall e: (Cell, nat) :: e in ValueCounts(col) <==> e.0 in col && e.0 != Missing && e.1 == Count(col, e.0)
  {
    var xs := NonMissing(col);
    var d := Dedup(xs);
    var t := Tally(d, xs);
    var vc := ValueCounts(col);
    DedupMembers(xs);
    TallyMembership(d, xs);
    NonMissingMembers(col);
    forall e: (Cell, nat) ensures e in vc <==> e in t {
      assert e in vc <==> e in multiset(vc);
    }
  }

  /** Each value has one entry: no two entries share a value. */
  lemma ValueCountsOnePerValue(col: seq<Cell>)
    ensures forall i, j :: 0 <= i < j < |ValueCounts(col)| ==> ValueCounts(col)[i].0 != ValueCounts(col)[j].0
  {
    var xs := NonMissing(col);
    var d := Dedup(xs);
    var t := Tally(d, xs);
    var vc := ValueCounts(col);
    TallyAt(d, xs);
    assert Distinct(t);
    PermutationKeepsDistinct(t, vc);
    ValueCountsEntries(col);
    forall i, j | 0 <= i < j < |vc| ensures vc[i].0 != vc[j].0 {
      assert vc[i] in vc && vc[j] in vc;
    }
  }

  /** There are `nunique` entries, and their counts add up to the number of
      non-missing values, that is the column's length when none is missing. */
  lemma ValueCountsSize(col: seq<Cell>)
    ensures |ValueCounts(col)| == NUnique(col)
    ensures Total(ValueCounts(col)) == |NonMissing(col)|
    ensures Missing !in col ==> Total(ValueCounts(col)) == |col|
  {
    var xs := NonMissing(col);
    var d := Dedup(xs);
    var t := Tally(d, xs);
    var vc := ValueCounts(col);
    TallyAt(d, xs);
    assert |vc| == |multiset(vc)| == |multiset(t)| == |t|;
    DedupMembers(xs);
    TotalOfTally(d, xs);
  }

  /** `value_counts().head(n)`: the `n` most frequent values. */
  function TopCounts(col: seq<Cell>, n: nat): seq<(Cell, nat)>
  {
    Head(ValueCounts(col), n)
  }

  /** The top list has `min(n, nunique)` entries, each a value with its exact
      count, in non-increasing order. */
  lemma TopCountsShape(col: seq<Cell>, n: nat)
    ensures |TopCounts(col, n)| == if NUnique(col) < n then NUnique(col) else n
    ensures NonIncreasing(TopCounts(col, n))
    ensures forall e: (Cell, nat) :: e in TopCounts(col, n) ==> e.0 in col && e.0 != Missing && e.1 == Count(col, e.0)
  {
    var vc := ValueCounts(col);
    var top := TopCounts(col, n);
    ValueCountsEntries(col);
    ValueCountsSize(col);
    assert top == vc[..|top|];
    assert forall e :: e in top ==> e in vc;
  }

  /** Every value left out of the top list occurs no more often than any
      value kept. */
  lemma TopCountsCutoff(col: seq<Cell>, n: nat)
    ensures forall v, i :: v in col && v != Missing && v !in Keys(TopCounts(col, n)) && 0 <= i < |TopCounts(col, n)| ==>
              Count(col, v) <= TopCounts(col, n)[i].1
  {
    var vc := ValueCounts(col);
    var top := TopCounts(col, n);
    ValueCountsEntries(col);
    assert top == vc[..|top|];
    forall v, i | v in col && v != Missing && v !in Keys(top) && 0 <= i < |top|
      ensures Count(col, v) <= top[i].1
    {
      PrefixCutoff(vc, |top|, (v, Count(col, v)), i);
    }
  }

  /** The values of `keys` at the positions where neither `keys` nor `others`
      is missing (the rows `groupby` keeps). */
  function Kept(keys: seq<Cell>, others: seq<Cell>): (r: seq<Cell>)
    requires |keys| == |others|
    ensures Missing !in keys && Missing !in others ==> r == keys
  {
    if keys == [] then []
    else
      (if keys[0] != Missing && others[0] != Missing then [keys[0]] else [])
      + Kept(keys[1..], others[1..])
  }

  /** The deliveries of the kept rows whose state is `s`. */
  function DeliveriesOf(states: seq<Cell>, deliveries: seq<Cell>, s: Cell): (r: seq<Cell>)
    requires |states| == |deliveries|
    ensures forall i :: 0 <= i < |r| ==> r[i] in Kept(deliveries, states)
  {
    if states == [] then []
    else
      var head := if states[0] == s && s != Missing && deliveries[0] != Missing then [deliveries[0]] else [];
      var rest := DeliveriesOf(states[1..], deliveries[1..], s);
      assert Kept(deliveries, states) ==
        (if deliveries[0] != Missing && states[0] != Missing then [deliveries[0]] else [])
        + Kept(deliveries[1..], states[1..]);
      head + rest
  }

  /** Number of rows whose state is `s` and whose delivery is `d`. */
  function CountPairs(states: seq<Cell>, deliveries: seq<Cell>, s: Cell, d: Cell): nat
    requires |states| == |deliveries|
  {
    if states == [] then 0
    else
      (if states[0] == s && deliveries[0] == d then 1 else 0)
      + CountPairs(states[1..], deliveries[1..], s, d)
  }

  /** The unstacked group counts: one row per state, one column per delivery
      category, absent combinations read as 0. */
  datatype CrossTab = CrossTab(deliveries: seq<Cell>, rows: seq<(Cell, seq<(Cell, nat)>)>)

  /** `groupby(['statename', 'delivery']).size().unstack().fillna(0)`. */
  function DeliveryCounts(states: seq<Cell>, deliveries: seq<Cell>): CrossTab
    requires |states| == |deliveries|
  {
    var sk := Dedup(Kept(states, deliveries));
    var dk := Dedup(Kept(deliveries, states));
    CrossTab(dk, seq(|sk|, i requires 0 <= i < |sk| => (sk[i], Tally(dk, DeliveriesOf(states, deliveries, sk[i])))))
  }

  lemma {:induction false} DeliveriesOfCounts(states: seq<Cell>, deliveries: seq<Cell>, s: Cell, d: Cell)
    requires |states| == |deliveries| && s != Missing && d != Missing
    ensures Count(DeliveriesOf(states, deliveries, s), d) == CountPairs(states, deliveries, s, d)
  {
    if states != [] {
      var head := if states[0] == s && deliveries[0] != Missing then [deliveries[0]] else [];
      DeliveriesOfCounts(states[1..], deliveries[1..], s, d);
      CountConcat(head, DeliveriesOf(states[1..], deliveries[1..], s), d);
    }
  }

  lemma {:induction false} DeliveriesOfLength(states: seq<Cell>, deliveries: seq<Cell>, s: Cell)
    requires |states| == |deliveries| && s != Missing && Missing !in deliveries
    ensures |DeliveriesOf(states, deliveries, s)| == Count(states, s)
  {
    if states != [] {
      DeliveriesOfLength(states[1..], deliveries[1..], s);
    }
  }

  /** On columns without missing values: the state keys are the distinct
      states, the delivery columns the distinct deliveries, each cell counts
      the rows with that state and that delivery (0 when there are none), and
      the cells of a state add up to that state's number of rows. */
  lemma DeliveryCountsSpec(states: seq<Cell>, deliveries: seq<Cell>)
    requires |states| == |deliveries| && Missing !in states && Missing !in deliveries
    ensures DeliveryCounts(states, deliveries).deliveries == Dedup(deliveries)
    ensures |DeliveryCounts(states, deliveries).rows| == |Dedup(states)|
    ensures forall i :: 0 <= i < |Dedup(states)| ==>
              DeliveryCounts(states, deliveries).rows[i].0 == Dedup(states)[i]
              && |DeliveryCounts(states, deliveries).rows[i].1| == |Dedup(deliveries)|
    ensures forall i, j :: 0 <= i < |Dedup(states)| && 0 <= j < |Dedup(deliveries)| ==>
              DeliveryCounts(states, deliveries).rows[i].1[j] ==
                (Dedup(deliveries)[j], CountPairs(states, deliveries, Dedup(states)[i], Dedup(deliveries)[j]))
    ensures forall i :: 0 <= i < |Dedup(states)| ==>
              Total(DeliveryCounts(states, deliveries).rows[i].1) == Count(states, Dedup(states)[i])
  {
    var sk := Dedup(states);
    var dk := Dedup(deliveries);
    var ct := DeliveryCounts(states, deliveries);
    DedupMembers(states);
    DedupMembers(deliveries);
    forall i | 0 <= i < |sk|
      ensures |ct.rows[i].1| == |dk|
      ensures forall j :: 0 <= j < |dk| ==> ct.rows[i].1[j] == (dk[j], CountPairs(states, deliveries, sk[i], dk[j]))
      ensures Total(ct.rows[i].1) == Count(states, sk[i])
    {
      var ds := DeliveriesOf(states, deliveries, sk[i]);
      assert ct.rows[i].1 == Tally(dk, ds);
      TallyAt(dk, ds);
      forall j | 0 <= j < |dk| ensures Count(ds, dk[j]) == CountPairs(states, deliveries, sk[i], dk[j]) {
        DeliveriesOfCounts(states, deliveries, sk[i], dk[j]);
      }
      TotalOfTally(dk, ds);
      DeliveriesOfLength(states, deliveries, sk[i]);
    }
  }

  /** What the source relies on when it reads the five required columns. */
  predicate HasRequired(t: Table)
  {
    WellFormed(t) && forall c :: c in RequiredColumns ==> c in t.header
  }

  /** The figures `generate_summary_stats` prints. */
  datatype Summary = Summary(totalEntries: nat, uniqueStates: nat, uniqueDistricts: nat, officeTypes: seq<Cell>)

  function Summarize(t: Table): Summary
    requires HasRequired(t)
  {
    Summary(
      |t.rows|,
      NUnique(Column(t, "statename")),
      NUnique(Column(t, "district")),
      Dedup(Column(t, "officetype")))
  }

  /** The aggregates behind the five charts, in the order they are drawn. */
  datatype Charts = Charts(
    regions: seq<(Cell, nat)>,
    officeTypes: seq<(Cell, nat)>,
    deliveryByState: CrossTab,
    topStates: seq<(Cell, nat)>,
    topDistricts: seq<(Cell, nat)>)

  function ChartData(t: Table): Charts
    requires HasRequired(t)
  {
    Charts(
      ValueCounts(Column(t, "regionname")),
      ValueCounts(Column(t, "officetype")),
      DeliveryCounts(Column(t, "statename"), Column(t, "delivery")),
      TopCounts(Column(t, "statename"), 10),
      TopCounts(Column(t, "district"), 10))
  }

  /** A column of a table without missing cells has no missing value. */
  lemma ColumnOfComplete(t: Table, name: string)
    requires WellFormed(t) && name in t.header
    requires forall i :: 0 <= i < |t.rows| ==> Missing !in t.rows[i]
    ensures Missing !in Column(t, name)
  {
    var k := IndexOf(t.header, name);
    forall i | 0 <= i < |t.rows| ensures t.rows[i][k] != Missing {
      assert t.rows[i] in t.rows;
      assert t.rows[i][k] in t.rows[i];
    }
  }

  /** A table with the required columns and no missing value. */
  predicate Complete(t: Table)
  {
    HasRequired(t) && forall i :: 0 <= i < |t.rows| ==> Missing !in t.rows[i]
  }

  /** A cleaned table is complete. */
  lemma CleanedComplete(read: Option<Table>)
    requires read.Some? && WellFormed(read.value) && Cleaned(read).Some?
    ensures Complete(Cleaned(read).value)
  {
    CleanedWellFormed(read);
    CleanedFailsIff(read);
    CleanedRows(read);
  }

  /** On a complete table the printed total equals the sum of the value counts
      of any column, the unique-state and unique-district figures equal the
      number of bars those value counts give, and the office types printed are
      the distinct office types, each once. */
  lemma SummarySpec(t: Table)
    requires Complete(t)
    ensures Summarize(t).totalEntries == Total(ValueCounts(Column(t, "statename")))
    ensures Summarize(t).totalEntries == Total(ValueCounts(Column(t, "district")))
    ensures Summarize(t).uniqueStates == |ValueCounts(Column(t, "statename"))|
    ensures Summarize(t).uniqueDistricts == |ValueCounts(Column(t, "district"))|
    ensures Distinct(Summarize(t).officeTypes) && Missing !in Summarize(t).officeTypes
    ensures forall c :: c in Summarize(t).officeTypes <==> c in Column(t, "officetype")
  {
    var states, districts, types := Column(t, "statename"), Column(t, "district"), Column(t, "officetype");
    ColumnOfComplete(t, "statename");
    ColumnOfComplete(t, "district");
    ColumnOfComplete(t, "officetype");
    ValueCountsSize(states);
    ValueCountsSize(districts);
    DedupMembers(types);
  }

  /** On a complete table the region and office-type bars each add up to the
      number of rows. */
  lemma ChartBarTotals(t: Table)
    requires Complete(t)
    ensures Total(ChartData(t).regions) == |t.rows|
    ensures Total(ChartData(t).officeTypes) == |t.rows|
  {
    ColumnOfComplete(t, "regionname");
    ColumnOfComplete(t, "officetype");
    ValueCountsSize(Column(t, "regionname"));
    ValueCountsSize(Column(t, "officetype"));
  }

  /** On a complete table each state's delivery segments add up to that
      state's bar in the state counts. */
  lemma DeliverySegmentsMatchStates(t: Table)
    requires Complete(t)
    ensures forall i :: 0 <= i < |ChartData(t).deliveryByState.rows| ==>
              (ChartData(t).deliveryByState.rows[i].0, Total(ChartData(t).deliveryByState.rows[i].1))
                in ValueCounts(Column(t, "statename"))
  {
    var states, deliveries := Column(t, "statename"), Column(t, "delivery");
    ColumnOfComplete(t, "statename");
    ColumnOfComplete(t, "delivery");
    ValueCountsEntries(states);
    DeliveryCountsSpec(states, deliveries);
    DedupMembers(states);
  }

  /** On a complete table the two top-10 charts have `min(10, nunique)` bars. */
  lemma TopTenLengths(t: Table)
    requires Complete(t)
    ensures |ChartData(t).topStates| == if NUnique(Column(t, "statename")) < 10 then NUnique(Column(t, "statename")) else 10
    ensures |ChartData(t).topDistricts| == if NUnique(Column(t, "district")) < 10 then NUnique(Column(t, "district")) else 10
  {
    TopCountsShape(Column(t, "statename"), 10);
    TopCountsShape(Column(t, "district"), 10);
  }
}
