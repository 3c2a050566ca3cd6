/** The packet table of a run: one row for each packet the receiver's PDCP has seen, to which every delay
    component is attached by a left join. */
module PacketTable {
  import opened Wrappers

  type Key = int

  type Column = string

  // A row of a component table; None is a missing value.
  datatype Metric = Metric(key: Key, value: Option<real>)

  // A row of the packet table with the columns attached so far.
  datatype Entry = Entry(key: Key, columns: map<Column, Option<real>>)

  predicate HasKey(ms: seq<Metric>, k: Key) { exists i :: 0 <= i < |ms| && ms[i].key == k }

  /** drop_duplicates on the packet key, keeping the first row. */
  function DropDuplicates(ms: seq<Metric>): seq<Metric> {
    if ms == [] then []
    else
      var earlier, last := DropDuplicates(ms[..|ms| - 1]), ms[|ms| - 1];
      if HasKey(earlier, last.key) then earlier else earlier + [last]
  }

  // The values of all rows of a packet.
  function Matches(ms: seq<Metric>, k: Key): seq<Option<real>> {
    if ms == [] then [] else Matches(ms[..|ms| - 1], k) + if ms[|ms| - 1].key == k then [ms[|ms| - 1].value] else []
  }

  function WithColumn(e: Entry, c: Column, v: Option<real>): Entry { e.(columns := e.columns[c := v]) }

  // A left join gives one row for each match, or one row with a missing value.
  function JoinRow(e: Entry, c: Column, vs: seq<Option<real>>): seq<Entry> {
    if vs == [] then [WithColumn(e, c, None)]
    else seq(|vs|, i requires 0 <= i < |vs| => WithColumn(e, c, vs[i]))
  }

  function LeftJoin(base: seq<Entry>, c: Column, ms: seq<Metric>): seq<Entry> {
    if base == [] then []
    else
      var e := base[|base| - 1];
      LeftJoin(base[..|base| - 1], c, ms) + JoinRow(e, c, Matches(ms, e.key))
  }

  /** merge_metric_column: an empty component table adds no column. */
  function MergeMetricColumn(base: seq<Entry>, c: Column, ms: seq<Metric>): seq<Entry> {
    if ms == [] then base else LeftJoin(base, c, DropDuplicates(ms))
  }

  // The value a packet gets: that of its first row, missing if it has none.
  function FirstValue(ms: seq<Metric>, k: Key): Option<real> {
    if Matches(ms, k) == [] then None else Matches(ms, k)[0]
  }

  /** That is, of the row of the packet that no other row of it comes before. */
  lemma {:induction false} FirstValueIsFirst(ms: seq<Metric>, k: Key, i: nat)
    requires i < |ms| && ms[i].key == k && forall j :: 0 <= j < i ==> ms[j].key != k
    ensures FirstValue(ms, k) == ms[i].value
  {
    var front := ms[..|ms| - 1];
    if i < |front| {
      FirstValueIsFirst(front, k, i);
      HasKeyMatches(front, k);
      assert front[i].key == k;
    } else {
      HasKeyMatches(front, k);
    }
  }

  lemma {:induction false} HasKeyMatches(ms: seq<Metric>, k: Key)
    ensures HasKey(ms, k) <==> Matches(ms, k) != []
  {
    if ms != [] {
      var front := ms[..|ms| - 1];
      HasKeyMatches(front, k);
      assert forall i :: 0 <= i < |front| ==> front[i] == ms[i];
    }
  }

  lemma {:induction false} DropKeepsFirst(ms: seq<Metric>, k: Key)
    ensures Matches(DropDuplicates(ms), k) == if Matches(ms, k) == [] then [] else [Matches(ms, k)[0]]
  {
    if ms != [] {
      var front, last := ms[..|ms| - 1], ms[|ms| - 1];
      var earlier := DropDuplicates(front);
      DropKeepsFirst(front, k);
      HasKeyMatches(earlier, last.key);
      if last.key != k {
        assert (earlier + [last])[..|earlier|] == earlier;
      } else {
        assert !HasKey(earlier, k) ==> (earlier + [last])[..|earlier|] == earlier;
      }
    }
  }

  lemma OneRowEach(e: Entry, c: Column, ms: seq<Metric>)
    ensures JoinRow(e, c, Matches(DropDuplicates(ms), e.key)) == [WithColumn(e, c, FirstValue(ms, e.key))]
  {
    DropKeepsFirst(ms, e.key);
  }

  function Attached(base: seq<Entry>, c: Column, ms: seq<Metric>): (table: seq<Entry>)
    ensures |table| == |base|
  {
    if base == [] then []
    else
      var e := base[|base| - 1];
      Attached(base[..|base| - 1], c, ms) + [WithColumn(e, c, FirstValue(ms, e.key))]
  }

  lemma {:induction false} AttachedAt(base: seq<Entry>, c: Column, ms: seq<Metric>, i: nat)
    requires i < |base|
    ensures Attached(base, c, ms)[i] == WithColumn(base[i], c, FirstValue(ms, base[i].key))
  {
    if i < |base| - 1 {
      AttachedAt(base[..|base| - 1], c, ms, i);
    }
  }

  lemma {:induction false} JoinAttaches(base: seq<Entry>, c: Column, ms: seq<Metric>)
    ensures LeftJoin(base, c, DropDuplicates(ms)) == Attached(base, c, ms)
  {
    if base != [] {
      JoinAttaches(base[..|base| - 1], c, ms);
      OneRowEach(base[|base| - 1], c, ms);
    }
  }

  /** A merge keeps the rows of the packet table one for one, in order, and gives each packet the value of
      its first component row, whatever duplicates the component table holds. */
  lemma MergeKeepsRows(base: seq<Entry>, c: Column, ms: seq<Metric>)
    ensures var table := MergeMetricColumn(base, c, ms);
            && |table| == |base|
            && forall i :: 0 <= i < |base| ==>
                 table[i] == if ms == [] then base[i] else WithColumn(base[i], c, FirstValue(ms, base[i].key))
  {
    JoinAttaches(base, c, ms);
    forall i | 0 <= i < |base|
      ensures Attached(base, c, ms)[i] == WithColumn(base[i], c, FirstValue(ms, base[i].key))
    {
      AttachedAt(base, c, ms, i);
    }
  }

  // One merge after the other, as the table is built.
  function MergeAll(base: seq<Entry>, merges: seq<(Column, seq<Metric>)>): seq<Entry> {
    if merges == [] then base
    else
      var m := merges[|merges| - 1];
      MergeMetricColumn(MergeAll(base, merges[..|merges| - 1]), m.0, m.1)
  }

  ghost predicate DistinctColumns(merges: seq<(Column, seq<Metric>)>) {
    forall i, j :: 0 <= i < j < |merges| ==> merges[i].0 != merges[j].0
  }

  ghost predicate Untouched(merges: seq<(Column, seq<Metric>)>, c: Column) { forall j :: 0 <= j < |merges| ==> merges[j].0 != c }

  // What the merges have made of row e: the packet is the same, and each filled column has its first value.
  ghost predicate Filled(e: Entry, row: Entry, merges: seq<(Column, seq<Metric>)>) {
    && row.key == e.key
    && (forall j :: 0 <= j < |merges| && merges[j].1 != [] ==>
         merges[j].0 in row.columns && row.columns[merges[j].0] == FirstValue(merges[j].1, e.key))
    && forall c :: c in e.columns && Untouched(merges, c) ==> c in row.columns && row.columns[c] == e.columns[c]
  }

  // A column that no merge of the longer chain fills is filled by none of the shorter.
  lemma OtherColumns(merges: seq<(Column, seq<Metric>)>, m: (Column, seq<Metric>), c: Column)
    requires Untouched(merges + [m], c)
    ensures m.0 != c && Untouched(merges, c)
  {
    assert (merges + [m])[|merges|] == m;
    assert forall j :: 0 <= j < |merges| ==> (merges + [m])[j] == merges[j];
  }

  lemma FilledStep(e: Entry, row: Entry, merges: seq<(Column, seq<Metric>)>, m: (Column, seq<Metric>))
    requires Filled(e, row, merges) && DistinctColumns(merges + [m])
    ensures Filled(e, if m.1 == [] then row else WithColumn(row, m.0, FirstValue(m.1, row.key)), merges + [m])
  {
    forall j | 0 <= j < |merges|
      ensures merges[j].0 != m.0
    {
      assert (merges + [m])[j].0 != (merges + [m])[|merges|].0;
    }
    forall c | Untouched(merges + [m], c)
      ensures m.0 != c && Untouched(merges, c)
    {
      OtherColumns(merges, m, c);
    }
  }

  /** The chain of left joins keeps exactly the packets of the table it starts from, and every column of
      a component table that is not empty holds each packet's first value at the end. */
  lemma {:induction false} MergesKeepPackets(base: seq<Entry>, merges: seq<(Column, seq<Metric>)>)
    requires DistinctColumns(merges)
    ensures var table := MergeAll(base, merges);
            |table| == |base| && forall i :: 0 <= i < |base| ==> Filled(base[i], table[i], merges)
  {
    if merges != [] {
      var n := |merges| - 1;
      var front, m := merges[..n], merges[n];
      var before := MergeAll(base, front);
      assert front + [m] == merges;
      MergesKeepPackets(base, front);
      MergeKeepsRows(before, m.0, m.1);
      forall i | 0 <= i < |base|
        ensures Filled(base[i], MergeAll(base, merges)[i], merges)
      {
        FilledStep(base[i], before[i], front, m);
      }
    }
  }

  // ---------- the table the chain starts from ----------

  // The receiver's PDCP rows with a time and a delay, sorted by time.
  function BaseTable(rows: seq<Metric>): seq<Entry> {
    var first := DropDuplicates(rows);
    seq(|first|, i requires 0 <= i < |first| => Entry(first[i].key, map["ran_delay" := first[i].value]))
  }

  lemma {:induction false} DropLeavesOne(ms: seq<Metric>)
    ensures forall i, j :: 0 <= i < j < |DropDuplicates(ms)| ==> DropDuplicates(ms)[i].key != DropDuplicates(ms)[j].key
    ensures forall k :: HasKey(DropDuplicates(ms), k) <==> HasKey(ms, k)
  {
    if ms != [] {
      DropLeavesOne(ms[..|ms| - 1]);
      forall k
        ensures HasKey(DropDuplicates(ms), k) <==> HasKey(ms, k)
      {
        DropKeepsFirst(ms, k);
        HasKeyMatches(ms, k);
        HasKeyMatches(DropDuplicates(ms), k);
      }
    }
  }

  lemma {:induction false} MatchesHave(ms: seq<Metric>, i: nat)
    requires i < |ms|
    ensures ms[i].value in Matches(ms, ms[i].key)
  {
    if i < |ms| - 1 {
      MatchesHave(ms[..|ms| - 1], i);
    }
  }

  lemma BaseValue(rows: seq<Metric>, i: nat)
    requires i < |DropDuplicates(rows)|
    ensures var m := DropDuplicates(rows)[i]; m.value == FirstValue(rows, m.key)
  {
    MatchesHave(DropDuplicates(rows), i);
    DropKeepsFirst(rows, DropDuplicates(rows)[i].key);
  }

  /** The RAN delay of a packet is that of its first row, and no merge changes it. */
  lemma TableKeepsRanDelay(rows: seq<Metric>, merges: seq<(Column, seq<Metric>)>, i: nat)
    requires DistinctColumns(merges) && i < |BaseTable(rows)| && Untouched(merges, "ran_delay")
    ensures var table := MergeAll(BaseTable(rows), merges);
            && i < |table| && "ran_delay" in table[i].columns && table[i].columns["ran_delay"] == FirstValue(rows, table[i].key)
  {
    var base, table := BaseTable(rows), MergeAll(BaseTable(rows), merges);
    MergesKeepPackets(base, merges);
    assert Filled(base[i], table[i], merges);
    BaseValue(rows, i);
    assert "ran_delay" in base[i].columns;
  }

  /** The finished table holds each packet with a receiver PDCP row exactly once, and no other. */
  lemma TableHasEachPacketOnce(rows: seq<Metric>, merges: seq<(Column, seq<Metric>)>)
    requires DistinctColumns(merges)
    ensures var table := MergeAll(BaseTable(rows), merges);
            && (forall i, j :: 0 <= i < j < |table| ==> table[i].key != table[j].key)
            && forall k :: HasKey(rows, k) <==> exists i :: 0 <= i < |table| && table[i].key == k
  {
    var base, table, first := BaseTable(rows), MergeAll(BaseTable(rows), merges), DropDuplicates(rows);
    MergesKeepPackets(base, merges);
    DropLeavesOne(rows);
    forall i | 0 <= i < |table|
      ensures table[i].key == first[i].key
    {
      assert Filled(base[i], table[i], merges);
    }
    forall k
      ensures HasKey(rows, k) <==> exists i :: 0 <= i < |table| && table[i].key == k
    {
      assert HasKey(rows, k) <==> HasKey(first, k);
    }
  }
}
