/**
  A persist as the code runs it: fetch the node's rows, collect the indexes of the reported
  ones, delete those the binary search does not find, and send the upserts.  One class
  stands for all five tables; `K` is the part of the key besides the device.
 */
module Reconciliation {
  import opened FoundIndexes
  import opened MetaTables

  /** `keys` lists the node's rows, each once. */
  ghost predicate Lists<K>(keys: seq<K>, rows: Rows<K>, node: string) {
    && Distinct(keys)
    && (forall i | 0 <= i < |keys| :: RowKey(node, keys[i]) in rows)
    && (forall r | r in rows && r.device == node :: r.key in keys)
  }

  /** The rows of a node with the given keys. */
  function RowsWith<K>(node: string, keys: set<K>): set<RowKey<K>> {
    set k | k in keys :: RowKey(node, k)
  }

  class MetaTable<K(==,!new)> {
    const name: Table
    var rows: Rows<K>

    constructor (name: Table)
      ensures this.name == name && rows == map[]
    {
      this.name := name;
      rows := map[];
    }

    /** SELECT ... WHERE device_id = node, in whatever order the database answers. */
    method FetchAll(node: string) returns (keys: seq<K>)
      ensures Lists(keys, rows, node)
    {
      keys := [];
      var todo := rows.Keys;
      while todo != {}
        invariant todo <= rows.Keys && Distinct(keys)
        invariant forall i | 0 <= i < |keys| :: RowKey(node, keys[i]) in rows.Keys - todo
        invariant forall r | r in rows.Keys - todo && r.device == node :: r.key in keys
        decreases |todo|
      {
        var r :| r in todo;
        todo := todo - {r};
        if r.device == node {
          keys := keys + [r.key];
        }
      }
    }

    /** DELETE ... WHERE the whole key matches. */
    method Delete(node: string, key: K) returns (affected: bool)
      modifies this`rows
      ensures affected == (RowKey(node, key) in old(rows))
      ensures rows == old(rows) - {RowKey(node, key)}
    {
      affected := RowKey(node, key) in rows;
      rows := rows - {RowKey(node, key)};
    }

    /** The sanitize step after the fetch.  It reports an error when a delete affects no row,
        which does not happen here. */
    method Sanitize(order: seq<K>, reported: seq<K>, node: string) returns (failed: bool)
      requires Lists(order, rows, node)
      modifies this`rows
      ensures !failed && rows == old(rows) - RowsWith(node, Deleted(order, reported))
    {
      var found := CollectFound(order, reported);
      ghost var gone: set<RowKey<K>> := {};
      var idx := 0;
      while idx < |order|
        invariant 0 <= idx <= |order|
        invariant gone == set i | 0 <= i < idx && !Found(found, i) :: RowKey(node, order[i])
        invariant rows == old(rows) - gone
      {
        var keep := BinarySearch(found, idx);
        if !keep {
          var affected := Delete(node, order[idx]);
          gone := gone + {RowKey(node, order[idx])};
          if !affected {
            return true;
          }
        }
        idx := idx + 1;
      }
      assert gone == RowsWith(node, Deleted(order, reported));
      failed := false;
    }

    /** The batch of upserts, executed in the order in which they were queued. */
    method SendBatch(report: seq<Entry<K>>)
      modifies this`rows
      ensures rows == UpsertAll(StatementOf(name), old(rows), report)
    {
      var n := 0;
      while n < |report|
        invariant 0 <= n <= |report|
        invariant UpsertAll(StatementOf(name), rows, report[n..]) == UpsertAll(StatementOf(name), old(rows), report)
      {
        var e := report[n];
        assert report[n..][1..] == report[n + 1..];
        if e.rowKey in rows {
          rows := rows[e.rowKey := Update(StatementOf(name), rows[e.rowKey], e.values)];
        } else {
          rows := rows[e.rowKey := e.values];
        }
        n := n + 1;
      }
    }

    /** A persist deletes the node's rows that the search does not find, and overlays the rest
        with the last entries of the report.  That replaces the node's rows by the report if and
        only if every row it keeps is reported for the node; always so if the report covers the
        node's rows, and in particular if it is about the node. */
    method Persist(report: seq<Entry<K>>, node: string) returns (ghost order: seq<K>)
      requires Shaped(StatementOf(name), rows) && ShapedReport(StatementOf(name), report)
      modifies this`rows
      ensures Lists(order, old(rows), node)
      ensures rows == old(rows) - RowsWith(node, Deleted(order, Keys(report))) + LastOf(report)
      ensures rows == Replace(old(rows), node, report) <==> KeptAreReported(order, node, report)
      ensures Covers(old(rows), node, report) ==> rows == Replace(old(rows), node, report)
      ensures About(node, report) ==> rows == Replace(old(rows), node, report)
      ensures Shaped(StatementOf(name), rows)
    {
      ghost var st := StatementOf(name);
      var fetched := FetchAll(node);
      order := fetched;
      var failed := Sanitize(fetched, Keys(report), node);
      if About(node, report) {
        AboutCovers(old(rows), node, report);
      }
      if Covers(old(rows), node, report) {
        CoversKept(old(rows), node, report, order);
      }
      ReplacesIff(st, old(rows), node, report, order);
      UpsertAllOverlays(st, rows, report);
      SendBatch(report);
    }
  }

  // ---- When a persist is a replacement ------------------------------------------------------------

  /** Every row that the deleting loop keeps is reported for the node. */
  predicate KeptAreReported<K(==)>(order: seq<K>, node: string, report: seq<Entry<K>>) {
    forall i | 0 <= i < |order| && Found(FoundList(order, Keys(report)), i) :: RowKey(node, order[i]) in LastOf(report)
  }

  /** What a persist does to the rows when they are fetched in a given order. */
  function Persisted<K(==)>(st: Statement, rows: Rows<K>, node: string, report: seq<Entry<K>>, order: seq<K>): Rows<K> {
    UpsertAll(st, rows - RowsWith(node, Deleted(order, Keys(report))), report)
  }

  /** Deleting what the search does not find, and then running the batch, replaces the node's
      rows if and only if every row kept is reported for the node: rows that were deleted
      although reported come back, and rows that were kept are overwritten in every column. */
  lemma ReplacesIff<K>(st: Statement, rows: Rows<K>, node: string, report: seq<Entry<K>>, order: seq<K>)
    requires st.columns <= st.setList && Shaped(st, rows) && ShapedReport(st, report)
    requires Lists(order, rows, node)
    ensures Persisted(st, rows, node, report, order) == Replace(rows, node, report) <==>
            KeptAreReported(order, node, report)
  {
    hide LastOf, FoundList, Found, UpsertAll, Deleted, Others;
    var gone, last := RowsWith(node, Deleted(order, Keys(report))), LastOf(report);
    UpsertAllOverlays(st, rows - gone, report);
    KeptAt(order, Keys(report), rows, node);
    OverlayIff(rows, gone, node, last);
    if KeptAreReported(order, node, report) {
      forall r | r in rows - gone && r.device == node ensures r in last {
        var i :| 0 <= i < |order| && order[i] == r.key;
        assert r == RowKey(node, order[i]);
      }
    } else {
      var i :| 0 <= i < |order| && Found(FoundList(order, Keys(report)), i) && RowKey(node, order[i]) !in last;
      assert RowKey(node, order[i]) in rows - gone;
    }
  }

  /** The rows a sanitize step keeps, one by one. */
  lemma KeptAt<K>(order: seq<K>, reported: seq<K>, rows: Rows<K>, node: string)
    requires Lists(order, rows, node)
    ensures forall r | r in RowsWith(node, Deleted(order, reported)) :: r.device == node
    ensures forall i | 0 <= i < |order| ::
              RowKey(node, order[i]) in rows - RowsWith(node, Deleted(order, reported)) <==>
              Found(FoundList(order, reported), i)
  {
    hide FoundList, Found;
    forall i | 0 <= i < |order|
      ensures RowKey(node, order[i]) in rows - RowsWith(node, Deleted(order, reported)) <==>
              Found(FoundList(order, reported), i)
    {
      DeletedAt(order, reported, i);
    }
  }

  /** Overlaying what is left of the node's rows hides all of it, or else some row shows. */
  lemma OverlayIff<K>(rows: Rows<K>, gone: set<RowKey<K>>, node: string, over: Rows<K>)
    requires forall r | r in gone :: r.device == node
    ensures rows - gone + over == Others(rows, node) + over <==>
            forall r | r in rows - gone && r.device == node :: r in over
  {
    if r :| r in rows - gone && r.device == node && r !in over {
      assert r in rows - gone + over && r !in Others(rows, node) + over;
    }
  }

  lemma DeletedAt<K>(order: seq<K>, reported: seq<K>, i: nat)
    requires Distinct(order) && i < |order|
    ensures order[i] in Deleted(order, reported) <==> !Found(FoundList(order, reported), i)
  {}

  /** A report that covers the node's rows covers the ones kept, whatever the order. */
  lemma CoversKept<K>(rows: Rows<K>, node: string, report: seq<Entry<K>>, order: seq<K>)
    requires Lists(order, rows, node) && Covers(rows, node, report)
    ensures KeptAreReported(order, node, report)
  {
    var found := FoundList(order, Keys(report));
    forall i | 0 <= i < |order| && Found(found, i) ensures RowKey(node, order[i]) in LastOf(report) {
      FoundIsMember(found, i);
      assert RowKey(node, order[i]) in rows;
    }
  }

  /** For a report without repeated keys: it covers the node's rows if and only if a persist
      replaces them in whatever order the database answers. */
  lemma ReplacesInEveryOrderIff<K(!new)>(st: Statement, rows: Rows<K>, node: string, report: seq<Entry<K>>)
    requires st.columns <= st.setList && Shaped(st, rows) && ShapedReport(st, report)
    requires Distinct(Keys(report))
    ensures Covers(rows, node, report) <==>
            forall order | Lists(order, rows, node) ::
              Persisted(st, rows, node, report, order) == Replace(rows, node, report)
  {
    hide Persisted, Replace, Shaped, ShapedReport, LastOf, FoundList, Found;
    forall order | Lists(order, rows, node)
      ensures Covers(rows, node, report) ==>
                Persisted(st, rows, node, report, order) == Replace(rows, node, report)
    {
      ReplacesIff(st, rows, node, report, order);
      if Covers(rows, node, report) {
        CoversKept(rows, node, report, order);
      }
    }
    if !Covers(rows, node, report) {
      var r :| r in rows && r.device == node && r.key in Keys(report) && r !in LastOf(report);
      var order := ReportOrder(rows, node, Keys(report));
      var i :| 0 <= i < |order| && order[i] == r.key;
      DeletesUnreported(order, Keys(report));
      DeletedAt(order, Keys(report), i);
      assert order[i] !in Unreported(order, Keys(report));
      assert r == RowKey(node, order[i]);
      assert !KeptAreReported(order, node, report);
      ReplacesIff(st, rows, node, report, order);
    }
  }

  /** The reported keys for which the node has a row, in report order. */
  function Stored<K(==)>(keys: seq<K>, rows: Rows<K>, node: string): seq<K> {
    if keys == [] then []
    else
      var last := keys[|keys| - 1];
      Stored(keys[..|keys| - 1], rows, node) + (if RowKey(node, last) in rows then [last] else [])
  }

  lemma {:induction false} StoredMembers<K>(keys: seq<K>, rows: Rows<K>, node: string)
    requires Distinct(keys)
    ensures Distinct(Stored(keys, rows, node))
    ensures forall k | k in Stored(keys, rows, node) :: k in keys && RowKey(node, k) in rows
    ensures forall k | k in keys && RowKey(node, k) in rows :: k in Stored(keys, rows, node)
  {
    if keys == [] {
    } else {
      StoredMembers(keys[..|keys| - 1], rows, node);
    }
  }

  /** With the stored reported keys in front, in report order, the found indexes ascend. */
  lemma {:induction false} StoredAscends<K>(keys: seq<K>, rows: Rows<K>, node: string, order: seq<K>)
    requires Distinct(keys) && Distinct(order) && Stored(keys, rows, node) <= order
    requires forall k | k in order :: RowKey(node, k) in rows
    ensures Ascending(FoundList(order, keys))
    ensures forall x | x in FoundList(order, keys) :: x < |Stored(keys, rows, node)|
    decreases |keys|
  {
    if keys == [] {
    } else {
      var init, last := keys[..|keys| - 1], keys[|keys| - 1];
      var n := |Stored(init, rows, node)|;
      var a, b := FoundList(order, init), Matches(order, last, 0);
      assert Stored(init, rows, node) <= Stored(keys, rows, node);
      StoredAscends(init, rows, node, order);
      MatchesOnce(order, last, 0);
      forall x | x in b ensures x == n && RowKey(node, last) in rows {
        assert order[x] == last;
        assert order[n] == Stored(keys, rows, node)[n] == last;
      }
      forall i, j | 0 <= i < j < |a + b| ensures (a + b)[i] <= (a + b)[j] {
        if i < |a| <= j {
          assert a[i] in a && b[j - |a|] in b;
        }
      }
    }
  }

  lemma {:induction false} Listing<K>(keys: set<K>) returns (list: seq<K>)
    ensures Distinct(list) && forall k :: k in list <==> k in keys
    decreases |keys|
  {
    if keys == {} {
      list := [];
    } else {
      var k :| k in keys;
      var others := Listing(keys - {k});
      list := [k] + others;
    }
  }

  /** An order in which the database may answer, and in which the found indexes ascend. */
  lemma ReportOrder<K>(rows: Rows<K>, node: string, keys: seq<K>) returns (order: seq<K>)
    requires Distinct(keys)
    ensures Lists(order, rows, node) && Ascending(FoundList(order, keys))
  {
    StoredMembers(keys, rows, node);
    var front := Stored(keys, rows, node);
    var rest := Listing(set r | r in rows && r.device == node && r.key !in keys :: r.key);
    order := front + rest;
    forall i, j | 0 <= i < j < |order| ensures order[i] != order[j] {
      if i < |front| <= j {
        assert front[i] in front && rest[j - |front|] in rest;
      }
    }
    forall k | k in order ensures RowKey(node, k) in rows {
      assert k in front || k in rest;
      if k !in front {
        var r :| r in rows && r.device == node && r.key !in keys && r.key == k;
        assert r == RowKey(node, k);
      }
    }
    forall r | r in rows && r.device == node ensures r.key in order {
      assert r == RowKey(node, r.key);
      assert r.key in front || r.key in rest;
    }
    StoredAscends(keys, rows, node, order);
  }

  /** An entry about another device shields the node's row with the same key: in every table
      the sanitize step deletes nothing, and the row stays although it is not reported. */
  lemma ForeignEntryKeepsRow<K>(t: Table, key: K, node: string, other: string)
    requires node != other
    ensures var st := StatementOf(t);
            var row: Row := map c | c in st.columns :: Flag(true);
            var rows, report := map[RowKey(node, key) := row], [Entry(RowKey(other, key), row)];
            && Shaped(st, rows) && ShapedReport(st, report) && Lists([key], rows, node)
            && Deleted([key], Keys(report)) == {}
            && RowKey(node, key) in Persisted(st, rows, node, report, [key])
            && RowKey(node, key) !in Replace(rows, node, report)
  {
    var st := StatementOf(t);
    hide StatementOf;
    var row: Row := map c | c in st.columns :: Flag(true);
    var rows, report := map[RowKey(node, key) := row], [Entry(RowKey(other, key), row)];
    assert Keys(report) == [key];
    DeletesUnreported([key], [key]);
    OneFound(key);
    assert rows - RowsWith(node, {}) == rows;
    UpsertAllOverlays(st, rows, report);
  }

  lemma OneFound<K>(key: K)
    ensures FoundList([key], [key]) == [0] && Deleted([key], [key]) == {}
  {
    assert Matches([key], key, 1) == [] && Matches([key], key, 0) == [0];
    assert [key][..0] == [];
    assert Search([0], 0, 0, 1) == 0;
  }

  lemma DeletesAllUnreported<K>(order: seq<K>, reported: seq<K>, rows: Rows<K>, node: string)
    requires Lists(order, rows, node)
    ensures forall r | r in RowsWith(node, Deleted(order, reported)) :: r.device == node
    ensures forall r | r in rows && r.device == node && r.key !in reported ::
              r in RowsWith(node, Deleted(order, reported))
  {
    DeletesUnreported(order, reported);
    forall r | r in rows && r.device == node && r.key !in reported
      ensures r in RowsWith(node, Deleted(order, reported))
    {
      assert r.key in order;
      assert r.key in Unreported(order, reported);
      assert r == RowKey(node, r.key);
    }
  }

  // ---- IP SLA ------------------------------------------------------------------------------------

  /** SELECT entry_id ... ORDER BY entry_id. */
  method FetchAllIPSLA(t: MetaTable<int>, node: string) returns (entries: seq<int>)
    ensures Lists(entries, t.rows, node) && Ascending(entries)
  {
    var unordered := t.FetchAll(node);
    entries := [];
    var n := 0;
    while n < |unordered|
      invariant 0 <= n <= |unordered| && Ascending(entries) && Distinct(entries)
      invariant forall x :: x in entries <==> x in unordered[..n]
    {
      var at := 0;
      while at < |entries| && entries[at] < unordered[n]
        invariant 0 <= at <= |entries| && forall i | 0 <= i < at :: entries[i] < unordered[n]
      {
        at := at + 1;
      }
      Inserted(entries, at, unordered[n], unordered, n);
      entries := entries[..at] + [unordered[n]] + entries[at..];
      n := n + 1;
    }
    assert unordered[..n] == unordered;
    forall i | 0 <= i < |entries| ensures RowKey(node, entries[i]) in t.rows {
      assert entries[i] in unordered;
    }
    forall r | r in t.rows && r.device == node ensures r.key in entries {
      var key: int := r.key;
      assert key in unordered && r == RowKey(node, key);
    }
  }

  lemma Inserted(a: seq<int>, at: nat, x: int, from: seq<int>, n: nat)
    requires Ascending(a) && Distinct(a) && at <= |a| && n < |from| && from[n] == x && Distinct(from)
    requires forall y :: y in a <==> y in from[..n]
    requires forall i | 0 <= i < at :: a[i] < x
    requires at < |a| ==> a[at] >= x
    ensures var b := a[..at] + [x] + a[at..];
            Ascending(b) && Distinct(b) && forall y :: y in b <==> y in from[..n + 1]
  {
    assert from[..n + 1] == from[..n] + [x];
    assert a == a[..at] + a[at..];
    assert x !in from[..n];
    if at < |a| {
      assert a[at] in a;
    }
  }

  /** With the ordered fetch and a report ascending in the entry number, the sanitize step
      deletes exactly the rows that are not reported. */
  method SanitizeIPSLA(t: MetaTable<int>, reported: seq<int>, node: string) returns (failed: bool)
    modifies t`rows
    ensures !failed
    ensures forall r | r in t.rows :: r in old(t.rows) && (r.device != node || r.key in reported)
    ensures Ascending(reported) ==>
              t.rows == map r | r in old(t.rows) && (r.device != node || r.key in reported) :: old(t.rows)[r]
  {
    var order := FetchAllIPSLA(t, node);
    DeletesAllUnreported(order, reported, t.rows, node);
    if Ascending(reported) {
      OrderedReportAscends(order, reported);
      DeletesUnreported(order, reported);
    }
    failed := t.Sanitize(order, reported, node);
  }
}
