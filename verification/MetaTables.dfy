/**
  A metadata table: rows under a device and a key, deletes, and the upsert statement that
  every persist queues; and what a sequence of them amounts to.
 */
module MetaTables {
  import opened Wire
  import opened FoundIndexes

  datatype Cell = Text(text: string) | Number(number: int) | Flag(flag: bool)

  /** The columns of a row outside its primary key. */
  type Row = map<string, Cell>

  datatype RowKey<K> = RowKey(device: string, key: K)

  type Rows<K(==)> = map<RowKey<K>, Row>

  /** One element of a report: the key and the column values it carries. */
  datatype Entry<K> = Entry(rowKey: RowKey<K>, values: Row)

  /** An upsert statement: the columns of its ON CONFLICT key, the other columns it inserts,
      and those of its DO UPDATE SET list. */
  datatype Statement = Statement(conflict: set<string>, columns: set<string>, setList: set<string>)

  datatype Table = BgpPeers | BgpAfis | HardwareInventory | Interfaces | IpSlas

  /** The columns that a sanitize step compares between a reported and a stored row. */
  function Compared(t: Table): set<string> {
    match t
    case BgpPeers => {"neighbor_id", "address_family_type", "address_family_vrf"}
    case BgpAfis => {"afi_type", "vrf_name"}
    case HardwareInventory => {"hardware_type", "hardware_part_number", "serial_number"}
    case Interfaces => {"interface_name"}
    case IpSlas => {"entry_id"}
  }

  /** The statement each table is written with.  Sanitizing compares exactly the conflict key
      besides the device, and every other column is in the SET list. */
  function StatementOf(t: Table): (st: Statement)
    ensures st.conflict == Compared(t) + {"device_id"}
    ensures st.conflict !! st.columns && st.columns == st.setList
  {
    match t
    case BgpPeers =>
      Statement({"device_id", "neighbor_id", "address_family_type", "address_family_vrf"},
                {"timestamps", "neighbor_status", "uptime", "remote_as"},
                {"neighbor_status", "uptime", "remote_as", "timestamps"})
    case BgpAfis =>
      Statement({"device_id", "afi_type", "vrf_name"},
                {"timestamps", "total_prefixes", "total_paths"},
                {"total_prefixes", "total_paths", "timestamps"})
    case HardwareInventory =>
      Statement({"device_id", "hardware_type", "hardware_part_number", "serial_number"},
                {"timestamps", "hardware_description", "hardware_device_name", "hardware_field_replaceable",
                 "hardware_version"},
                {"hardware_description", "hardware_device_name", "hardware_field_replaceable", "hardware_version",
                 "timestamps"})
    case Interfaces =>
      Statement({"device_id", "interface_name"},
                {"timestamps", "description", "ipv4_address", "admin_status", "oper_status", "speed", "mtu",
                 "physical_address", "vrf_attached", "last_status_change"},
                {"description", "ipv4_address", "admin_status", "oper_status", "speed", "mtu", "physical_address",
                 "vrf_attached", "last_status_change", "timestamps"})
    case IpSlas =>
      Statement({"device_id", "entry_id"},
                {"timestamps", "destination_ip", "destination_port", "source_ip", "source_port", "vrf", "frequency",
                 "type", "dscp", "class_of_service", "req_data_size", "http_url", "http_version", "http_proxy",
                 "http_dns_server", "destination_host"},
                {"destination_ip", "destination_port", "source_ip", "source_port", "vrf", "frequency", "type", "dscp",
                 "class_of_service", "req_data_size", "http_url", "http_proxy", "http_dns_server", "http_version",
                 "timestamps", "destination_host"})
  }

  // ---- One upsert ------------------------------------------------------------------------------

  /** ON CONFLICT DO UPDATE: only the columns of the SET list take the new values. */
  function Update(st: Statement, old_: Row, values: Row): Row {
    map c | c in old_ :: if c in st.setList && c in values then values[c] else old_[c]
  }

  function Upsert<K>(st: Statement, rows: Rows<K>, e: Entry<K>): Rows<K> {
    if e.rowKey in rows then rows[e.rowKey := Update(st, rows[e.rowKey], e.values)]
    else rows[e.rowKey := e.values]
  }

  /** The batch of a persist, in the order it is queued. */
  function UpsertAll<K>(st: Statement, rows: Rows<K>, report: seq<Entry<K>>): Rows<K>
    decreases |report|
  {
    if report == [] then rows
    else UpsertAll(st, Upsert(st, rows, report[0]), report[1..])
  }

  /** Every row has exactly the columns of the statement. */
  predicate Shaped<K>(st: Statement, rows: Rows<K>) {
    forall r | r in rows :: rows[r].Keys == st.columns
  }

  predicate ShapedReport<K>(st: Statement, report: seq<Entry<K>>) {
    forall i | 0 <= i < |report| :: report[i].values.Keys == st.columns
  }

  /** Updating a row is the same as deleting it and inserting the new one, for all rows,
      exactly when the SET list names every column. */
  lemma UpdateIsInsertIffComplete(st: Statement)
    ensures (forall o: Row, n: Row | o.Keys == n.Keys == st.columns :: Update(st, o, n) == n) <==> st.columns <= st.setList
  {
    if !(st.columns <= st.setList) {
      var c :| c in st.columns && c !in st.setList;
      var o: Row := map x | x in st.columns :: Flag(false);
      var n: Row := map x | x in st.columns :: Flag(true);
      assert Update(st, o, n)[c] != n[c];
    }
  }

  // ---- A whole batch ---------------------------------------------------------------------------

  /** The row of the last report entry for each key. */
  function LastOf<K(==)>(report: seq<Entry<K>>): (rows: Rows<K>)
    ensures rows.Keys == set i | 0 <= i < |report| :: report[i].rowKey
    decreases |report|
  {
    if report == [] then map[]
    else
      var last := |report| - 1;
      LastOf(report[..last])[report[last].rowKey := report[last].values]
  }

  /** What `LastOf` means: an entry with no later entry of its key decides its row. */
  lemma {:induction false} LastEntryWins<K>(report: seq<Entry<K>>, i: nat)
    requires i < |report| && forall j | i < j < |report| :: report[j].rowKey != report[i].rowKey
    ensures report[i].rowKey in LastOf(report) && LastOf(report)[report[i].rowKey] == report[i].values
    decreases |report|
  {
    if i == |report| - 1 {
    } else {
      LastEntryWins(report[..|report| - 1], i);
    }
  }

  lemma {:induction false} UpsertAllSnoc<K>(st: Statement, rows: Rows<K>, report: seq<Entry<K>>, e: Entry<K>)
    ensures UpsertAll(st, rows, report + [e]) == Upsert(st, UpsertAll(st, rows, report), e)
    decreases |report|
  {
    if report == [] {
      assert ([e])[1..] == [];
    } else {
      assert (report + [e])[1..] == report[1..] + [e];
      UpsertAllSnoc(st, Upsert(st, rows, report[0]), report[1..], e);
    }
  }

  lemma UpsertOverlays<K>(st: Statement, rows: Rows<K>, e: Entry<K>)
    requires st.columns <= st.setList && Shaped(st, rows) && e.values.Keys == st.columns
    ensures Upsert(st, rows, e) == rows[e.rowKey := e.values]
    ensures Shaped(st, rows[e.rowKey := e.values])
  {
    if e.rowKey in rows {
      UpdateIsInsertIffComplete(st);
    }
  }

  /** A batch leaves the old rows overlaid with the last reported ones. */
  lemma {:induction false} UpsertAllOverlays<K>(st: Statement, rows: Rows<K>, report: seq<Entry<K>>)
    requires st.columns <= st.setList && Shaped(st, rows) && ShapedReport(st, report)
    ensures UpsertAll(st, rows, report) == rows + LastOf(report)
    ensures Shaped(st, rows + LastOf(report))
    decreases |report|
  {
    hide Upsert, Update, Shaped;
    if report == [] {
      assert rows + map[] == rows;
    } else {
      var last := |report| - 1;
      var init, e := report[..last], report[last];
      assert report == init + [e];
      UpsertAllOverlays(st, rows, init);
      UpsertAllSnoc(st, rows, init, e);
      UpsertOverlays(st, rows + LastOf(init), e);
      assert LastOf(report) == LastOf(init)[e.rowKey := e.values];
      hide LastOf, UpsertAll;
      OverlayOne(rows, LastOf(init), e.rowKey, e.values);
    }
  }

  lemma OverlayOne<K>(rows: Rows<K>, over: Rows<K>, r: RowKey<K>, values: Row)
    ensures (rows + over)[r := values] == rows + over[r := values]
  {}

  // ---- Replacing a node's rows --------------------------------------------------------------------

  /** The rows of all other devices. */
  function Others<K>(rows: Rows<K>, node: string): Rows<K> {
    map r | r in rows && r.device != node :: rows[r]
  }

  /** The simple operation that a persist stands for: throw the node's rows away and put the
      report in their place. */
  function Replace<K(==)>(rows: Rows<K>, node: string, report: seq<Entry<K>>): Rows<K> {
    Others(rows, node) + LastOf(report)
  }

  predicate About<K>(node: string, report: seq<Entry<K>>) {
    forall i | 0 <= i < |report| :: report[i].rowKey.device == node
  }

  function Keys<K>(report: seq<Entry<K>>): (ks: seq<K>)
    ensures |ks| == |report| && forall i | 0 <= i < |ks| :: ks[i] == report[i].rowKey.key
  {
    seq(|report|, i requires 0 <= i < |report| => report[i].rowKey.key)
  }

  /** Every row of the node whose key is reported is reported for the node. */
  predicate Covers<K>(rows: Rows<K>, node: string, report: seq<Entry<K>>) {
    forall r | r in rows && r.device == node && r.key in Keys(report) :: r in LastOf(report)
  }

  /** A report about the node covers its rows, whatever they are. */
  lemma AboutCovers<K>(rows: Rows<K>, node: string, report: seq<Entry<K>>)
    requires About(node, report)
    ensures Covers(rows, node, report)
  {
    forall r | r in rows && r.device == node && r.key in Keys(report) ensures r in LastOf(report) {
      var i :| 0 <= i < |report| && Keys(report)[i] == r.key;
      assert report[i].rowKey == r;
    }
  }

  // ---- Histories -----------------------------------------------------------------------------------

  lemma LastIsAbout<K>(node: string, report: seq<Entry<K>>)
    requires About(node, report)
    ensures forall r | r in LastOf(report) :: r.device == node
  {}

  /** After a report, what earlier reports left of the node is gone. */
  lemma ReplaceForgets<K>(rows: Rows<K>, node: string, earlier: seq<Entry<K>>, later: seq<Entry<K>>)
    requires About(node, earlier)
    ensures Replace(Replace(rows, node, earlier), node, later) == Replace(rows, node, later)
  {
    LastIsAbout(node, earlier);
    assert Others(Replace(rows, node, earlier), node) == Others(rows, node);
  }

  /** A report about a node leaves the rows of all others as they were. */
  lemma ReplaceIsLocal<K>(rows: Rows<K>, node: string, report: seq<Entry<K>>)
    requires About(node, report)
    ensures Others(Replace(rows, node, report), node) == Others(rows, node)
  {
    LastIsAbout(node, report);
  }

  /** No later entry of a report has the key of entry `i`. */
  predicate LastOfItsKey<K(==)>(report: seq<Entry<K>>, i: nat)
    requires i < |report|
  {
    forall j | i < j < |report| :: report[j].rowKey != report[i].rowKey
  }

  /** Each reported key has its row, which is that of the last entry for it; the node has no
      other rows, and the rows of other nodes are as they were. */
  predicate Holds<K(==)>(before: Rows<K>, after: Rows<K>, node: string, report: seq<Entry<K>>) {
    && (forall i | 0 <= i < |report| :: report[i].rowKey in after)
    && (forall i | 0 <= i < |report| && LastOfItsKey(report, i) :: after[report[i].rowKey] == report[i].values)
    && (forall r | r in after && r.device == node :: exists i :: 0 <= i < |report| && report[i].rowKey == r)
    && Others(after, node) == Others(before, node)
  }

  /** What `Replace` means, entry by entry and row by row. */
  lemma ReplaceMeaning<K>(rows: Rows<K>, node: string, report: seq<Entry<K>>)
    requires About(node, report)
    ensures Holds(rows, Replace(rows, node, report), node, report)
  {
    LastIsAbout(node, report);
    ReplaceIsLocal(rows, node, report);
    forall i | 0 <= i < |report| && LastOfItsKey(report, i)
      ensures LastOf(report)[report[i].rowKey] == report[i].values
    {
      LastEntryWins(report, i);
    }
  }

  /** A report and the node it is persisted for. */
  datatype Report<K> = Report(node: string, entries: seq<Entry<K>>)

  /** One report after the other, about any nodes. */
  function ReplaceAll<K(==)>(rows: Rows<K>, reports: seq<Report<K>>): Rows<K> {
    if reports == [] then rows
    else
      var last := reports[|reports| - 1];
      Replace(ReplaceAll(rows, reports[..|reports| - 1]), last.node, last.entries)
  }

  function RowsOf<K>(rows: Rows<K>, node: string): Rows<K> {
    map r | r in rows && r.device == node :: rows[r]
  }

  /** The last report about a node. */
  function LastAbout<K>(reports: seq<Report<K>>, node: string): Option<seq<Entry<K>>> {
    if reports == [] then None
    else if reports[|reports| - 1].node == node then Some(reports[|reports| - 1].entries)
    else LastAbout(reports[..|reports| - 1], node)
  }

  /** After any history of reports about any nodes, the rows of each node depend only on the
      last report about it. */
  lemma {:induction false} HistoryIndependence<K>(rows: Rows<K>, reports: seq<Report<K>>, node: string)
    requires forall i | 0 <= i < |reports| :: About(reports[i].node, reports[i].entries)
    ensures RowsOf(ReplaceAll(rows, reports), node) ==
            match LastAbout(reports, node) case Some(entries) => LastOf(entries) case None => RowsOf(rows, node)
    decreases |reports|
  {
    if reports == [] {
    } else {
      var init, last := reports[..|reports| - 1], reports[|reports| - 1];
      LastIsAbout(last.node, last.entries);
      HistoryIndependence(rows, init, node);
      ReplaceSplits(ReplaceAll(rows, init), last.node, last.entries, node);
    }
  }

  /** A report decides the rows of its own node and leaves those of the others alone. */
  lemma ReplaceSplits<K>(rows: Rows<K>, node: string, report: seq<Entry<K>>, other: string)
    requires About(node, report)
    ensures RowsOf(Replace(rows, node, report), other) ==
            if other == node then LastOf(report) else RowsOf(rows, other)
  {
    LastIsAbout(node, report);
  }
}
