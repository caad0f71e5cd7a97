/**
  From a hardware message to the inventory table: the objects that the walk leaves in its
  slice, as the persist reads them, and what the table holds afterwards.
 */
module InventoryUpdate {
  import opened Wire
  import Messages
  import opened Natives
  import FoundIndexes
  import MetaTables
  import Reconciliation
  import opened HardwareObjects
  import opened HardwareWalk

  /** The conflict key of the inventory table besides the device. */
  datatype HardwareKey = HardwareKey(hwType: string, partNumber: string, serialNumber: string)

  type Entry = MetaTables.Entry<HardwareKey>

  type Rows = MetaTables.Rows<HardwareKey>

  const STATEMENT := MetaTables.StatementOf(MetaTables.HardwareInventory)

  /** The characters of a byte string; different bytes give different strings. */
  function Chars(s: seq<byte>): (r: string)
    ensures |r| == |s| && forall i | 0 <= i < |s| :: r[i] as int == s[i]
  {
    seq(|s|, i requires 0 <= i < |s| => s[i] as char)
  }

  function TextOf(obj: Obj, key: seq<byte>): string
    requires IsText(obj, key)
  {
    Chars(obj[key].native.text)
  }

  /** The arguments of the upsert that is queued for an object. */
  function EntryOf(obj: Obj): Entry
    requires Persistable(obj)
  {
    var key := HardwareKey(TextOf(obj, Name("hw-type")), TextOf(obj, Name("part-number")),
                           TextOf(obj, Name("serial-number")));
    MetaTables.Entry(
      MetaTables.RowKey(TextOf(obj, Name("node")), key),
      map[
        "timestamps" := MetaTables.Number(obj[Name("timestamps")].n64),
        "hardware_description" := MetaTables.Text(TextOf(obj, Name("hw-description"))),
        "hardware_device_name" := MetaTables.Text(TextOf(obj, Name("dev-name"))),
        "hardware_field_replaceable" := MetaTables.Flag(obj[FIELD_REPLACEABLE].native.flag),
        "hardware_version" := MetaTables.Text(TextOf(obj, Name("version")))
      ])
  }

  function ReportOf(objs: seq<Obj>): (report: seq<Entry>)
    requires forall i | 0 <= i < |objs| :: Persistable(objs[i])
    ensures |report| == |objs| && forall i | 0 <= i < |objs| :: report[i] == EntryOf(objs[i])
  {
    seq(|objs|, i requires 0 <= i < |objs| => EntryOf(objs[i]))
  }

  /** An object that keeps the node of its message is reported for it, with all columns. */
  lemma EntryFits(env: Env, obj: Obj)
    requires Persistable(obj) && obj[Name("node")] == Text(env.node)
    ensures EntryOf(obj).rowKey.device == Chars(env.node)
    ensures EntryOf(obj).values.Keys == STATEMENT.columns
  {}

  /** Queues and sends the upserts for a slice of objects; an empty slice is not persisted. */
  method PersistInventory(t: Reconciliation.MetaTable<HardwareKey>, objs: seq<Obj>, node: string)
    requires t.name == MetaTables.HardwareInventory && MetaTables.Shaped(STATEMENT, t.rows)
    requires forall i | 0 <= i < |objs| :: Persistable(objs[i])
    requires MetaTables.ShapedReport(STATEMENT, ReportOf(objs)) && MetaTables.About(node, ReportOf(objs))
    modifies t`rows
    ensures t.rows == if objs == [] then old(t.rows) else MetaTables.Replace(old(t.rows), node, ReportOf(objs))
  {
    if objs == [] {
      return;
    }
    var report: seq<Entry> := [];
    var k := 0;
    while k < |objs|
      invariant 0 <= k <= |objs| && |report| == k
      invariant forall i | 0 <= i < k :: report[i] == EntryOf(objs[i])
    {
      report := report + [EntryOf(objs[k])];
      k := k + 1;
    }
    assert report == ReportOf(objs);
    ghost var order := t.Persist(report, node);
  }

  // ---- The fields behind the slice ---------------------------------------------------------------

  /** An inventory field whose object the persist accepts, and files under its node. */
  predicate Accepted(env: Env, f: Messages.Field) {
    Persistable(HardwareObject(env, f)) && HardwareObject(env, f)[Name("node")] == Text(env.node)
  }

  function EntryFor(env: Env, f: Messages.Field): Entry
    requires Accepted(env, f)
  {
    EntryOf(HardwareObject(env, f))
  }

  function TextIn(f: Messages.Field, name: string): string {
    Chars(OrElse(LastText(f.fields, Name(name)), Name("N/A")))
  }

  /** Every part of the key and every column of an accepted field, from its children. */
  lemma EntryColumns(env: Env, f: Messages.Field)
    requires Accepted(env, f)
    ensures var e := EntryFor(env, f);
            && e.rowKey == MetaTables.RowKey(Chars(env.node),
                 HardwareKey(TextIn(f, "hw-type"), TextIn(f, "part-number"), TextIn(f, "serial-number")))
            && e.values.Keys == {"timestamps", "hardware_description", "hardware_device_name",
                                 "hardware_field_replaceable", "hardware_version"}
            && e.values["timestamps"] == MetaTables.Number(env.time)
            && e.values["hardware_description"] == MetaTables.Text(TextIn(f, "hw-description"))
            && e.values["hardware_device_name"] == MetaTables.Text(TextIn(f, "dev-name"))
            && e.values["hardware_version"] == MetaTables.Text(TextIn(f, "version"))
            && e.values["hardware_field_replaceable"] ==
               MetaTables.Flag(match LastNamed(f.fields, FIELD_REPLACEABLE)
                               case Some(c) => c.value == Some(Messages.BoolValue(true))
                               case None => false)
  {
    HardwareEntries(env, f);
    PersistableIff(env, f);
    hide Name, HardwareObject;
  }

  predicate AllAccepted(env: Env, found: seq<Messages.Field>) {
    forall i | 0 <= i < |found| :: Accepted(env, found[i])
  }

  /** The entries for the inventory fields of a message, in order. */
  function ReportFor(env: Env, found: seq<Messages.Field>): (report: seq<Entry>)
    requires AllAccepted(env, found)
    ensures |report| == |found| && forall i | 0 <= i < |found| :: report[i] == EntryFor(env, found[i])
  {
    seq(|found|, i requires 0 <= i < |found| => EntryFor(env, found[i]))
  }

  /** The report made of accepted fields meets what a persist asks for. */
  lemma AcceptedReport(env: Env, found: seq<Messages.Field>)
    requires AllAccepted(env, found)
    ensures forall i | 0 <= i < |found| :: Persistable(InventoryObjects(env, found)[i])
    ensures ReportOf(InventoryObjects(env, found)) == ReportFor(env, found)
    ensures MetaTables.ShapedReport(STATEMENT, ReportFor(env, found))
    ensures MetaTables.About(Chars(env.node), ReportFor(env, found))
  {
    hide Persistable, HardwareObject, EntryOf, STATEMENT;
    forall i | 0 <= i < |found|
      ensures Persistable(InventoryObjects(env, found)[i])
      ensures EntryFor(env, found[i]).rowKey.device == Chars(env.node)
      ensures EntryFor(env, found[i]).values.Keys == STATEMENT.columns
    {
      EntryFits(env, HardwareObject(env, found[i]));
    }
  }

  /** Whatever the schedule of the walk over a hardware message all of whose objects can be
      built and are accepted: its slice can be persisted, and that leaves in the table exactly
      the inventory fields among the strict descendants of the message's top-level fields, the
      last one in pre-order for each key. */
  lemma InventoryAfterMessage(env: Env, tops: seq<Messages.Field>, steps: seq<Step>, before: Rows)
    requires Run(env, Initial(tops), steps).Some? && Stuck(Run(env, Initial(tops), steps).value)
    requires forall f | f in Descendants(tops) :: !Broken(f)
    requires AllAccepted(env, Named(Descendants(tops), DEVICE_INVENTORY))
    ensures var objs, node := Run(env, Initial(tops), steps).value.hardware.slice, Chars(env.node);
            && (forall i | 0 <= i < |objs| :: Persistable(objs[i]))
            && MetaTables.ShapedReport(STATEMENT, ReportOf(objs)) && MetaTables.About(node, ReportOf(objs))
            && MetaTables.Holds(before, MetaTables.Replace(before, node, ReportOf(objs)), node,
                                ReportFor(env, Named(Descendants(tops), DEVICE_INVENTORY)))
  {
    hide *;
    var found := Named(Descendants(tops), DEVICE_INVENTORY);
    WalkOutcome(env, tops, steps);
    AcceptedReport(env, found);
    MetaTables.ReplaceMeaning(before, Chars(env.node), ReportFor(env, found));
  }
}
