/**
  The objects that the walk over a hardware message builds from its fields, and the type
  assertions that the database layer puts to them.
 */
module HardwareObjects {
  import opened Wire
  import opened Messages
  import opened Natives

  // ---- The objects that are sent ----------------------------------------------------------------

  /** A value of type `interface{}` in an object.  The literal `0` is an `int`, and what `Unix()`
      gives is an `int64`; an assertion of one type fails on the other. */
  datatype Item = OfNative(native: Native) | Int(n: int) | Int64(n64: int)

  type Obj = map<seq<byte>, Item>

  /** What the walk takes from elsewhere: the node, the time of the message, the conversion of
      numbers to float64, the version pattern and the RFC 3339 parser. */
  datatype Env = Env(
    node: seq<byte>,
    time: int,
    widen: Messages.Value -> uint64,
    version: seq<byte> -> seq<byte>,
    parseTime: seq<byte> -> Option<int>)

  function Name(s: string): (name: seq<byte>)
    ensures |name| == |s| && forall i | 0 <= i < |s| :: name[i] == s[i] as int % 256
  {
    seq(|s|, i requires 0 <= i < |s| => s[i] as int % 256)
  }

  function Text(s: seq<byte>): Item {
    OfNative(StringNative(s))
  }

  const DEVICE_INVENTORY := Name("device-inventory")
  const DEVICE_SYSTEM_DATA := Name("device-system-data")
  const FIELD_REPLACEABLE := Name("field-replaceable")
  const SOFTWARE_VERSION := Name("software-version")
  const CURRENT_TIME := Name("current-time")
  const BOOT_TIME := Name("boot-time")

  function HardwareDefaults(env: Env): Obj {
    var missing := Text(Name("N/A"));
    map[
      Name("node") := Text(env.node), Name("timestamps") := Int64(env.time), Name("hw-type") := missing,
      Name("version") := missing, Name("part-number") := missing, Name("serial-number") := missing,
      Name("hw-description") := missing, Name("dev-name") := missing,
      FIELD_REPLACEABLE := OfNative(BoolNative(false))
    ]
  }

  function SystemDefaults(env: Env): Obj {
    map[
      Name("node") := Text(env.node), Name("timestamps") := Int64(env.time),
      CURRENT_TIME := Int(0), SOFTWARE_VERSION := Text(Name("N/A")), BOOT_TIME := Int(0)
    ]
  }

  /** What a child says about its entry of a hardware object, if anything: the empty string and
      values of other types are ignored, except for the flag `field-replaceable`. */
  function HardwareSays(env: Env, child: Field): Option<Item> {
    var v := ExtractNative(child.value, false, env.widen);
    if child.name == FIELD_REPLACEABLE || (v.StringNative? && v.text != []) then Some(OfNative(v)) else None
  }

  /** What a child says about its entry of a system object.  A time that does not parse is
      logged and ignored. */
  function SystemSays(env: Env, child: Field): Option<Item> {
    if !Textual(child) then None
    else if child.name == SOFTWARE_VERSION then Some(Text(env.version(child.value.value.text)))
    else if child.name == CURRENT_TIME || child.name == BOOT_TIME then
      match env.parseTime(child.value.value.text)
      case Some(t) => Some(Int64(t))
      case None => None
    else None
  }

  predicate Textual(f: Field) {
    f.value.Some? && f.value.value.StringValue?
  }

  /** A child that must be a string: a failed type assertion is a panic. */
  predicate Faulty(child: Field) {
    (child.name == SOFTWARE_VERSION || child.name == CURRENT_TIME || child.name == BOOT_TIME) && !Textual(child)
  }

  /** The last child that says something about `key`. */
  function LastSaid(says: Field -> Option<Item>, children: seq<Field>, key: seq<byte>): Option<Item> {
    if children == [] then None
    else
      var last := children[|children| - 1];
      if last.name == key && says(last).Some? then says(last) else LastSaid(says, children[..|children| - 1], key)
  }

  /** The defaults, overridden by what the last child says about each of their entries. */
  function Overridden(defaults: Obj, says: Field -> Option<Item>, children: seq<Field>): Obj {
    map key | key in defaults ::
      var said := LastSaid(says, children, key); if said.Some? then said.value else defaults[key]
  }

  function HardwareObject(env: Env, f: Field): Obj {
    Overridden(HardwareDefaults(env), child => HardwareSays(env, child), f.fields)
  }

  function SystemObject(env: Env, f: Field): Obj {
    Overridden(SystemDefaults(env), child => SystemSays(env, child), f.fields)
  }

  lemma SaidSnoc(says: Field -> Option<Item>, children: seq<Field>, last: Field, key: seq<byte>)
    ensures LastSaid(says, children + [last], key) ==
            if last.name == key && says(last).Some? then says(last) else LastSaid(says, children, key)
  {
    assert (children + [last])[..|children|] == children;
  }

  /** Overwriting one entry after the other gives the last word to each. */
  lemma OverriddenSnoc(defaults: Obj, says: Field -> Option<Item>, children: seq<Field>, last: Field)
    ensures var before, after := Overridden(defaults, says, children), Overridden(defaults, says, children + [last]);
            after == if last.name in defaults && says(last).Some? then before[last.name := says(last).value] else before
  {
    forall key | key in defaults
      ensures LastSaid(says, children + [last], key) ==
              if last.name == key && says(last).Some? then says(last) else LastSaid(says, children, key)
    {
      SaidSnoc(says, children, last, key);
    }
  }

  method BuildHardware(env: Env, field: Field) returns (hwObj: Obj)
    ensures hwObj == HardwareObject(env, field)
  {
    hide HardwareDefaults;
    var says := child => HardwareSays(env, child);
    hwObj := HardwareDefaults(env);
    var k := 0;
    assert Overridden(HardwareDefaults(env), says, field.fields[..0]) == hwObj;
    while k < |field.fields|
      invariant 0 <= k <= |field.fields|
      invariant hwObj == Overridden(HardwareDefaults(env), says, field.fields[..k])
    {
      var hwField := field.fields[k];
      OverriddenSnoc(HardwareDefaults(env), says, field.fields[..k], hwField);
      assert field.fields[..k + 1] == field.fields[..k] + [hwField];
      if hwField.name in hwObj {
        if hwField.name == FIELD_REPLACEABLE {
          hwObj := hwObj[hwField.name := OfNative(ExtractNative(hwField.value, false, env.widen))];
        }
        var val := ExtractNative(hwField.value, false, env.widen);
        if val.StringNative? && val.text != [] {
          hwObj := hwObj[hwField.name := Text(val.text)];
        }
      }
      k := k + 1;
    }
    assert field.fields[..k] == field.fields;
  }

  method BuildSystem(env: Env, field: Field) returns (sysObj: Obj)
    requires forall child | child in field.fields :: !Faulty(child)
    ensures sysObj == SystemObject(env, field)
  {
    SystemKeys(env);
    hide SystemDefaults;
    var says := child => SystemSays(env, child);
    sysObj := SystemDefaults(env);
    var k := 0;
    assert Overridden(SystemDefaults(env), says, field.fields[..0]) == sysObj;
    while k < |field.fields|
      invariant 0 <= k <= |field.fields|
      invariant sysObj == Overridden(SystemDefaults(env), says, field.fields[..k])
    {
      var hwField := field.fields[k];
      assert !Faulty(hwField);
      OverriddenSnoc(SystemDefaults(env), says, field.fields[..k], hwField);
      assert field.fields[..k + 1] == field.fields[..k] + [hwField];
      if hwField.name == SOFTWARE_VERSION {
        sysObj := sysObj[hwField.name := Text(env.version(hwField.value.value.text))];
      } else if hwField.name == CURRENT_TIME || hwField.name == BOOT_TIME {
        var parsed := env.parseTime(hwField.value.value.text);
        if parsed.Some? {
          sysObj := sysObj[hwField.name := Int64(parsed.value)];
        }
      }
      k := k + 1;
    }
    assert field.fields[..k] == field.fields;
  }

  lemma SystemKeys(env: Env)
    ensures SOFTWARE_VERSION in SystemDefaults(env) && CURRENT_TIME in SystemDefaults(env)
    ensures BOOT_TIME in SystemDefaults(env)
  {}

  // ---- What the database layer asserts about an object ------------------------------------------

  predicate IsText(obj: Obj, key: seq<byte>) {
    key in obj && obj[key].OfNative? && obj[key].native.StringNative?
  }

  predicate IsFlag(obj: Obj, key: seq<byte>) {
    key in obj && obj[key].OfNative? && obj[key].native.BoolNative?
  }

  predicate IsInt64(obj: Obj, key: seq<byte>) {
    key in obj && obj[key].Int64?
  }

  /** The type assertions of the hardware persist, each of which panics when it fails. */
  predicate Persistable(obj: Obj) {
    && (forall key | key in TEXT_ENTRIES :: IsText(obj, key))
    && IsInt64(obj, Name("timestamps")) && IsFlag(obj, FIELD_REPLACEABLE)
  }

  const TEXT_ENTRIES := {
    Name("node"), Name("hw-type"), Name("part-number"), Name("hw-description"), Name("dev-name"), Name("version"),
    Name("serial-number")
  }

  /** The type assertions of the system-data persist. */
  predicate SystemPersistable(obj: Obj) {
    && IsText(obj, Name("node")) && IsText(obj, SOFTWARE_VERSION)
    && IsInt64(obj, Name("timestamps")) && IsInt64(obj, CURRENT_TIME) && IsInt64(obj, BOOT_TIME)
  }

  /** The last child with a name. */
  function LastNamed(children: seq<Field>, key: seq<byte>): Option<Field> {
    if children == [] then None
    else
      var last := children[|children| - 1];
      if last.name == key then Some(last) else LastNamed(children[..|children| - 1], key)
  }

  /** The text of the last child with a name that holds a non-empty string. */
  function LastText(children: seq<Field>, key: seq<byte>): Option<seq<byte>> {
    if children == [] then None
    else
      var last := children[|children| - 1];
      if last.name == key && Textual(last) && last.value.value.text != [] then Some(last.value.value.text)
      else LastText(children[..|children| - 1], key)
  }

  lemma NamesDiffer()
    ensures Name("timestamps") != FIELD_REPLACEABLE && FIELD_REPLACEABLE !in TEXT_ENTRIES
    ensures Name("timestamps") !in TEXT_ENTRIES
    ensures Name("node") !in {SOFTWARE_VERSION, CURRENT_TIME, BOOT_TIME}
    ensures Name("timestamps") !in {SOFTWARE_VERSION, CURRENT_TIME, BOOT_TIME}
    ensures SOFTWARE_VERSION !in {CURRENT_TIME, BOOT_TIME}
    ensures Name("node") !in {Name("timestamps"), FIELD_REPLACEABLE}
    ensures Name("node") !in {Name("hw-type"), Name("part-number"), Name("hw-description"), Name("dev-name"),
                              Name("version"), Name("serial-number")}
  {
    assert |Name("timestamps")| == 10 && |FIELD_REPLACEABLE| == 17;
    assert |Name("node")| == 4 && |Name("hw-type")| == 7 && |Name("part-number")| == 11 && |Name("version")| == 7;
    assert |Name("hw-description")| == 14 && |Name("dev-name")| == 8 && |Name("serial-number")| == 13;
    assert |SOFTWARE_VERSION| == 16 && |CURRENT_TIME| == 12 && |BOOT_TIME| == 9;
  }

  lemma {:induction false} TextSaid(env: Env, children: seq<Field>, key: seq<byte>)
    requires key != FIELD_REPLACEABLE
    ensures var said := LastSaid(child => HardwareSays(env, child), children, key);
            said == match LastText(children, key) case Some(t) => Some(Text(t)) case None => None
  {
    if children == [] {
    } else {
      TextSaid(env, children[..|children| - 1], key);
    }
  }

  lemma {:induction false} FlagSaid(env: Env, children: seq<Field>)
    ensures var said := LastSaid(child => HardwareSays(env, child), children, FIELD_REPLACEABLE);
            var last := LastNamed(children, FIELD_REPLACEABLE);
            && (said.None? <==> last.None?)
            && (last.Some? ==> said == Some(OfNative(ExtractNative(last.value.value, false, env.widen))))
  {
    if children == [] {
    } else {
      FlagSaid(env, children[..|children| - 1]);
    }
  }

  /** An inventory object passes the type assertions of the persist if and only if no child
      overwrites the time with a string and the last flag, if there is one, is a boolean. */
  lemma PersistableIff(env: Env, f: Field)
    ensures Persistable(HardwareObject(env, f)) <==>
            && LastText(f.fields, Name("timestamps")).None?
            && var flag := LastNamed(f.fields, FIELD_REPLACEABLE);
               flag.Some? ==> flag.value.value.Some? && flag.value.value.value.BoolValue?
  {
    NamesDiffer();
    hide Name;
    var obj := HardwareObject(env, f);
    FlagSaid(env, f.fields);
    TextSaid(env, f.fields, Name("timestamps"));
    forall key | key in TEXT_ENTRIES ensures IsText(obj, key) {
      TextSaid(env, f.fields, key);
    }
  }

  /** An inventory object is about the node of its message if and only if no child named
      `node` says otherwise; the reconciliation of its table assumes that it is. */
  lemma NodeKeptIff(env: Env, f: Field)
    ensures Name("node") in HardwareObject(env, f)
    ensures HardwareObject(env, f)[Name("node")] == Text(env.node) <==>
            LastText(f.fields, Name("node")) in {None, Some(env.node)}
  {
    NamesDiffer();
    hide Name;
    TextSaid(env, f.fields, Name("node"));
  }

  lemma {:induction false} SaidBySome(says: Field -> Option<Item>, children: seq<Field>, key: seq<byte>)
    ensures var said := LastSaid(says, children, key);
            && (said.Some? <==> exists child :: child in children && child.name == key && says(child).Some?)
            && (said.Some? ==> exists child :: child in children && child.name == key && says(child) == said)
  {
    if children == [] {
    } else {
      var init, last := children[..|children| - 1], children[|children| - 1];
      SaidBySome(says, init, key);
      assert children == init + [last];
      assert last in children;
    }
  }

  /** Some child gives a time that parses. */
  predicate TimeGiven(env: Env, children: seq<Field>, key: seq<byte>) {
    exists child :: child in children && child.name == key && Textual(child)
                    && env.parseTime(child.value.value.text).Some?
  }

  /** A system object passes the type assertions of its persist if and only if both times are
      given: a time that is missing, or never parses, stays an `int`. */
  lemma SystemPersistableIff(env: Env, f: Field)
    ensures SystemPersistable(SystemObject(env, f)) <==>
            TimeGiven(env, f.fields, CURRENT_TIME) && TimeGiven(env, f.fields, BOOT_TIME)
  {
    NamesDiffer();
    var says := child => SystemSays(env, child);
    var obj := SystemObject(env, f);
    forall key | key in {Name("node"), Name("timestamps"), SOFTWARE_VERSION, CURRENT_TIME, BOOT_TIME}
      ensures key in obj && obj[key] == var said := LastSaid(says, f.fields, key);
                                        if said.Some? then said.value else SystemDefaults(env)[key]
    {}
    hide Name;
    SaidBySome(says, f.fields, Name("node"));
    SaidBySome(says, f.fields, Name("timestamps"));
    SaidBySome(says, f.fields, SOFTWARE_VERSION);
    TimeSaid(env, f.fields, CURRENT_TIME);
    TimeSaid(env, f.fields, BOOT_TIME);
  }

  lemma TimeSaid(env: Env, children: seq<Field>, key: seq<byte>)
    requires key == CURRENT_TIME || key == BOOT_TIME
    ensures var said := LastSaid(child => SystemSays(env, child), children, key);
            (said.Some? <==> TimeGiven(env, children, key)) && (said.Some? ==> said.value.Int64?)
  {
    NamesDiffer();
    hide Name;
    SaidBySome(child => SystemSays(env, child), children, key);
  }

  // ---- The entries of an object ----------------------------------------------------------------------

  /** The text of the last child with a name that holds a string, even an empty one. */
  function LastTextual(children: seq<Field>, key: seq<byte>): Option<seq<byte>> {
    if children == [] then None
    else
      var last := children[|children| - 1];
      if last.name == key && last.value.Some? && last.value.value.StringValue? then Some(last.value.value.text)
      else LastTextual(children[..|children| - 1], key)
  }

  /** The time of the last child with a name that holds a time that parses. */
  function LastTime(env: Env, children: seq<Field>, key: seq<byte>): Option<int> {
    if children == [] then None
    else
      var last := children[|children| - 1];
      if last.name == key && last.value.Some? && last.value.value.StringValue?
         && env.parseTime(last.value.value.text).Some?
      then env.parseTime(last.value.value.text)
      else LastTime(env, children[..|children| - 1], key)
  }

  /** Every entry of an inventory object, from the children of its field: a text is that of the
      last child with its name that is a non-empty string, or else "N/A", or the node of the
      message; the time is that of the message unless a string replaces it; the flag is the
      value of the last child with its name, or false. */
  lemma HardwareEntries(env: Env, f: Field)
    ensures var obj := HardwareObject(env, f);
            && obj.Keys == TEXT_ENTRIES + {Name("timestamps"), FIELD_REPLACEABLE}
            && obj[Name("node")] == Text(OrElse(LastText(f.fields, Name("node")), env.node))
            && (forall key | key in TEXT_ENTRIES - {Name("node")} ::
                  obj[key] == Text(OrElse(LastText(f.fields, key), Name("N/A"))))
            && obj[Name("timestamps")] == (match LastText(f.fields, Name("timestamps"))
                                           case Some(t) => Text(t) case None => Int64(env.time))
            && obj[FIELD_REPLACEABLE] == (match LastNamed(f.fields, FIELD_REPLACEABLE)
                                          case Some(c) => OfNative(ExtractNative(c.value, false, env.widen))
                                          case None => OfNative(BoolNative(false)))
  {
    NamesDiffer();
    hide Name;
    var obj := HardwareObject(env, f);
    assert obj.Keys == HardwareDefaults(env).Keys;
    FlagSaid(env, f.fields);
    TextSaid(env, f.fields, Name("timestamps"));
    TextSaid(env, f.fields, Name("node"));
    forall key | key in TEXT_ENTRIES - {Name("node")}
      ensures obj[key] == Text(OrElse(LastText(f.fields, key), Name("N/A")))
    {
      TextSaid(env, f.fields, key);
      assert HardwareDefaults(env)[key] == Text(Name("N/A"));
    }
  }

  lemma {:induction false} SystemSaid(env: Env, children: seq<Field>)
    ensures LastSaid(child => SystemSays(env, child), children, SOFTWARE_VERSION) ==
            match LastTextual(children, SOFTWARE_VERSION) case Some(t) => Some(Text(env.version(t))) case None => None
    ensures forall key | key in {CURRENT_TIME, BOOT_TIME} ::
              LastSaid(child => SystemSays(env, child), children, key) ==
              match LastTime(env, children, key) case Some(t) => Some(Int64(t)) case None => None
    ensures LastSaid(child => SystemSays(env, child), children, Name("node")) == None
    ensures LastSaid(child => SystemSays(env, child), children, Name("timestamps")) == None
  {
    NamesDiffer();
    hide Name;
    if children == [] {
    } else {
      SystemSaid(env, children[..|children| - 1]);
    }
  }

  /** Every entry of a system object, from the children of its field: the version that the
      pattern finds in the last version text, and each time as the last one that parses; a time
      that is not given stays an `int`. */
  lemma SystemEntries(env: Env, f: Field)
    ensures var obj := SystemObject(env, f);
            && obj.Keys == {Name("node"), Name("timestamps"), SOFTWARE_VERSION, CURRENT_TIME, BOOT_TIME}
            && obj[Name("node")] == Text(env.node) && obj[Name("timestamps")] == Int64(env.time)
            && obj[SOFTWARE_VERSION] == (match LastTextual(f.fields, SOFTWARE_VERSION)
                                         case Some(t) => Text(env.version(t)) case None => Text(Name("N/A")))
            && (forall key | key in {CURRENT_TIME, BOOT_TIME} ::
                  obj[key] == match LastTime(env, f.fields, key) case Some(t) => Int64(t) case None => Int(0))
  {
    NamesDiffer();
    hide Name;
    SystemSaid(env, f.fields);
    assert SystemObject(env, f).Keys == SystemDefaults(env).Keys;
  }
}
