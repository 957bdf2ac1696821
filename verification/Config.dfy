// backend/src/config/config.service.ts: update, updateMany and the consistency of the two share periods.
module Config {
  import opened Wrappers
  import opened Text
  import opened Numerals
  import opened Timespan

  /** A value sent by the administrator or held by the value map; Null is also what an empty text becomes. */
  datatype Value = Text(text: string) | Number(n: int) | Bool(b: bool) | Null

  /** What the definitions file says about a variable. */
  datatype Definition = Definition(isTimespan: bool, initial: Option<string>, defaultValue: string)

  /** A row of the config table. */
  datatype Row = Row(typ: string, value: Option<string>, locked: bool)

  type Table = map<string, Row>

  /**
   * The definitions by key; the keys `share.expiredEditablePeriod` and `share.fileRetentionPeriod`; and the keys
   * of the numeric variables that have a range condition, with that condition.
   */
  datatype Setting = Setting(
    definitions: map<string, Definition>, editable: string, retention: string,
    ranged: set<string>, rangeOk: (string, Value) -> bool)

  /** The variable a key addresses: its first two parts between dots, whatever follows them. */
  function Target(key: string): Option<string> {
    var parts := Split(key, ".");
    if |parts| < 2 then None else Some(parts[0] + "." + parts[1])
  }

  /** The key has exactly the two parts that make up its target. */
  predicate Exact(key: string) {
    Target(key) == Some(key)
  }

  function Normalize(v: Value): Value {
    if v == Text("") then Null else v
  }

  /** `value === null ? null : value.toString()` */
  function ToStored(v: Value): Option<string> {
    match v
    case Text(text) => Some(text)
    case Number(n) => Some(if n < 0 then "-" + Print(-n, 10) else Print(n, 10))
    case Bool(b) => Some(if b then "true" else "false")
    case Null => None
  }

  /** The value of a defined variable: stored, else initial, else default. */
  function Effective(setting: Setting, table: Table, key: string): string
    requires key in setting.definitions
  {
    var d := setting.definitions[key];
    if key in table && table[key].value.Some? then table[key].value.value
    else if d.initial.Some? then d.initial.value
    else d.defaultValue
  }

  function ValueMap(setting: Setting, table: Table): map<string, Value> {
    map key | key in setting.definitions :: Text(Effective(setting, table, key))
  }

  /** `validateConfigVariable` raises no error. */
  predicate ValidVariable(setting: Setting, key: string, v: Value) {
    && (key in setting.ranged ==> setting.rangeOk(key, v))
    && (Target(key).Some? && Target(key).value in setting.definitions && setting.definitions[Target(key).value].isTimespan ==>
          v.Text? && ParseTimespan(v.text).Some?)
  }

  function PeriodOf(values: map<string, Value>, key: string): (p: Option<Period>)
    ensures p.Some? ==> p.value.unit in TIMESPAN_IN_MINUTES
  {
    if key in values && values[key].Text? then ParseTimespan(values[key].text) else None
  }

  /** The editable period does not exceed the retention period. */
  predicate PeriodsOk(setting: Setting, values: map<string, Value>) {
    var editable, retention := PeriodOf(values, setting.editable), PeriodOf(values, setting.retention);
    && editable.Some? && retention.Some?
    && ToMinutes(editable.value) <= ToMinutes(retention.value)
  }

  /** `validateConfigConsistency` raises no error. */
  predicate Consistent(setting: Setting, values: map<string, Value>) {
    (forall key | key in values :: ValidVariable(setting, key, values[key])) && PeriodsOk(setting, values)
  }

  /** The type of the row accepts the value. */
  predicate TypeAccepts(typ: string, v: Value) {
    v.Text? && v.text != "" ==> typ == "string" || typ == "text" || typ == "timespan"
  }

  /** `update`: the table afterwards, None for an error. */
  function Update(setting: Setting, table: Table, key: string, v: Value, skip: bool): Option<Table> {
    var target := Target(key);
    if target.None? || target.value !in table || table[target.value].locked then None
    else if !TypeAccepts(table[target.value].typ, v) then None
    else if !ValidVariable(setting, key, Normalize(v)) then None
    else if !skip && !Consistent(setting, ValueMap(setting, table)[key := Normalize(v)]) then None
    else Some(table[target.value := table[target.value].(value := ToStored(Normalize(v)))])
  }

  datatype Entry = Entry(key: string, value: Value)

  /** The map that `updateMany` validates: the current values with all entries laid over them. */
  function Overlay(values: map<string, Value>, data: seq<Entry>): (next: map<string, Value>)
    ensures values.Keys <= next.Keys
  {
    if data == [] then values
    else
      var last := data[|data| - 1];
      Overlay(values, data[..|data| - 1])[last.key := Normalize(last.value)]
  }

  /** The updates of `updateMany` one after the other; None as soon as one fails. */
  function UpdateAll(setting: Setting, table: Table, data: seq<Entry>): Option<Table> {
    if data == [] then Some(table)
    else
      var before, last := UpdateAll(setting, table, data[..|data| - 1]), data[|data| - 1];
      if before.None? then None else Update(setting, before.value, last.key, last.value, true)
  }

  function UpdateMany(setting: Setting, table: Table, data: seq<Entry>): Option<Table> {
    if !Consistent(setting, Overlay(ValueMap(setting, table), data)) then None
    else UpdateAll(setting, table, data)
  }

  class ConfigService {
    var configVariables: Table
    const setting: Setting
    const editAllowed: bool

    constructor (setting: Setting, table: Table, editAllowed: bool)
      ensures this.setting == setting && configVariables == table && this.editAllowed == editAllowed
    {
      this.setting := setting;
      this.configVariables := table;
      this.editAllowed := editAllowed;
    }

    method HandleUpdate(key: string, value: Value, skipConsistencyValidation: bool) returns (ok: bool)
      modifies this
      ensures !editAllowed ==> !ok
      ensures editAllowed ==>
        (ok <==> Update(setting, old(configVariables), key, value, skipConsistencyValidation).Some?)
      ensures ok ==> Some(configVariables) == Update(setting, old(configVariables), key, value, skipConsistencyValidation)
      ensures !ok ==> configVariables == old(configVariables)
    {
      if !editAllowed {
        return false;
      }
      var target := Target(key);
      if target.None? || target.value !in configVariables {
        return false;
      }
      var configVariable := configVariables[target.value];
      if configVariable.locked || !TypeAccepts(configVariable.typ, value) {
        return false;
      }
      var normalizedValue := Normalize(value);
      var nextValues := ValueMap(setting, configVariables)[key := normalizedValue];
      if !ValidVariable(setting, key, normalizedValue) {
        return false;
      }
      if !skipConsistencyValidation && !Consistent(setting, nextValues) {
        return false;
      }
      configVariables := configVariables[target.value := configVariable.(value := ToStored(normalizedValue))];
      ok := true;
    }

    method NextValues(data: seq<Entry>) returns (nextValues: map<string, Value>)
      ensures nextValues == Overlay(ValueMap(setting, configVariables), data)
    {
      nextValues := ValueMap(setting, configVariables);
      for k := 0 to |data|
        invariant nextValues == Overlay(ValueMap(setting, configVariables), data[..k])
      {
        assert data[..k + 1][..k] == data[..k];
        nextValues := nextValues[data[k].key := Normalize(data[k].value)];
      }
      assert data[..|data|] == data;
    }

    method HandleUpdateMany(data: seq<Entry>) returns (ok: bool)
      modifies this
      ensures editAllowed ==> (ok <==> UpdateMany(setting, old(configVariables), data).Some?)
      ensures ok ==> editAllowed && Some(configVariables) == UpdateMany(setting, old(configVariables), data)
      ensures !ok ==> exists k :: 0 <= k <= |data| && Some(configVariables) == UpdateAll(setting, old(configVariables), data[..k])
    {
      assert data[..0] == [];
      if !editAllowed {
        return false;
      }
      var nextValues := NextValues(data);
      if !Consistent(setting, nextValues) {
        return false;
      }
      for k := 0 to |data|
        invariant Some(configVariables) == UpdateAll(setting, old(configVariables), data[..k])
      {
        assert data[..k + 1][..k] == data[..k];
        var updated := HandleUpdate(data[k].key, data[k].value, true);
        if !updated {
          FailureStays(setting, old(configVariables), data, k + 1);
          return false;
        }
      }
      assert data[..|data|] == data;
      ok := true;
    }
  }

  lemma {:induction false} FailureStays(setting: Setting, table: Table, data: seq<Entry>, k: nat)
    requires k <= |data| && UpdateAll(setting, table, data[..k]).None?
    ensures UpdateAll(setting, table, data).None?
  {
    if k < |data| {
      assert data[..|data| - 1][..k] == data[..k];
      FailureStays(setting, table, data[..|data| - 1], k);
    } else {
      assert data[..k] == data;
    }
  }

  // ---------------------------------------------------------------- many updates end in the validated map

  /** The definitions name both periods, which have no range, and all their keys are exact. */
  ghost predicate GoodSetting(setting: Setting) {
    && setting.editable != setting.retention
    && setting.editable in setting.definitions && setting.definitions[setting.editable].isTimespan
    && setting.retention in setting.definitions && setting.definitions[setting.retention].isTimespan
    && setting.ranged <= setting.definitions.Keys && setting.editable !in setting.ranged && setting.retention !in setting.ranged
    && forall key | key in setting.definitions :: Exact(key)
  }

  function KeysOf(data: seq<Entry>): (keys: seq<string>)
    ensures |keys| == |data| && forall k | 0 <= k < |keys| :: keys[k] == data[k].key
  {
    seq(|data|, k requires 0 <= k < |data| => data[k].key)
  }

  /** Of the keys that address a variable the last one is its exact key, if there are any. */
  predicate Settled(keys: seq<string>, key: string) {
    keys == [] || keys[|keys| - 1] == key || (Target(keys[|keys| - 1]) != Some(key) && Settled(keys[..|keys| - 1], key))
  }

  /** The same said the other way round: after every other key that addresses the variable comes the exact one. */
  lemma {:induction false} SettledMeans(keys: seq<string>, key: string)
    ensures Settled(keys, key) <==>
      forall j | 0 <= j < |keys| && Target(keys[j]) == Some(key) && keys[j] != key :: exists k | j < k < |keys| :: keys[k] == key
  {
    if keys != [] {
      var front := keys[..|keys| - 1];
      SettledMeans(front, key);
      assert forall j | 0 <= j < |front| :: front[j] == keys[j];
      if !Settled(front, key) && keys[|front|] != key {
        var j :| 0 <= j < |front| && Target(front[j]) == Some(key) && front[j] != key && !exists k | j < k < |front| :: front[k] == key;
        assert Target(keys[j]) == Some(key) && keys[j] != key;
      }
    }
  }

  ghost predicate SettledPeriods(setting: Setting, data: seq<Entry>) {
    Settled(KeysOf(data), setting.editable) && Settled(KeysOf(data), setting.retention)
  }

  /** The text stored for a value: numbers in decimal, truth values as words, nothing for null and the empty text. */
  lemma StoredText(v: Value)
    ensures match Normalize(v)
      case Text(text) => v == Text(text) && text != "" && ToStored(Normalize(v)) == Some(text)
      case Number(n) =>
        v == Number(n) && ToStored(v).Some? && var t := ToStored(v).value;
          if n >= 0 then Plainest(t, 10) && Parse(t, 10) == n
          else t != "" && t[0] == '-' && Plainest(t[1..], 10) && Parse(t[1..], 10) == -n
      case Bool(b) => v == Bool(b) && ToStored(v) == Some(if b then "true" else "false")
      case Null => (v == Null || v == Text("")) && ToStored(Normalize(v)) == None
  {
    if v.Number? {
      var n := if v.n < 0 then -v.n else v.n;
      PrintShape(n, 10);
      ParsePrint(n, 10);
      assert ("-" + Print(n, 10))[1..] == Print(n, 10);
    }
  }

  /** An update is accepted exactly if its variable exists and is not locked, and the value fits in type, form and context. */
  lemma UpdateAccepted(setting: Setting, table: Table, key: string, v: Value, skip: bool)
    ensures '.' !in key ==> Target(key).None?
    ensures Update(setting, table, key, v, skip).Some? <==>
      && Target(key).Some? && Target(key).value in table && !table[Target(key).value].locked
      && (v.Text? && v.text != "" ==> table[Target(key).value].typ in {"string", "text", "timespan"})
      && (key in setting.ranged ==> setting.rangeOk(key, Normalize(v)))
      && (Target(key).value in setting.definitions && setting.definitions[Target(key).value].isTimespan ==>
            v.Text? && v.text != "" && ParseTimespan(v.text).Some?)
      && (skip || Consistent(setting, ValueMap(setting, table)[key := Normalize(v)]))
  {
    if '.' !in key {
      OnePart(key);
    }
  }

  /** It writes one value and touches neither types nor locks nor any other row. */
  lemma UpdateWrites(setting: Setting, table: Table, key: string, v: Value, skip: bool, other: string)
    requires Update(setting, table, key, v, skip).Some?
    ensures var after := Update(setting, table, key, v, skip).value;
      && after.Keys == table.Keys
      && (other in table ==>
            && after[other].typ == table[other].typ && after[other].locked == table[other].locked
            && after[other].value == if Target(key) == Some(other) then ToStored(Normalize(v)) else table[other].value)
  {
  }

  /** A locked variable keeps its value whatever is sent. */
  lemma {:induction false} LockedStays(setting: Setting, table: Table, data: seq<Entry>, other: string)
    requires other in table && table[other].locked && UpdateMany(setting, table, data).Some?
    ensures var after := UpdateMany(setting, table, data).value; other in after && after[other] == table[other]
  {
    LockedRow(setting, table, data, other);
  }

  lemma {:induction false} LockedRow(setting: Setting, table: Table, data: seq<Entry>, other: string)
    requires other in table && table[other].locked && UpdateAll(setting, table, data).Some?
    ensures var after := UpdateAll(setting, table, data).value; other in after && after[other] == table[other]
  {
    if data != [] {
      LockedRow(setting, table, data[..|data| - 1], other);
    }
  }

  /** The value in force: what is stored, else the initial value of the definition, else its default. */
  lemma ValueInForce(setting: Setting, table: Table, key: string)
    requires key in setting.definitions
    ensures var d := setting.definitions[key];
      && (key in table && table[key].value.Some? ==> Effective(setting, table, key) == table[key].value.value)
      && (!(key in table && table[key].value.Some?) && d.initial.Some? ==> Effective(setting, table, key) == d.initial.value)
      && (!(key in table && table[key].value.Some?) && d.initial.None? ==> Effective(setting, table, key) == d.defaultValue)
  {
  }

  /** One update changes the value of its target only. */
  lemma UpdateTouchesTarget(setting: Setting, table: Table, key: string, v: Value, skip: bool, other: string)
    requires Update(setting, table, key, v, skip).Some? && other in setting.definitions
    ensures var after := Update(setting, table, key, v, skip).value;
      && (Target(key) != Some(other) ==> Effective(setting, after, other) == Effective(setting, table, other))
      && (Target(key) == Some(other) && Normalize(v).Text? ==> Effective(setting, after, other) == v.text)
  {
  }

  /** If the validated map has a text for a variable, that text is its value once all updates are done. */
  lemma {:induction false} UpdatesEndInOverlay(setting: Setting, table: Table, data: seq<Entry>, key: string)
    requires Settled(KeysOf(data), key) && key in setting.definitions && Exact(key)
    requires UpdateAll(setting, table, data).Some?
    requires Overlay(ValueMap(setting, table), data)[key].Text?
    ensures Text(Effective(setting, UpdateAll(setting, table, data).value, key)) == Overlay(ValueMap(setting, table), data)[key]
  {
    if data != [] {
      var front, last := data[..|data| - 1], data[|data| - 1];
      assert KeysOf(data)[..|data| - 1] == KeysOf(front);
      var before := UpdateAll(setting, table, front).value;
      UpdateTouchesTarget(setting, before, last.key, last.value, true, key);
      if last.key != key {
        UpdatesEndInOverlay(setting, table, front, key);
      }
    }
  }

  lemma SamePeriods(setting: Setting, table: Table, values: map<string, Value>)
    requires GoodSetting(setting) && PeriodsOk(setting, values)
    requires Text(Effective(setting, table, setting.editable)) == values[setting.editable]
    requires Text(Effective(setting, table, setting.retention)) == values[setting.retention]
    ensures PeriodsOk(setting, ValueMap(setting, table))
  {
  }

  /**
   * After every successful `updateMany` that settles both periods the editable one is within the retention period,
   * whatever other keys the call contains.
   */
  lemma UpdateManyKeepsPeriods(setting: Setting, table: Table, data: seq<Entry>)
    requires GoodSetting(setting) && SettledPeriods(setting, data)
    requires UpdateMany(setting, table, data).Some?
    ensures PeriodsOk(setting, ValueMap(setting, UpdateMany(setting, table, data).value))
  {
    var values := Overlay(ValueMap(setting, table), data);
    UpdatesEndInOverlay(setting, table, data, setting.editable);
    UpdatesEndInOverlay(setting, table, data, setting.retention);
    SamePeriods(setting, UpdateMany(setting, table, data).value, values);
  }

  // ---------------------------------------------------------------- keys with more than two parts

  /** Minutes of the editable period in force. */
  function EditableMinutes(setting: Setting, table: Table): nat
    requires PeriodsOk(setting, ValueMap(setting, table))
  {
    ToMinutes(PeriodOf(ValueMap(setting, table), setting.editable).value)
  }

  function RetentionMinutes(setting: Setting, table: Table): nat
    requires PeriodsOk(setting, ValueMap(setting, table))
  {
    ToMinutes(PeriodOf(ValueMap(setting, table), setting.retention).value)
  }

  /** The validated map and the table agree on what this key changes, or the change cannot do harm. */
  ghost predicate SafeKey(setting: Setting, table: Table, key: string)
    requires PeriodsOk(setting, ValueMap(setting, table))
  {
    || Exact(key)
    || Target(key) !in {Some(setting.editable), Some(setting.retention)}
    || (Target(key) == Some(setting.retention) && EditableMinutes(setting, table) == 0)
  }

  /** `updateMany` with one entry is `update` with its check: both see the same map. */
  lemma UpdateManyOfOne(setting: Setting, table: Table, key: string, v: Value)
    ensures UpdateMany(setting, table, [Entry(key, v)]) == Update(setting, table, key, v, false)
  {
    var data := [Entry(key, v)];
    assert data[..0] == [];
    assert Overlay(ValueMap(setting, table), data) == ValueMap(setting, table)[key := Normalize(v)];
    assert UpdateAll(setting, table, data) == Update(setting, table, key, v, true);
  }

  /** `updateMany` with this one entry fails or leaves the periods consistent. */
  ghost predicate KeepsPeriods(setting: Setting, table: Table, key: string, v: Value) {
    var after := UpdateMany(setting, table, [Entry(key, v)]);
    after.Some? ==> PeriodsOk(setting, ValueMap(setting, after.value))
  }

  lemma SafeKeyKeeps(setting: Setting, table: Table, key: string, v: Value)
    requires GoodSetting(setting) && Consistent(setting, ValueMap(setting, table)) && SafeKey(setting, table, key)
    ensures KeepsPeriods(setting, table, key, v)
  {
    var updated := Update(setting, table, key, v, false);
    UpdateManyOfOne(setting, table, key, v);
    if updated.Some? {
      var after := updated.value;
      UpdateTouchesTarget(setting, table, key, v, false, setting.editable);
      UpdateTouchesTarget(setting, table, key, v, false, setting.retention);
      var current, next := ValueMap(setting, table), ValueMap(setting, table)[key := Normalize(v)];
      if Exact(key) {
        SamePeriods(setting, after, next);
      } else if Target(key) == Some(setting.retention) {
        assert PeriodOf(ValueMap(setting, after), setting.editable) == PeriodOf(current, setting.editable);
        assert ValueMap(setting, after)[setting.retention] == Normalize(v);
      } else {
        SamePeriods(setting, after, current);
      }
    }
  }

  /** Every number of minutes is the length of some period that can be written down. */
  lemma PeriodOfMinutes(n: nat) returns (text: string, p: Period)
    ensures text == Print(n, 10) + " " + "minutes" && ParseTimespan(text) == Some(p) && p.unit in TIMESPAN_IN_MINUTES && ToMinutes(p) == n
  {
    ParsePlain(Print(n, 10), "minutes");
    ParsePrint(n, 10);
    text, p := Print(n, 10) + " " + "minutes", Period(n, "minutes");
  }

  /** A value for an unsafe key that is accepted and leaves the editable period above the retention period. */
  lemma UnsafeKeyBreaks(setting: Setting, table: Table, key: string) returns (v: Value)
    requires GoodSetting(setting) && Consistent(setting, ValueMap(setting, table)) && !SafeKey(setting, table, key)
    requires Target(key).value in table && !table[Target(key).value].locked && table[Target(key).value].typ == "timespan"
    ensures !KeepsPeriods(setting, table, key, v)
  {
    var minutes := if Target(key) == Some(setting.editable) then RetentionMinutes(setting, table) + 1 else 0;
    var text, p := PeriodOfMinutes(minutes);
    v := Text(text);
    UnsafeKeyAccepted(setting, table, key, v);
    UpdateManyOfOne(setting, table, key, v);
    UpdateTouchesTarget(setting, table, key, v, false, setting.editable);
    UpdateTouchesTarget(setting, table, key, v, false, setting.retention);
    PeriodsByMinutes(setting, table);
    PeriodsByMinutes(setting, Update(setting, table, key, v, false).value);
  }

  lemma PeriodsByMinutes(setting: Setting, table: Table)
    requires GoodSetting(setting)
    ensures var editable := ParseTimespan(Effective(setting, table, setting.editable));
      var retention := ParseTimespan(Effective(setting, table, setting.retention));
      && (PeriodsOk(setting, ValueMap(setting, table)) <==>
            editable.Some? && retention.Some? && ToMinutes(editable.value) <= ToMinutes(retention.value))
      && (PeriodsOk(setting, ValueMap(setting, table)) ==>
            && EditableMinutes(setting, table) == ToMinutes(editable.value)
            && RetentionMinutes(setting, table) == ToMinutes(retention.value))
  {
  }

  lemma LongKeyUnknown(setting: Setting, key: string)
    requires GoodSetting(setting) && !Exact(key)
    ensures key !in setting.ranged && key != setting.editable && key != setting.retention
  {
  }

  lemma PeriodsLaidOver(setting: Setting, values: map<string, Value>, key: string, v: Value)
    requires PeriodsOk(setting, values) && key != setting.editable && key != setting.retention
    ensures PeriodsOk(setting, values[key := v])
  {
    assert PeriodOf(values[key := v], setting.editable) == PeriodOf(values, setting.editable);
    assert PeriodOf(values[key := v], setting.retention) == PeriodOf(values, setting.retention);
  }

  lemma LaidOver(setting: Setting, values: map<string, Value>, key: string, v: Value)
    requires Consistent(setting, values) && ValidVariable(setting, key, v) && key != setting.editable && key != setting.retention
    ensures Consistent(setting, values[key := v])
  {
    PeriodsLaidOver(setting, values, key, v);
    var next := values[key := v];
    forall k | k in next ensures ValidVariable(setting, k, next[k]) {
      assert k != key ==> k in values && next[k] == values[k];
    }
  }

  lemma UnsafeKeyAccepted(setting: Setting, table: Table, key: string, v: Value)
    requires GoodSetting(setting) && Consistent(setting, ValueMap(setting, table)) && !Exact(key)
    requires Target(key).Some? && Target(key).value in table
    requires !table[Target(key).value].locked && table[Target(key).value].typ == "timespan"
    requires v.Text? && v.text != "" && ParseTimespan(v.text).Some?
    ensures Update(setting, table, key, v, false).Some?
  {
    LongKeyUnknown(setting, key);
    LaidOver(setting, ValueMap(setting, table), key, v);
  }

  lemma ExactParts(category: string, name: string)
    requires '.' !in category && '.' !in name
    ensures Exact(category + "." + name)
  {
    var parts := [category, name];
    assert parts[1..] == [name] && Join(parts, ".") == category + "." + name;
    SplitJoin(parts, '.');
  }

  lemma OnePart(key: string)
    requires '.' !in key
    ensures Target(key).None?
  {
    assert key[..|key|] == key;
    CharNoneBefore(key, '.', |key|);
    SplitNone(key, ".");
  }

  /** A longer key addresses the variable named by its first two parts. */
  lemma LongerKeyTarget(category: string, name: string, more: string)
    requires '.' !in category && '.' !in name && '.' !in more
    ensures Target(category + "." + name + "." + more) == Some(category + "." + name)
    ensures Exact(category + "." + name) && !Exact(category + "." + name + "." + more)
  {
    var parts := [category, name, more];
    assert parts[1..] == [name, more] && [name, more][1..] == [more];
    assert Join([name, more], ".") == name + "." + more;
    assert category + "." + (name + "." + more) == category + "." + name + "." + more;
    SplitJoin(parts, '.');
    ExactParts(category, name);
  }

  /**
   * From a consistent table, every `updateMany` with one entry under a key leaves the periods consistent exactly when the key is
   * safe: exact, or not about a period, or about the retention period while nothing is editable after expiry.
   */
  lemma ExactKeysDecide(setting: Setting, table: Table, key: string)
    requires GoodSetting(setting) && Consistent(setting, ValueMap(setting, table))
    requires Target(key) in {Some(setting.editable), Some(setting.retention)} ==>
      Target(key).value in table && !table[Target(key).value].locked && table[Target(key).value].typ == "timespan"
    ensures (forall v :: KeepsPeriods(setting, table, key, v)) <==> SafeKey(setting, table, key)
  {
    if SafeKey(setting, table, key) {
      forall v ensures KeepsPeriods(setting, table, key, v) {
        SafeKeyKeeps(setting, table, key, v);
      }
    } else {
      var v := UnsafeKeyBreaks(setting, table, key);
    }
  }
}
