// backend/src/config/config.service.ts, updateMany: for which lists of keys every successful call leaves the editable
// period within the retention period.
module ConfigKeys {
  import opened Wrappers
  import opened Numerals
  import opened Timespan
  import opened Config

  ghost predicate KeepsPeriodsMany(setting: Setting, table: Table, data: seq<Entry>) {
    var after := UpdateMany(setting, table, data);
    after.Some? ==> PeriodsOk(setting, ValueMap(setting, after.value))
  }

  /**
   * The table ends with what was validated; or only the retention period may end otherwise, and the validation can
   * let no editable period through but that of zero minutes.
   */
  ghost predicate SafeKeys(setting: Setting, table: Table, keys: seq<string>)
    requires PeriodsOk(setting, ValueMap(setting, table))
  {
    && Settled(keys, setting.editable)
    && (Settled(keys, setting.retention)
        || (if setting.editable in keys then setting.retention !in keys && RetentionMinutes(setting, table) == 0
            else EditableMinutes(setting, table) == 0))
  }

  lemma KeysOfFront(data: seq<Entry>)
    requires data != []
    ensures KeysOf(data)[..|data| - 1] == KeysOf(data[..|data| - 1])
    ensures KeysOf(data) == KeysOf(data[..|data| - 1]) + [data[|data| - 1].key]
  {
  }

  // ---------------------------------------------------------------- safe keys

  lemma {:induction false} OverlayAt(values: map<string, Value>, data: seq<Entry>, key: string, v: Value)
    requires key in values && forall e | e in data && e.key == key :: Normalize(e.value) == v
    ensures Overlay(values, data)[key] == if key in KeysOf(data) then v else values[key]
  {
    if data != [] {
      var front, last := data[..|data| - 1], data[|data| - 1];
      assert last in data;
      KeysOfFront(data);
      forall e | e in front && e.key == key ensures Normalize(e.value) == v {
        assert e in data;
      }
      OverlayAt(values, front, key, v);
    }
  }

  /** Every period that is written has been read as one before. */
  lemma {:induction false} FinalPeriodValid(setting: Setting, table: Table, data: seq<Entry>, key: string)
    requires key in setting.definitions && setting.definitions[key].isTimespan
    requires ParseTimespan(Effective(setting, table, key)).Some? && UpdateAll(setting, table, data).Some?
    ensures ParseTimespan(Effective(setting, UpdateAll(setting, table, data).value, key)).Some?
  {
    if data != [] {
      var front, last := data[..|data| - 1], data[|data| - 1];
      FinalPeriodValid(setting, table, front, key);
      UpdateTouchesTarget(setting, UpdateAll(setting, table, front).value, last.key, last.value, true, key);
    }
  }

  lemma SafeKeysKeep(setting: Setting, table: Table, data: seq<Entry>)
    requires GoodSetting(setting) && Consistent(setting, ValueMap(setting, table)) && SafeKeys(setting, table, KeysOf(data))
    ensures KeepsPeriodsMany(setting, table, data)
  {
    if UpdateMany(setting, table, data).Some? {
      if Settled(KeysOf(data), setting.retention) {
        UpdateManyKeepsPeriods(setting, table, data);
      } else {
        ZeroSeen(setting, table, data);
        UpdatesEndInOverlay(setting, table, data, setting.editable);
        PeriodsByMinutes(setting, table);
        FinalPeriodValid(setting, table, data, setting.retention);
        PeriodsByMinutes(setting, UpdateMany(setting, table, data).value);
      }
    }
  }

  /** Where the retention period is not settled, only zero minutes pass the validation as the editable one. */
  lemma ZeroSeen(setting: Setting, table: Table, data: seq<Entry>)
    requires GoodSetting(setting) && PeriodsOk(setting, ValueMap(setting, table))
    ensures var seen := Overlay(ValueMap(setting, table), data);
      SafeKeys(setting, table, KeysOf(data)) && !Settled(KeysOf(data), setting.retention) && PeriodsOk(setting, seen) ==>
        ToMinutes(PeriodOf(seen, setting.editable).value) == 0
  {
    if setting.editable in KeysOf(data) {
      if setting.retention !in KeysOf(data) {
        PeriodKept(ValueMap(setting, table), data, setting.retention);
      }
    } else {
      PeriodKept(ValueMap(setting, table), data, setting.editable);
    }
  }

  lemma PeriodKept(values: map<string, Value>, data: seq<Entry>, key: string)
    requires key in values && key !in KeysOf(data)
    ensures PeriodOf(Overlay(values, data), key) == PeriodOf(values, key)
  {
    OverlayAt(values, data, key, Null);
  }

  // ---------------------------------------------------------------- values for keys that are not safe

  /** The address exists, is not locked, and takes the value. */
  ghost predicate Takes(setting: Setting, table: Table, key: string, v: Value) {
    && Target(key).Some? && Target(key).value in table && !table[Target(key).value].locked
    && TypeAccepts(table[Target(key).value].typ, v) && ValidVariable(setting, key, Normalize(v))
  }

  ghost predicate AboutPeriods(setting: Setting, key: string) {
    Target(key) == Some(setting.editable) || Target(key) == Some(setting.retention)
  }

  /** The key takes some value, and if it is about a period, that is stored as one. */
  ghost predicate UsableKey(setting: Setting, table: Table, key: string) {
    && (exists v :: Takes(setting, table, key, v))
    && (AboutPeriods(setting, key) ==> table[Target(key).value].typ == "timespan")
  }

  ghost predicate Usable(setting: Setting, table: Table, keys: seq<string>) {
    forall k | 0 <= k < |keys| :: UsableKey(setting, table, keys[k])
  }

  function MinutesText(n: nat): string {
    Print(n, 10) + " " + "minutes"
  }

  lemma MinutesTextRead(n: nat)
    ensures var p := ParseTimespan(MinutesText(n)); MinutesText(n) != "" && p.Some? && ToMinutes(p.value) == n
  {
    var text, p := PeriodOfMinutes(n);
  }

  /** Minutes for the exact keys of the two periods and for the longer ones. */
  datatype Choice = Choice(editable: nat, longEditable: nat, retention: nat, longRetention: nat)

  ghost function ValueFor(setting: Setting, table: Table, key: string, c: Choice): Value
    requires UsableKey(setting, table, key)
  {
    if key == setting.editable then Text(MinutesText(c.editable))
    else if key == setting.retention then Text(MinutesText(c.retention))
    else if Target(key) == Some(setting.editable) then Text(MinutesText(c.longEditable))
    else if Target(key) == Some(setting.retention) then Text(MinutesText(c.longRetention))
    else var v :| Takes(setting, table, key, v); v
  }

  ghost function DataFor(setting: Setting, table: Table, keys: seq<string>, c: Choice): (data: seq<Entry>)
    requires Usable(setting, table, keys)
    ensures KeysOf(data) == keys
    ensures forall e | e in data :: UsableKey(setting, table, e.key) && e.value == ValueFor(setting, table, e.key, c)
  {
    seq(|keys|, k requires 0 <= k < |keys| => Entry(keys[k], ValueFor(setting, table, keys[k], c)))
  }

  lemma MinutesTaken(setting: Setting, table: Table, key: string, n: nat)
    requires GoodSetting(setting) && UsableKey(setting, table, key) && AboutPeriods(setting, key)
    ensures Takes(setting, table, key, Text(MinutesText(n)))
  {
    MinutesTextRead(n);
    if !Exact(key) {
      LongKeyUnknown(setting, key);
    }
  }

  lemma ValueTaken(setting: Setting, table: Table, key: string, c: Choice)
    requires GoodSetting(setting) && UsableKey(setting, table, key)
    ensures Takes(setting, table, key, ValueFor(setting, table, key, c))
  {
    if AboutPeriods(setting, key) {
      MinutesTaken(setting, table, key, c.editable);
      MinutesTaken(setting, table, key, c.longEditable);
      MinutesTaken(setting, table, key, c.retention);
      MinutesTaken(setting, table, key, c.longRetention);
    } else {
      assert key != setting.editable && key != setting.retention;
    }
  }

  /** Updates change values only. */
  ghost predicate SameRows(a: Table, b: Table) {
    a.Keys == b.Keys && forall key | key in a :: a[key].typ == b[key].typ && a[key].locked == b[key].locked
  }

  lemma {:induction false} AllTaken(setting: Setting, table: Table, data: seq<Entry>)
    requires forall e | e in data :: Takes(setting, table, e.key, e.value)
    ensures UpdateAll(setting, table, data).Some? && SameRows(table, UpdateAll(setting, table, data).value)
  {
    if data != [] {
      var front, last := data[..|data| - 1], data[|data| - 1];
      assert last in data;
      forall e | e in front ensures Takes(setting, table, e.key, e.value) {
        assert e in data;
      }
      AllTaken(setting, table, front);
    }
  }

  ghost predicate AllValid(setting: Setting, values: map<string, Value>) {
    forall key | key in values :: ValidVariable(setting, key, values[key])
  }

  lemma {:induction false} OverlayValid(setting: Setting, values: map<string, Value>, data: seq<Entry>)
    requires AllValid(setting, values) && forall e | e in data :: ValidVariable(setting, e.key, Normalize(e.value))
    ensures AllValid(setting, Overlay(values, data))
  {
    if data != [] {
      var front, last := data[..|data| - 1], data[|data| - 1];
      assert last in data && forall e | e in front :: e in data;
      OverlayValid(setting, values, front);
    }
  }

  /** What a variable ends with if all its exact entries say one thing and all its longer ones another. */
  lemma {:induction false} FinalValue(setting: Setting, table: Table, data: seq<Entry>, key: string, exact: string, long: string)
    requires key in setting.definitions && Exact(key) && exact != "" && long != "" && UpdateAll(setting, table, data).Some?
    requires forall e | e in data :: e.key == key ==> e.value == Text(exact)
    requires forall e | e in data :: e.key != key && Target(e.key) == Some(key) ==> e.value == Text(long)
    ensures Effective(setting, UpdateAll(setting, table, data).value, key) ==
      if !Settled(KeysOf(data), key) then long else if key in KeysOf(data) then exact else Effective(setting, table, key)
  {
    if data != [] {
      var front, last := data[..|data| - 1], data[|data| - 1];
      assert last in data;
      assert forall e | e in front :: e in data;
      KeysOfFront(data);
      UpdateTouchesTarget(setting, UpdateAll(setting, table, front).value, last.key, last.value, true, key);
      if Target(last.key) != Some(key) {
        FinalValue(setting, table, front, key, exact, long);
      }
    }
  }

  /** The minutes that the validation sees, and those that the table ends with. */
  function Seen(keys: seq<string>, key: string, exact: nat, now: nat): nat {
    if key in keys then exact else now
  }

  function Ended(keys: seq<string>, key: string, exact: nat, long: nat, now: nat): nat {
    if !Settled(keys, key) then long else Seen(keys, key, exact, now)
  }

  lemma PeriodSeen(setting: Setting, values: map<string, Value>, data: seq<Entry>, key: string, exact: nat, now: nat)
    requires key in values && forall e | e in data && e.key == key :: e.value == Text(MinutesText(exact))
    requires PeriodOf(values, key).Some? && ToMinutes(PeriodOf(values, key).value) == now
    ensures var p := PeriodOf(Overlay(values, data), key); p.Some? && ToMinutes(p.value) == Seen(KeysOf(data), key, exact, now)
  {
    MinutesTextRead(exact);
    OverlayAt(values, data, key, Text(MinutesText(exact)));
  }

  lemma PeriodEnded(setting: Setting, table: Table, data: seq<Entry>, key: string, exact: nat, long: nat, now: nat)
    requires key in setting.definitions && Exact(key) && UpdateAll(setting, table, data).Some?
    requires forall e | e in data :: e.key == key ==> e.value == Text(MinutesText(exact))
    requires forall e | e in data :: e.key != key && Target(e.key) == Some(key) ==> e.value == Text(MinutesText(long))
    requires var p := ParseTimespan(Effective(setting, table, key)); p.Some? && ToMinutes(p.value) == now
    ensures var p := ParseTimespan(Effective(setting, UpdateAll(setting, table, data).value, key));
      p.Some? && ToMinutes(p.value) == Ended(KeysOf(data), key, exact, long, now)
  {
    MinutesTextRead(exact);
    MinutesTextRead(long);
    FinalValue(setting, table, data, key, MinutesText(exact), MinutesText(long));
  }

  /** Minutes that pass the validation and end the wrong way round. */
  ghost predicate Breaks(setting: Setting, table: Table, keys: seq<string>, c: Choice)
    requires PeriodsOk(setting, ValueMap(setting, table))
  {
    var editable, retention := EditableMinutes(setting, table), RetentionMinutes(setting, table);
    && Seen(keys, setting.editable, c.editable, editable) <= Seen(keys, setting.retention, c.retention, retention)
    && Ended(keys, setting.editable, c.editable, c.longEditable, editable)
       > Ended(keys, setting.retention, c.retention, c.longRetention, retention)
  }

  lemma BreakingChoice(setting: Setting, table: Table, keys: seq<string>) returns (c: Choice)
    requires PeriodsOk(setting, ValueMap(setting, table)) && !SafeKeys(setting, table, keys)
    ensures Breaks(setting, table, keys, c)
  {
    var retention := RetentionMinutes(setting, table);
    if !Settled(keys, setting.editable) {
      c := Choice(0, retention + 1, retention, 0);
    } else if setting.editable in keys {
      c := Choice(1, 0, retention + 1, 0);
    } else {
      c := Choice(0, 0, retention, 0);
    }
  }

  lemma ChoiceAccepted(setting: Setting, table: Table, keys: seq<string>, c: Choice)
    requires GoodSetting(setting) && Consistent(setting, ValueMap(setting, table)) && Usable(setting, table, keys)
    requires Breaks(setting, table, keys, c)
    ensures var data := DataFor(setting, table, keys, c);
      Consistent(setting, Overlay(ValueMap(setting, table), data)) && UpdateAll(setting, table, data).Some?
  {
    var data, values := DataFor(setting, table, keys, c), ValueMap(setting, table);
    forall e | e in data ensures Takes(setting, table, e.key, e.value) {
      ValueTaken(setting, table, e.key, c);
    }
    AllTaken(setting, table, data);
    OverlayValid(setting, values, data);
    PeriodSeen(setting, values, data, setting.editable, c.editable, EditableMinutes(setting, table));
    PeriodSeen(setting, values, data, setting.retention, c.retention, RetentionMinutes(setting, table));
  }

  lemma ChoiceBreaks(setting: Setting, table: Table, keys: seq<string>, c: Choice)
    requires GoodSetting(setting) && Consistent(setting, ValueMap(setting, table)) && Usable(setting, table, keys)
    requires Breaks(setting, table, keys, c)
    ensures !KeepsPeriodsMany(setting, table, DataFor(setting, table, keys, c))
  {
    var data := DataFor(setting, table, keys, c);
    ChoiceAccepted(setting, table, keys, c);
    PeriodsByMinutes(setting, table);
    PeriodEnded(setting, table, data, setting.editable, c.editable, c.longEditable, EditableMinutes(setting, table));
    PeriodEnded(setting, table, data, setting.retention, c.retention, c.longRetention, RetentionMinutes(setting, table));
    WrongWayRound(setting, UpdateAll(setting, table, data).value);
  }

  lemma WrongWayRound(setting: Setting, table: Table)
    requires GoodSetting(setting)
    ensures var editable := ParseTimespan(Effective(setting, table, setting.editable));
      var retention := ParseTimespan(Effective(setting, table, setting.retention));
      editable.Some? && retention.Some? && ToMinutes(editable.value) > ToMinutes(retention.value) ==>
        !PeriodsOk(setting, ValueMap(setting, table))
  {
    PeriodsByMinutes(setting, table);
  }

  /**
   * From a consistent table, every successful `updateMany` with these keys leaves the periods consistent, whatever
   * the values, exactly when the keys are safe.
   */
  lemma SafeKeysDecide(setting: Setting, table: Table, keys: seq<string>)
    requires GoodSetting(setting) && Consistent(setting, ValueMap(setting, table)) && Usable(setting, table, keys)
    ensures (forall data | KeysOf(data) == keys :: KeepsPeriodsMany(setting, table, data)) <==> SafeKeys(setting, table, keys)
  {
    if SafeKeys(setting, table, keys) {
      forall data | KeysOf(data) == keys ensures KeepsPeriodsMany(setting, table, data) {
        SafeKeysKeep(setting, table, data);
      }
    } else {
      var c := BreakingChoice(setting, table, keys);
      ChoiceBreaks(setting, table, keys, c);
      assert KeysOf(DataFor(setting, table, keys, c)) == keys;
    }
  }
}
