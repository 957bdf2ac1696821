// backend/src/jobs/jobs.service.ts, deleteExpiredShares; backend/src/share/shareAccess.util.ts; the owner filter of
// backend/src/share/share.service.ts. Times are milliseconds, periods have the fixed lengths of timespanToMinutes.
module Retention {
  import opened Wrappers
  import opened Numerals
  import opened Timespan
  import opened Config
  import opened ConfigKeys

  const MS_PER_MINUTE := 60 * 1000

  /** A share as far as its life time is concerned; expiration 0 means never. */
  datatype Share = Share(id: string, expiration: int)

  predicate IsExpired(s: Share, now: int) {
    now > s.expiration && s.expiration != 0
  }

  /** `isShareWithinExpiredEditablePeriod` */
  predicate IsEditable(s: Share, now: int, editableMinutes: nat) {
    !IsExpired(s, now) || now <= s.expiration + editableMinutes * MS_PER_MINUTE
  }

  /** The `where` of the owner's list of shares. */
  predicate IsListed(s: Share, now: int, editableMinutes: nat) {
    || s.expiration > now
    || s.expiration == 0
    || s.expiration >= now - editableMinutes * MS_PER_MINUTE
  }

  /** The `where` of the clean-up job. */
  predicate IsDue(s: Share, now: int, retentionMinutes: nat) {
    s.expiration < now - retentionMinutes * MS_PER_MINUTE && s.expiration != 0
  }

  /** The shares the job leaves. */
  function Kept(shares: seq<Share>, now: int, retentionMinutes: nat): seq<Share> {
    if shares == [] then []
    else
      var front, last := Kept(shares[..|shares| - 1], now, retentionMinutes), shares[|shares| - 1];
      if IsDue(last, now, retentionMinutes) then front else front + [last]
  }

  /** Past its expiration, in milliseconds, a share stays editable and stored for the two periods; without one for ever. */
  lemma LifeTimes(s: Share, now: int, editableMinutes: nat, retentionMinutes: nat)
    ensures var age := now - s.expiration;
      && (IsExpired(s, now) <==> s.expiration != 0 && age > 0)
      && (IsEditable(s, now, editableMinutes) <==> s.expiration == 0 || age <= 60000 * editableMinutes)
      && (IsListed(s, now, editableMinutes) <==> s.expiration == 0 || age <= 60000 * editableMinutes)
      && (IsDue(s, now, retentionMinutes) <==> s.expiration != 0 && age > 60000 * retentionMinutes)
  {
  }

  /** The owner sees exactly the shares that may still be edited. */
  lemma ListedIsEditable(s: Share, now: int, editableMinutes: nat)
    ensures IsListed(s, now, editableMinutes) <==> IsEditable(s, now, editableMinutes)
  {
  }

  lemma {:induction false} KeptMembers(shares: seq<Share>, now: int, retentionMinutes: nat)
    ensures forall s :: s in Kept(shares, now, retentionMinutes) <==> s in shares && !IsDue(s, now, retentionMinutes)
  {
    if shares != [] {
      KeptMembers(shares[..|shares| - 1], now, retentionMinutes);
      assert shares == shares[..|shares| - 1] + [shares[|shares| - 1]];
    }
  }

  ghost predicate Spares(shares: seq<Share>, now: int, s: Share, editableMinutes: nat, retentionMinutes: nat) {
    s in shares && IsEditable(s, now, editableMinutes) ==> s in Kept(shares, now, retentionMinutes)
  }

  /** The job spares every editable share at all times exactly when the editable period fits in the retention period. */
  lemma JobSparesEditable(editableMinutes: nat, retentionMinutes: nat)
    ensures (forall shares, now, s :: Spares(shares, now, s, editableMinutes, retentionMinutes))
      <==> editableMinutes <= retentionMinutes
  {
    if editableMinutes <= retentionMinutes {
      forall shares, now, s ensures Spares(shares, now, s, editableMinutes, retentionMinutes) {
        KeptMembers(shares, now, retentionMinutes);
      }
    } else {
      var s, now := Share("", 1), 1 + editableMinutes * MS_PER_MINUTE;
      KeptMembers([s], now, retentionMinutes);
      assert s in [s] && IsEditable(s, now, editableMinutes) && IsDue(s, now, retentionMinutes);
      assert !Spares([s], now, s, editableMinutes, retentionMinutes);
    }
  }

  /** The minutes that the job and the access checks work with: `get` reads the text with `stringToTimespan`. */
  function MinutesInForce(setting: Setting, table: Table, key: string): Option<nat>
    requires key in setting.definitions
  {
    var p := StringToTimespan(Effective(setting, table, key));
    if p.Some? && p.value.unit in TIMESPAN_IN_MINUTES then Some(ToMinutes(p.value)) else None
  }

  /** The text is read alike by the validation and by the rest of the code. */
  ghost predicate ReadAlike(text: string) {
    StringToTimespan(text) == ParseTimespan(text)
  }

  lemma PeriodsInForce(setting: Setting, table: Table)
    requires GoodSetting(setting) && PeriodsOk(setting, ValueMap(setting, table))
    requires ReadAlike(Effective(setting, table, setting.editable)) && ReadAlike(Effective(setting, table, setting.retention))
    ensures MinutesInForce(setting, table, setting.editable) == Some(EditableMinutes(setting, table))
    ensures MinutesInForce(setting, table, setting.retention) == Some(RetentionMinutes(setting, table))
    ensures EditableMinutes(setting, table) <= RetentionMinutes(setting, table)
  {
  }

  /** With consistent periods that are read alike the job spares every editable share. */
  lemma ConsistentSpares(setting: Setting, table: Table, shares: seq<Share>, now: int, s: Share)
    requires GoodSetting(setting) && PeriodsOk(setting, ValueMap(setting, table))
    ensures ReadAlike(Effective(setting, table, setting.editable)) && ReadAlike(Effective(setting, table, setting.retention)) ==>
      var editable := MinutesInForce(setting, table, setting.editable);
      var retention := MinutesInForce(setting, table, setting.retention);
      editable.Some? && retention.Some? && Spares(shares, now, s, editable.value, retention.value)
  {
    if ReadAlike(Effective(setting, table, setting.editable)) && ReadAlike(Effective(setting, table, setting.retention)) {
      PeriodsInForce(setting, table);
    }
    JobSparesEditable(EditableMinutes(setting, table), RetentionMinutes(setting, table));
  }

  /**
   * After a successful `updateMany` that settles both periods, or one under safe keys from a consistent table, as long
   * as both stored periods are read alike, the job never deletes a share that is still editable.
   */
  lemma EditableSharesSurvive(setting: Setting, table: Table, data: seq<Entry>, shares: seq<Share>, now: int, s: Share)
    requires GoodSetting(setting) && UpdateMany(setting, table, data).Some?
    requires SettledPeriods(setting, data)
      || (Consistent(setting, ValueMap(setting, table)) && SafeKeys(setting, table, KeysOf(data)))
    ensures var after := UpdateMany(setting, table, data).value;
      ReadAlike(Effective(setting, after, setting.editable)) && ReadAlike(Effective(setting, after, setting.retention)) ==>
        var editable := MinutesInForce(setting, after, setting.editable);
        var retention := MinutesInForce(setting, after, setting.retention);
        editable.Some? && retention.Some? && Spares(shares, now, s, editable.value, retention.value)
  {
    if SettledPeriods(setting, data) {
      UpdateManyKeepsPeriods(setting, table, data);
    } else {
      SafeKeysKeep(setting, table, data);
    }
    ConsistentSpares(setting, UpdateMany(setting, table, data).value, shares, now, s);
  }

  /** Two blanks between number and unit pass the validation, but the rest of the code then finds no unit. */
  lemma TwoBlanksReadDifferently(number: string, unit: string)
    requires Digits(number) && Letters(unit) && unit in TIMESPAN_IN_MINUTES
    ensures var text := number + "  " + unit;
      && ParseTimespan(text) == Some(Period(Parse(number, 10), unit))
      && !ReadAlike(text)
  {
    Timespan.ParsePieces("", number, "  ", unit, "");
    Timespan.ReadersAgree("", number, "  ", unit, "");
    assert "" + (number + "  " + unit) + "" == number + "  " + unit;
    assert Text.IndexOf("  ", ' ') == 0;
  }
}
