/**
 * The store's per-user, per-day playtime rows. The store operations that read
 * and write them are specified only as relations between the rows before and
 * after a call and the call's outcome, and the plugin's playtime rules are
 * stated against them.
 */
module PlaytimeStore {
  import opened Wrappers
  import opened StoreModel
  import opened Store

  /** A user's stored row: the day it counts for, the minutes used that day and an optional limit override. */
  datatype PlaytimeRow = PlaytimeRow(date: string, usedMinutes: int, limitOverrideMinutes: Option<int>)

  /** The rows, one per user. */
  type PlaytimeTable = map<string, PlaytimeRow>

  /** `SQLiteStore.PlayerPlaytime`: what every playtime operation returns for the user it touched. */
  datatype PlayerPlaytime = PlayerPlaytime(dailyUsedMinutes: int, limitOverrideMinutes: Option<int>,
                                           effectiveLimitMinutes: int, lastResetDate: string)

  /** The state of a row as reported to the plugin: the effective limit is the override, if any, else the default. */
  function View(row: PlaytimeRow, defaultLimit: int): (p: PlayerPlaytime)
    ensures p.dailyUsedMinutes == row.usedMinutes && p.lastResetDate == row.date
    ensures p.limitOverrideMinutes.None? ==> p.effectiveLimitMinutes == defaultLimit
    ensures p.limitOverrideMinutes.Some? ==> p.effectiveLimitMinutes == p.limitOverrideMinutes.value
  {
    PlayerPlaytime(row.usedMinutes, row.limitOverrideMinutes, row.limitOverrideMinutes.GetOr(defaultLimit), row.date)
  }

  /** The user already has a row for `date`. */
  predicate HasRowFor(table: PlaytimeTable, user: string, date: string) {
    user in table && table[user].date == date
  }

  /** The minutes `user` has used on `date`: those of the row for that day, or 0 when there is none yet. */
  function UsedOn(table: PlaytimeTable, user: string, date: string): int {
    if HasRowFor(table, user, date) then table[user].usedMinutes else 0
  }

  /**
   * `row` is the user's row for `date` after an operation that keeps the day's
   * override: a row for an earlier day is replaced by one for `date` (its override
   * is left open here), and a row for `date` keeps its override.
   */
  predicate ContinuesDay(table: PlaytimeTable, user: string, date: string, row: PlaytimeRow) {
    row.date == date && (HasRowFor(table, user, date) ==> row.limitOverrideMinutes == table[user].limitOverrideMinutes)
  }

  /**
   * The shape shared by the single-user operations: on success, only `user`'s
   * row changes and the outcome is its view; on failure nothing changes.
   */
  ghost predicate UpdatesOneRow(before: PlaytimeTable, user: string, defaultLimit: int,
                                outcome: Result<PlayerPlaytime, StoreError>, after: PlaytimeTable)
  {
    if outcome.Err? then after == before
    else user in after && after == before[user := after[user]] && outcome.value == View(after[user], defaultLimit)
  }

  /** `getOrCreatePlayerPlaytimeForToday`: the day's row, created with nothing used if the user has none for `date`. */
  ghost predicate GetOrCreateSpec(before: PlaytimeTable, user: string, date: string, defaultLimit: int,
                                  outcome: Result<PlayerPlaytime, StoreError>, after: PlaytimeTable)
  {
    && UpdatesOneRow(before, user, defaultLimit, outcome, after)
    && (outcome.Ok? ==> ContinuesDay(before, user, date, after[user])
                        && after[user].usedMinutes == UsedOn(before, user, date))
  }

  /** `addDailyUsedMinutesForToday`: the day's usage grows by `delta`. */
  ghost predicate AddSpec(before: PlaytimeTable, user: string, delta: int, date: string, defaultLimit: int,
                          outcome: Result<PlayerPlaytime, StoreError>, after: PlaytimeTable)
  {
    && UpdatesOneRow(before, user, defaultLimit, outcome, after)
    && (outcome.Ok? ==> ContinuesDay(before, user, date, after[user])
                        && after[user].usedMinutes == UsedOn(before, user, date) + delta)
  }

  /** `setDailyUsedMinutesForToday`: the day's usage becomes `minutes`. */
  ghost predicate SetUsedSpec(before: PlaytimeTable, user: string, minutes: int, date: string, defaultLimit: int,
                              outcome: Result<PlayerPlaytime, StoreError>, after: PlaytimeTable)
  {
    && UpdatesOneRow(before, user, defaultLimit, outcome, after)
    && (outcome.Ok? ==> ContinuesDay(before, user, date, after[user]) && after[user].usedMinutes == minutes)
  }

  /** `setLimitOverrideMinutesForToday`: the override becomes `limitOverride` (None restores the default); usage is kept. */
  ghost predicate SetLimitOverrideSpec(before: PlaytimeTable, user: string, limitOverride: Option<int>, date: string,
                                       defaultLimit: int, outcome: Result<PlayerPlaytime, StoreError>,
                                       after: PlaytimeTable)
  {
    && UpdatesOneRow(before, user, defaultLimit, outcome, after)
    && (outcome.Ok? ==> after[user].date == date && after[user].limitOverrideMinutes == limitOverride
                        && after[user].usedMinutes == UsedOn(before, user, date))
  }

  /** `resetDailyUsedMinutesForToday`: the day's usage becomes 0. */
  ghost predicate ResetSpec(before: PlaytimeTable, user: string, date: string, defaultLimit: int,
                            outcome: Result<PlayerPlaytime, StoreError>, after: PlaytimeTable)
  {
    SetUsedSpec(before, user, 0, date, defaultLimit, outcome, after)
  }

  /** The users with a row for `date`. */
  function UsersOn(table: PlaytimeTable, date: string): set<string> {
    set user | user in table && table[user].date == date
  }

  /**
   * `resetAllDailyUsedMinutesForToday`: every row for `date` has its usage set to
   * 0, other rows stay, and the number of such rows is returned.
   */
  ghost predicate ResetAllSpec(before: PlaytimeTable, date: string, outcome: Result<nat, StoreError>, after: PlaytimeTable) {
    if outcome.Err? then after == before
    else
      && after.Keys == before.Keys
      && (forall user :: user in before ==>
            after[user] == if before[user].date == date then before[user].(usedMinutes := 0) else before[user])
      && outcome.value == |UsersOn(before, date)|
  }

  // ---------------------------------------------------------------------------
  // What follows from the contracts
  // ---------------------------------------------------------------------------

  /** Loading the day's row twice: the second call changes nothing and reports the same state. */
  lemma GetOrCreateStable(t0: PlaytimeTable, user: string, date: string, defaultLimit: int,
                          o1: Result<PlayerPlaytime, StoreError>, t1: PlaytimeTable,
                          o2: Result<PlayerPlaytime, StoreError>, t2: PlaytimeTable)
    requires GetOrCreateSpec(t0, user, date, defaultLimit, o1, t1) && o1.Ok?
    requires GetOrCreateSpec(t1, user, date, defaultLimit, o2, t2) && o2.Ok?
    ensures t2 == t1 && o2 == o1
  {
    assert HasRowFor(t1, user, date);
    assert t2[user] == t1[user];
  }

  /**
   * Within a day, usage only grows under non-negative additions: the day's
   * minutes after an addition of `delta` are those before plus `delta`, and the
   * effective limit is unchanged when the user already had a row for the day.
   */
  lemma AddWithinDay(before: PlaytimeTable, user: string, delta: int, date: string, defaultLimit: int,
                     outcome: Result<PlayerPlaytime, StoreError>, after: PlaytimeTable)
    requires AddSpec(before, user, delta, date, defaultLimit, outcome, after) && outcome.Ok?
    ensures UsedOn(after, user, date) == UsedOn(before, user, date) + delta
    ensures outcome.value.dailyUsedMinutes == UsedOn(before, user, date) + delta
    ensures HasRowFor(before, user, date) ==>
              outcome.value.effectiveLimitMinutes == View(before[user], defaultLimit).effectiveLimitMinutes
    ensures forall other :: other != user ==> UsedOn(after, other, date) == UsedOn(before, other, date)
  {
  }

  /** A reset leaves the user within any positive effective limit. */
  lemma ResetBelowLimit(before: PlaytimeTable, user: string, date: string, defaultLimit: int,
                        outcome: Result<PlayerPlaytime, StoreError>, after: PlaytimeTable)
    requires ResetSpec(before, user, date, defaultLimit, outcome, after) && outcome.Ok?
    requires outcome.value.effectiveLimitMinutes > 0
    ensures outcome.value.dailyUsedMinutes < outcome.value.effectiveLimitMinutes
    ensures UsedOn(after, user, date) == 0
  {
  }

  /** After resetting everyone for a day, nobody has used any minutes that day, and no other day changed. */
  lemma ResetAllClearsDay(before: PlaytimeTable, date: string, outcome: Result<nat, StoreError>, after: PlaytimeTable)
    requires ResetAllSpec(before, date, outcome, after) && outcome.Ok?
    ensures forall user :: UsedOn(after, user, date) == 0
    ensures forall user :: user in before && before[user].date != date ==> after[user] == before[user]
    ensures outcome.value <= |before|
  {
    forall user
      ensures UsedOn(after, user, date) == 0
    {
      if user in after {
        assert user in before;
      }
    }
    assert UsersOn(before, date) <= before.Keys;
    SubsetCardinality(UsersOn(before, date), before.Keys);
  }
}
