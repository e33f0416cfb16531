/** The audit logger (Services/AppLogging/AppLogger.cs): every message is
    appended to the Log table as one new row. The framework logger it also
    writes to is console output and is not modelled; the row's timestamp
    is the clock reading `now`. */
module AppLogger {
  import opened Entities
  import opened Tables
  import opened Store
  import opened ValidationConstants

  const InformationLevel := "Information"
  const WarningLevel := "Warning"
  const ErrorLevel := "Error"

  /** Appends `Log(id, now, level, message)` under a fresh id and changes nothing else. */
  method WriteAsync(db: Database, level: string, message: string, now: int)
    requires db.Valid()
    modifies db
    ensures db.Valid()
    ensures db.State() == old(db.State()).(
      logs := old(db.logs) + [Log(old(db.nextId), now, level, message)],
      nextId := old(db.nextId) + 1)
    ensures db.State() == Logged(old(db.State()), level, message, now)
  {
    AppendWellKeyed(db.logs, LogId, db.nextId, Log(db.nextId, now, level, message));
    var id := db.NewId();
    db.logs := db.logs + [Log(id, now, level, message)];
  }

  method Information(db: Database, message: string, now: int)
    requires db.Valid()
    modifies db
    ensures db.Valid()
    ensures db.State() == old(db.State()).(
      logs := old(db.logs) + [Log(old(db.nextId), now, InformationLevel, message)],
      nextId := old(db.nextId) + 1)
  {
    WriteAsync(db, InformationLevel, message, now);
  }

  method Warning(db: Database, message: string, now: int)
    requires db.Valid()
    modifies db
    ensures db.Valid()
    ensures db.State() == old(db.State()).(
      logs := old(db.logs) + [Log(old(db.nextId), now, WarningLevel, message)],
      nextId := old(db.nextId) + 1)
  {
    WriteAsync(db, WarningLevel, message, now);
  }

  method Error(db: Database, message: string, now: int)
    requires db.Valid()
    modifies db
    ensures db.Valid()
    ensures db.State() == old(db.State()).(
      logs := old(db.logs) + [Log(old(db.nextId), now, ErrorLevel, message)],
      nextId := old(db.nextId) + 1)
  {
    WriteAsync(db, ErrorLevel, message, now);
  }

  /** The state after one write: one log row under the next id, and the
      counter advanced; every other table is as before. */
  function Logged(s: Snapshot, level: string, message: string, now: int): (r: Snapshot)
    ensures r.logs == s.logs + [Log(s.nextId, now, level, message)] && r.nextId == s.nextId + 1
    ensures r.(logs := s.logs, nextId := s.nextId) == s
  {
    s.(logs := s.logs + [Log(s.nextId, now, level, message)], nextId := s.nextId + 1)
  }

  /** A write keeps the keys valid. */
  lemma LoggedValid(s: Snapshot, level: string, message: string, now: int)
    requires ValidState(s)
    ensures ValidState(Logged(s, level, message, now))
  {
    AppendWellKeyed(s.logs, LogId, s.nextId, Log(s.nextId, now, level, message));
    WellKeyedRaise(s.foods, FoodId, s.nextId);
    WellKeyedRaise(s.categories, CategoryId, s.nextId);
    WellKeyedRaise(s.allergens, AllergenId, s.nextId);
    WellKeyedRaise(s.roles, RoleId, s.nextId);
    WellKeyedRaise(s.users, UserId, s.nextId);
    WellKeyedRaise(s.orders, OrderId, s.nextId);
  }

  /** One call of `WriteAsync`: its level, message and clock reading. */
  datatype LogWrite = LogWrite(level: string, message: string, now: int)

  /** The state after a series of writes, in call order. */
  function LoggedAll(s: Snapshot, writes: seq<LogWrite>): Snapshot
    decreases |writes|
  {
    if |writes| == 0 then s
    else Logged(LoggedAll(s, writes[..|writes| - 1]), writes[|writes| - 1].level, writes[|writes| - 1].message, writes[|writes| - 1].now)
  }

  /** The log is append-only: after any series of writes the old entries are
      still there at their positions, write `k` is the entry at position
      `|s.logs| + k` under id `s.nextId + k`, and no other table changes. */
  lemma {:induction false} WritesAppend(s: Snapshot, writes: seq<LogWrite>)
    ensures |LoggedAll(s, writes).logs| == |s.logs| + |writes|
    ensures LoggedAll(s, writes).logs[..|s.logs|] == s.logs
    ensures forall k :: 0 <= k < |writes| ==>
      LoggedAll(s, writes).logs[|s.logs| + k] == Log(s.nextId + k, writes[k].now, writes[k].level, writes[k].message)
    ensures LoggedAll(s, writes).nextId == s.nextId + |writes|
    ensures LoggedAll(s, writes).(logs := s.logs, nextId := s.nextId) == s
    decreases |writes|
  {
    if |writes| > 0 {
      var front := writes[..|writes| - 1];
      WritesAppend(s, front);
      var t := LoggedAll(s, front);
      var w := writes[|writes| - 1];
      assert LoggedAll(s, writes).logs == t.logs + [Log(t.nextId, w.now, w.level, w.message)];
      forall k | 0 <= k < |writes|
        ensures LoggedAll(s, writes).logs[|s.logs| + k] == Log(s.nextId + k, writes[k].now, writes[k].level, writes[k].message)
      {
        if k < |front| {
          assert writes[k] == front[k];
        }
      }
    }
  }

  /** Writes through `Information`, `Warning` and `Error` keep the store valid
      and only ever store a level that fits the 20-character Level column. */
  lemma {:induction false} LeveledWritesFit(s: Snapshot, writes: seq<LogWrite>)
    requires ValidState(s)
    requires forall k :: 0 <= k < |writes| ==> writes[k].level in {InformationLevel, WarningLevel, ErrorLevel}
    ensures ValidState(LoggedAll(s, writes))
    ensures forall k :: |s.logs| <= k < |LoggedAll(s, writes).logs| ==> |LoggedAll(s, writes).logs[k].level| <= LevelLogMaxLength
    decreases |writes|
  {
    WritesAppend(s, writes);
    if |writes| > 0 {
      var front := writes[..|writes| - 1];
      LeveledWritesFit(s, front);
      var w := writes[|writes| - 1];
      LoggedValid(LoggedAll(s, front), w.level, w.message, w.now);
    }
    forall k | |s.logs| <= k < |LoggedAll(s, writes).logs|
      ensures |LoggedAll(s, writes).logs[k].level| <= LevelLogMaxLength
    {
      assert LoggedAll(s, writes).logs[k].level == writes[k - |s.logs|].level;
    }
  }
}
