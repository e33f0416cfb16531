/** The audit-log reads (Controllers/LogsController.cs): the newest `n`
    entries, and the number of entries. Both are queries over the Log
    table; the only write is the error row of a query SQL Server refuses. */
module LogsController {
  import opened Entities
  import opened Ordering
  import opened Store
  import opened AppLogger
  import opened MappingProfile
  import opened Responses

  datatype Outcome = Outcome(response: Response<seq<LogReadDto>>, state: Snapshot)

  const SqlErrorPrefix := "SQL error occurred: "
  const GetLastSqlErrorPrefix := "Log.GetLast SQL error: "

  function ReadAll(logs: seq<Log>): (r: seq<LogReadDto>)
    ensures |r| == |logs|
    ensures forall k :: 0 <= k < |r| ==> r[k] == LogRead(logs[k])
  {
    seq(|logs|, k requires 0 <= k < |logs| => LogRead(logs[k]))
  }

  /** The action `GetLast(n)`: `Take(n)` becomes `TOP(n)`, which SQL Server
      refuses for a negative `n`; the `SqlException` handler then logs the
      error and answers 500. Otherwise the newest `n` entries are returned
      and nothing is written. */
  function GetLastOutcome(s: Snapshot, n: int, now: int): Outcome {
    if n < 0 then
      Outcome(ServerError(SqlErrorPrefix + NegativeRowCountError), Logged(s, ErrorLevel, GetLastSqlErrorPrefix + NegativeRowCountError, now))
    else Outcome(Ok(ReadAll(GetLast(s.logs, n))), s)
  }

  /** A negative count fails with one error log row; any other count is a
      read of the newest entries that changes nothing. */
  lemma GetLastOutcomeCases(s: Snapshot, n: int, now: int)
    ensures n < 0 <==> GetLastOutcome(s, n, now).response.ServerError?
    ensures n < 0 ==> (GetLastOutcome(s, n, now) ==
        Outcome(ServerError(SqlErrorPrefix + NegativeRowCountError), Logged(s, ErrorLevel, GetLastSqlErrorPrefix + NegativeRowCountError, now)))
    ensures n >= 0 ==> GetLastOutcome(s, n, now) == Outcome(Ok(ReadAll(GetLast(s.logs, n))), s)
    ensures n >= 0 ==> |GetLastOutcome(s, n, now).response.body| == if n < |s.logs| then n else |s.logs|
  {
  }

  /** `OrderByDescending(l => l.Timestamp)` as an ascending key. */
  function NewestFirst(l: Log): SortKey {
    SortKey("", -l.timestamp)
  }

  /** The query of `GetLast(n)`: the log ordered newest first, then `Take(n)`. */
  function GetLast(logs: seq<Log>, n: int): (r: seq<Log>)
    ensures |r| == if n <= 0 then 0 else if n < |logs| then n else |logs|
  {
    Take(SortByKey(logs, NewestFirst), n)
  }

  /** `Count()`. */
  function Count(logs: seq<Log>): (r: nat)
    ensures r == |GetLast(logs, |logs|)|
  {
    |logs|
  }

  /** The entries come newest first. */
  lemma GetLastNewestFirst(logs: seq<Log>, n: int)
    ensures forall i, j :: 0 <= i < j < |GetLast(logs, n)| ==>
      GetLast(logs, n)[i].timestamp >= GetLast(logs, n)[j].timestamp
  {
    var s := SortByKey(logs, NewestFirst);
    SortByKeySorted(logs, NewestFirst);
    var r := GetLast(logs, n);
    forall i, j | 0 <= i < j < |r| ensures r[i].timestamp >= r[j].timestamp {
      assert r[i] == s[i] && r[j] == s[j];
      assert KeyLe(NewestFirst(s[i]), NewestFirst(s[j]));
    }
  }

  /** Every entry returned is in the log, and no entry left out is newer
      than an entry returned. */
  lemma GetLastIsNewest(logs: seq<Log>, n: int)
    ensures multiset(GetLast(logs, n)) <= multiset(logs)
    ensures forall x, y :: x in multiset(logs) - multiset(GetLast(logs, n)) && y in GetLast(logs, n) ==>
      y.timestamp >= x.timestamp
  {
    var s := SortByKey(logs, NewestFirst);
    SortByKeySorted(logs, NewestFirst);
    var r := GetLast(logs, n);
    var k := |r|;
    assert r == s[..k];
    assert s == s[..k] + s[k..];
    assert multiset(logs) - multiset(r) == multiset(s[k..]);
    forall x, y | x in multiset(s[k..]) && y in r ensures y.timestamp >= x.timestamp {
      LeftOutIsOlder(s, k, x, y);
    }
  }

  /** In the sorted log every entry of the prefix is at least as new as
      every entry after it. */
  lemma LeftOutIsOlder(s: seq<Log>, k: int, x: Log, y: Log)
    requires SortedByKey(s, NewestFirst) && 0 <= k <= |s|
    requires x in multiset(s[k..]) && y in s[..k]
    ensures y.timestamp >= x.timestamp
  {
    var j :| 0 <= j < |s[k..]| && s[k..][j] == x;
    var i :| 0 <= i < k && s[..k][i] == y;
    assert s[i] == y && s[k + j] == x;
    assert KeyLe(NewestFirst(s[i]), NewestFirst(s[k + j]));
  }

  /** Asking for at least `Count` entries returns the whole log, reordered. */
  lemma GetLastAll(logs: seq<Log>, n: int)
    requires n >= Count(logs)
    ensures multiset(GetLast(logs, n)) == multiset(logs)
  {
  }
}
