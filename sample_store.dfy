/** The database of the monitoring server with SQLite abstracted away: a
    directory of senders (the `servers` table) and one append-only sample
    table per sender, keyed by table name. Time is an integer clock in
    seconds; the current time is always a parameter. */
module SampleStore {
  import opened Outcomes
  import opened AccessPolicy
  import opened TenantSchema

  /** One row of a `traffic_*` table. The rates are carried through unchanged. */
  datatype Sample = Sample(id: nat, timestamp: int, upload: real, download: real)

  /** One row of the `servers` directory, keyed by address; a hostname of
      `None` is SQL NULL. */
  datatype Sender = Sender(hostname: Option<string>, firstSeen: int)

  datatype Db = Db(servers: map<string, Sender>, tables: map<string, seq<Sample>>)

  /** The store as the server starts it: an empty directory and no sample tables. */
  const EmptyDb := Db(map[], map[])

  /** The window of the history query when the request names none. */
  const DefaultHours: nat := 24

  const SecondsPerHour := 3600

  /** Row ids of an append-only AUTOINCREMENT table are 1, 2, 3, ... */
  predicate RowIdsSequential(t: seq<Sample>)
  {
    forall i :: 0 <= i < |t| ==> t[i].id == i + 1
  }

  /** The store invariant: row ids are sequential in every table, and every
      table belongs to a registered sender. */
  ghost predicate ValidDb(db: Db)
  {
    && (forall name :: name in db.tables ==> RowIdsSequential(db.tables[name]))
    && (forall name :: name in db.tables ==> exists ip :: ip in db.servers && TableName(ip) == name)
  }

  /** The rows of table `name`, empty when the table does not exist. */
  function TableRows(db: Db, name: string): seq<Sample>
  {
    if name in db.tables then db.tables[name] else []
  }

  /** Inserts a directory row for `serverIp` unless it already has one; an
      existing row is never modified. */
  function RegisterSender(db: Db, serverIp: string, hostname: Option<string>, now: int): (r: Db)
    ensures r.tables == db.tables
    ensures r.servers.Keys == db.servers.Keys + {serverIp}
    ensures forall ip :: ip in db.servers ==> r.servers[ip] == db.servers[ip]
    ensures serverIp !in db.servers ==> r.servers[serverIp] == Sender(hostname, now)
  {
    if serverIp in db.servers then db
    else db.(servers := db.servers[serverIp := Sender(hostname, now)])
  }

  /** CREATE TABLE IF NOT EXISTS: the sender's table exists afterwards, it is
      new and empty exactly when it did not exist, and every other table and
      the directory are left as they were. */
  function EnsureTable(db: Db, serverIp: string): (r: Db)
    ensures r.servers == db.servers
    ensures r.tables.Keys == db.tables.Keys + {TableName(serverIp)}
    ensures forall name :: name in db.tables ==> r.tables[name] == db.tables[name]
    ensures TableName(serverIp) !in db.tables ==> r.tables[TableName(serverIp)] == []
  {
    var name := TableName(serverIp);
    if name in db.tables then db else db.(tables := db.tables[name := []])
  }

  /** Creating the table a second time changes nothing. */
  lemma EnsureTableIdempotent(db: Db, serverIp: string)
    ensures EnsureTable(EnsureTable(db, serverIp), serverIp) == EnsureTable(db, serverIp)
  {
  }

  /** INSERT into table `name`: exactly one row is added at the end, stamped
      with the current time and the next row id; nothing else changes. */
  function AppendSample(db: Db, name: string, now: int, upload: real, download: real): (r: Db)
    requires name in db.tables
    ensures r.servers == db.servers && r.tables.Keys == db.tables.Keys
    ensures |r.tables[name]| == |db.tables[name]| + 1 && r.tables[name][..|db.tables[name]|] == db.tables[name]
    ensures r.tables[name][|db.tables[name]|] == Sample(|db.tables[name]| + 1, now, upload, download)
    ensures forall n :: n in db.tables && n != name ==> r.tables[n] == db.tables[n]
    ensures RowIdsSequential(db.tables[name]) ==> RowIdsSequential(r.tables[name])
  {
    var t := db.tables[name];
    db.(tables := db.tables[name := t + [Sample(|t| + 1, now, upload, download)]])
  }

  // ---------------------------------------------------------------------
  // The latest-sample query (SELECT * ... ORDER BY timestamp DESC LIMIT 1)

  /** The newest row of a non-empty table: its timestamp is the largest, and
      among rows with that timestamp it is the one inserted last. */
  function Newest(t: seq<Sample>): (k: nat)
    requires t != []
    ensures k < |t|
    ensures forall j :: 0 <= j < |t| ==> t[j].timestamp <= t[k].timestamp
    ensures forall j :: k < j < |t| ==> t[j].timestamp < t[k].timestamp
  {
    if |t| == 1 then 0
    else
      var k := Newest(t[..|t| - 1]);
      if t[k].timestamp <= t[|t| - 1].timestamp then |t| - 1 else k
  }

  /** What the latest-data query reports for one address. */
  datatype LatestEntry = NoData | Entry(sample: Sample)

  /** `no_data` exactly when the sender's table is missing or empty; otherwise
      a row of that table whose timestamp is maximal in it. */
  function LatestFor(db: Db, serverIp: string): (e: LatestEntry)
    ensures e.NoData? <==> TableName(serverIp) !in db.tables || db.tables[TableName(serverIp)] == []
    ensures e.Entry? ==>
      && TableName(serverIp) in db.tables
      && e.sample in db.tables[TableName(serverIp)]
      && forall s :: s in db.tables[TableName(serverIp)] ==> s.timestamp <= e.sample.timestamp
  {
    var name := TableName(serverIp);
    if name !in db.tables || db.tables[name] == [] then NoData
    else Entry(db.tables[name][Newest(db.tables[name])])
  }

  // ---------------------------------------------------------------------
  // The history query (WHERE timestamp >= now - hours ORDER BY timestamp)

  predicate SortedByTime(s: seq<Sample>)
  {
    forall i, j :: 0 <= i < j < |s| ==> s[i].timestamp <= s[j].timestamp
  }

  /** `datetime('now', '-<hours> hours')` on the integer clock. */
  function Cutoff(now: int, hours: nat): (c: int)
    ensures c <= now
    ensures hours == DefaultHours ==> c == now - 86400
  {
    now - hours * SecondsPerHour
  }

  /** `x` is not younger than any row of `s`, so `[x] + s` stays in time order. */
  lemma SortedCons(x: Sample, s: seq<Sample>)
    requires SortedByTime(s)
    requires forall i :: 0 <= i < |s| ==> x.timestamp <= s[i].timestamp
    ensures SortedByTime([x] + s)
  {
    forall i, j | 0 <= i < j < |[x] + s|
      ensures ([x] + s)[i].timestamp <= ([x] + s)[j].timestamp
    {
      if i > 0 {
        assert ([x] + s)[i] == s[i - 1];
      }
      assert ([x] + s)[j] == s[j - 1];
    }
  }

  /** The rows of `t` at or after `cutoff`, in table order: every row kept is
      in the window, and every row of the window is kept as often as it occurs. */
  function Window(t: seq<Sample>, cutoff: int): (r: seq<Sample>)
    ensures forall i :: 0 <= i < |r| ==> r[i].timestamp >= cutoff
    ensures forall s: Sample :: s.timestamp >= cutoff ==> multiset(r)[s] == multiset(t)[s]
  {
    if t == [] then []
    else
      var rest := Window(t[1..], cutoff);
      assert multiset(t) == multiset{t[0]} + multiset(t[1..]) by {
        assert t == [t[0]] + t[1..];
      }
      if t[0].timestamp >= cutoff then [t[0]] + rest else rest
  }

  /** Every row the window keeps is a row of the table. */
  lemma {:induction false} WindowRowsFromTable(t: seq<Sample>, cutoff: int)
    ensures forall s :: s in Window(t, cutoff) ==> s in t
  {
    if t != [] {
      WindowRowsFromTable(t[1..], cutoff);
    }
  }

  /** Filtering keeps the table's order, so a window of a table in time order
      is in time order. */
  lemma {:induction false} WindowKeepsOrder(t: seq<Sample>, cutoff: int)
    requires SortedByTime(t)
    ensures SortedByTime(Window(t, cutoff))
  {
    if t != [] {
      var rest := Window(t[1..], cutoff);
      WindowKeepsOrder(t[1..], cutoff);
      if t[0].timestamp >= cutoff {
        WindowRowsFromTable(t[1..], cutoff);
        forall i | 0 <= i < |rest| ensures t[0].timestamp <= rest[i].timestamp {
          assert rest[i] in t[1..];
        }
        SortedCons(t[0], rest);
      }
    }
  }

  /** `r` is the subsequence of `t` at the increasing positions `idx`. */
  predicate PicksOf(r: seq<Sample>, t: seq<Sample>, idx: seq<nat>)
  {
    && |idx| == |r|
    && (forall i :: 0 <= i < |idx| ==> idx[i] < |t| && r[i] == t[idx[i]])
    && (forall i, j :: 0 <= i < j < |idx| ==> idx[i] < idx[j])
  }

  /** Positions in `t[1..]` become positions in `t`, one further right. */
  function ShiftPositions(idx: seq<nat>): (r: seq<nat>)
    ensures |r| == |idx|
    ensures forall i :: 0 <= i < |idx| ==> r[i] == idx[i] + 1
  {
    if idx == [] then [] else [idx[0] + 1] + ShiftPositions(idx[1..])
  }

  lemma PicksOfTail(r: seq<Sample>, t: seq<Sample>, idx: seq<nat>)
    requires t != [] && PicksOf(r, t[1..], idx)
    ensures PicksOf(r, t, ShiftPositions(idx))
  {
  }

  lemma PicksOfHead(r: seq<Sample>, t: seq<Sample>, idx: seq<nat>)
    requires t != [] && PicksOf(r, t[1..], idx)
    ensures PicksOf([t[0]] + r, t, [0] + ShiftPositions(idx))
  {
    var shifted := [0] + ShiftPositions(idx);
    forall i | 1 <= i < |shifted| ensures shifted[i] < |t| && ([t[0]] + r)[i] == t[shifted[i]] {
      assert shifted[i] == idx[i - 1] + 1;
    }
  }

  /** The window is a subsequence of the table: its rows are the rows of `t`
      at some increasing positions. */
  lemma {:induction false} WindowPositions(t: seq<Sample>, cutoff: int) returns (idx: seq<nat>)
    ensures PicksOf(Window(t, cutoff), t, idx)
  {
    if t == [] {
      idx := [];
    } else {
      var rest := Window(t[1..], cutoff);
      var sub := WindowPositions(t[1..], cutoff);
      if t[0].timestamp >= cutoff {
        PicksOfHead(rest, t, sub);
        idx := [0] + ShiftPositions(sub);
      } else {
        PicksOfTail(rest, t, sub);
        idx := ShiftPositions(sub);
      }
    }
  }

  /** Every row of a permutation of `s[1..] + [x]` is at least as new as
      `s[0]`, when `x` is newer than `s[0]` and `s` is in time order. */
  lemma RestNotOlder(x: Sample, s: seq<Sample>, rest: seq<Sample>)
    requires SortedByTime(s) && s != [] && s[0].timestamp < x.timestamp
    requires multiset(rest) == multiset(s[1..]) + multiset{x}
    ensures forall i :: 0 <= i < |rest| ==> s[0].timestamp <= rest[i].timestamp
  {
    forall i | 0 <= i < |rest| ensures s[0].timestamp <= rest[i].timestamp {
      assert rest[i] in multiset(rest);
      if rest[i] != x {
        assert rest[i] in multiset(s[1..]);
        assert rest[i] in s[1..];
      }
    }
  }

  /** Places `x` before the first row of `s` that is not older than it. */
  function InsertByTime(x: Sample, s: seq<Sample>): (r: seq<Sample>)
    requires SortedByTime(s)
    ensures SortedByTime(r) && multiset(r) == multiset(s) + multiset{x}
  {
    if s == [] || x.timestamp <= s[0].timestamp then
      SortedCons(x, s);
      [x] + s
    else
      var rest := InsertByTime(x, s[1..]);
      assert multiset(s) == multiset{s[0]} + multiset(s[1..]) by {
        assert s == [s[0]] + s[1..];
      }
      RestNotOlder(x, s, rest);
      SortedCons(s[0], rest);
      [s[0]] + rest
  }

  /** ORDER BY timestamp: a permutation of `s` in ascending time order. */
  function SortByTime(s: seq<Sample>): (r: seq<Sample>)
    ensures SortedByTime(r) && multiset(r) == multiset(s)
  {
    if s == [] then []
    else
      assert s == [s[0]] + s[1..];
      InsertByTime(s[0], SortByTime(s[1..]))
  }

  /** Sorting rows that are already in time order leaves them as they are. */
  lemma {:induction false} SortSortedIsIdentity(s: seq<Sample>)
    requires SortedByTime(s)
    ensures SortByTime(s) == s
  {
    if s != [] {
      SortSortedIsIdentity(s[1..]);
      assert s == [s[0]] + s[1..];
    }
  }

  /** The reply to a history request: the status and, on success, the rows. */
  datatype HistoryReply = HistoryReply(status: Status, rows: seq<Sample>)

  /** The history of one address, checked in a fixed order: an address not
      on the allow-list is forbidden; otherwise a missing table is not found;
      otherwise exactly the rows of the window, each as often as it is stored,
      in ascending time order. */
  function History(db: Db, serverList: Option<seq<string>>, serverIp: string, now: int, hours: nat := DefaultHours): (r: HistoryReply)
    ensures !IsServerAllowed(serverList, serverIp) ==> r == HistoryReply(Forbidden, [])
    ensures IsServerAllowed(serverList, serverIp) && TableName(serverIp) !in db.tables ==> r == HistoryReply(NotFound, [])
    ensures IsServerAllowed(serverList, serverIp) && TableName(serverIp) in db.tables ==>
      && r.status == Ok
      && SortedByTime(r.rows)
      && (forall i :: 0 <= i < |r.rows| ==> r.rows[i].timestamp >= Cutoff(now, hours))
      && (forall s: Sample :: s.timestamp >= Cutoff(now, hours) ==> multiset(r.rows)[s] == multiset(db.tables[TableName(serverIp)])[s])
  {
    if !IsServerAllowed(serverList, serverIp) then HistoryReply(Forbidden, [])
    else
      var name := TableName(serverIp);
      if name !in db.tables then HistoryReply(NotFound, [])
      else
        var rows := SortByTime(Window(db.tables[name], Cutoff(now, hours)));
        assert forall i :: 0 <= i < |rows| ==> rows[i] in multiset(rows);
        HistoryReply(Ok, rows)
  }

  /** When a table is in time order (the clock never ran backwards while it
      was written) the history is the window itself, a subsequence of the table. */
  lemma HistoryOfSortedTable(db: Db, serverList: Option<seq<string>>, serverIp: string, now: int, hours: nat)
    requires IsServerAllowed(serverList, serverIp)
    requires TableName(serverIp) in db.tables && SortedByTime(db.tables[TableName(serverIp)])
    ensures History(db, serverList, serverIp, now, hours).rows == Window(db.tables[TableName(serverIp)], Cutoff(now, hours))
  {
    WindowKeepsOrder(db.tables[TableName(serverIp)], Cutoff(now, hours));
    SortSortedIsIdentity(Window(db.tables[TableName(serverIp)], Cutoff(now, hours)));
  }

  /** A window that reaches back past every row returns the whole table. */
  lemma {:induction false} WindowCoversAll(t: seq<Sample>, cutoff: int)
    requires forall i :: 0 <= i < |t| ==> cutoff <= t[i].timestamp
    ensures Window(t, cutoff) == t
  {
    if t != [] {
      WindowCoversAll(t[1..], cutoff);
    }
  }

  /** A window that starts after every row is empty. */
  lemma {:induction false} WindowPastAll(t: seq<Sample>, cutoff: int)
    requires forall i :: 0 <= i < |t| ==> t[i].timestamp < cutoff
    ensures Window(t, cutoff) == []
  {
    if t != [] {
      WindowPastAll(t[1..], cutoff);
    }
  }
}
