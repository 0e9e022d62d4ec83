/** The decision flow of a traffic report: payload shape first, then the
    allow-list, then the saving toggle, and only then the three writes
    (register the sender if new, ensure its table, append one sample). */
module ReportGateway {
  import opened Outcomes
  import opened AccessPolicy
  import opened TenantSchema
  import opened SampleStore

  /** The `hostname` member of a report body: missing, JSON `null`, or a string. */
  datatype HostnameField = NoHostname | NullHostname | Hostname(name: string)

  /** The JSON body of a report, as far as the server reads it. */
  datatype Report = Report(upload: Option<real>, download: Option<real>, hostname: HostnameField)

  /** The hostname recorded for a sender whose first report names none. */
  const UnknownHostname := "unknown"

  /** The body is present and carries both `upload` and `download`. */
  predicate WellFormed(data: Option<Report>)
  {
    data.Some? && data.value.upload.Some? && data.value.download.Some?
  }

  /** `data.get('hostname', 'unknown')`: the default only when the member is
      missing; a JSON `null` is stored as SQL NULL. */
  function HostnameOf(report: Report): (h: Option<string>)
    ensures h.None? <==> report.hostname.NullHostname?
    ensures report.hostname.NoHostname? ==> h == Some(UnknownHostname)
    ensures report.hostname.Hostname? ==> h == Some(report.hostname.name)
  {
    match report.hostname
    case NoHostname => Some(UnknownHostname)
    case NullHostname => None
    case Hostname(name) => Some(name)
  }

  /** The saving path: register, ensure the table, append. */
  function Persist(db: Db, serverIp: string, hostname: Option<string>, now: int, upload: real, download: real): (r: Db)
    ensures r.servers.Keys == db.servers.Keys + {serverIp}
    ensures r.tables.Keys == db.tables.Keys + {TableName(serverIp)}
    ensures |r.tables[TableName(serverIp)]| == |TableRows(db, TableName(serverIp))| + 1
  {
    var registered := RegisterSender(db, serverIp, hostname, now);
    var withTable := EnsureTable(registered, serverIp);
    AppendSample(withTable, TableName(serverIp), now, upload, download)
  }

  /** One report from `clientIp` at time `now`: the status returned and the store afterwards. */
  function Submit(db: Db, serverList: Option<seq<string>>, savingStatus: Option<string>,
                  clientIp: string, data: Option<Report>, now: int): (r: (Status, Db))
    ensures r.0 == BadRequest <==> !WellFormed(data)
    ensures r.0 == Forbidden <==> WellFormed(data) && !IsServerAllowed(serverList, clientIp)
    ensures r.0 == Ok || r.1 == db
  {
    if !WellFormed(data) then (BadRequest, db)
    else if !IsServerAllowed(serverList, clientIp) then (Forbidden, db)
    else if !IsDbSavingEnabled(savingStatus) then (Ok, db)
    else (Ok, Persist(db, clientIp, HostnameOf(data.value), now, data.value.upload.value, data.value.download.value))
  }

  /** Shape comes first: a malformed body is a bad request whatever the
      allow-list and the toggle say, and the store is unchanged. */
  lemma MalformedRejectedFirst(db: Db, serverList: Option<seq<string>>, savingStatus: Option<string>,
                               clientIp: string, data: Option<Report>, now: int)
    requires !WellFormed(data)
    ensures Submit(db, serverList, savingStatus, clientIp, data, now) == (BadRequest, db)
  {
  }

  /** A well-formed report from an address not on the allow-list is forbidden
      and adds no sender row, no table and no sample. */
  lemma UnauthorizedRejected(db: Db, serverList: Option<seq<string>>, savingStatus: Option<string>,
                             clientIp: string, data: Option<Report>, now: int)
    requires WellFormed(data) && !IsServerAllowed(serverList, clientIp)
    ensures Submit(db, serverList, savingStatus, clientIp, data, now) == (Forbidden, db)
  {
  }

  /** An allowed report with saving disabled is acknowledged and discarded. */
  lemma DisabledSavingDiscards(db: Db, serverList: Option<seq<string>>, savingStatus: Option<string>,
                               clientIp: string, data: Option<Report>, now: int)
    requires WellFormed(data) && IsServerAllowed(serverList, clientIp) && !IsDbSavingEnabled(savingStatus)
    ensures Submit(db, serverList, savingStatus, clientIp, data, now) == (Ok, db)
  {
  }

  /** An allowed report with saving enabled: the sender row is added only if
      the address is new (hostname defaulting to `unknown`, first seen now)
      and no existing row changes; the sender's table gains exactly the one
      sample `(now, upload, download)` at its end; every other table is untouched. */
  lemma AcceptedReportPersists(db: Db, serverList: Option<seq<string>>, savingStatus: Option<string>,
                               clientIp: string, data: Option<Report>, now: int)
    requires WellFormed(data) && IsServerAllowed(serverList, clientIp) && IsDbSavingEnabled(savingStatus)
    ensures
      var after := Submit(db, serverList, savingStatus, clientIp, data, now);
      var name := TableName(clientIp);
      var before := TableRows(db, name);
      && after.0 == Ok
      && after.1.servers == (if clientIp in db.servers then db.servers
                             else db.servers[clientIp := Sender(HostnameOf(data.value), now)])
      && after.1.tables.Keys == db.tables.Keys + {name}
      && after.1.tables[name] == before + [Sample(|before| + 1, now, data.value.upload.value, data.value.download.value)]
      && forall n :: n in db.tables && n != name ==> after.1.tables[n] == db.tables[n]
  {
    var name := TableName(clientIp);
    var registered := RegisterSender(db, clientIp, HostnameOf(data.value), now);
    var withTable := EnsureTable(registered, clientIp);
    assert withTable.tables[name] == TableRows(db, name);
  }

  /** The store changes exactly when the report is well-formed, its sender is
      allowed and saving is enabled: the only way a sample gets stored. */
  lemma StoreChangesOnlyWhenSaved(db: Db, serverList: Option<seq<string>>, savingStatus: Option<string>,
                                  clientIp: string, data: Option<Report>, now: int)
    ensures Submit(db, serverList, savingStatus, clientIp, data, now).1 != db <==>
      WellFormed(data) && IsServerAllowed(serverList, clientIp) && IsDbSavingEnabled(savingStatus)
  {
    if WellFormed(data) && IsServerAllowed(serverList, clientIp) && IsDbSavingEnabled(savingStatus) {
      AcceptedReportPersists(db, serverList, savingStatus, clientIp, data, now);
      var name := TableName(clientIp);
      var after := Submit(db, serverList, savingStatus, clientIp, data, now).1;
      assert |after.tables[name]| != |TableRows(db, name)|;
    }
  }

  lemma RegisterSenderKeepsValid(db: Db, serverIp: string, hostname: Option<string>, now: int)
    requires ValidDb(db)
    ensures ValidDb(RegisterSender(db, serverIp, hostname, now))
  {
    var r := RegisterSender(db, serverIp, hostname, now);
    forall name | name in r.tables ensures exists ip :: ip in r.servers && TableName(ip) == name {
      var ip :| ip in db.servers && TableName(ip) == name;
      assert ip in r.servers;
    }
  }

  lemma EnsureTableKeepsValid(db: Db, serverIp: string)
    requires ValidDb(db) && serverIp in db.servers
    ensures ValidDb(EnsureTable(db, serverIp))
  {
  }

  lemma AppendSampleKeepsValid(db: Db, name: string, now: int, upload: real, download: real)
    requires ValidDb(db) && name in db.tables
    ensures ValidDb(AppendSample(db, name, now, upload, download))
  {
    var r := AppendSample(db, name, now, upload, download);
    forall n | n in r.tables ensures exists ip :: ip in r.servers && TableName(ip) == n {
      var ip :| ip in db.servers && TableName(ip) == n;
      assert ip in r.servers;
    }
  }

  /** Every report keeps the store invariant: sequential row ids, and no
      table without a registered sender. */
  lemma SubmitKeepsValid(db: Db, serverList: Option<seq<string>>, savingStatus: Option<string>,
                         clientIp: string, data: Option<Report>, now: int)
    requires ValidDb(db)
    ensures ValidDb(Submit(db, serverList, savingStatus, clientIp, data, now).1)
  {
    if WellFormed(data) && IsServerAllowed(serverList, clientIp) && IsDbSavingEnabled(savingStatus) {
      var registered := RegisterSender(db, clientIp, HostnameOf(data.value), now);
      RegisterSenderKeepsValid(db, clientIp, HostnameOf(data.value), now);
      var withTable := EnsureTable(registered, clientIp);
      EnsureTableKeepsValid(registered, clientIp);
      AppendSampleKeepsValid(withTable, TableName(clientIp), now, data.value.upload.value, data.value.download.value);
    }
  }

  // ---------------------------------------------------------------------
  // A sender reporting repeatedly

  /** One reading as the agent sends it, with the time the server receives it. */
  datatype Reading = Reading(at: int, upload: real, download: real)

  /** The rows that readings `rs` become when appended after `k` existing rows. */
  function ReadingRows(k: nat, rs: seq<Reading>): (r: seq<Sample>)
    decreases |rs|
    ensures |r| == |rs|
    ensures forall i :: 0 <= i < |rs| ==> r[i] == Sample(k + i + 1, rs[i].at, rs[i].upload, rs[i].download)
  {
    if rs == [] then [] else [Sample(k + 1, rs[0].at, rs[0].upload, rs[0].download)] + ReadingRows(k + 1, rs[1..])
  }

  /** Submits the readings one after another from the same address. */
  function SubmitEach(db: Db, serverList: Option<seq<string>>, savingStatus: Option<string>,
                      clientIp: string, hostname: HostnameField, rs: seq<Reading>): (r: Db)
    decreases |rs|
    ensures !IsServerAllowed(serverList, clientIp) || !IsDbSavingEnabled(savingStatus) ==> r == db
  {
    if rs == [] then db
    else
      var data := Some(Report(Some(rs[0].upload), Some(rs[0].download), hostname));
      SubmitEach(Submit(db, serverList, savingStatus, clientIp, data, rs[0].at).1,
                 serverList, savingStatus, clientIp, hostname, rs[1..])
  }

  /** One saved report, seen through `TableRows`: one row more in the
      sender's table, every other table as it was. */
  lemma SavedReportAppendsOne(db: Db, serverList: Option<seq<string>>, savingStatus: Option<string>,
                              clientIp: string, hostname: HostnameField, x: Reading, after: Db)
    requires IsServerAllowed(serverList, clientIp) && IsDbSavingEnabled(savingStatus)
    requires after == Submit(db, serverList, savingStatus, clientIp, Some(Report(Some(x.upload), Some(x.download), hostname)), x.at).1
    ensures TableName(clientIp) in after.tables
    ensures TableRows(after, TableName(clientIp)) == TableRows(db, TableName(clientIp)) + [Sample(|TableRows(db, TableName(clientIp))| + 1, x.at, x.upload, x.download)]
  {
    AcceptedReportPersists(db, serverList, savingStatus, clientIp, Some(Report(Some(x.upload), Some(x.download), hostname)), x.at);
  }

  /** ... and leaves every other table as it was. */
  lemma SavedReportKeepsOthers(db: Db, serverList: Option<seq<string>>, savingStatus: Option<string>,
                               clientIp: string, hostname: HostnameField, x: Reading, after: Db, n: string)
    requires IsServerAllowed(serverList, clientIp) && IsDbSavingEnabled(savingStatus)
    requires after == Submit(db, serverList, savingStatus, clientIp, Some(Report(Some(x.upload), Some(x.download), hostname)), x.at).1
    requires n != TableName(clientIp)
    ensures n in after.tables <==> n in db.tables
    ensures TableRows(after, n) == TableRows(db, n)
  {
    AcceptedReportPersists(db, serverList, savingStatus, clientIp, Some(Report(Some(x.upload), Some(x.download), hostname)), x.at);
  }

  /** The store after the first of several reports, from which the rest go on. */
  lemma FirstReport(db: Db, serverList: Option<seq<string>>, savingStatus: Option<string>,
                    clientIp: string, hostname: HostnameField, rs: seq<Reading>, after: Db) returns (next: Db)
    requires IsServerAllowed(serverList, clientIp) && IsDbSavingEnabled(savingStatus)
    requires rs != [] && after == SubmitEach(db, serverList, savingStatus, clientIp, hostname, rs)
    ensures after == SubmitEach(next, serverList, savingStatus, clientIp, hostname, rs[1..])
    ensures TableRows(next, TableName(clientIp)) == TableRows(db, TableName(clientIp)) + [Sample(|TableRows(db, TableName(clientIp))| + 1, rs[0].at, rs[0].upload, rs[0].download)]
  {
    var data := Some(Report(Some(rs[0].upload), Some(rs[0].download), hostname));
    next := Submit(db, serverList, savingStatus, clientIp, data, rs[0].at).1;
    SavedReportAppendsOne(db, serverList, savingStatus, clientIp, hostname, rs[0], next);
  }

  /** With the sender allowed and saving enabled, N reports add exactly N rows,
      in order, to the sender's table. */
  lemma {:induction false} SubmitEachAppends(db: Db, serverList: Option<seq<string>>, savingStatus: Option<string>,
                                             clientIp: string, hostname: HostnameField, rs: seq<Reading>, after: Db)
    requires IsServerAllowed(serverList, clientIp) && IsDbSavingEnabled(savingStatus)
    requires after == SubmitEach(db, serverList, savingStatus, clientIp, hostname, rs)
    decreases |rs|
    ensures TableRows(after, TableName(clientIp)) == TableRows(db, TableName(clientIp)) + ReadingRows(|TableRows(db, TableName(clientIp))|, rs)
  {
    var name := TableName(clientIp);
    var k := |TableRows(db, name)|;
    if rs == [] {
      assert ReadingRows(k, rs) == [];
      assert TableRows(db, name) + [] == TableRows(db, name);
    } else {
      var next := FirstReport(db, serverList, savingStatus, clientIp, hostname, rs, after);
      SubmitEachAppends(next, serverList, savingStatus, clientIp, hostname, rs[1..], after);
      assert |TableRows(next, name)| == k + 1;
      RowsStep(TableRows(db, name), TableRows(next, name), TableRows(after, name), k, rs);
    }
  }

  /** One saved reading followed by the rest gives the rows of all of them. */
  lemma RowsStep(r0: seq<Sample>, r1: seq<Sample>, r2: seq<Sample>, k: nat, rs: seq<Reading>)
    requires rs != [] && k == |r0|
    requires r1 == r0 + [Sample(k + 1, rs[0].at, rs[0].upload, rs[0].download)]
    requires r2 == r1 + ReadingRows(k + 1, rs[1..])
    ensures r2 == r0 + ReadingRows(k, rs)
  {
    var first := Sample(k + 1, rs[0].at, rs[0].upload, rs[0].download);
    calc {
      r2;
      (r0 + [first]) + ReadingRows(k + 1, rs[1..]);
      r0 + ([first] + ReadingRows(k + 1, rs[1..]));
      r0 + ReadingRows(k, rs);
    }
  }

  /** ... and leave every other table as it was. */
  lemma {:induction false} SubmitEachFrame(db: Db, serverList: Option<seq<string>>, savingStatus: Option<string>,
                                           clientIp: string, hostname: HostnameField, rs: seq<Reading>, after: Db, n: string)
    requires IsServerAllowed(serverList, clientIp) && IsDbSavingEnabled(savingStatus)
    requires after == SubmitEach(db, serverList, savingStatus, clientIp, hostname, rs)
    requires n != TableName(clientIp)
    decreases |rs|
    ensures n in after.tables <==> n in db.tables
    ensures TableRows(after, n) == TableRows(db, n)
  {
    if rs != [] {
      var data := Some(Report(Some(rs[0].upload), Some(rs[0].download), hostname));
      var next := Submit(db, serverList, savingStatus, clientIp, data, rs[0].at).1;
      SavedReportKeepsOthers(db, serverList, savingStatus, clientIp, hostname, rs[0], next, n);
      SubmitEachFrame(next, serverList, savingStatus, clientIp, hostname, rs[1..], after, n);
    }
  }

  predicate NonDecreasing(rs: seq<Reading>)
  {
    forall i, j :: 0 <= i < j < |rs| ==> rs[i].at <= rs[j].at
  }

  /** In a table in time order the newest row is the last one inserted. */
  lemma NewestOfSortedIsLast(t: seq<Sample>)
    requires t != [] && SortedByTime(t)
    ensures Newest(t) == |t| - 1
  {
  }

  /** The queries on a sender's table that holds readings in time order:
      the latest is the last reading; a window reaching back to the first
      returns them all; a window starting after the last returns none. */
  lemma {:induction false} QueriesOnReadings(db: Db, serverList: Option<seq<string>>, serverIp: string, rs: seq<Reading>, now: int, hours: nat)
    requires IsServerAllowed(serverList, serverIp)
    requires TableName(serverIp) in db.tables && db.tables[TableName(serverIp)] == ReadingRows(0, rs)
    requires rs != [] && NonDecreasing(rs)
    ensures LatestFor(db, serverIp) == Entry(Sample(|rs|, rs[|rs| - 1].at, rs[|rs| - 1].upload, rs[|rs| - 1].download))
    ensures Cutoff(now, hours) <= rs[0].at ==> History(db, serverList, serverIp, now, hours) == HistoryReply(Ok, ReadingRows(0, rs))
    ensures rs[|rs| - 1].at < Cutoff(now, hours) ==> History(db, serverList, serverIp, now, hours) == HistoryReply(Ok, [])
  {
    var t := db.tables[TableName(serverIp)];
    assert SortedByTime(t);
    NewestOfSortedIsLast(t);
    HistoryOfSortedTable(db, serverList, serverIp, now, hours);
    var cutoff := Cutoff(now, hours);
    if cutoff <= rs[0].at {
      forall i | 0 <= i < |t| ensures cutoff <= t[i].timestamp {
        assert i == 0 || rs[0].at <= rs[i].at;
      }
      WindowCoversAll(t, cutoff);
    }
    if rs[|rs| - 1].at < cutoff {
      forall i | 0 <= i < |t| ensures t[i].timestamp < cutoff {
        assert i == |rs| - 1 || rs[i].at <= rs[|rs| - 1].at;
      }
      WindowPastAll(t, cutoff);
    }
  }

  /** A new allowed sender reports N readings with saving enabled, the clock
      never running backwards: its table holds exactly those N rows; the
      latest-data query returns the N-th; a history window reaching back to
      the first returns all N in ascending order, and one starting after the
      last returns none. */
  lemma RepeatedReports(db: Db, serverList: Option<seq<string>>, savingStatus: Option<string>,
                        clientIp: string, hostname: HostnameField, rs: seq<Reading>, after: Db, now: int, hours: nat)
    requires IsServerAllowed(serverList, clientIp) && IsDbSavingEnabled(savingStatus)
    requires TableName(clientIp) !in db.tables
    requires rs != [] && NonDecreasing(rs)
    requires after == SubmitEach(db, serverList, savingStatus, clientIp, hostname, rs)
    ensures TableName(clientIp) in after.tables && after.tables[TableName(clientIp)] == ReadingRows(0, rs)
    ensures LatestFor(after, clientIp) == Entry(Sample(|rs|, rs[|rs| - 1].at, rs[|rs| - 1].upload, rs[|rs| - 1].download))
    ensures Cutoff(now, hours) <= rs[0].at ==> History(after, serverList, clientIp, now, hours) == HistoryReply(Ok, ReadingRows(0, rs))
    ensures rs[|rs| - 1].at < Cutoff(now, hours) ==> History(after, serverList, clientIp, now, hours) == HistoryReply(Ok, [])
  {
    SubmitEachAppends(db, serverList, savingStatus, clientIp, hostname, rs, after);
    var name := TableName(clientIp);
    assert TableRows(after, name) == ReadingRows(0, rs) by {
      assert TableRows(db, name) == [];
    }
    assert name in after.tables by {
      assert |TableRows(after, name)| == |rs| > 0;
    }
    QueriesOnReadings(after, serverList, clientIp, rs, now, hours);
  }
}
