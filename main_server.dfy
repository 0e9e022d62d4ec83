/** The monitoring server's database as an object whose two tables the
    request handlers update in place: the sender directory and the map from
    table name to sample rows. */
module MainServer {
  import opened Outcomes
  import opened AccessPolicy
  import opened TenantSchema
  import opened SampleStore
  import opened ReportGateway

  /** The reply to the latest-data request: the status and, per allow-listed
      address, its latest sample or `no_data`. */
  datatype LatestReply = LatestReply(status: Status, data: map<string, LatestEntry>)

  class MonitorStore {
    var servers: map<string, Sender>
    var tables: map<string, seq<Sample>>

    /** The store's content as a value, for the specification functions. */
    function Snapshot(): Db
      reads this
    {
      Db(servers, tables)
    }

    ghost predicate Valid()
      reads this
    {
      ValidDb(Snapshot())
    }

    /** The database as the server starts: no senders and no sample tables. */
    constructor ()
      ensures Valid() && Snapshot() == EmptyDb
    {
      servers := map[];
      tables := map[];
    }

    /** Creates the sender's table if it does not exist and returns its name. */
    method EnsureServerTable(serverIp: string) returns (tableName: string)
      requires Valid() && serverIp in servers
      modifies this
      ensures Valid()
      ensures tableName == TableName(serverIp)
      ensures Snapshot() == EnsureTable(old(Snapshot()), serverIp)
    {
      EnsureTableKeepsValid(Snapshot(), serverIp);
      tableName := TableName(serverIp);
      if tableName !in tables {
        tables := tables[tableName := []];
      }
    }

    /** INSERT INTO servers, only for an address not yet registered. */
    method RegisterServer(clientIp: string, hostname: Option<string>, now: int)
      requires Valid()
      modifies this
      ensures Valid()
      ensures Snapshot() == RegisterSender(old(Snapshot()), clientIp, hostname, now)
    {
      RegisterSenderKeepsValid(Snapshot(), clientIp, hostname, now);
      if clientIp !in servers {
        servers := servers[clientIp := Sender(hostname, now)];
      }
    }

    /** INSERT INTO the sender's table: one row with the next id, stamped `now`. */
    method InsertSample(tableName: string, now: int, upload: real, download: real)
      requires Valid() && tableName in tables
      modifies this
      ensures Valid()
      ensures Snapshot() == AppendSample(old(Snapshot()), tableName, now, upload, download)
    {
      AppendSampleKeepsValid(Snapshot(), tableName, now, upload, download);
      var rows := tables[tableName];
      tables := tables[tableName := rows + [Sample(|rows| + 1, now, upload, download)]];
    }

    /** The saving path of a report: register the sender if it is new, make
        sure its table exists, append one sample stamped `now`. */
    method SaveReport(clientIp: string, hostname: Option<string>, now: int, upload: real, download: real)
      requires Valid()
      modifies this
      ensures Valid()
      ensures Snapshot() == Persist(old(Snapshot()), clientIp, hostname, now, upload, download)
    {
      RegisterServer(clientIp, hostname, now);
      var tableName := EnsureServerTable(clientIp);
      InsertSample(tableName, now, upload, download);
    }

    /** POST /report from `clientIp` at time `now`, with the allow-list file
        and the saving-status file as they read at that moment. */
    method ReceiveReport(serverList: Option<seq<string>>, savingStatus: Option<string>,
                         clientIp: string, data: Option<Report>, now: int) returns (status: Status)
      requires Valid()
      modifies this
      ensures Valid()
      ensures (status, Snapshot()) == Submit(old(Snapshot()), serverList, savingStatus, clientIp, data, now)
    {
      SubmitKeepsValid(Snapshot(), serverList, savingStatus, clientIp, data, now);
      if !WellFormed(data) {
        return BadRequest;
      }
      if !IsServerAllowed(serverList, clientIp) {
        return Forbidden;
      }
      if IsDbSavingEnabled(savingStatus) {
        var report := data.value;
        SaveReport(clientIp, HostnameOf(report), now, report.upload.value, report.download.value);
      }
      return Ok;
    }

    /** GET /latest: with no allow-list file, not found; otherwise one entry
        for every stripped line of the list, each the latest row of that
        address's table or `no_data`. */
    method GetLatestData(serverList: Option<seq<string>>) returns (reply: LatestReply)
      ensures serverList.None? ==> reply == LatestReply(NotFound, map[])
      ensures serverList.Some? ==> reply.status == Ok
      ensures serverList.Some? ==> forall a :: a in reply.data <==> a in AllowedServers(serverList.value)
      ensures forall a :: a in reply.data ==> reply.data[a] == LatestFor(Snapshot(), a)
    {
      if serverList.None? {
        return LatestReply(NotFound, map[]);
      }
      var serverIps := AllowedServers(serverList.value);
      var result: map<string, LatestEntry> := map[];
      var i := 0;
      while i < |serverIps|
        invariant 0 <= i <= |serverIps|
        invariant forall a :: a in result <==> a in serverIps[..i]
        invariant forall a :: a in result ==> result[a] == LatestFor(Snapshot(), a)
      {
        var serverIp := serverIps[i];
        var tableName := TableName(serverIp);
        var entry: LatestEntry;
        if tableName !in tables {
          entry := NoData;
        } else {
          var rows := tables[tableName];
          if rows == [] {
            entry := NoData;
          } else {
            entry := Entry(rows[Newest(rows)]);
          }
        }
        assert entry == LatestFor(Snapshot(), serverIp);
        result := result[serverIp := entry];
        assert serverIps[..i + 1] == serverIps[..i] + [serverIp];
        i := i + 1;
      }
      assert serverIps[..i] == serverIps;
      return LatestReply(Ok, result);
    }
  }
}
