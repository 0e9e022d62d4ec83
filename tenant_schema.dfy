/** The per-sender table name: `traffic_` followed by the address with every
    `.` replaced by `_`. Submission, the latest-data query and the history
    query all derive it with this one function. */
module TenantSchema {

  const TablePrefix := "traffic_"

  /** `s.replace('.', '_')`. */
  function ReplaceDots(s: string): (r: string)
    ensures |r| == |s| && '.' !in r
    ensures forall i :: 0 <= i < |s| ==> r[i] == (if s[i] == '.' then '_' else s[i])
  {
    seq(|s|, i requires 0 <= i < |s| => if s[i] == '.' then '_' else s[i])
  }

  /** The name of the dedicated sample table of `serverIp`. */
  function TableName(serverIp: string): (r: string)
    ensures |r| == |TablePrefix| + |serverIp| && r[..|TablePrefix|] == TablePrefix
    ensures '.' !in r
    ensures forall i :: 0 <= i < |serverIp| && serverIp[i] != '.' ==> r[|TablePrefix| + i] == serverIp[i]
    ensures forall i :: 0 <= i < |serverIp| && serverIp[i] == '.' ==> r[|TablePrefix| + i] == '_'
  {
    TablePrefix + ReplaceDots(serverIp)
  }

  /** Reads an address back from a table name, taking every `_` for a `.`. */
  function AddressOfTable(name: string): string
    requires |TablePrefix| <= |name|
  {
    var suffix := name[|TablePrefix|..];
    seq(|suffix|, i requires 0 <= i < |suffix| => if suffix[i] == '_' then '.' else suffix[i])
  }

  /** On addresses without `_` (every IPv4 address) the derivation can be inverted. */
  lemma TableNameRoundTrip(serverIp: string)
    requires '_' !in serverIp
    ensures AddressOfTable(TableName(serverIp)) == serverIp
  {
    var name := TableName(serverIp);
    assert name[|TablePrefix|..] == ReplaceDots(serverIp);
  }

  /** Hence two distinct `_`-free addresses never share a table. */
  lemma TableNameInjective(a: string, b: string)
    requires '_' !in a && '_' !in b
    requires TableName(a) == TableName(b)
    ensures a == b
  {
    TableNameRoundTrip(a);
    TableNameRoundTrip(b);
  }

  /** Without that restriction the naive substitution collides. */
  lemma TableNameCollision()
    ensures "10.0.0.1" != "10_0_0_1" && TableName("10.0.0.1") == TableName("10_0_0_1")
  {
    assert ReplaceDots("10.0.0.1") == "10_0_0_1";
    assert ReplaceDots("10_0_0_1") == "10_0_0_1";
  }
}
