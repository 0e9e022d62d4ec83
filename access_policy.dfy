/** The two fail-closed access checks: the allow-list of sender addresses and
    the database-saving toggle. Each file's content is passed in as a value,
    `None` when the file does not exist; both are read afresh on every call. */
module AccessPolicy {
  import opened Outcomes
  import opened Text

  /** The literal the saving-status file must hold, up to surrounding whitespace. */
  const SavingEnabledLiteral := "enabled"

  /** The allow-listed addresses: every line of the list file, stripped. */
  function AllowedServers(lines: seq<string>): (r: seq<string>)
    ensures |r| == |lines|
    ensures forall i :: 0 <= i < |lines| ==> r[i] == Strip(lines[i]) && Trimmed(r[i])
  {
    seq(|lines|, i requires 0 <= i < |lines| => Strip(lines[i]))
  }

  /** An address is allowed exactly when it equals some stripped line of the
      list; with no list file nothing is allowed, and an address that starts
      or ends with whitespace never is. */
  function IsServerAllowed(serverList: Option<seq<string>>, serverIp: string): (r: bool)
    ensures r <==> serverList.Some? && exists i :: 0 <= i < |serverList.value| && Strip(serverList.value[i]) == serverIp
    ensures r ==> Trimmed(serverIp)
  {
    match serverList
    case None => false
    case Some(lines) => serverIp in AllowedServers(lines)
  }

  /** Saving is enabled only when the status file exists, and it is enabled
      when the file holds exactly `enabled`. */
  function IsDbSavingEnabled(savingStatus: Option<string>): (r: bool)
    ensures savingStatus.None? ==> !r
    ensures savingStatus == Some(SavingEnabledLiteral) ==> r
  {
    savingStatus.Some? && Strip(savingStatus.value) == SavingEnabledLiteral
  }

  /** An address is allowed exactly when it is trimmed and some line of the
      list is that address with only whitespace around it. */
  lemma AllowedIff(lines: seq<string>, serverIp: string)
    ensures IsServerAllowed(Some(lines), serverIp) <==>
      Trimmed(serverIp) && exists i :: 0 <= i < |lines| && Padded(lines[i], serverIp)
  {
    if IsServerAllowed(Some(lines), serverIp) {
      var i :| 0 <= i < |lines| && Strip(lines[i]) == serverIp;
      StripIff(lines[i], serverIp);
    }
    if Trimmed(serverIp) && exists i :: 0 <= i < |lines| && Padded(lines[i], serverIp) {
      var i :| 0 <= i < |lines| && Padded(lines[i], serverIp);
      StripIff(lines[i], serverIp);
    }
  }

  /** The saving toggle holds exactly for `enabled` surrounded by whitespace,
      and fails closed when the file is absent. */
  lemma SavingEnabledIff(savingStatus: Option<string>)
    ensures IsDbSavingEnabled(savingStatus) <==>
      savingStatus.Some? && Padded(savingStatus.value, SavingEnabledLiteral)
  {
    if savingStatus.Some? {
      StripIff(savingStatus.value, SavingEnabledLiteral);
    }
  }
}
