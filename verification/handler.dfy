/** One pass of the request handler, with the network and the log file as
    parameters and results: parse the request, check the policy, and either
    refuse, or try the upstream connection and relay. */
module Handler {
  import opened Wrappers
  import opened Authority
  import opened Policy

  /** How the handling of one connection ends. */
  datatype Handling =
      /** Parsing raised; the thread ends with nothing sent and nothing logged. */
    | Dropped(error: ParseError)
      /** The policy denied the host; a rejection was sent and logged. */
    | Refused(host: string, outcome: Outcome)
      /** An upstream connection was due, but the handler never reached its
          audit record: the connect raised (as it always does for a port
          above 65535), the send raised, or the relay loop never ended. */
    | Unlogged(host: string, port: nat)
      /** The request went upstream, the relay loop ended by an exception,
          and access was logged. */
    | Relayed(host: string, port: nat)

  /** The largest port `socket.connect` accepts; a larger one makes it raise
      before any connection is tried. */
  const MaxPort: nat := 65535

  /** The handler for the request text `text` under `policy`. `connects` is
      whether, for a port `connect` accepts, connecting to the parsed
      authority and sending the request succeed and the relay loop is then
      left by an exception (a time-out, or a failed send to the client). */
  function Handle(text: string, policy: PolicyLists, connects: bool): (h: Handling)
    ensures h.Dropped? <==> ParseRequest(text).Err?
    ensures h.Dropped? ==> h.error == ParseRequest(text).error
    ensures !h.Dropped? ==> h.host == ParseRequest(text).value.host && '\n' !in h.host
  {
    match ParseRequest(text)
    case Err(e) => Dropped(e)
    case Ok(a) =>
      var o := Decide(a.host, policy);
      if o != Authorized then Refused(a.host, o)
      else if connects && a.port <= MaxPort then Relayed(a.host, a.port)
      else Unlogged(a.host, a.port)
  }

  /** A line of the audit log, before the clock and the client are filled in. */
  datatype AuditRecord = AuditRecord(host: string, outcome: Outcome)

  /** The audit records one connection appends. */
  function AuditLog(h: Handling): (log: seq<AuditRecord>)
    ensures |log| <= 1
    ensures h.Dropped? || h.Unlogged? ==> log == []
  {
    match h
    case Refused(host, o) => [AuditRecord(host, o)]
    case Relayed(host, _) => [AuditRecord(host, Authorized)]
    case _ => []
  }

  const WhitelistRejection: string := "Oops. Host address not in whitelist!"
  const BlacklistRejection: string := "Oops. Host address is blacklisted!"

  /** The message the proxy itself sends to the client: only on a denial. */
  function Rejection(h: Handling): (m: Option<string>)
    ensures m.Some? <==> h.Refused?
  {
    match h
    case Refused(_, DeniedWhitelist) => Some(WhitelistRejection)
    case Refused(_, _) => Some(BlacklistRejection)
    case _ => None
  }

  /** The text of an audit record, given the time stamp and the client's
      `ip:port` label. */
  function AuditText(r: AuditRecord, timestamp: string, client: string): string
  {
    var verdict := if r.outcome == Authorized then "authorized" else "denied";
    var reason :=
      match r.outcome
      case Authorized => "."
      case DeniedWhitelist => ": host not in whitelist."
      case DeniedBlacklist => ": host is blacklisted.";
    "Access " + verdict + " on " + timestamp + " from " + client + " to " + r.host + reason + "\n"
  }

  /** An audit record is exactly one line of the log when its host, the time
      stamp and the client label hold no line feed. */
  lemma AuditTextIsOneLine(r: AuditRecord, timestamp: string, client: string)
    requires '\n' !in r.host && '\n' !in timestamp && '\n' !in client
    ensures var line := AuditText(r, timestamp, client);
      |line| > 0 && line[|line| - 1] == '\n' && '\n' !in line[..|line| - 1]
  {
  }

  /** Every record a handler appends is exactly one line of the log text. */
  lemma AuditLogLines(text: string, policy: PolicyLists, connects: bool,
                      timestamp: string, client: string)
    requires '\n' !in timestamp && '\n' !in client
    ensures forall r :: r in AuditLog(Handle(text, policy, connects)) ==>
      var line := AuditText(r, timestamp, client);
      |line| > 0 && line[|line| - 1] == '\n' && '\n' !in line[..|line| - 1]
  {
    forall r | r in AuditLog(Handle(text, policy, connects))
      ensures var line := AuditText(r, timestamp, client);
        |line| > 0 && line[|line| - 1] == '\n' && '\n' !in line[..|line| - 1]
    {
      AuditTextIsOneLine(r, timestamp, client);
    }
  }

  /** A malformed request ends the handler: no upstream connection, no
      message to the client, no audit record. */
  lemma MalformedRequestIsDropped(text: string, policy: PolicyLists, connects: bool)
    requires ParseRequest(text).Err?
    ensures var h := Handle(text, policy, connects);
      h.Dropped? && Rejection(h) == None && AuditLog(h) == []
  {
  }

  /** An active whitelist that does not name the host refuses it before any
      upstream connection, with the whitelist message and exactly one
      denied-whitelist record, whatever the blacklist says. */
  lemma WhitelistDenial(text: string, policy: PolicyLists, connects: bool)
    requires ParseRequest(text).Ok?
    requires policy.usingWhitelist && ParseRequest(text).value.host !in policy.whitelist
    ensures var host := ParseRequest(text).value.host;
      var h := Handle(text, policy, connects);
      h == Refused(host, DeniedWhitelist) &&
      Rejection(h) == Some(WhitelistRejection) &&
      AuditLog(h) == [AuditRecord(host, DeniedWhitelist)]
  {
  }

  /** A host that passes the whitelist but is named by an active blacklist is
      refused before any upstream connection, with the blacklist message and
      exactly one denied-blacklist record. */
  lemma BlacklistDenial(text: string, policy: PolicyLists, connects: bool)
    requires ParseRequest(text).Ok?
    requires !policy.usingWhitelist || ParseRequest(text).value.host in policy.whitelist
    requires policy.usingBlacklist && ParseRequest(text).value.host in policy.blacklist
    ensures var host := ParseRequest(text).value.host;
      var h := Handle(text, policy, connects);
      h == Refused(host, DeniedBlacklist) &&
      Rejection(h) == Some(BlacklistRejection) &&
      AuditLog(h) == [AuditRecord(host, DeniedBlacklist)]
  {
  }

  /** An upstream connection is attempted exactly for a well-formed request
      whose host the policy permits, and it goes to the parsed authority. */
  lemma UpstreamOnlyWhenPermitted(text: string, policy: PolicyLists, connects: bool)
    ensures var h := Handle(text, policy, connects);
      (h.Relayed? || h.Unlogged?) <==>
        ParseRequest(text).Ok? && Permitted(ParseRequest(text).value.host, policy)
    ensures var h := Handle(text, policy, connects);
      h.Relayed? || h.Unlogged? ==>
        ParseRequest(text).value == Authority(h.host, h.port)
  {
  }

  /** Only an authorized and relayed request logs "authorized"; a refused one
      logs its denial; an authorized one that never gets through its relay
      logs nothing. */
  lemma AuditMatchesOutcome(text: string, policy: PolicyLists, connects: bool)
    requires ParseRequest(text).Ok?
    ensures var a := ParseRequest(text).value;
      var h := Handle(text, policy, connects);
      var o := Decide(a.host, policy);
      AuditLog(h) ==
        if o == Authorized && !(connects && a.port <= MaxPort) then []
        else [AuditRecord(a.host, o)]
  {
  }

  /** A parsed port above 65535 is never relayed: `connect` raises on it
      after the policy check, and no record is written. */
  lemma OversizedPortNeverRelayed(text: string, policy: PolicyLists, connects: bool)
    requires ParseRequest(text).Ok? && ParseRequest(text).value.port > MaxPort
    ensures var h := Handle(text, policy, connects);
      !h.Relayed? && (Permitted(ParseRequest(text).value.host, policy) ==> AuditLog(h) == [])
  {
  }

  /** Whitelist lines keep their line feed, and a parsed host never holds
      one: a non-empty whitelist file whose every line ends with a line feed
      refuses every request that parses. */
  lemma NewlineTerminatedWhitelistRefusesAll(text: string, lines: seq<string>,
                                             blacklistFile: PolicyFile, connects: bool)
    requires |lines| > 0
    requires forall i :: 0 <= i < |lines| ==> |lines[i]| > 0 && lines[i][|lines[i]| - 1] == '\n'
    requires ParseRequest(text).Ok?
    ensures Handle(text, LoadPolicy(Some(lines), blacklistFile), connects) ==
      Refused(ParseRequest(text).value.host, DeniedWhitelist)
  {
  }

  /** An inactive whitelist and a blacklist that does not name the parsed
      host: the request goes upstream, to the parsed authority. */
  lemma BlacklistMissProceeds(text: string, policy: PolicyLists, connects: bool)
    requires ParseRequest(text).Ok?
    requires !policy.usingWhitelist && ParseRequest(text).value.host !in policy.blacklist
    ensures var a := ParseRequest(text).value;
      Handle(text, policy, connects) ==
        if connects && a.port <= MaxPort then Relayed(a.host, a.port)
        else Unlogged(a.host, a.port)
  {
  }

  /** The same for a concrete request and blacklist file. */
  lemma BlacklistMissExample(connects: bool)
    ensures Handle("GET" + " " + "http://a.b.c/path" + " HTTP/1.1", LoadPolicy(None, Some(["evil.com" + "\n"])), connects)
      == if connects then Relayed("a.b.c", 80) else Unlogged("a.b.c", 80)
  {
    SingleBlacklistLine("evil.com");
    AbsoluteUrlExample();
    assert "a.b.c" !in ["evil.com"];
    BlacklistMissProceeds("GET" + " " + "http://a.b.c/path" + " HTTP/1.1",
      LoadPolicy(None, Some(["evil.com" + "\n"])), connects);
  }
}
