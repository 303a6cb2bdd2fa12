/** The proxy's static access policy: a whitelist and a blacklist of host
    names, each switched on only when its file was found and gave at least
    one line, and the decision taken for each parsed host. */
module Policy {
  import opened Wrappers

  /** The three ends of the policy check, as the audit log names them. */
  datatype Outcome = Authorized | DeniedWhitelist | DeniedBlacklist

  /** The server's four policy fields, as one value. */
  datatype PolicyLists = PolicyLists(
    whitelist: seq<string>, usingWhitelist: bool,
    blacklist: seq<string>, usingBlacklist: bool)

  /** Reference definition of access: an active whitelist must name the host
      and an active blacklist must not. Names are compared exactly. */
  predicate Permitted(host: string, p: PolicyLists)
  {
    (p.usingWhitelist ==> host in p.whitelist) &&
    (p.usingBlacklist ==> host !in p.blacklist)
  }

  /** The checks of the request handler: the whitelist first, and only a host
      that passes it is looked up in the blacklist. */
  function Decide(host: string, p: PolicyLists): (o: Outcome)
    ensures o == Authorized <==> Permitted(host, p)
    ensures o == DeniedWhitelist <==> p.usingWhitelist && host !in p.whitelist
    ensures o == DeniedBlacklist <==>
      (!p.usingWhitelist || host in p.whitelist) && p.usingBlacklist && host in p.blacklist
  {
    if p.usingWhitelist && host !in p.whitelist then DeniedWhitelist
    else if p.usingBlacklist && host in p.blacklist then DeniedBlacklist
    else Authorized
  }

  /** Whitelist precedence: a host an active whitelist does not name is denied
      by the whitelist whatever the blacklist holds or whether it is active. */
  lemma WhitelistPrecedence(host: string, p: PolicyLists, blacklist: seq<string>, usingBlacklist: bool)
    requires p.usingWhitelist && host !in p.whitelist
    ensures Decide(host, p) == DeniedWhitelist
    ensures Decide(host, p.(blacklist := blacklist, usingBlacklist := usingBlacklist)) == DeniedWhitelist
  {
  }

  /** With neither list active every host is authorized. */
  lemma Unfiltered(host: string, p: PolicyLists)
    requires !p.usingWhitelist && !p.usingBlacklist
    ensures Decide(host, p) == Authorized
  {
  }

  /** More blacklist entries can only turn an authorization into a denial. */
  lemma BlacklistGrowthOnlyDenies(host: string, p: PolicyLists, more: seq<string>)
    requires forall e :: e in p.blacklist ==> e in more
    ensures Decide(host, p.(blacklist := more)) == Authorized ==> Decide(host, p) == Authorized
  {
  }

  /** More whitelist entries can only turn a denial into an authorization. */
  lemma WhitelistGrowthOnlyAdmits(host: string, p: PolicyLists, more: seq<string>)
    requires forall e :: e in p.whitelist ==> e in more
    ensures Decide(host, p) == Authorized ==> Decide(host, p.(whitelist := more)) == Authorized
  {
  }

  /** `line[:-1]`: the line without its last character; an empty line stays
      empty. */
  function DropLast(line: string): (r: string)
    ensures |line| > 0 ==> line == r + [line[|line| - 1]]
    ensures |line| == 0 ==> r == []
  {
    if |line| == 0 then [] else line[..|line| - 1]
  }

  /** The blacklist built from a file's lines: in file order, each line
      without its last character. */
  function BlacklistEntries(lines: seq<string>): (entries: seq<string>)
    ensures |entries| == |lines|
    ensures forall i :: 0 <= i < |lines| ==> entries[i] == DropLast(lines[i])
    decreases |lines|
  {
    if |lines| == 0 then [] else [DropLast(lines[0])] + BlacklistEntries(lines[1..])
  }

  /** A policy file: its lines, each with its line feed when it has one, or
      None when the file could not be opened. */
  type PolicyFile = Option<seq<string>>

  /** What the whitelist loader appends: every line of the file verbatim. */
  function WhitelistOf(file: PolicyFile): seq<string>
  {
    if file.Some? then file.value else []
  }

  /** What the blacklist loader appends. */
  function BlacklistOf(file: PolicyFile): seq<string>
  {
    if file.Some? then BlacklistEntries(file.value) else []
  }

  /** The policy a freshly started server holds. */
  function LoadPolicy(whitelistFile: PolicyFile, blacklistFile: PolicyFile): (p: PolicyLists)
    ensures p.usingWhitelist <==> whitelistFile.Some? && |whitelistFile.value| > 0
    ensures p.usingBlacklist <==> blacklistFile.Some? && |blacklistFile.value| > 0
    ensures p.whitelist == WhitelistOf(whitelistFile)
    ensures p.blacklist == BlacklistOf(blacklistFile)
  {
    PolicyLists(WhitelistOf(whitelistFile), |WhitelistOf(whitelistFile)| > 0,
                BlacklistOf(blacklistFile), |BlacklistOf(blacklistFile)| > 0)
  }

  /** A blacklist line `host` followed by a line feed blocks `host`, unless
      an active whitelist leaves it out and so denies it first. */
  lemma BlacklistLineBlocks(host: string, whitelistFile: PolicyFile, lines: seq<string>)
    requires host + "\n" in lines
    requires LoadPolicy(whitelistFile, Some(lines)).usingWhitelist ==> host in WhitelistOf(whitelistFile)
    ensures Decide(host, LoadPolicy(whitelistFile, Some(lines))) == DeniedBlacklist
  {
    var i :| 0 <= i < |lines| && lines[i] == host + "\n";
    assert BlacklistEntries(lines)[i] == host;
  }

  /** A blacklist file holding the single line `host` plus a line feed, and
      no whitelist file: only the blacklist is active, and it names `host`. */
  lemma SingleBlacklistLine(host: string)
    ensures LoadPolicy(None, Some([host + "\n"])) == PolicyLists([], false, [host], true)
  {
    assert DropLast(host + "\n") == host;
  }

  /** A last blacklist line without a line feed loses a real character, so it
      does not block the host it spells. */
  lemma UnterminatedBlacklistLine()
    ensures BlacklistEntries(["evil.com"]) == ["evil.co"]
    ensures Decide("evil.com", LoadPolicy(None, Some(["evil.com"]))) == Authorized
  {
    assert DropLast("evil.com") == "evil.co";
    assert "evil.com" != "evil.co";
  }

  /** The server's policy state. Its lists start empty and the loaders append
      to them; afterwards nothing changes them. */
  class Server {
    var whitelist: seq<string>
    var blacklist: seq<string>
    var usingWhitelist: bool
    var usingBlacklist: bool

    function Lists(): PolicyLists
      reads this
    {
      PolicyLists(whitelist, usingWhitelist, blacklist, usingBlacklist)
    }

    /** Start-up: empty lists, then the whitelist file, then the blacklist file. */
    constructor (whitelistFile: PolicyFile, blacklistFile: PolicyFile)
      ensures Lists() == LoadPolicy(whitelistFile, blacklistFile)
    {
      whitelist := [];
      blacklist := [];
      usingWhitelist := false;
      usingBlacklist := false;
      new;
      usingWhitelist := ReadWhitelist(whitelistFile);
      assert whitelist == WhitelistOf(whitelistFile);
      usingBlacklist := ReadBlacklist(blacklistFile);
      assert blacklist == BlacklistOf(blacklistFile);
    }

    /** Appends every line of the whitelist file as it is; reports whether
        the file was found and the list is non-empty. */
    method ReadWhitelist(file: PolicyFile) returns (found: bool)
      modifies this`whitelist
      ensures whitelist == old(whitelist) + WhitelistOf(file)
      ensures found <==> file.Some? && |whitelist| > 0
    {
      if file.None? {
        return false;
      }
      var lines := file.value;
      for i := 0 to |lines|
        invariant whitelist == old(whitelist) + lines[..i]
      {
        whitelist := whitelist + [lines[i]];
      }
      assert lines[..|lines|] == lines;
      found := |whitelist| > 0;
    }

    /** Appends every line of the blacklist file without its last character;
        reports whether the file was found and the list is non-empty. */
    method ReadBlacklist(file: PolicyFile) returns (found: bool)
      modifies this`blacklist
      ensures blacklist == old(blacklist) + BlacklistOf(file)
      ensures found <==> file.Some? && |blacklist| > 0
    {
      if file.None? {
        return false;
      }
      var lines := file.value;
      for i := 0 to |lines|
        invariant |blacklist| == |old(blacklist)| + i
        invariant blacklist[..|old(blacklist)|] == old(blacklist)
        invariant forall k :: 0 <= k < i ==> blacklist[|old(blacklist)| + k] == DropLast(lines[k])
      {
        blacklist := blacklist + [DropLast(lines[i])];
      }
      assert blacklist == old(blacklist) + BlacklistEntries(lines);
      found := |blacklist| > 0;
    }
  }
}
