# ProxyServerTD: authority parsing and access policy

ProxyServerTD is a small forwarding HTTP proxy written in Python (`Main.py`).
For each client connection, a thread does the following:

- reads the request and takes the first line;
- picks the request target out of it;
- derives the host and port to connect to from that target;
- checks the host against an optional whitelist and an optional blacklist, which were loaded from files at start-up;
- either refuses the client with a fixed message, or connects upstream and relays the reply.

A refusal is appended to an audit log at once. An authorized access is logged only after the relay loop ends by an exception.

This project models the deterministic core of that handler in Dafny and proves properties of it:

- `strings.dfy` (module `Strings`): Python's `str.find` and `str.split` with a one-character separator. `Join` undoes `Split`, and `Split` undoes `Join` on at least one piece when no piece holds the separator.
- `decimal.dfy` (module `Decimal`): the port text and its value. This is `int()` restricted to ASCII digits. `ToDecimal` renders a number, and parsing undoes it (the converse fails for leading zeros: `080` parses to 80).
- `authority.dfy` (module `Authority`): the parsing steps, from the decoded request text to `Authority(host, port)` or a `ParseError`:
  - the first line (`FirstLine`);
  - its second space-separated token (`RequestTarget`);
  - the optional `scheme://` prefix (`StripScheme`);
  - the host/port split on the first `:` and the first `/` (`SplitAuthority`).

  `FormatTarget` builds the targets clients write. `ParseRoundTrip` proves that parsing recovers the host and port from them when the scheme and the host hold no `:`, no part holds a space or a line feed, and a target without a scheme has no `:` in its path. Without the last condition the first `://` in the path would be taken as the scheme's end (`SchemeMarkerInQueryExample`).
- `policy.dfy` (module `Policy`):
  - the decision `Decide`, checked against the reference predicate `Permitted`;
  - the two list loaders as the `Server` class, whose `ReadWhitelist` and `ReadBlacklist` methods append to the list fields in a loop;
  - `LoadPolicy`, the value the constructor leaves behind.
- `handler.dfy` (module `Handler`):
  - one pass of the request handler (`Handle`): parse, decide, then connect or refuse;
  - the message sent on a refusal;
  - the audit records a connection appends, and the text of a record.

Behaviours of the code that the model makes explicit:

- Whitelist lines are kept with their line feed, but a parsed host never contains one. So a non-empty whitelist file whose every line ends in a line feed refuses every request that parses (`NewlineTerminatedWhitelistRefusesAll`).
- Blacklist lines lose their last character. So a final line without a line feed loses a real character and no longer blocks the host it spells (`UnterminatedBlacklistLine`).
- Main.py applies no range check when parsing the port (`PortOutOfRangeExample`). Only `socket.connect` rejects a port above 65535, and it does so after the policy check (`OversizedPortNeverRelayed`).
- A target without a scheme of its own is cut after the first `://` wherever it appears (`SchemeMarkerInQueryExample`).

## Model

| member | source | states |
|---|---|---|
| Strings.FindSpec | Main.py:81 | `Find`, Python's `str.find`, returns -1 or an index where the pattern occurs, and no occurrence lies before the result (none at all when it is -1) |
| Strings.FindChar | Main.py:87-90 | For a one-character pattern: -1 exactly when the character is absent; otherwise the index of its first occurrence |
| Strings.FindCharAt | Main.py:87-90 | Conversely, an index holding the character with no earlier occurrence is what `find` returns |
| Strings.Split | Main.py:76 | `split` always yields at least one piece |
| Strings.SplitSpec | Main.py:76 | No piece contains the separator, and joining the pieces with the separator gives back the text |
| Strings.SplitJoin | Main.py:79 | Splitting the join of at least one separator-free piece gives back those pieces |
| Strings.SplitHead | Main.py:76 | The first piece is the prefix up to the first separator; there are more pieces exactly when a separator exists, and they are the split of the text after it |
| Strings.SplitSecond | Main.py:79 | The piece at index 1 is the text between the first separator and the next one (or the end) |
| Strings.SplitPrefix | Main.py:79 | A separator-free prefix followed by the separator is the first piece, and the rest splits on its own |
| Strings.SplitNone | Main.py:76 | Text without the separator splits into itself alone |
| Decimal.ParsePort | Main.py:103 | The port text has a value exactly when it is a non-empty run of digits, and then the value is its decimal reading |
| Decimal.DecimalRoundTrip | Main.py:103 | Parsing the rendering of any number gives that number back |
| Authority.FirstLine | Main.py:76 | The first line is a prefix of the text without a line feed, and ends at the end of the text or at its first line feed |
| Authority.FirstLineUnique | Main.py:76 | Those two properties determine the first line |
| Authority.FirstLineAppend | Main.py:76 | Text without a line feed placed in front stays on the first line |
| Authority.RequestTarget | Main.py:79 | Fails with `MissingTarget` exactly when the first line has no space (the source's index error) |
| Authority.RequestTargetIsSecondToken | Main.py:76-79 | A target found is the text after the first space of the first line, up to the next space or the line's end, and holds neither a space nor a line feed |
| Authority.SecondToken | Main.py:79 | In `VERB SP target` followed by nothing or a space, the token at index 1 is `target` |
| Authority.RequestTargetOf | Main.py:76-79 | `VERB SP target` followed by nothing, a space or a line feed yields `target` |
| Authority.StripScheme | Main.py:81-85 | What remains is a suffix of the target |
| Authority.StripSchemeSpec | Main.py:81-85 | The target is kept whole exactly when it has no `://`; otherwise the part cut off ends with its first `://` |
| Authority.StripSchemeOf | Main.py:81-85 | `scheme://after` with a colon-free scheme leaves exactly `after` |
| Authority.StripSchemeAbsent | Main.py:82-83 | A target without `://` is kept whole |
| Authority.SplitAuthority | Main.py:87-104 | Failure is only `InvalidPort` and needs a `:`. A host found is a prefix without `:` or `/` that ends at the end, a `:` or a `/`. When it ends at the end or at `/`, the port is 80 |
| Authority.DefaultPortOf | Main.py:87-100 | `host` followed by nothing or a `/...` path gives that host on port 80 |
| Authority.ExplicitPortOf | Main.py:102-104 | `host:text` followed by nothing or a `/...` path gives the host with the value of `text`, or `InvalidPort` when `text` is not digits (including empty) |
| Authority.HostWithinTarget | Main.py:81-104 | A character absent from the target is absent from the host |
| Authority.ParseRequest | Main.py:76-104 | A parsed host contains no space, line feed, `:` or `/` |
| Authority.ParseOf | Main.py:76-104 | Once the first line frames the target, parsing is the host/port split of the target without its scheme |
| Authority.StripBare | Main.py:82-83 | A scheme-less target `host[:digits]path`, with no colon in host or path, holds no `://` and is kept whole |
| Authority.StripFormatted | Main.py:81-85 | A written target loses exactly its `scheme://` prefix, if it has one |
| Authority.SplitFormatted | Main.py:87-104 | The host/port part of a written target gives back its host, and its port or 80 |
| Authority.ParseRoundTrip | Main.py:76-104 | A request `VERB SP [scheme://]host[:port][/path]` followed by nothing, a space or a line feed parses to that host and that port (80 when none), for every natural port. Conditions: no space or line feed in any part, no `:` in the scheme or the host, no `/` in the host, and no `:` in the path when there is no scheme |
| Authority.AbsoluteUrlExample | Main.py:76-100 | `GET http://a.b.c/path HTTP/1.1` gives (`a.b.c`, 80) |
| Authority.SchemelessPortExample | Main.py:87-104 | `GET a.b.c:8080/path HTTP/1.1` gives (`a.b.c`, 8080) |
| Authority.BareHostPortExample | Main.py:87-104 | `CONNECT host:443 HTTP/1.1` gives (`host`, 443) |
| Authority.PortOutOfRangeExample | Main.py:103 | `GET http://h:70000/ HTTP/1.1` gives (`h`, 70000): there is no range check |
| Authority.EmptyPortExample | Main.py:103 | `GET http://host:/x HTTP/1.1` fails with `InvalidPort` |
| Authority.MissingTargetExample | Main.py:76-79 | A first line `GET\r` with no space fails with `MissingTarget` |
| Authority.SchemeMarkerInQueryExample | Main.py:81-85 | `GET a.b/x?u=http://c.d HTTP/1.1` gives (`c.d`, 80): the first `://` anywhere decides |
| Policy.Decide | Main.py:106-124 | Authorized exactly when the host is `Permitted`. Denied by the whitelist exactly when the whitelist is active and lacks the host. Denied by the blacklist exactly when the whitelist passes and an active blacklist names the host |
| Policy.WhitelistPrecedence | Main.py:106-114 | A host missing from an active whitelist is denied by the whitelist, whatever the blacklist and its flag are |
| Policy.Unfiltered | Main.py:106-124 | With neither list active, every host is authorized |
| Policy.BlacklistGrowthOnlyDenies | Main.py:116-122 | Adding blacklist entries never authorizes a host that was not authorized before |
| Policy.WhitelistGrowthOnlyAdmits | Main.py:106-114 | Adding whitelist entries never denies a host that was authorized before |
| Policy.DropLast | Main.py:46 | `line[:-1]`: the line is the result plus its last character; an empty line stays empty |
| Policy.BlacklistEntries | Main.py:44-46 | One entry per line, in file order, each being the line without its last character |
| Policy.LoadPolicy | Main.py:20-55 | Each filter is active exactly when its file was found and has at least one line; the whitelist is the lines verbatim, the blacklist their `BlacklistEntries` |
| Policy.BlacklistLineBlocks | Main.py:44-46 | A blacklist line `host` plus line feed denies `host` by the blacklist, unless the whitelist denies it first |
| Policy.SingleBlacklistLine | Main.py:42-55 | A blacklist file holding only `host` plus a line feed, with no whitelist file, activates only the blacklist, naming exactly `host` |
| Policy.UnterminatedBlacklistLine | Main.py:46 | A last blacklist line `evil.com` without a line feed becomes `evil.co`, and `evil.com` is authorized |
| Policy.Server.constructor | Main.py:20-25 | Starting from empty lists, loading both files leaves exactly `LoadPolicy` of the two files |
| Policy.Server.ReadWhitelist | Main.py:27-40 | Appends the file's lines verbatim and in order, touching nothing but the whitelist; reports whether the file was found and the list is non-empty |
| Policy.Server.ReadBlacklist | Main.py:42-55 | Appends the file's lines without their last character, in order, touching nothing but the blacklist; reports whether the file was found and the list is non-empty |
| Handler.Handle | Main.py:71-129 | The handler ends before any check exactly when parsing fails, with that error. Otherwise every later outcome concerns the parsed host, which holds no line feed |
| Handler.AuditLog | Main.py:106-142 | A connection appends at most one record, and none when parsing fails or the handler never gets through connect, send and relay |
| Handler.Rejection | Main.py:112-120 | The proxy sends its own message exactly when it refuses the host |
| Handler.AuditTextIsOneLine | Main.py:111-142 | `AuditText`, the text of the three records written at lines 111, 119 and 142, ends with its only line feed when host, time stamp and client label have none |
| Handler.AuditLogLines | Main.py:106-142 | Every record a connection appends is one whole line of the log |
| Handler.MalformedRequestIsDropped | Main.py:76-79 | A request that fails to parse gets no upstream connection, no message and no record |
| Handler.WhitelistDenial | Main.py:106-114 | A host missing from an active whitelist is refused with the whitelist message and exactly one denied-whitelist record |
| Handler.BlacklistDenial | Main.py:116-122 | A host that passes the whitelist but is named by an active blacklist is refused with the blacklist message and exactly one denied-blacklist record |
| Handler.UpstreamOnlyWhenPermitted | Main.py:106-128 | An upstream connection is attempted exactly for a parsed host the policy permits, and goes to the parsed host and port |
| Handler.AuditMatchesOutcome | Main.py:106-142 | The record appended carries the host and the decision. It is missing exactly when the host is authorized but the handler does not get through connect, send and relay: `connects` is false or the port is above 65535 |
| Handler.OversizedPortNeverRelayed | Main.py:126-128 | A parsed port above 65535 is never relayed, and a permitted host on such a port gets no record |
| Handler.NewlineTerminatedWhitelistRefusesAll | Main.py:27-31 | A non-empty whitelist file whose every line ends in a line feed refuses every request that parses, with the whitelist message |
| Handler.BlacklistMissProceeds | Main.py:116-128 | With the whitelist off and the host not blacklisted, the request goes upstream to the parsed authority, and is relayed when `connects` holds and the port is at most 65535 |
| Handler.BlacklistMissExample | Main.py:116-128 | With blacklist file `evil.com` plus line feed, `GET http://a.b.c/path HTTP/1.1` goes upstream to (`a.b.c`, 80) |

## Left out

- Sockets are not modelled: creating, binding and listening (Main.py:11-18), `accept` and the client label (Main.py:61-65), and closing. They are operating-system I/O.
- The thread per connection (Main.py:68-69) is not modelled. Every connection is handled on its own, and `AuditLogLines` states only that each record is one whole line.
- `recv` of at most `MAX_REQUEST_LEN` bytes and `decode()` (Main.py:73, 76) are not modelled. The model starts from the decoded text, so truncated or undecodable input is out of scope.
- `connect`, `sendall` and the relay loop (Main.py:126-139) are not modelled as I/O. For a port `connect` accepts, the `connects` parameter of `Handle` says three things: connecting succeeds, sending the request succeeds, and the relay loop is then left by an exception. The relayed bytes and `temp.txt` are not modelled.
- `CONNECTION_TIMEOUT` (Main.py:127, 145) is not modelled. It is a float used only by the socket.
- Opening the policy files is not modelled. A file is given as its lines, or `None` when it cannot be opened.
- A read error after some lines have been appended is not modelled. It leaves those lines in the list with the flag false.
- The `print` messages (Main.py:33-39, 48-54, 59) are not modelled.
- Appending to `serverlog.txt` is not modelled. `AuditText` takes the `time.asctime()` time stamp and the client label as parameters.
- Decimal.ParsePort: accepts only a non-empty run of ASCII digits. Python's `int()` also accepts surrounding whitespace, a sign, underscores between digits and non-ASCII digits.
- Handler.AuditMatchesOutcome: the authorized record (Main.py:141-142) is also missing when the relay loop never ends. After the upstream closes, `recv` returns empty data at once and sending empty data to the client succeeds, so the loop spins while the client keeps its socket open. The model folds this case into `connects` being false, and does not describe it separately. A port above 65535 always fails at `connect`, which the model does state.
- Authority.ParseRequest: returns `MissingTarget` or `InvalidPort` where the source raises an uncaught exception that ends the thread. Both errors lead to `Dropped` in `Handle`.
