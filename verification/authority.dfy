/** Authority parsing in the request handler: from the decoded request text
    to the host and port the proxy connects to.

    The request target is the second space-separated token of the first
    line; an optional `scheme://` prefix is dropped; the host ends at the
    first `:` or `/`, and a port is read only when the `:` comes first. */
module Authority {
  import opened Wrappers
  import opened Strings
  import opened Decimal

  /** Why a request yields no authority. In the handler both are uncaught
      exceptions that end the connection's thread: an index error when the
      first line has no second token, a value error from `int()` on the
      port text. */
  datatype ParseError = MissingTarget | InvalidPort

  datatype Authority = Authority(host: string, port: nat)

  const DefaultPort: nat := 80

  const SchemeMarker: string := "://"

  /** `text.split('\n')[0]`: everything before the first line feed. */
  function FirstLine(text: string): (line: string)
    ensures line <= text && '\n' !in line
    ensures |line| < |text| ==> text[|line|] == '\n'
  {
    var parts := Split(text, '\n');
    SplitSpec(text, '\n');
    JoinHead(parts, '\n');
    parts[0]
  }

  /** `first_line.split(' ')[1]`: the request target, or MissingTarget when
      the first line holds no space (the source's index error). */
  function RequestTarget(text: string): (r: Result<string, ParseError>)
    ensures r.Err? <==> ' ' !in FirstLine(text)
    ensures r.Err? ==> r.error == MissingTarget
  {
    var tokens := Split(FirstLine(text), ' ');
    SplitSpec(FirstLine(text), ' ');
    JoinHead(tokens, ' ');
    if |tokens| < 2 then Err(MissingTarget) else Ok(tokens[1])
  }

  /** The target is exactly the second token of the first line: the text
      after its first space, up to the next space or the end of the line. */
  lemma RequestTargetIsSecondToken(text: string)
    requires RequestTarget(text).Ok?
    ensures var line, t := FirstLine(text), RequestTarget(text).value;
      var i := Find(line, " ");
      0 <= i && i + 1 + |t| <= |line| && line[i + 1..i + 1 + |t|] == t &&
      ' ' !in t && '\n' !in t &&
      (i + 1 + |t| == |line| || line[i + 1 + |t|] == ' ')
  {
    var line := FirstLine(text);
    SplitSecond(line, ' ');
    var i := Find(line, " ");
    var t := RequestTarget(text).value;
    NotInSlice(line, '\n', i + 1, i + 1 + |t|);
  }

  /** The first line is determined by its three defining properties. */
  lemma FirstLineUnique(text: string, line: string)
    requires line <= text && '\n' !in line
    requires |line| < |text| ==> text[|line|] == '\n'
    ensures FirstLine(text) == line
  {
  }

  /** Text without a line feed in front of `tail` stays on the first line. */
  lemma FirstLineAppend(head: string, tail: string)
    requires '\n' !in head
    ensures FirstLine(head + tail) == head + FirstLine(tail)
  {
    var l := FirstLine(tail);
    var text := head + tail;
    assert text[|head|..] == tail;
    assert (head + l) <= text;
    FirstLineUnique(text, head + l);
  }

  /** In a line `VERB SP target` followed by nothing or by a space, the
      second space-separated token is `target`. */
  lemma SecondToken(verb: string, target: string, more: string)
    requires ' ' !in verb && ' ' !in target
    requires more == [] || more[0] == ' '
    ensures var tokens := Split(verb + " " + target + more, ' ');
      |tokens| >= 2 && tokens[1] == target
  {
    var after := target + more;
    assert verb + " " + target + more == verb + [' '] + after;
    SplitPrefix(verb, ' ', after);
    if more == [] {
      assert after == target;
      SplitNone(target, ' ');
    } else {
      assert after == target + [' '] + more[1..];
      SplitPrefix(target, ' ', more[1..]);
    }
  }

  /** A first line `VERB SP target ...` yields `target`. */
  lemma RequestTargetOf(verb: string, target: string, tail: string)
    requires ' ' !in verb && '\n' !in verb
    requires ' ' !in target && '\n' !in target
    requires tail == [] || tail[0] == ' ' || tail[0] == '\n'
    ensures RequestTarget(verb + " " + target + tail) == Ok(target)
  {
    var more := FirstLine(tail);
    FirstLineAppend(verb + " " + target, tail);
    assert more == [] || more[0] == ' ' by {
      if tail != [] && tail[0] == '\n' {
        FirstLineUnique(tail, []);
      }
    }
    SecondToken(verb, target, more);
  }

  /** `url[http_pos + 3:]` when `url.find("://")` succeeds, else the whole
      target: the suffix after the first `://`. */
  function StripScheme(target: string): (rest: string)
    ensures |rest| <= |target| && rest == target[|target| - |rest|..]
  {
    FindSpec(target, SchemeMarker);
    var schemePos := Find(target, SchemeMarker);
    if schemePos == -1 then target else target[schemePos + 3..]
  }

  /** The target is kept whole exactly when it holds no `://`; otherwise
      what is cut off ends with the first `://`. */
  lemma StripSchemeSpec(target: string)
    ensures var rest := StripScheme(target);
      (rest == target <==> forall j :: 0 <= j ==> !OccursAt(target, SchemeMarker, j)) &&
      (rest != target ==>
        var k := |target| - |rest|;
        k >= 3 && OccursAt(target, SchemeMarker, k - 3) &&
        forall j :: 0 <= j < k - 3 ==> !OccursAt(target, SchemeMarker, j))
  {
    FindSpec(target, SchemeMarker);
  }

  /** The host, the port, or an invalid port, from what follows the scheme.
      The host ends at the first `/` (or the end) unless a `:` comes before
      it; then the host ends at the `:` and the port text runs from after
      the `:` to the first `/` (or the end). */
  function SplitAuthority(rest: string): (r: Result<Authority, ParseError>)
    ensures r.Err? ==> r.error == InvalidPort && ':' in rest
    ensures r.Ok? ==>
      var h := r.value.host;
      h <= rest && ':' !in h && '/' !in h &&
      (|h| == |rest| || rest[|h|] == ':' || rest[|h|] == '/')
    ensures r.Ok? && (|r.value.host| == |rest| || rest[|r.value.host|] == '/') ==>
      r.value.port == DefaultPort
  {
    FindChar(rest, ':');
    FindChar(rest, '/');
    var portPos := Find(rest, ":");
    var slashPos := Find(rest, "/");
    var hostEnd := if slashPos == -1 then |rest| else slashPos;
    if portPos == -1 || hostEnd < portPos then
      Ok(Authority(rest[..hostEnd], DefaultPort))
    else
      assert rest[..hostEnd][portPos] == ':';
      match ParsePort(rest[portPos + 1..hostEnd])
      case None => Err(InvalidPort)
      case Some(port) => Ok(Authority(rest[..portPos], port))
  }

  /** The host is a piece of the target: a character the target lacks, the
      host lacks too. */
  lemma HostWithinTarget(target: string, c: char)
    requires c !in target
    ensures var r := SplitAuthority(StripScheme(target)); r.Ok? ==> c !in r.value.host
  {
    var rest := StripScheme(target);
    var r := SplitAuthority(rest);
    if r.Ok? {
      var h := r.value.host;
      NotInSlice(target, c, |target| - |rest|, |target|);
      assert rest[..|h|] == h;
      NotInSlice(rest, c, 0, |h|);
    }
  }

  /** The authority of a request, or why there is none. */
  function ParseRequest(text: string): (r: Result<Authority, ParseError>)
    ensures r.Ok? ==>
      var h := r.value.host;
      ' ' !in h && '\n' !in h && ':' !in h && '/' !in h
  {
    match RequestTarget(text)
    case Err(e) => Err(e)
    case Ok(target) =>
      RequestTargetIsSecondToken(text);
      var r := SplitAuthority(StripScheme(target));
      HostWithinTarget(target, ' ');
      HostWithinTarget(target, '\n');
      r
  }

  /** A target `scheme://after` whose scheme has no colon loses exactly
      `scheme://`. */
  lemma StripSchemeOf(scheme: string, after: string)
    requires ':' !in scheme
    ensures StripScheme(scheme + SchemeMarker + after) == after
  {
    var target := scheme + SchemeMarker + after;
    var n := |scheme|;
    assert target[n..n + 3] == SchemeMarker;
    assert OccursAt(target, SchemeMarker, n);
    forall j | 0 <= j < n ensures !OccursAt(target, SchemeMarker, j) {
      assert target[j] == scheme[j];
    }
    StripSchemeSpec(target);
    assert target[n + 3..] == after;
  }

  /** A host followed by nothing or by a path: the host, on port 80. */
  lemma DefaultPortOf(host: string, path: string)
    requires ':' !in host && '/' !in host
    requires path == [] || path[0] == '/'
    ensures SplitAuthority(host + path) == Ok(Authority(host, DefaultPort))
  {
    var rest := host + path;
    assert rest[..|host|] == host;
    FindChar(rest, ':');
    FindChar(rest, '/');
    if path == [] {
      assert rest == host;
    } else {
      FindCharAt(rest, '/', |host|);
    }
  }

  /** A host, a colon and port text up to the path: the port text's value,
      or InvalidPort when it is not a run of digits (the empty text too). */
  lemma ExplicitPortOf(host: string, portText: string, path: string)
    requires ':' !in host && '/' !in host && '/' !in portText
    requires path == [] || path[0] == '/'
    ensures SplitAuthority(host + ":" + portText + path) ==
      if IsDecimal(portText) then Ok(Authority(host, DecimalValue(portText)))
      else Err(InvalidPort)
  {
    var rest := host + ":" + portText + path;
    var n := |host|;
    var m := n + 1 + |portText|;
    assert rest[..n] == host && rest[n] == ':';
    FindCharAt(rest, ':', n);
    assert rest[..m] == host + ":" + portText;
    FindChar(rest, '/');
    if path == [] {
      assert rest == rest[..m];
    } else {
      FindCharAt(rest, '/', m);
    }
    assert rest[n + 1..m] == portText;
  }

  /** The target a client writes for `host`: an optional `scheme://`, the
      host, an optional `:port` and a path. */
  function FormatTarget(scheme: Option<string>, host: string, port: Option<nat>, path: string): string
  {
    var auth := host + PortPart(port) + path;
    if scheme.Some? then scheme.value + SchemeMarker + auth else auth
  }

  function PortPart(port: Option<nat>): string
  {
    if port.Some? then ":" + ToDecimal(port.value) else ""
  }

  /** No `://` in `host:digits path` when host and path have no colon and the
      port text is non-empty digits. */
  lemma NoSchemeMarker(host: string, portPart: string, path: string)
    requires ':' !in host && ':' !in path
    requires portPart == [] || (|portPart| >= 2 && ':' !in portPart[1..] && portPart[1] != '/')
    ensures forall j :: 0 <= j ==> !OccursAt(host + portPart + path, SchemeMarker, j)
  {
    var target := host + portPart + path;
    forall j | 0 <= j && j + 1 < |target| ensures target[j] != ':' || target[j + 1] != '/' {
      if j < |host| {
        assert target[j] == host[j];
      } else if j == |host| && portPart != [] {
        assert target[j + 1] == portPart[1];
      } else if j < |host| + |portPart| {
        assert target[j] == portPart[1..][j - |host| - 1];
      } else {
        assert target[j] == path[j - |host| - |portPart|];
      }
    }
    forall j | 0 <= j ensures !OccursAt(target, SchemeMarker, j) {
      if j + 3 <= |target| {
        assert target[j..j + 3][0] == target[j] && target[j..j + 3][1] == target[j + 1];
      }
    }
  }

  /** A target without `://` is kept whole. */
  lemma StripSchemeAbsent(target: string)
    requires forall j :: 0 <= j ==> !OccursAt(target, SchemeMarker, j)
    ensures StripScheme(target) == target
  {
    FindSpec(target, SchemeMarker);
  }

  /** A target without a scheme, whose host and path hold no colon, has no
      `://` to cut at. */
  lemma StripBare(host: string, port: Option<nat>, path: string)
    requires ':' !in host && ':' !in path
    ensures StripScheme(host + PortPart(port) + path) == host + PortPart(port) + path
  {
    PortPartShape(port);
    NoSchemeMarker(host, PortPart(port), path);
    StripSchemeAbsent(host + PortPart(port) + path);
  }

  /** What is left of a formatted target once the scheme is stripped: the
      host, the port part and the path. */
  lemma StripFormatted(scheme: Option<string>, host: string, port: Option<nat>, path: string)
    requires scheme.Some? ==> ':' !in scheme.value
    requires ':' !in host
    requires scheme.None? ==> ':' !in path
    ensures StripScheme(FormatTarget(scheme, host, port, path)) == host + PortPart(port) + path
  {
    var auth := host + PortPart(port) + path;
    if scheme.Some? {
      StripSchemeOf(scheme.value, auth);
    } else {
      StripBare(host, port, path);
    }
  }

  /** The port part is empty, or a colon followed by digits. */
  lemma PortPartShape(port: Option<nat>)
    ensures PortPart(port) == [] || (|PortPart(port)| >= 2 && ':' !in PortPart(port)[1..] && PortPart(port)[1] != '/')
    ensures ' ' !in PortPart(port) && '\n' !in PortPart(port)
  {
    if port.Some? {
      var d := ToDecimal(port.value);
      assert PortPart(port) == [':'] + d;
      assert PortPart(port)[1..] == d;
      assert forall k :: 0 <= k < |d| ==> IsDigit(d[k]);
    }
  }

  /** The authority part of a formatted target splits back into the host and
      the port written (80 when none). */
  lemma SplitFormatted(host: string, port: Option<nat>, path: string)
    requires ':' !in host && '/' !in host
    requires path == [] || path[0] == '/'
    ensures SplitAuthority(host + PortPart(port) + path) ==
      Ok(Authority(host, if port.Some? then port.value else DefaultPort))
  {
    if port.Some? {
      var d := ToDecimal(port.value);
      assert '/' !in d by {
        assert forall k :: 0 <= k < |d| ==> IsDigit(d[k]);
      }
      assert host + PortPart(port) + path == host + ":" + d + path;
      ExplicitPortOf(host, d, path);
      DecimalRoundTrip(port.value);
    } else {
      assert host + PortPart(port) + path == host + path;
      DefaultPortOf(host, path);
    }
  }

  /** Round trip: a request whose first line is `VERB SP target ...`, with the
      target written by FormatTarget, parses back to the host and to the port
      written, or to port 80 when none was written. */
  lemma ParseRoundTrip(verb: string, scheme: Option<string>, host: string, port: Option<nat>,
                       path: string, tail: string)
    requires ' ' !in verb && '\n' !in verb
    requires scheme.Some? ==> ':' !in scheme.value && ' ' !in scheme.value && '\n' !in scheme.value
    requires ':' !in host && '/' !in host && ' ' !in host && '\n' !in host
    requires path == [] || path[0] == '/'
    requires ' ' !in path && '\n' !in path
    requires scheme.None? ==> ':' !in path
    requires tail == [] || tail[0] == ' ' || tail[0] == '\n'
    ensures ParseRequest(verb + " " + FormatTarget(scheme, host, port, path) + tail) ==
      Ok(Authority(host, if port.Some? then port.value else DefaultPort))
  {
    var target := FormatTarget(scheme, host, port, path);
    PortPartShape(port);
    RequestTargetOf(verb, target, tail);
    StripFormatted(scheme, host, port, path);
    SplitFormatted(host, port, path);
  }

  /** Once the target is framed by the first line, parsing is the split of
      what remains after the scheme. */
  lemma ParseOf(verb: string, target: string, tail: string)
    requires ' ' !in verb && '\n' !in verb
    requires ' ' !in target && '\n' !in target
    requires tail == [] || tail[0] == ' ' || tail[0] == '\n'
    ensures ParseRequest(verb + " " + target + tail) == SplitAuthority(StripScheme(target))
  {
    RequestTargetOf(verb, target, tail);
  }

  /** An absolute-form target without a port: port 80. */
  lemma AbsoluteUrlExample()
    ensures ParseRequest("GET" + " " + "http://a.b.c/path" + " HTTP/1.1") == Ok(Authority("a.b.c", 80))
  {
    assert FormatTarget(Some("http"), "a.b.c", None, "/path") == "http://a.b.c/path";
    ParseRoundTrip("GET", Some("http"), "a.b.c", None, "/path", " HTTP/1.1");
  }

  /** A target without a scheme but with a port and a path. */
  lemma SchemelessPortExample()
    ensures ParseRequest("GET" + " " + "a.b.c:8080/path" + " HTTP/1.1") == Ok(Authority("a.b.c", 8080))
  {
    assert ToDecimal(8080) == "8080";
    assert FormatTarget(None, "a.b.c", Some(8080), "/path") == "a.b.c:8080/path";
    ParseRoundTrip("GET", None, "a.b.c", Some(8080), "/path", " HTTP/1.1");
  }

  /** A bare `host:port` target, with no path to cut at. */
  lemma BareHostPortExample()
    ensures ParseRequest("CONNECT" + " " + "host:443" + " HTTP/1.1") == Ok(Authority("host", 443))
  {
    assert ToDecimal(443) == "443";
    assert FormatTarget(None, "host", Some(443), "") == "host:443";
    ParseRoundTrip("CONNECT", None, "host", Some(443), "", " HTTP/1.1");
  }

  /** No range check: a port above 65535 is passed on as it is. */
  lemma PortOutOfRangeExample()
    ensures ParseRequest("GET" + " " + "http://h:70000/" + " HTTP/1.1") == Ok(Authority("h", 70000))
  {
    assert ToDecimal(70000) == "70000";
    assert FormatTarget(Some("http"), "h", Some(70000), "/") == "http://h:70000/";
    ParseRoundTrip("GET", Some("http"), "h", Some(70000), "/", " HTTP/1.1");
  }

  /** A colon with nothing before the path is an invalid port. */
  lemma EmptyPortExample()
    ensures ParseRequest("GET" + " " + "http://host:/x" + " HTTP/1.1") == Err(InvalidPort)
  {
    assert "http" + SchemeMarker + "host:/x" == "http://host:/x";
    assert "host" + ":" + "" + "/x" == "host:/x";
    assert ' ' !in "http://host:/x" && '\n' !in "http://host:/x";
    assert ':' !in "host" && '/' !in "host" && ':' !in "http";
    assert !IsDecimal("");
    ParseOf("GET", "http://host:/x", " HTTP/1.1");
    StripSchemeOf("http", "host:/x");
    ExplicitPortOf("host", "", "/x");
  }

  /** A first line with a single token has no target. */
  lemma MissingTargetExample()
    ensures ParseRequest("GET\r\nHost: x\r\n") == Err(MissingTarget)
  {
    FirstLineUnique("GET\r\nHost: x\r\n", "GET\r");
  }

  /** Without a scheme of its own, a target is cut after the first `://`
      wherever it stands, so a URL in the query string decides the host. */
  lemma SchemeMarkerInQueryExample()
    ensures ParseRequest("GET" + " " + "a.b/x?u=http://c.d" + " HTTP/1.1") == Ok(Authority("c.d", 80))
  {
    assert "a.b/x?u=http" + SchemeMarker + "c.d" == "a.b/x?u=http://c.d";
    assert "c.d" + "" == "c.d";
    assert ' ' !in "a.b/x?u=http://c.d" && '\n' !in "a.b/x?u=http://c.d";
    assert ':' !in "a.b/x?u=http";
    assert ':' !in "c.d" && '/' !in "c.d";
    ParseOf("GET", "a.b/x?u=http://c.d", " HTTP/1.1");
    StripSchemeOf("a.b/x?u=http", "c.d");
    DefaultPortOf("c.d", "");
  }
}
