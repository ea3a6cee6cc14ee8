// The two text-processing steps of the caching web proxy: splitting an
// absolute request URI into hostname, path and port, and rewriting the
// client's header lines into the HTTP/1.0 header block sent upstream.
// C strings are modelled as `string` without their terminating NUL.
module ProxyHttp {

  datatype Option<T> = None | Some(value: T)

  /** The fixed request headers the proxy always sends (proxy.c:23-25). */
  const USER_AGENT_HDR: string := "User-Agent: Mozilla/5.0 (X11; Linux x86_64; rv:10.0.3) Gecko/20120305 Firefox/10.0.3\r\n"
  const ACCEPT_HDR: string := "Accept: text/html,application/xhtml+xml,application/xml;q=0.9,*/*;q=0.8\r\n"
  const ACCEPT_ENCODING_HDR: string := "Accept-Encoding: gzip, deflate\r\n"

  const CRLF: string := "\r\n"
  const SCHEME: string := "http://"
  const DEFAULT_PORT: string := "80"

  // ---------------------------------------------------------------------
  // URI parsing
  // ---------------------------------------------------------------------

  /** The C locale's tolower: only 'A'..'Z' change. */
  function ToLower(c: char): char
  {
    if 'A' <= c <= 'Z' then (c as int - 'A' as int + 'a' as int) as char else c
  }

  predicate SameIgnoringCase(s: string, t: string)
  {
    |s| == |t| && forall i :: 0 <= i < |s| ==> ToLower(s[i]) == ToLower(t[i])
  }

  /** strncasecmp(uri, "http://", 7) == 0; a shorter uri differs at its NUL. */
  predicate HasScheme(uri: string)
  {
    |uri| >= |SCHEME| && SameIgnoringCase(uri[..|SCHEME|], SCHEME)
  }

  /** strchr: the position of the first `c` in `s`, if there is one. */
  function FirstIndex(s: string, c: char): (r: Option<nat>)
    ensures r.None? <==> c !in s
    ensures r.Some? ==> r.value < |s| && s[r.value] == c && c !in s[..r.value]
  {
    if |s| == 0 then None
    else if s[0] == c then Some(0)
    else
      match FirstIndex(s[1..], c)
      case None => None
      case Some(k) =>
        assert s[..k + 1] == [s[0]] + s[1..][..k];
        Some(k + 1)
  }

  /** The result of a successful parse: hostname, path and port text. */
  datatype Uri = Uri(hostname: string, path: string, port: string)

  /** Splits the text after the scheme at its first '/': the host part
      before it and the path from it on, or "/" when there is no '/'. */
  function SplitPath(rest: string): (r: (string, string))
    ensures '/' !in r.0 && r.0 <= rest
    ensures |r.1| > 0 && r.1[0] == '/'
    ensures '/' in rest ==> rest == r.0 + r.1
    ensures '/' !in rest ==> r.0 == rest && r.1 == "/"
  {
    match FirstIndex(rest, '/')
    case Some(k) => (rest[..k], rest[k..])
    case None => (rest, "/")
  }

  /** Splits the host part at its first ':': the hostname before it and the
      port after it, or the whole host part and port "80". */
  function SplitPort(host: string): (r: (string, string))
    ensures ':' !in r.0 && r.0 <= host
    ensures ':' in host ==> host == r.0 + ":" + r.1
    ensures ':' !in host ==> r.0 == host && r.1 == DEFAULT_PORT
  {
    match FirstIndex(host, ':')
    case Some(k) =>
      assert host == host[..k] + ":" + host[k + 1..];
      (host[..k], host[k + 1..])
    case None => (host, DEFAULT_PORT)
  }

  /** parse_uri: None stands for the return value -1, Some for 0 with the
      three output buffers filled in. */
  function ParseUri(uri: string): (r: Option<Uri>)
    ensures r.None? <==> !HasScheme(uri)
    ensures r.Some? ==> '/' !in r.value.hostname && ':' !in r.value.hostname
    ensures r.Some? ==> '/' !in r.value.port
    ensures r.Some? ==> |r.value.path| > 0 && r.value.path[0] == '/'
  {
    if !HasScheme(uri) then None
    else
      var (host, path) := SplitPath(uri[|SCHEME|..]);
      var (hostname, port) := SplitPort(host);
      assert hostname <= host;
      assert ':' in host ==> port == host[|hostname| + 1..];
      Some(Uri(hostname, path, port))
  }

  /** An absolute http URI assembled from a scheme, a hostname, an optional
      port and an optional path. */
  function Render(scheme: string, hostname: string, port: Option<string>, path: Option<string>): string
  {
    scheme + hostname + (if port.Some? then ":" + port.value else "")
      + (if path.Some? then path.value else "")
  }

  /** Two ways of writing a string as a `sep`-free part followed by a part
      that starts with `sep` agree. */
  lemma {:induction false} SplitUnique(a: string, b: string, c: string, d: string, sep: char)
    requires a + b == c + d
    requires sep !in a && sep !in c
    requires |b| > 0 && b[0] == sep && |d| > 0 && d[0] == sep
    ensures a == c && b == d
  {
    var s := a + b;
    assert s[|a|] == sep && s[|c|] == sep;
    assert forall j :: 0 <= j < |a| ==> s[j] == a[j] != sep;
    assert forall j :: 0 <= j < |c| ==> s[j] == c[j] != sep;
    assert |a| == |c|;
    assert a == s[..|a|] == c;
    assert b == s[|a|..] == d;
  }

  /** Parsing a rendered URI gives back its parts, with the defaults "80"
      and "/" for a missing port and path. */
  lemma {:induction false} ParseRender(scheme: string, hostname: string, port: Option<string>, path: Option<string>)
    requires SameIgnoringCase(scheme, SCHEME)
    requires '/' !in hostname && ':' !in hostname
    requires port.Some? ==> '/' !in port.value
    requires path.Some? ==> |path.value| > 0 && path.value[0] == '/'
    ensures ParseUri(Render(scheme, hostname, port, path))
         == Some(Uri(hostname,
                     if path.Some? then path.value else "/",
                     if port.Some? then port.value else DEFAULT_PORT))
  {
    var portText := if port.Some? then ":" + port.value else "";
    var pathText := if path.Some? then path.value else "";
    var uri := Render(scheme, hostname, port, path);
    Concat3(scheme, hostname + portText, pathText);
    Concat3(scheme, hostname, portText);
    assert uri == scheme + ((hostname + portText) + pathText);
    assert uri[..|SCHEME|] == scheme;
    assert uri[|SCHEME|..] == (hostname + portText) + pathText;
    SplitPathOf(hostname + portText, path);
    SplitPortOf(hostname, port);
  }

  /** SplitPath undoes the joining of a '/'-free host part and an optional
      path. */
  lemma {:induction false} SplitPathOf(host: string, path: Option<string>)
    requires '/' !in host
    requires path.Some? ==> |path.value| > 0 && path.value[0] == '/'
    ensures SplitPath(host + (if path.Some? then path.value else ""))
         == (host, if path.Some? then path.value else "/")
  {
    var rest := host + (if path.Some? then path.value else "");
    var sp := SplitPath(rest);
    if path.Some? {
      assert rest[|host|] == '/';
      SplitUnique(sp.0, sp.1, host, path.value, '/');
    } else {
      assert rest == host;
    }
  }

  /** SplitPort undoes the joining of a ':'-free hostname and an optional
      port. */
  lemma {:induction false} SplitPortOf(hostname: string, port: Option<string>)
    requires ':' !in hostname
    ensures SplitPort(hostname + (if port.Some? then ":" + port.value else ""))
         == (hostname, if port.Some? then port.value else DEFAULT_PORT)
  {
    var host := hostname + (if port.Some? then ":" + port.value else "");
    var pp := SplitPort(host);
    if port.Some? {
      assert host[|hostname|] == ':';
      Concat3(pp.0, ":", pp.1);
      SplitUnique(pp.0, ":" + pp.1, hostname, ":" + port.value, ':');
      assert pp.1 == (":" + pp.1)[1..] == (":" + port.value)[1..] == port.value;
    } else {
      assert host == hostname;
    }
  }

  /** Conversely, a URI that parses is the rendering of its parts: the port
      and the path appear in it exactly when it has a ':' in its host part and
      a '/' after the scheme. */
  lemma {:induction false} ParseUriRenders(uri: string)
    requires ParseUri(uri).Some?
    ensures var u := ParseUri(uri).value;
            var rest := uri[|SCHEME|..];
            var host := SplitPath(rest).0;
            uri == Render(uri[..|SCHEME|], u.hostname,
                          if ':' in host then Some(u.port) else None,
                          if '/' in rest then Some(u.path) else None)
  {
    var rest := uri[|SCHEME|..];
    var sp := SplitPath(rest);
    var pp := SplitPort(sp.0);
    assert ParseUri(uri).value == Uri(pp.0, sp.1, pp.1);
    assert uri == uri[..|SCHEME|] + rest;
    RenderPieces(uri, uri[..|SCHEME|], rest, sp.0, sp.1, pp.0, pp.1, ':' in sp.0, '/' in rest);
  }

  /** The concatenation step of ParseUriRenders, on the pieces alone. */
  lemma {:induction false} RenderPieces(uri: string, scheme: string, rest: string, host: string, path: string,
                                        hostname: string, port: string, hasPort: bool, hasPath: bool)
    requires uri == scheme + rest
    requires if hasPath then rest == host + path else rest == host
    requires if hasPort then host == hostname + ":" + port else host == hostname
    ensures uri == Render(scheme, hostname, if hasPort then Some(port) else None, if hasPath then Some(path) else None)
  {
    var portText := if hasPort then ":" + port else "";
    var pathText := if hasPath then path else "";
    if hasPort {
      Concat3(hostname, ":", port);
    }
    assert host == hostname + portText;
    assert rest == host + pathText;
    Concat3(scheme, hostname + portText, pathText);
    Concat3(scheme, hostname, portText);
  }

  /** Concatenation is associative. */
  lemma {:induction false} Concat3(a: string, b: string, c: string)
    ensures a + (b + c) == a + b + c
  {
    assert forall i :: 0 <= i < |a| + |b| + |c| ==> (a + (b + c))[i] == (a + b + c)[i];
  }

  // ---------------------------------------------------------------------
  // Header rewriting
  // ---------------------------------------------------------------------

  /** `t` occurs in `s` starting at position `i`. */
  predicate Occurs(s: string, t: string, i: nat)
  {
    i + |t| <= |s| && s[i..i + |t|] == t
  }

  /** strstr(s, t) != NULL, searching from position `from` on. */
  function Contains(s: string, t: string, from: nat := 0): bool
    decreases |s| - from
  {
    if from + |t| > |s| then false
    else if s[from..from + |t|] == t then true
    else Contains(s, t, from + 1)
  }

  /** The search finds `t` exactly when it occurs at or after `from`. */
  lemma {:induction false} ContainsSpec(s: string, t: string, from: nat)
    ensures Contains(s, t, from) <==> exists i :: from <= i && Occurs(s, t, i)
    decreases |s| - from
  {
    if from + |t| > |s| {
    } else if s[from..from + |t|] == t {
      assert Occurs(s, t, from);
    } else {
      ContainsSpec(s, t, from + 1);
      assert !Occurs(s, t, from);
    }
  }

  /** A slice of a slice is a slice. */
  lemma {:induction false} SliceOfSlice(s: string, a: nat, b: nat, c: nat, d: nat)
    requires a <= b <= |s| && c <= d <= b - a
    ensures s[a..b][c..d] == s[a + c..a + d]
  {
    assert forall m :: 0 <= m < d - c ==> s[a..b][c..d][m] == s[a + c + m];
  }

  /** A string that contains `t` contains every piece of `t`. */
  lemma {:induction false} ContainsPiece(s: string, t: string, k: nat, u: string)
    requires Contains(s, t)
    requires k + |u| <= |t| && t[k..k + |u|] == u
    ensures Contains(s, u)
  {
    ContainsSpec(s, t, 0);
    var i :| 0 <= i && Occurs(s, t, i);
    SliceOfSlice(s, i, i + |t|, k, k + |u|);
    assert Occurs(s, u, i + k);
    ContainsSpec(s, u, 0);
  }

  /** The client lines the proxy replaces with its own (proxy.c:226-228). */
  predicate Dropped(line: string)
  {
    Contains(line, "User-Agent") || Contains(line, "Accept") || Contains(line, "Accept-Encoding")
      || Contains(line, "Connection") || Contains(line, "Proxy-Connection")
  }

  /** Two of the five tests are redundant: "Accept-Encoding" contains
      "Accept" and "Proxy-Connection" contains "Connection". */
  lemma {:induction false} DroppedReduces(line: string)
    ensures Dropped(line)
        <==> Contains(line, "User-Agent") || Contains(line, "Accept") || Contains(line, "Connection")
  {
    if Contains(line, "Accept-Encoding") {
      ContainsPiece(line, "Accept-Encoding", 0, "Accept");
    }
    if Contains(line, "Proxy-Connection") {
      ContainsPiece(line, "Proxy-Connection", 6, "Connection");
    }
  }

  /** The client lines that are forwarded, in their original order. */
  function Kept(lines: seq<string>): seq<string>
  {
    if |lines| == 0 then []
    else
      var last := lines[|lines| - 1];
      Kept(lines[..|lines| - 1]) + (if Dropped(last) then [] else [last])
  }

  /** A line is kept exactly when it is a client line that is not dropped. */
  lemma {:induction false} KeptMembers(lines: seq<string>)
    ensures |Kept(lines)| <= |lines|
    ensures forall l :: l in Kept(lines) <==> l in lines && !Dropped(l)
  {
    if |lines| > 0 {
      var init := lines[..|lines| - 1];
      assert lines == init + [lines[|lines| - 1]];
      KeptMembers(init);
    }
  }

  /** Filtering distributes over concatenation, so the kept lines keep their
      relative order. */
  lemma {:induction false} KeptAppend(a: seq<string>, b: seq<string>)
    ensures Kept(a + b) == Kept(a) + Kept(b)
    decreases |b|
  {
    if |b| == 0 {
      assert a + b == a;
    } else {
      var init := b[..|b| - 1];
      var last := b[|b| - 1];
      assert (a + b)[..|a + b| - 1] == a + init;
      KeptAppend(a, init);
    }
  }

  /** Concatenation of a sequence of lines. */
  function Flatten(ls: seq<string>): string
  {
    if |ls| == 0 then "" else Flatten(ls[..|ls| - 1]) + ls[|ls| - 1]
  }

  lemma {:induction false} FlattenAppend(a: seq<string>, b: seq<string>)
    ensures Flatten(a + b) == Flatten(a) + Flatten(b)
    decreases |b|
  {
    if |b| == 0 {
      assert a + b == a;
    } else {
      assert (a + b)[..|a + b| - 1] == a + b[..|b| - 1];
      FlattenAppend(a, b[..|b| - 1]);
    }
  }

  /** A forwarded line that names a host, which sets has_host (proxy.c:234-237). */
  predicate KeptHost(line: string)
  {
    !Dropped(line) && Contains(line, "Host")
  }

  predicate HostSeen(lines: seq<string>)
  {
    exists k :: 0 <= k < |lines| && KeptHost(lines[k])
  }

  /** The five lines every rewritten block starts with (proxy.c:218-222). */
  function FixedHeaders(): seq<string>
  {
    [USER_AGENT_HDR, ACCEPT_HDR, ACCEPT_ENCODING_HDR, "Connection: close\r\n", "Proxy-Connection: close\r\n"]
  }

  /** The rewritten block as a list of lines: the fixed lines, the kept client
      lines, a Host line when none of those names a host, and the blank line. */
  function HeaderLines(lines: seq<string>, hostname: string): seq<string>
  {
    FixedHeaders() + Kept(lines) + (if HostSeen(lines) then [] else ["Host: " + hostname + CRLF]) + [CRLF]
  }

  /** The block's first five lines are the fixed ones in order, its last line is
      the blank line, and between them come exactly the kept client lines,
      followed by the Host line exactly when no kept line names a host. */
  lemma {:induction false} HeaderLinesShape(lines: seq<string>, hostname: string)
    ensures var h := HeaderLines(lines, hostname);
            var k := |Kept(lines)|;
            h[..5] == FixedHeaders() && h[5..5 + k] == Kept(lines) && h[|h| - 1] == CRLF
            && (|h| == 7 + k <==> !(exists l :: l in Kept(lines) && Contains(l, "Host")))
            && (|h| == 7 + k ==> h[5 + k] == "Host: " + hostname + CRLF)
  {
    KeptMembers(lines);
    if HostSeen(lines) {
      var j :| 0 <= j < |lines| && KeptHost(lines[j]);
      assert lines[j] in Kept(lines);
    } else {
      forall l | l in Kept(lines) ensures !Contains(l, "Host") {
        var j :| 0 <= j < |lines| && lines[j] == l;
        assert !KeptHost(lines[j]);
      }
    }
  }

  /** The text that read_requesthdrs leaves in new_headers for the client
      lines before the blank one. */
  function HeaderBlock(lines: seq<string>, hostname: string): string
  {
    Flatten(HeaderLines(lines, hostname))
  }

  /** The block ends with a blank line. */
  lemma {:induction false} HeaderBlockEnds(lines: seq<string>, hostname: string)
    ensures var b := HeaderBlock(lines, hostname);
            |b| >= 2 && b[|b| - 2..] == CRLF
  {
    var h := HeaderLines(lines, hostname);
    assert h == h[..|h| - 1] + [CRLF];
  }

  /** One more client line extends the kept text by that line unless it is
      dropped. */
  lemma {:induction false} KeptStep(lines: seq<string>, line: string)
    ensures Flatten(Kept(lines + [line])) == Flatten(Kept(lines)) + (if Dropped(line) then "" else line)
  {
    var ext := lines + [line];
    assert ext[..|ext| - 1] == lines;
    var k := Kept(lines);
    if !Dropped(line) {
      assert Kept(ext) == k + [line];
      assert (k + [line])[..|k|] == k;
    } else {
      assert Kept(ext) == k;
    }
  }

  /** One more client line sets has_host exactly when it is kept and names a
      host. */
  lemma {:induction false} HostSeenStep(lines: seq<string>, line: string)
    ensures HostSeen(lines + [line]) == (HostSeen(lines) || KeptHost(line))
  {
    var ext := lines + [line];
    if HostSeen(lines) {
      var j :| 0 <= j < |lines| && KeptHost(lines[j]);
      assert ext[j] == lines[j];
    }
    if KeptHost(line) {
      assert ext[|lines|] == line;
    }
    if HostSeen(ext) {
      var j :| 0 <= j < |ext| && KeptHost(ext[j]);
      if j < |lines| {
        assert lines[j] == ext[j];
      }
    }
  }

  /** read_requesthdrs: reads client lines up to the blank line "\r\n" and
      builds the header block in an initially empty buffer. `consumed` is the
      number of lines read, the blank one included. */
  method ReadRequestHdrs(input: seq<string>, hostname: string) returns (headers: string, consumed: nat)
    requires CRLF in input
    ensures 0 < consumed <= |input| && input[consumed - 1] == CRLF
    ensures CRLF !in input[..consumed - 1]
    ensures headers == HeaderBlock(input[..consumed - 1], hostname)
  {
    headers := "";
    headers := headers + USER_AGENT_HDR;
    headers := headers + ACCEPT_HDR;
    headers := headers + ACCEPT_ENCODING_HDR;
    headers := headers + ("Connection: " + "close\r\n");
    headers := headers + ("Proxy-Connection: " + "close\r\n");
    FixedHeadersText();
    ghost var fixed := headers;
    var hasHost, n;
    headers, hasHost, n := CopyClientLines(headers, input);
    ghost var lines := input[..n];
    ghost var body := headers;
    if !hasHost {
      headers := headers + ("Host: " + hostname + "\r\n");
    }
    ghost var hostText := if HostSeen(lines) then "" else "Host: " + hostname + CRLF;
    assert headers == body + hostText;
    headers := headers + "\r\n";
    consumed := n + 1;
    assert input[..consumed - 1] == lines;
    HeaderBlockText(lines, hostname);
    assert headers == Flatten(FixedHeaders()) + Flatten(Kept(lines)) + hostText + CRLF;
  }

  /** The loop of read_requesthdrs: appends the kept client lines before the
      first blank line to `prefix`, and reports whether one of them names a
      host. `n` is the position of that blank line. */
  method CopyClientLines(prefix: string, input: seq<string>) returns (headers: string, hasHost: bool, n: nat)
    requires CRLF in input
    ensures n < |input| && input[n] == CRLF
    ensures forall k :: 0 <= k < n ==> input[k] != CRLF
    ensures headers == prefix + Flatten(Kept(input[..n]))
    ensures hasHost == HostSeen(input[..n])
  {
    ghost var end :| 0 <= end < |input| && input[end] == CRLF;
    headers := prefix;
    hasHost := false;
    n := 0;
    var buf := input[0];
    assert input[..0] == [];
    while buf != CRLF
      invariant 0 <= n <= end && buf == input[n]
      invariant forall k :: 0 <= k < n ==> input[k] != CRLF
      invariant CopiedUpTo(prefix, input, n, headers, hasHost)
      decreases end - n
    {
      CopyStep(prefix, input, n, headers, hasHost);
      if Dropped(buf) {
        // a header the proxy supplies itself: ignored
      } else if Contains(buf, "Host") {
        headers := headers + buf;
        hasHost := true;
      } else {
        headers := headers + buf;
      }
      n := n + 1;
      buf := input[n];
    }
  }

  /** `headers` and `hasHost` are what the loop of read_requesthdrs holds
      after the first n client lines. */
  predicate CopiedUpTo(prefix: string, input: seq<string>, n: nat, headers: string, hasHost: bool)
    requires n <= |input|
  {
    headers == prefix + Flatten(Kept(input[..n])) && hasHost == HostSeen(input[..n])
  }

  /** One more client line read by the loop of read_requesthdrs: the text
      grows by the line unless it is dropped, and a host is seen once a kept
      line names one. */
  lemma CopyStep(prefix: string, input: seq<string>, n: nat, headers: string, hasHost: bool)
    requires n < |input| && CopiedUpTo(prefix, input, n, headers, hasHost)
    ensures CopiedUpTo(prefix, input, n + 1, headers + (if Dropped(input[n]) then "" else input[n]),
                       hasHost || KeptHost(input[n]))
  {
    Concat3(prefix, Flatten(Kept(input[..n])), input[n]);
    assert input[..n + 1] == input[..n] + [input[n]];
    KeptStep(input[..n], input[n]);
    HostSeenStep(input[..n], input[n]);
  }

  /** The fixed lines, joined, are the text the five strcat/sprintf calls
      produce. */
  lemma {:induction false} FixedHeadersText()
    ensures Flatten(FixedHeaders())
         == "" + USER_AGENT_HDR + ACCEPT_HDR + ACCEPT_ENCODING_HDR
            + ("Connection: " + "close\r\n") + ("Proxy-Connection: " + "close\r\n")
  {
    var f := FixedHeaders();
    assert f[..1][..0] == [];
    assert Flatten(f[..1]) == f[0];
    assert f[..2][..1] == f[..1];
    assert Flatten(f[..2]) == f[0] + f[1];
    assert f[..3][..2] == f[..2];
    assert Flatten(f[..3]) == f[0] + f[1] + f[2];
    assert f[..4][..3] == f[..3];
    assert Flatten(f[..4]) == f[0] + f[1] + f[2] + f[3];
    assert f[..5][..4] == f[..4] && f[..5] == f;
  }

  /** The block, joined, is the fixed text, the kept lines, the optional Host
      line and the blank line. */
  lemma {:induction false} HeaderBlockText(lines: seq<string>, hostname: string)
    ensures HeaderBlock(lines, hostname)
         == Flatten(FixedHeaders()) + Flatten(Kept(lines))
            + (if HostSeen(lines) then "" else "Host: " + hostname + CRLF) + CRLF
  {
    var hostPart: seq<string> := if HostSeen(lines) then [] else ["Host: " + hostname + CRLF];
    FlattenAppend(FixedHeaders(), Kept(lines));
    FlattenAppend(FixedHeaders() + Kept(lines), hostPart);
    FlattenAppend(FixedHeaders() + Kept(lines) + hostPart, [CRLF]);
    assert Flatten([CRLF]) == CRLF by {
      assert [CRLF][..0] == [];
    }
    assert Flatten(hostPart) == (if HostSeen(lines) then "" else "Host: " + hostname + CRLF) by {
      if !HostSeen(lines) {
        assert hostPart[..0] == [];
      }
    }
  }
}
