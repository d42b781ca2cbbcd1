/** The request line: `parse_URI` of Examples/Ver0.1/HttpData.cpp on one line, and on a stream in chunks. */
module HttpRequestLine {
  import opened HttpText

  const PARSE_URI_AGAIN := -1
  const PARSE_URI_ERROR := -2
  const PARSE_URI_SUCCESS := 0
  const METHOD_POST := 1
  const METHOD_GET := 2
  const HTTP_10 := 1
  const HTTP_11 := 2

  /** What the request line sets; a field keeps its value if the parser gives up before it. */
  datatype Fields = Fields(verb: int, fileName: string, version: int)

  function FileName(target: string): string {
    if target == "" then "index.html"
    else
      var q := FindChar(target, '?', 0);
      if q >= 0 then target[..q] else target
  }

  function ParseVersion(line: string, f: Fields, pos: nat): (int, Fields)
    requires pos < |line|
  {
    if |line| - pos <= 3 then (PARSE_URI_ERROR, f)
    else
      var ver := line[pos + 1..pos + 4];
      if ver == "1.0" then (PARSE_URI_SUCCESS, f.(version := HTTP_10))
      else if ver == "1.1" then (PARSE_URI_SUCCESS, f.(version := HTTP_11))
      else (PARSE_URI_ERROR, f)
  }

  /** File name and version, looked for from position `pos` on. */
  function ParseTarget(line: string, f: Fields, pos: nat): (int, Fields) {
    var slash := FindChar(line, '/', pos);
    if slash < 0 then (PARSE_URI_ERROR, f)
    else
      var space := FindChar(line, ' ', slash);
      if space < 0 then (PARSE_URI_ERROR, f)
      else
        var g := f.(fileName := FileName(line[slash + 1..space]));
        var slash2 := FindChar(line, '/', space);
        if slash2 < 0 then (PARSE_URI_ERROR, g) else ParseVersion(line, g, slash2)
  }

  /** The verdict on a request line and the fields after it. */
  function ParseLine(line: string, f: Fields): (r: (int, Fields))
    ensures r.0 == PARSE_URI_SUCCESS || r.0 == PARSE_URI_ERROR
  {
    var get, post := Find(line, "GET", 0), Find(line, "POST", 0);
    if get >= 0 then ParseTarget(line, f.(verb := METHOD_GET), get)
    else if post >= 0 then ParseTarget(line, f.(verb := METHOD_POST), post)
    else (PARSE_URI_ERROR, f)
  }

  // ------------------------------------------------------------ rendered lines

  datatype Target = Target(path: string, query: seq<string>)  // at most one query

  ghost predicate ValidTarget(t: Target) {
    && Free(t.path, {' ', '\r', '?'})
    && |t.query| <= 1 && (t.query != [] ==> Free(t.query[0], {' ', '\r'}))
  }

  function RenderTarget(t: Target): string {
    t.path + (if t.query == [] then "" else "?" + t.query[0])
  }

  function RenderLine(verb: string, t: Target, version: string): string {
    verb + " /" + RenderTarget(t) + " HTTP/" + version
  }

  /** The file name of a target is its path; only the empty target stands for the index. */
  lemma FileNameOf(t: Target)
    requires ValidTarget(t)
    ensures FileName(RenderTarget(t)) == if t.path == "" && t.query == [] then "index.html" else t.path
    ensures Free(RenderTarget(t), {' ', '\r'})
  {
    var s := RenderTarget(t);
    if t.query != [] {
      assert s[|t.path|] == '?' && s[..|t.path|] == t.path;
      FirstChar(s, '?', 0, |t.path|);
    }
  }

  /** A rendered line has the shape that the parser looks for. */
  lemma RenderedIsShaped(verb: string, t: Target, version: string)
    requires ValidTarget(t) && Free(verb, {'/'}) && version in {"1.0", "1.1"}
    ensures Shaped(RenderLine(verb, t, version), 0, verb + " ", RenderTarget(t), "HTTP", version)
  {
    FileNameOf(t);
    hide RenderTarget, FileName;
    var target := RenderTarget(t);
    FreeOfBoth(verb, " ", {'/'});
    Regroup(verb, target, version);
    WholeAt(Parts(verb + " ", target, "HTTP", version));
  }

  lemma Regroup(verb: string, target: string, version: string)
    ensures Parts(verb + " ", target, "HTTP", version) == verb + " /" + target + " HTTP/" + version
  {
    assert " /" == " " + "/" && " HTTP/" == " " + ("HTTP" + "/");
    assert verb + " /" == (verb + " ") + "/";
  }

  lemma WholeAt(s: string)
    ensures At(s, 0, s)
  {
  }

  lemma TargetRoundTrip(verb: string, t: Target, version: string, f: Fields)
    requires ValidTarget(t) && Free(verb, {'/'}) && version in {"1.0", "1.1"}
    ensures ParseTarget(RenderLine(verb, t, version), f, 0) ==
            (PARSE_URI_SUCCESS, f.(fileName := if RenderTarget(t) == "" then "index.html" else t.path,
                                   version := if version == "1.0" then HTTP_10 else HTTP_11))
  {
    FileNameOf(t);
    hide RenderLine, FileName, Shaped, ParseTarget;
    RenderedIsShaped(verb, t, version);
    ShapedTarget(RenderLine(verb, t, version), 0, verb + " ", RenderTarget(t), "HTTP", version, f);
  }

  lemma ParseKeepsVerb(line: string, f: Fields, pos: nat)
    ensures ParseTarget(line, f, pos).1.verb == f.verb
  {
  }

  lemma VerbFirst(verb: string, t: Target, version: string)
    ensures At(RenderLine(verb, t, version), 0, verb)
  {
  }

  lemma NotBefore(s: string, pat: string)
    ensures forall i :: At(s, i, pat) ==> 0 <= i
  {
  }

  /** A rendered GET line parses back to its parts, whatever else it contains. */
  lemma GetRoundTrip(t: Target, version: string, f: Fields)
    requires ValidTarget(t) && version in {"1.0", "1.1"}
    ensures ParseLine(RenderLine("GET", t, version), f) ==
            (PARSE_URI_SUCCESS, Fields(METHOD_GET, if RenderTarget(t) == "" then "index.html" else t.path,
                                       if version == "1.0" then HTTP_10 else HTTP_11))
  {
    hide RenderLine, ParseTarget;
    VerbFirst("GET", t, version);
    TargetRoundTrip("GET", t, version, f.(verb := METHOD_GET));
  }

  /** A rendered POST line parses as POST exactly if "GET" occurs nowhere in it, and then parses back to its parts. */
  lemma PostRoundTrip(t: Target, version: string, f: Fields)
    requires ValidTarget(t) && version in {"1.0", "1.1"}
    ensures var line := RenderLine("POST", t, version);
            var (flag, g) := ParseLine(line, f);
            && (g.verb == METHOD_POST <==> !exists i :: At(line, i, "GET"))
            && (g.verb == METHOD_POST ==>
                  flag == PARSE_URI_SUCCESS && g.fileName == (if RenderTarget(t) == "" then "index.html" else t.path)
                  && g.version == if version == "1.0" then HTTP_10 else HTTP_11)
  {
    hide RenderLine, ParseTarget, At;
    var line := RenderLine("POST", t, version);
    VerbFirst("POST", t, version);
    TargetRoundTrip("POST", t, version, f.(verb := METHOD_POST));
    var get := Find(line, "GET", 0);
    if get >= 0 {
      ParseKeepsVerb(line, f.(verb := METHOD_GET), get);
      assert At(line, get, "GET");
    } else {
      assert forall i :: At(line, i, "GET") ==> i < 0;
      NotBefore(line, "GET");
      assert Find(line, "POST", 0) == 0;
    }
  }

  /** "POST /GET HTTP/1.1" is taken for a GET line, and then refused. */
  lemma PostForAFileNamedGet(f: Fields)
    ensures var line := RenderLine("POST", Target("GET", []), "1.1");
            ParseLine(line, f) == (PARSE_URI_ERROR, f.(verb := METHOD_GET))
  {
    hide ParseLine;
    assert RenderLine("POST", Target("GET", []), "1.1") == "POST /GET HTTP/1.1";
    GetInThePath(f);
  }

  lemma GetInThePath(f: Fields)
    ensures ParseLine("POST /GET HTTP/1.1", f) == (PARSE_URI_ERROR, f.(verb := METHOD_GET))
  {
    hide Find, FindChar, At;
    var line := "POST /GET HTTP/1.1";
    FirstGet();
    FirstChar(line, '/', 6, 14);
    assert FindChar(line, ' ', 14) == -1;
  }

  lemma FirstGet()
    ensures Find("POST /GET HTTP/1.1", "GET", 0) == 6
  {
    var line := "POST /GET HTTP/1.1";
    assert At(line, 6, "GET");
    forall i | 0 <= i < 6 ensures !At(line, i, "GET") {
      if At(line, i, "GET") {
        CharAt(line, i, "GET", 0);
        assert false;
      }
    }
  }

  lemma LineIsClean(verb: string, t: Target, version: string)
    requires ValidTarget(t) && version in {"1.0", "1.1"} && verb in {"GET", "POST"}
    ensures Free(RenderLine(verb, t, version), {'\r'})
  {
    hide RenderTarget, FileName;
    FileNameOf(t);
    var target := RenderTarget(t);
    FreeOfBoth(verb, " /", {'\r'});
    FreeOfBoth(verb + " /", target, {'\r'});
    FreeOfBoth(verb + " /" + target, " HTTP/", {'\r'});
    FreeOfBoth(verb + " /" + target + " HTTP/", version, {'\r'});
  }

  // ------------------------------------------------- which lines are accepted

  ghost predicate FirstAt(line: string, p: int, pat: string) {
    At(line, p, pat) && forall i :: At(line, i, pat) ==> p <= i
  }

  /** The verb of a line: the first "GET", or if there is none the first "POST". */
  ghost predicate VerbAt(line: string, p: nat, verb: int) {
    || (verb == METHOD_GET && FirstAt(line, p, "GET"))
    || (verb == METHOD_POST && FirstAt(line, p, "POST") && forall i :: !At(line, i, "GET"))
  }

  /** From the verb on: anything, a slash, the target, a space, anything, a slash, the version. */
  function Parts(u: string, v: string, w: string, ver: string): string {
    u + ("/" + (v + (" " + (w + ("/" + ver)))))
  }

  ghost predicate Shaped(line: string, p: nat, u: string, v: string, w: string, ver: string) {
    && Free(u, {'/'}) && Free(v, {' '}) && Free(w, {'/'}) && ver in {"1.0", "1.1"}
    && At(line, p, Parts(u, v, w, ver))
  }

  lemma FindFirst(line: string, pat: string)
    ensures var r := Find(line, pat, 0); if r >= 0 then FirstAt(line, r, pat) else forall i :: !At(line, i, pat)
  {
    hide At, Find;
    NotBefore(line, pat);
  }

  lemma FreeChars(line: string, i: nat, part: string, cs: set<char>)
    requires At(line, i, part) && Free(part, cs)
    ensures forall k :: i <= k < i + |part| ==> line[k] !in cs
  {
    forall k | i <= k < i + |part| ensures line[k] !in cs {
      CharAt(line, i, part, k - i);
    }
  }

  lemma ShapedLayout(line: string, p: nat, u: string, v: string, w: string, ver: string)
    requires At(line, p, Parts(u, v, w, ver))
    ensures var slash := p + |u|;
            var space := slash + 1 + |v|;
            var slash2 := space + 1 + |w|;
            && At(line, p, u) && At(line, slash, "/") && At(line, slash + 1, v) && At(line, space, " ")
            && At(line, space + 1, w) && At(line, slash2, "/") && At(line, slash2 + 1, ver)
  {
    hide At;
    var slash := p + |u|;
    var space := slash + 1 + |v|;
    var slash2 := space + 1 + |w|;
    AtSplit(line, p, u, "/" + (v + (" " + (w + ("/" + ver)))));
    AtSplit(line, slash, "/", v + (" " + (w + ("/" + ver))));
    AtSplit(line, slash + 1, v, " " + (w + ("/" + ver)));
    AtSplit(line, space, " ", w + ("/" + ver));
    AtSplit(line, space + 1, w, "/" + ver);
    AtSplit(line, slash2, "/", ver);
  }

  lemma FoundBehind(line: string, i: nat, part: string, c: char)
    requires At(line, i, part) && Free(part, {c}) && At(line, i + |part|, [c])
    ensures i <= |line| && FindChar(line, c, i) == i + |part|
    ensures i > 0 && line[i - 1] != c ==> FindChar(line, c, i - 1) == i + |part|
  {
    FreeChars(line, i, part, {c});
    CharAt(line, i + |part|, [c], 0);
    hide FindChar, Free;
    FirstChar(line, c, i, i + |part|);
    if i > 0 && line[i - 1] != c {
      FirstChar(line, c, i - 1, i + |part|);
    }
  }

  lemma ShapedSearches(line: string, p: nat, u: string, v: string, w: string, ver: string)
    requires Shaped(line, p, u, v, w, ver)
    ensures var slash := p + |u|;
            var space := slash + 1 + |v|;
            && FindChar(line, '/', p) == slash && FindChar(line, ' ', slash) == space
            && FindChar(line, '/', space) == space + 1 + |w|
  {
    hide FindChar, Free, Parts, At;
    ShapedLayout(line, p, u, v, w, ver);
    FoundBehind(line, p, u, '/');
    FoundNext(line, p + |u|, v, '/', ' ');
    FoundNext(line, p + |u| + 1 + |v|, w, ' ', '/');
  }

  lemma FoundNext(line: string, i: nat, part: string, d: char, c: char)
    requires At(line, i, [d]) && At(line, i + 1, part) && Free(part, {c}) && At(line, i + 1 + |part|, [c]) && c != d
    ensures FindChar(line, c, i) == i + 1 + |part|
  {
    CharAt(line, i, [d], 0);
    AtBounds(line, i, [d]);
    hide At, Free, FindChar;
    FoundBehind(line, i + 1, part, c);
  }

  lemma AtBounds(line: string, i: int, part: string)
    requires At(line, i, part)
    ensures 0 <= i && i + |part| <= |line|
  {
  }

  lemma TargetBy(line: string, f: Fields, p: nat, v: string, ver: string)
    requires var slash := FindChar(line, '/', p);
             slash >= 0 &&
             var space := FindChar(line, ' ', slash);
             space >= 0 && line[slash + 1..space] == v &&
             var slash2 := FindChar(line, '/', space);
             slash2 >= 0 && slash2 + 4 <= |line| && line[slash2 + 1..slash2 + 4] == ver
    requires ver in {"1.0", "1.1"}
    ensures ParseTarget(line, f, p) ==
            (PARSE_URI_SUCCESS, f.(fileName := FileName(v), version := if ver == "1.0" then HTTP_10 else HTTP_11))
  {
    hide FindChar, FileName;
  }

  lemma ShapedSlices(line: string, p: nat, u: string, v: string, w: string, ver: string)
    requires Shaped(line, p, u, v, w, ver)
    ensures var slash := p + |u|;
            var space := slash + 1 + |v|;
            var slash2 := space + 1 + |w|;
            && slash2 + 4 <= |line| && line[slash + 1..space] == v && line[slash2 + 1..slash2 + 4] == ver
  {
    ShapedLayout(line, p, u, v, w, ver);
    hide At, Free, Parts, Shaped;
    PartIs(line, p + |u| + 1, v);
    PartIs(line, p + |u| + 1 + |v| + 1 + |w| + 1, ver);
  }

  lemma ShapedTarget(line: string, p: nat, u: string, v: string, w: string, ver: string, f: Fields)
    requires Shaped(line, p, u, v, w, ver)
    ensures ParseTarget(line, f, p) ==
            (PARSE_URI_SUCCESS, f.(fileName := FileName(v), version := if ver == "1.0" then HTTP_10 else HTTP_11))
  {
    hide FindChar, FileName, Shaped, ParseTarget;
    VersionOf(line, p, u, v, w, ver);
    ShapedSearches(line, p, u, v, w, ver);
    ShapedSlices(line, p, u, v, w, ver);
    TargetBy(line, f, p, v, ver);
  }

  lemma VersionOf(line: string, p: nat, u: string, v: string, w: string, ver: string)
    requires Shaped(line, p, u, v, w, ver)
    ensures ver in {"1.0", "1.1"}
  {
  }

  lemma PartIs(line: string, i: nat, part: string)
    requires At(line, i, part)
    ensures i + |part| <= |line| && line[i..i + |part|] == part
  {
  }

  /** A line of that shape is accepted, and says what its parts say. */
  lemma ShapedIsAccepted(line: string, f: Fields, p: nat, verb: int, u: string, v: string, w: string, ver: string)
    requires VerbAt(line, p, verb) && Shaped(line, p, u, v, w, ver)
    ensures ParseLine(line, f) ==
            (PARSE_URI_SUCCESS, Fields(verb, FileName(v), if ver == "1.0" then HTTP_10 else HTTP_11))
  {
    hide At, Find, ParseTarget, FileName, Shaped;
    FindFirst(line, "GET");
    FindFirst(line, "POST");
    ShapedTarget(line, p, u, v, w, ver, f.(verb := verb));
  }

  lemma AcceptedTarget(line: string, f: Fields, p: nat) returns (u: string, v: string, w: string, ver: string)
    requires ParseTarget(line, f, p).0 == PARSE_URI_SUCCESS
    ensures Shaped(line, p, u, v, w, ver)
  {
    hide FindChar, FileName;
    var slash := FindChar(line, '/', p);
    var space := FindChar(line, ' ', slash);
    var slash2 := FindChar(line, '/', space);
    PassedOver(line, '/', p);
    PassedOver(line, ' ', slash);
    PassedOver(line, '/', space);
    u, v, w, ver := line[p..slash], line[slash + 1..space], line[space + 1..slash2], line[slash2 + 1..slash2 + 4];
    hide Free;
    Slices(line, p, slash, space, slash2);
  }

  lemma Slices(line: string, p: nat, slash: nat, space: nat, slash2: nat)
    requires p <= slash < space < slash2 && slash2 + 4 <= |line|
    requires line[slash] == '/' && line[space] == ' ' && line[slash2] == '/'
    ensures Parts(line[p..slash], line[slash + 1..space], line[space + 1..slash2], line[slash2 + 1..slash2 + 4])
            == line[p..slash2 + 4]
  {
    var end := slash2 + 4;
    var ver := line[slash2 + 1..end];
    var w := Glue(line, space + 1, slash2, end, '/', ver);
    var v := Glue(line, slash + 1, space, end, ' ', w);
    var u := Glue(line, p, slash, end, '/', v);
  }

  lemma Glue(line: string, a: nat, b: nat, c: nat, d: char, rest: string) returns (whole: string)
    requires a <= b < c <= |line| && line[b] == d && line[b + 1..c] == rest
    ensures whole == line[a..b] + ([d] + rest) == line[a..c]
  {
    whole := line[a..c];
    assert [d] + rest == line[b..c];
  }

  /** No other line is accepted: without a verb, a slash, a space or one of the two versions it is an error. */
  lemma LineAcceptedExactly(line: string, f: Fields)
    ensures ParseLine(line, f).0 == PARSE_URI_SUCCESS
            <==> exists p: nat, verb, u, v, w, ver :: VerbAt(line, p, verb) && Shaped(line, p, u, v, w, ver)
    ensures (forall i :: !At(line, i, "GET") && !At(line, i, "POST")) ==> ParseLine(line, f) == (PARSE_URI_ERROR, f)
  {
    hide At, Find, ParseTarget, Shaped;
    FindFirst(line, "GET");
    FindFirst(line, "POST");
    if ParseLine(line, f).0 == PARSE_URI_SUCCESS {
      var get := Find(line, "GET", 0);
      var p, verb := if get >= 0 then get else Find(line, "POST", 0), if get >= 0 then METHOD_GET else METHOD_POST;
      assert VerbAt(line, p, verb);
      var u, v, w, ver := AcceptedTarget(line, f.(verb := verb), p);
    }
    if p: nat, verb, u, v, w, ver :| VerbAt(line, p, verb) && Shaped(line, p, u, v, w, ver) {
      ShapedIsAccepted(line, f, p, verb, u, v, w, ver);
    }
  }

  // ------------------------------------------------------------------- chunks

  function Flatten(chunks: seq<string>): string {
    if chunks == [] then "" else chunks[0] + Flatten(chunks[1..])
  }

  /** The outcome of feeding chunks: verdict, fields, what is left of the content, chunks not yet read. */
  datatype Fed = Fed(flag: int, fields: Fields, content: string, unread: seq<string>)

  /** `handleRequest` in its first state: append what was read, try the request line, stop at the first verdict. */
  function Feed(content: string, chunks: seq<string>, f: Fields): Fed
    decreases |chunks|
  {
    if chunks == [] then Fed(PARSE_URI_AGAIN, f, content, [])
    else
      var str := content + chunks[0];
      var pos := FindChar(str, '\r', 0);
      if pos < 0 then Feed(str, chunks[1..], f)
      else
        var (flag, g) := ParseLine(str[..pos], f);
        Fed(flag, g, str[pos + 1..], chunks[1..])
  }

  /** What feeding comes to depends on the whole stream only. */
  lemma {:induction false} FeedIsOfTheStream(content: string, chunks: seq<string>, f: Fields)
    requires FindChar(content, '\r', 0) < 0
    ensures var total := content + Flatten(chunks);
            var pos := FindChar(total, '\r', 0);
            var r := Feed(content, chunks, f);
            && r.content + Flatten(r.unread) == (if pos < 0 then total else total[pos + 1..])
            && (r.flag, r.fields) == (if pos < 0 then (PARSE_URI_AGAIN, f) else ParseLine(total[..pos], f))
    decreases |chunks|
  {
    hide FindChar, ParseLine;
    var total := content + Flatten(chunks);
    if chunks == [] {
      assert total == content;
    } else {
      var str := content + chunks[0];
      assert total == str + Flatten(chunks[1..]);
      if FindChar(str, '\r', 0) < 0 {
        FeedIsOfTheStream(str, chunks[1..], f);
        assert Feed(content, chunks, f) == Feed(str, chunks[1..], f);
      } else {
        LineIsOfTheStream(str, Flatten(chunks[1..]));
      }
    }
  }

  /** The first line of a string is not changed by what follows. */
  lemma LineIsOfTheStream(str: string, rest: string)
    requires FindChar(str, '\r', 0) >= 0
    ensures var pos := FindChar(str, '\r', 0);
            && FindChar(str + rest, '\r', 0) == pos
            && (str + rest)[..pos] == str[..pos] && (str + rest)[pos + 1..] == str[pos + 1..] + rest
  {
    hide FindChar;
    var pos := FindChar(str, '\r', 0);
    PassedOver(str, '\r', 0);
    FirstChar(str + rest, '\r', 0, pos);
  }

  /** Any two ways of cutting the stream into chunks give the same verdict, fields and remaining bytes. */
  lemma ChunkingIsIrrelevant(content: string, cs: seq<string>, ds: seq<string>, f: Fields)
    requires FindChar(content, '\r', 0) < 0 && Flatten(cs) == Flatten(ds)
    ensures var a, b := Feed(content, cs, f), Feed(content, ds, f);
            a.flag == b.flag && a.fields == b.fields && a.content + Flatten(a.unread) == b.content + Flatten(b.unread)
  {
    FeedIsOfTheStream(content, cs, f);
    FeedIsOfTheStream(content, ds, f);
  }
}
