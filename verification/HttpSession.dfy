/** `handleRequest` of Examples/Ver0.1/HttpData.cpp up to the end of the headers, on a stream that comes in chunks. */
module HttpSession {
  import opened HttpText
  import L = HttpRequestLine
  import H = HttpHeaders

  const STATE_PARSE_URI := 1
  const STATE_PARSE_HEADERS := 2
  const STATE_RECV_BODY := 3
  const STATE_ANALYSIS := 4

  /** What the request keeps from one chunk to the next. */
  datatype Session = Session(state: int, fields: L.Fields, h: H.HState, headers: map<string, string>, content: string)

  /** `Again` leaves the loop until more arrives; `Undefined` is a header call that would step outside the content. */
  datatype Progress = Again | Error | Undefined | HeadersDone

  datatype Received = Received(progress: Progress, session: Session, unread: seq<string>)

  predicate Reading(s: Session) {
    s.state == STATE_PARSE_URI || s.state == STATE_PARSE_HEADERS
  }

  function HeaderPass(s: Session): (r: (Session, Progress))
    ensures r.1.Again? ==> r.0.state == s.state
  {
    var r := H.ParseHeaders(s.content, s.h, s.headers);
    var t := s.(h := r.h, headers := r.headers, content := r.content);
    if !r.defined then (t, Undefined)
    else if r.flag == H.PARSE_HEADER_AGAIN then (t, Again)
    else if r.flag == H.PARSE_HEADER_ERROR then (t, Error)
    else (t.(state := if t.fields.verb == L.METHOD_POST then STATE_RECV_BODY else STATE_ANALYSIS), HeadersDone)
  }

  /** One pass of the loop: append what was read, try the request line, and once it is known the headers. */
  function Pass(s: Session, input: string): (r: (Session, Progress))
    requires Reading(s)
    ensures r.1.Again? ==> Reading(r.0)
  {
    var str := s.content + input;
    if s.state == STATE_PARSE_HEADERS then HeaderPass(s.(content := str))
    else
      var pos := FindChar(str, '\r', 0);
      if pos < 0 then (s.(content := str), Again)
      else
        var (flag, g) := L.ParseLine(str[..pos], s.fields);
        var t := s.(fields := g, content := str[pos + 1..]);
        if flag != L.PARSE_URI_SUCCESS then (t, Error) else HeaderPass(t.(state := STATE_PARSE_HEADERS))
  }

  /** Passes over the chunks until the headers are done or an error ends the request. */
  function Receive(s: Session, chunks: seq<string>): Received
    requires Reading(s)
    decreases |chunks|
  {
    if chunks == [] then Received(Again, s, [])
    else
      var (t, p) := Pass(s, chunks[0]);
      if p.Again? then Receive(t, chunks[1..]) else Received(p, t, chunks[1..])
  }

  // ---------------------------------------------------------- the request line

  /** In its first state the loop feeds the request line; the headers start with what the last chunk holds behind it. */
  lemma {:induction false} ReceiveFeedsTheLine(s: Session, chunks: seq<string>)
    requires s.state == STATE_PARSE_URI
    ensures var fed := L.Feed(s.content, chunks, s.fields);
            var r := Receive(s, chunks);
            if fed.flag == L.PARSE_URI_AGAIN then r == Received(Again, s.(content := fed.content), [])
            else if fed.flag == L.PARSE_URI_SUCCESS then
              r == Receive(Session(STATE_PARSE_HEADERS, fed.fields, s.h, s.headers, ""), [fed.content] + fed.unread)
            else r == Received(Error, s.(fields := fed.fields, content := fed.content), fed.unread)
    decreases |chunks|
  {
    hide FindChar, L.ParseTarget, HeaderPass;
    if chunks != [] {
      var str := s.content + chunks[0];
      var pos := FindChar(str, '\r', 0);
      if pos < 0 {
        ReceiveFeedsTheLine(s.(content := str), chunks[1..]);
      } else {
        var (flag, g) := L.ParseLine(str[..pos], s.fields);
        assert "" + str[pos + 1..] == str[pos + 1..];
        assert ([str[pos + 1..]] + chunks[1..])[1..] == chunks[1..];
      }
    }
  }

  /** Some chunk ends after `lo` to `hi` characters of the stream. */
  ghost predicate EndsWithin(chunks: seq<string>, lo: int, hi: int) {
    chunks != [] && (lo <= |chunks[0]| <= hi || EndsWithin(chunks[1..], lo - |chunks[0]|, hi - |chunks[0]|))
  }

  lemma {:induction false} NoEndBefore(chunks: seq<string>, lo: int, hi: int)
    requires hi < 0
    ensures !EndsWithin(chunks, lo, hi)
  {
    if chunks != [] {
      NoEndBefore(chunks[1..], lo - |chunks[0]|, hi - |chunks[0]|);
    }
  }

  lemma EndsCons(c: string, cs: seq<string>, lo: int, hi: int)
    ensures EndsWithin([c] + cs, lo, hi) <==> lo <= |c| <= hi || EndsWithin(cs, lo - |c|, hi - |c|)
  {
    assert ([c] + cs)[1..] == cs;
  }

  lemma FlattenCons(content: string, chunks: seq<string>)
    ensures if chunks == [] then content + L.Flatten(chunks) == content
            else content + L.Flatten(chunks) == (content + chunks[0]) + L.Flatten(chunks[1..])
  {
  }

  lemma FeedGoesOn(content: string, chunks: seq<string>, f: L.Fields)
    requires chunks != [] && FindChar(content + chunks[0], '\r', 0) < 0
    ensures L.Feed(content, chunks, f) == L.Feed(content + chunks[0], chunks[1..], f)
  {
    hide FindChar, L.ParseLine;
  }

  lemma FeedStopsHere(content: string, chunks: seq<string>, f: L.Fields)
    requires chunks != [] && FindChar(content + chunks[0], '\r', 0) >= 0
    ensures var str, fed := content + chunks[0], L.Feed(content, chunks, f);
            fed.content == str[FindChar(str, '\r', 0) + 1..] && fed.unread == chunks[1..]
  {
    hide FindChar, L.ParseLine;
  }

  lemma LineIsLonger(str: string, tail: string)
    requires FindChar(str, '\r', 0) < 0 <= FindChar(str + tail, '\r', 0)
    ensures FindChar(str + tail, '\r', 0) >= |str|
  {
    hide FindChar;
    PassedOver(str, '\r', 0);
  }

  /** Chunk ends behind the line are the ends of what the header calls are given. */
  lemma {:induction false} EndsBehindLine(content: string, chunks: seq<string>, f: L.Fields, n: nat, lo: nat, hi: int)
    requires FindChar(content, '\r', 0) < 0 && FindChar(content + L.Flatten(chunks), '\r', 0) == n
    ensures var fed := L.Feed(content, chunks, f);
            EndsWithin([fed.content] + fed.unread, lo, hi)
            <==> EndsWithin(chunks, n + 1 + lo - |content|, n + 1 + hi - |content|)
    decreases |chunks|
  {
    hide FindChar, L.Feed, L.Flatten, EndsWithin;
    FlattenCons(content, chunks);
    if chunks != [] {
      var str, tail := content + chunks[0], L.Flatten(chunks[1..]);
      assert chunks == [chunks[0]] + chunks[1..];
      EndsCons(chunks[0], chunks[1..], n + 1 + lo - |content|, n + 1 + hi - |content|);
      if FindChar(str, '\r', 0) < 0 {
        LineIsLonger(str, tail);
        FeedGoesOn(content, chunks, f);
        EndsBehindLine(str, chunks[1..], f, n, lo, hi);
      } else {
        L.LineIsOfTheStream(str, tail);
        FeedStopsHere(content, chunks, f);
        var fed := L.Feed(content, chunks, f);
        EndsCons(fed.content, fed.unread, lo, hi);
      }
    }
  }

  // ------------------------------------------------ headers that are not cut

  /** The headers are done, with these fields, this map, this state, and just the body not yet taken. */
  ghost predicate Correct(r: Received, fields: L.Fields, state: int, headers: map<string, string>, body: string) {
    && r.progress.HeadersDone? && r.session.fields == fields && r.session.state == state
    && r.session.headers == headers
    && r.session.content + L.Flatten(r.unread) == body
  }

  /** A body is expected of a POST request only; any other is answered at once. */
  function NextState(s: Session): int {
    if s.fields.verb == L.METHOD_POST then STATE_RECV_BODY else STATE_ANALYSIS
  }

  /** Where the first header call starts. */
  ghost predicate AtHeaders(s: Session) {
    s.state == STATE_PARSE_HEADERS && s.h == H.Start && s.headers == map[] && |s.content| <= 1
  }

  lemma BlankContent(content: string)
    requires content == "" || content == "\n"
    ensures H.ParseHeaders(content, H.Start, map[]) == H.Outcome(true, H.PARSE_HEADER_AGAIN, H.Start, map[], content)
  {
    if content == "\n" {
      H.OneChar(content, 0, H.Begin(H.Start, map[]));
    }
  }

  /** A chunk that ends before the first header changes nothing. */
  lemma ShortChunk(s: Session, chunks: seq<string>, rest: string)
    requires AtHeaders(s) && chunks != [] && |s.content + chunks[0]| <= 1
    requires rest != "" && rest[0] == '\n' && s.content + L.Flatten(chunks) == rest
    ensures var t := s.(content := s.content + chunks[0]);
            AtHeaders(t) && Receive(s, chunks) == Receive(t, chunks[1..]) && t.content + L.Flatten(chunks[1..]) == rest
  {
    hide H.ParseHeaders, L.Flatten, EndsWithin;
    var str := s.content + chunks[0];
    FlattenCons(s.content, chunks);
    BlankStart(str, L.Flatten(chunks[1..]));
    BlankContent(str);
  }

  lemma BlankStart(str: string, tail: string)
    requires |str| <= 1 && str + tail != "" && (str + tail)[0] == '\n'
    ensures str == "" || str == "\n"
  {
    if str != "" {
      assert str[0] == (str + tail)[0];
    }
  }

  /** If no chunk ends inside the headers, the first call that sees one sees them all. */
  lemma {:induction false} UncutHeaders(s: Session, chunks: seq<string>, xs: seq<H.Header>, body: string)
    requires AtHeaders(s) && H.ValidHeaders(xs) && xs != []
    requires s.content + L.Flatten(chunks) == H.RenderRest(xs, body)
    requires !EndsWithin(chunks, 2 - |s.content|, |H.RenderAll(xs)| + 3 - |s.content|)
    ensures var r := Receive(s, chunks);
            if H.Short(xs) then Correct(r, s.fields, NextState(s), H.MapOf(xs, map[]), body) else r.progress.Error?
    decreases |chunks|
  {
    hide Receive, Correct, L.Flatten, H.RenderRest, H.RenderAll, H.MapOf, H.Short, H.ValidHeaders;
    var rest := H.RenderRest(xs, body);
    FlattenCons(s.content, chunks);
    FirstHeaderChar(xs, body);
    assert chunks != [];
    var str := s.content + chunks[0];
    if |str| <= 1 {
      ShortChunk(s, chunks, rest);
      UncutHeaders(s.(content := str), chunks[1..], xs, body);
    } else {
      WholeHeaders(s, chunks, xs, body);
    }
  }

  lemma WholeHeaders(s: Session, chunks: seq<string>, xs: seq<H.Header>, body: string)
    requires AtHeaders(s) && H.ValidHeaders(xs) && xs != [] && chunks != []
    requires s.content + L.Flatten(chunks) == H.RenderRest(xs, body)
    requires |s.content + chunks[0]| > |H.RenderAll(xs)| + 3
    ensures var r := Receive(s, chunks);
            if H.Short(xs) then Correct(r, s.fields, NextState(s), H.MapOf(xs, map[]), body) else r.progress.Error?
  {
    hide H.ParseHeaders, H.RenderAll, H.MapOf, H.Short;
    var str, tail := s.content + chunks[0], L.Flatten(chunks[1..]);
    assert H.RenderRest(xs, body) == str + tail;
    var got := TakeBody(str, tail, H.RenderAll(xs), body);
    H.HeadersRoundTrip(xs, got, map[]);
  }

  lemma TakeBody(str: string, tail: string, headers: string, body: string) returns (got: string)
    requires str + tail == "\n" + (headers + ("\r\n" + body)) && |str| > |headers| + 3
    ensures got != "" && got + tail == body && str == "\n" + (headers + ("\r\n" + got))
  {
    var front := "\n" + headers + "\r\n";
    got := str[|front|..];
    assert str + tail == front + body;
    assert front == (front + body)[..|front|] == (str + tail)[..|front|] == str[..|front|];
    assert got + tail == (str + tail)[|front|..] == (front + body)[|front|..] == body;
    assert str == front + got;
  }

  // ---------------------------------------------------- headers that are cut

  ghost predicate Inside(h: H.HState) {
    h in {H.Key, H.Colon, H.SpacesAfterColon, H.Value, H.CR}
  }

  ghost predicate HasNewlineKey(headers: map<string, string>) {
    exists k :: k in headers && '\n' in k
  }

  /** A call resumed inside a header has lost its key, and cannot end the header. */
  lemma {:induction false} LostKey(str: string, i: nat, s: H.Scan)
    requires i <= |str| && s.lineBegin <= i && Inside(s.h) && s.keyStart == -1
    ensures var (t, v) := H.ScanFrom(str, i, s); v.Fail? || v.Undefined? || (v.Continue? && Inside(t.h))
    decreases |str| - i
  {
    if i < |str| && H.ScanChar(str, i, s).1.Continue? {
      LostKey(str, i + 1, H.ScanChar(str, i, s).0);
    }
  }

  lemma {:induction false} InsideForever(s: Session, chunks: seq<string>)
    requires s.state == STATE_PARSE_HEADERS && Inside(s.h)
    ensures !Receive(s, chunks).progress.HeadersDone?
    decreases |chunks|
  {
    hide H.ScanFrom;
    if chunks != [] {
      LostKey(s.content + chunks[0], 0, H.Begin(s.h, s.headers));
      var (t, p) := Pass(s, chunks[0]);
      if p.Again? {
        InsideForever(t, chunks[1..]);
      }
    }
  }

  /** The map only gains keys; a header that ended between two calls leaves a line feed in front of the next key. */
  lemma {:induction false} KeysStay(str: string, i: nat, s: H.Scan)
    requires i <= |str| && s.lineBegin <= i
    ensures s.headers.Keys <= H.ScanFrom(str, i, s).0.headers.Keys
    decreases |str| - i
  {
    if i < |str| {
      OneCharKeeps(str, i, s);
      hide H.ScanChar;
      if H.ScanChar(str, i, s).1.Continue? {
        KeysStay(str, i + 1, H.ScanChar(str, i, s).0);
      }
    }
  }

  lemma OneCharKeeps(str: string, i: nat, s: H.Scan)
    requires i < |str| && s.lineBegin <= i
    ensures s.headers.Keys <= H.ScanChar(str, i, s).0.headers.Keys
  {
  }

  lemma {:induction false} KeysStayForever(s: Session, chunks: seq<string>)
    requires s.state == STATE_PARSE_HEADERS
    ensures s.headers.Keys <= Receive(s, chunks).session.headers.Keys
    decreases |chunks|
  {
    hide H.ScanFrom;
    if chunks != [] {
      KeysStay(s.content + chunks[0], 0, H.Begin(s.h, s.headers));
      var (t, p) := Pass(s, chunks[0]);
      if p.Again? {
        KeysStayForever(t, chunks[1..]);
      }
    }
  }

  lemma {:induction false} KeyFromLineFeed(str: string, i: nat, s: H.Scan)
    requires 0 < i <= |str| && s.lineBegin <= i && str[0] == '\n'
    requires Inside(s.h) && s.keyStart == 0 && (!s.h.Key? ==> s.keyEnd > 0)
    ensures var (t, v) := H.ScanFrom(str, i, s);
            v.Fail? || v.Undefined? || (v.Continue? && Inside(t.h)) || HasNewlineKey(t.headers)
    decreases |str| - i
  {
    if i < |str| {
      var (t, v) := H.ScanChar(str, i, s);
      if v.Continue? && Inside(t.h) {
        KeyFromLineFeed(str, i + 1, t);
      } else if v.Continue? {
        var key := str[..s.keyEnd];
        assert key[0] == '\n' && key in t.headers;
        KeysStay(str, i + 1, t);
      }
    }
  }

  /** A cut right behind a header spoils the next key. */
  lemma CutBetweenHeaders(s: Session, chunks: seq<string>)
    requires s.state == STATE_PARSE_HEADERS && s.h.LF? && s.content == "\n"
    ensures var r := Receive(s, chunks); r.progress.HeadersDone? ==> HasNewlineKey(r.session.headers)
  {
    hide H.ScanFrom;
    if chunks != [] {
      var str := s.content + chunks[0];
      var s0 := H.Begin(s.h, s.headers);
      H.OneChar(str, 0, s0);
      KeyFromLineFeed(str, 1, H.ScanChar(str, 0, s0).0);
      var (t, p) := Pass(s, chunks[0]);
      if p.Again? {
        if Inside(t.h) {
          InsideForever(t, chunks[1..]);
        } else {
          KeysStayForever(t, chunks[1..]);
        }
      }
    }
  }

  /** A cut within the blank line leaves some of it in front of the body. */
  lemma CutInBlankLine(s: Session, chunks: seq<string>)
    requires s.state == STATE_PARSE_HEADERS && s.h.EndCR? && s.content == "\n\r"
    ensures var r := Receive(s, chunks);
            r.progress.HeadersDone? ==> |r.session.content + L.Flatten(r.unread)| > |L.Flatten(chunks)|
  {
    if chunks != [] {
      var str := s.content + chunks[0];
      var s0 := H.Begin(s.h, s.headers);
      H.OneChar(str, 0, s0);
      assert Pass(s, chunks[0]).0.content == str[1..];
    }
  }

  /** Where a scan that began a stream of headers may stop, and what it then leaves in the content. */
  ghost predicate Shape(str: string, i: nat, s: H.Scan) {
    && s.lineBegin <= i <= |str|
    && match s.h
       case Start => forall k :: 0 <= k < i ==> str[k] in {'\r', '\n'}
       case LF => s.lineBegin + 1 == i && str[i - 1] == '\n'
       case EndCR => s.lineBegin + 2 == i && str[i - 2] == '\n' && str[i - 1] == '\r'
       case EndLF => s.lineBegin < i
       case _ => true
  }

  lemma {:induction false} ScanShape(str: string, i: nat, s: H.Scan)
    requires i <= |str| && Shape(str, i, s)
    ensures var (t, v) := H.ScanFrom(str, i, s);
            v.Fail? || v.Undefined? || (v.Continue? && Shape(str, |str|, t)) || (v.Finish? && t.lineBegin < |str|)
    ensures var (t, v) := H.ScanFrom(str, i, s); v.Finish? ==> t.h.EndLF?
    decreases |str| - i
  {
    if i < |str| && H.ScanChar(str, i, s).1.Continue? {
      ScanShape(str, i + 1, H.ScanChar(str, i, s).0);
    }
  }

  lemma {:induction false} RenderedKeysAreClean(xs: seq<H.Header>, m: map<string, string>)
    requires H.ValidHeaders(xs) && !HasNewlineKey(m)
    ensures !HasNewlineKey(H.MapOf(xs, m))
  {
    if xs != [] {
      assert H.ValidHeader(xs[0]);
      RenderedKeysAreClean(xs[1..], m[xs[0].key := xs[0].value]);
    }
  }

  lemma FirstHeaderChar(xs: seq<H.Header>, body: string)
    requires H.ValidHeaders(xs) && xs != []
    ensures var rest := H.RenderRest(xs, body);
            |rest| == |H.RenderAll(xs)| + 3 + |body| && rest[1] !in {'\r', '\n'} && rest[0] == '\n'
  {
    assert H.ValidHeader(xs[0]);
    assert H.RenderAll(xs)[0] == xs[0].key[0];
  }

  /** What a first header call that got beyond the blank start can leave. */
  lemma FirstCall(s: Session, str: string)
    requires AtHeaders(s.(content := "")) && s.content == str && |str| >= 2 && str[1] !in {'\r', '\n'}
    ensures var (t, p) := HeaderPass(s);
            && (p.HeadersDone? ==> exists k :: 0 <= k < |str| && t.content == str[k..])
            && (p.Again? ==> t.state == s.state)
            && (p.Again? ==> Inside(t.h) || (t.h.LF? && t.content == "\n") || (t.h.EndCR? && t.content == "\n\r"))
  {
    hide H.ScanFrom;
    ScanShape(str, 0, H.Begin(H.Start, map[]));
  }

  /** A call that is given a part of the headers only comes to nothing right. */
  lemma CutNow(s: Session, chunks: seq<string>, xs: seq<H.Header>, body: string)
    requires AtHeaders(s) && H.ValidHeaders(xs) && xs != [] && chunks != []
    requires s.content + L.Flatten(chunks) == H.RenderRest(xs, body)
    requires 2 <= |s.content + chunks[0]| <= |H.RenderAll(xs)| + 3
    ensures !Correct(Receive(s, chunks), s.fields, NextState(s), H.MapOf(xs, map[]), body)
  {
    hide H.ParseHeaders, H.RenderAll, H.MapOf, H.RenderRest, HasNewlineKey;
    var str, tail := s.content + chunks[0], L.Flatten(chunks[1..]);
    var rest := H.RenderRest(xs, body);
    assert rest == str + tail;
    FirstHeaderChar(xs, body);
    assert str[1] == rest[1];
    FirstCall(s.(content := str), str);
    var (t, p) := Pass(s, chunks[0]);
    if p.Again? {
      if Inside(t.h) {
        InsideForever(t, chunks[1..]);
      } else if t.h.LF? {
        CutBetweenHeaders(t, chunks[1..]);
        NoNewlineKeyYet();
        RenderedKeysAreClean(xs, map[]);
      } else {
        CutInBlankLine(t, chunks[1..]);
      }
    }
  }

  lemma NoNewlineKeyYet()
    ensures !HasNewlineKey(map[])
  {
  }

  lemma {:induction false} CutHeaders(s: Session, chunks: seq<string>, xs: seq<H.Header>, body: string)
    requires AtHeaders(s) && H.ValidHeaders(xs) && xs != []
    requires s.content + L.Flatten(chunks) == H.RenderRest(xs, body)
    requires EndsWithin(chunks, 2 - |s.content|, |H.RenderAll(xs)| + 3 - |s.content|)
    ensures !Correct(Receive(s, chunks), s.fields, NextState(s), H.MapOf(xs, map[]), body)
    decreases |chunks|
  {
    hide Receive, H.RenderAll, H.MapOf, Correct;
    var str, n := s.content + chunks[0], |H.RenderAll(xs)|;
    FirstHeaderChar(xs, body);
    if |str| <= 1 {
      ShortChunk(s, chunks, H.RenderRest(xs, body));
      CutHeaders(s.(content := str), chunks[1..], xs, body);
    } else if |str| <= n + 3 {
      CutNow(s, chunks, xs, body);
    } else {
      NoEndBefore(chunks[1..], 2 - |str|, n + 3 - |str|);
      assert false;
    }
  }

  // -------------------------------------------------------- the whole request

  /** Once the headers are done, a POST request goes on to its body, and any other to its answer. */
  lemma {:induction false} StateAfterHeaders(s: Session, chunks: seq<string>)
    requires Reading(s)
    ensures var r := Receive(s, chunks);
            r.progress.HeadersDone? ==>
              r.session.state == if r.session.fields.verb == L.METHOD_POST then STATE_RECV_BODY else STATE_ANALYSIS
    decreases |chunks|
  {
    hide H.ParseHeaders, L.ParseLine, FindChar;
    if chunks != [] {
      var (t, p) := Pass(s, chunks[0]);
      if p.Again? {
        StateAfterHeaders(t, chunks[1..]);
      }
    }
  }

  lemma {:induction false} FieldsStay(s: Session, chunks: seq<string>)
    requires s.state == STATE_PARSE_HEADERS
    ensures Receive(s, chunks).session.fields == s.fields
    decreases |chunks|
  {
    hide H.ParseHeaders;
    if chunks != [] {
      var (t, p) := Pass(s, chunks[0]);
      if p.Again? {
        FieldsStay(t, chunks[1..]);
      }
    }
  }

  /** Behind a header the map is not empty. */
  ghost predicate StoredBefore(h: H.HState, headers: map<string, string>) {
    h in {H.LF, H.EndCR, H.EndLF} ==> headers != map[]
  }

  lemma {:induction false} ScanStores(str: string, i: nat, s: H.Scan)
    requires i <= |str| && s.lineBegin <= i && StoredBefore(s.h, s.headers)
    ensures var (t, v) := H.ScanFrom(str, i, s); !v.Undefined? ==> StoredBefore(t.h, t.headers)
    decreases |str| - i
  {
    if i < |str| {
      OneCharStores(str, i, s);
      hide H.ScanChar, StoredBefore;
      if H.ScanChar(str, i, s).1.Continue? {
        ScanStores(str, i + 1, H.ScanChar(str, i, s).0);
      }
    }
  }

  lemma OneCharStores(str: string, i: nat, s: H.Scan)
    requires i < |str| && s.lineBegin <= i && StoredBefore(s.h, s.headers)
    ensures var (t, v) := H.ScanChar(str, i, s); !v.Undefined? ==> StoredBefore(t.h, t.headers)
  {
    var (t, v) := H.ScanChar(str, i, s);
    if s.h.CR? && v.Continue? {
      assert str[s.keyStart..s.keyEnd] in t.headers;
    }
  }

  /** The headers are never done without a header. */
  lemma {:induction false} DoneStores(s: Session, chunks: seq<string>)
    requires s.state == STATE_PARSE_HEADERS && StoredBefore(s.h, s.headers)
    ensures Receive(s, chunks).progress.HeadersDone? ==> Receive(s, chunks).session.headers != map[]
    decreases |chunks|
  {
    hide H.ScanFrom;
    if chunks != [] {
      ScanStores(s.content + chunks[0], 0, H.Begin(s.h, s.headers));
      var (t, p) := Pass(s, chunks[0]);
      if p.Again? {
        DoneStores(t, chunks[1..]);
      }
    }
  }

  /** A request on the wire. */
  function RenderRequest(verb: string, t: L.Target, version: string, xs: seq<H.Header>, body: string): string {
    L.RenderLine(verb, t, version) + "\r" + H.RenderRest(xs, body)
  }

  function New(f: L.Fields): Session {
    Session(STATE_PARSE_URI, f, H.Start, map[], "")
  }

  /** What the request line says. */
  function FieldsOf(verb: string, t: L.Target, version: string): L.Fields {
    L.Fields(if verb == "GET" then L.METHOD_GET else L.METHOD_POST,
             if L.RenderTarget(t) == "" then "index.html" else t.path,
             if version == "1.0" then L.HTTP_10 else L.HTTP_11)
  }

  lemma VerbOf(verb: string, t: L.Target, version: string)
    requires verb in {"GET", "POST"}
    ensures FieldsOf(verb, t, version).verb == L.METHOD_POST <==> verb == "POST"
  {
  }

  ghost predicate MistakenForGet(verb: string, t: L.Target, version: string) {
    verb == "POST" && exists i :: At(L.RenderLine(verb, t, version), i, "GET")
  }

  lemma HeaderCalls(s: Session, chunks: seq<string>, xs: seq<H.Header>, body: string)
    requires AtHeaders(s) && s.content == "" && H.ValidHeaders(xs) && L.Flatten(chunks) == H.RenderRest(xs, body)
    ensures Correct(Receive(s, chunks), s.fields, NextState(s), H.MapOf(xs, map[]), body)
            <==> xs != [] && H.Short(xs) && !EndsWithin(chunks, 2, |H.RenderAll(xs)| + 3)
  {
    hide Receive, H.RenderAll, H.RenderRest;
    assert "" + L.Flatten(chunks) == L.Flatten(chunks);
    if xs == [] {
      DoneStores(s, chunks);
    } else if EndsWithin(chunks, 2, |H.RenderAll(xs)| + 3) {
      CutHeaders(s, chunks, xs, body);
    } else {
      UncutHeaders(s, chunks, xs, body);
    }
  }

  lemma LineVerdict(verb: string, t: L.Target, version: string, f: L.Fields)
    requires verb in {"GET", "POST"} && L.ValidTarget(t) && version in {"1.0", "1.1"}
    ensures var (flag, g) := L.ParseLine(L.RenderLine(verb, t, version), f);
            if MistakenForGet(verb, t, version) then g != FieldsOf(verb, t, version)
            else flag == L.PARSE_URI_SUCCESS && g == FieldsOf(verb, t, version)
  {
    hide L.ParseLine, L.RenderLine, At;
    if verb == "GET" {
      L.GetRoundTrip(t, version, f);
    } else {
      L.PostRoundTrip(t, version, f);
    }
  }

  /** A line free of CR is read whole however it comes. */
  lemma LineIsFed(line: string, rest: string, chunks: seq<string>, f: L.Fields)
    requires Free(line, {'\r'}) && L.Flatten(chunks) == line + "\r" + rest
    ensures var fed := L.Feed("", chunks, f);
            (fed.flag, fed.fields) == L.ParseLine(line, f) && fed.content + L.Flatten(fed.unread) == rest
  {
    hide L.ParseLine, L.Feed, L.Flatten, FindChar, Free;
    FirstLine(line, rest);
    FindNothing('\r');
    L.FeedIsOfTheStream("", chunks, f);
  }

  /** Chunk ends behind such a line are counted from its CR. */
  lemma LineEnds(line: string, rest: string, chunks: seq<string>, f: L.Fields, lo: nat, hi: int)
    requires Free(line, {'\r'}) && L.Flatten(chunks) == line + "\r" + rest
    ensures var fed := L.Feed("", chunks, f);
            EndsWithin([fed.content] + fed.unread, lo, hi) <==> EndsWithin(chunks, |line| + 1 + lo, |line| + 1 + hi)
  {
    hide L.Feed, L.Flatten, FindChar, Free, EndsWithin;
    FirstLine(line, rest);
    FindNothing('\r');
    EndsBehindLine("", chunks, f, |line|, lo, hi);
  }

  /** The line is read, and the header calls are given the rest of the stream. */
  lemma LineComes(verb: string, t: L.Target, version: string, rest: string, chunks: seq<string>, f: L.Fields,
                  lo: nat, hi: int)
    requires verb in {"GET", "POST"} && L.ValidTarget(t) && version in {"1.0", "1.1"}
    requires L.Flatten(chunks) == L.RenderLine(verb, t, version) + "\r" + rest
    ensures var line, fed := L.RenderLine(verb, t, version), L.Feed("", chunks, f);
            && (fed.flag, fed.fields) == L.ParseLine(line, f)
            && L.Flatten([fed.content] + fed.unread) == rest
            && (EndsWithin([fed.content] + fed.unread, lo, hi)
                <==> EndsWithin(chunks, |line| + 1 + lo, |line| + 1 + hi))
  {
    hide L.ParseLine, L.Feed, L.RenderLine, L.Flatten, L.ValidTarget, Free, EndsWithin;
    var line, fed := L.RenderLine(verb, t, version), L.Feed("", chunks, f);
    L.LineIsClean(verb, t, version);
    LineIsFed(line, rest, chunks, f);
    LineEnds(line, rest, chunks, f, lo, hi);
    FlattenOne(fed.content, fed.unread);
  }

  lemma FlattenOne(c: string, cs: seq<string>)
    ensures L.Flatten([c] + cs) == c + L.Flatten(cs)
  {
    assert ([c] + cs)[1..] == cs;
  }

  lemma FirstLine(line: string, rest: string)
    requires Free(line, {'\r'})
    ensures var total := line + "\r" + rest;
            && "" + total == total && FindChar(total, '\r', 0) == |line|
            && total[..|line|] == line && total[|line| + 1..] == rest
  {
    FirstChar(line + "\r" + rest, '\r', 0, |line|);
  }

  lemma FindNothing(c: char)
    ensures FindChar("", c, 0) == -1
  {
  }

  /**
   * A rendered request, however it is cut into chunks, gives exactly its method, file name, version, header map and
   * body if and only if it has a header, no value is longer than 256 bytes, a POST line does not contain "GET", and no
   * chunk ends after the first character of the headers has come and before the first one of the body has.
   */
  lemma RequestRoundTrip(verb: string, t: L.Target, version: string, xs: seq<H.Header>, body: string,
                         chunks: seq<string>, f: L.Fields)
    requires verb in {"GET", "POST"} && L.ValidTarget(t) && version in {"1.0", "1.1"} && H.ValidHeaders(xs)
    requires L.Flatten(chunks) == RenderRequest(verb, t, version, xs, body)
    ensures var n := |L.RenderLine(verb, t, version)| + 1;
            Correct(Receive(New(f), chunks), FieldsOf(verb, t, version),
                    if verb == "POST" then STATE_RECV_BODY else STATE_ANALYSIS, H.MapOf(xs, map[]), body)
            <==> xs != [] && H.Short(xs) && !MistakenForGet(verb, t, version)
                 && !EndsWithin(chunks, n + 2, n + |H.RenderAll(xs)| + 3)
  {
    hide L.ParseLine, L.Feed, Receive, H.RenderRest, H.RenderAll, H.MapOf, H.Short, H.ValidHeaders;
    hide L.RenderLine, L.ValidTarget, FieldsOf, MistakenForGet, EndsWithin;
    var n := |L.RenderLine(verb, t, version)| + 1;
    LineComes(verb, t, version, H.RenderRest(xs, body), chunks, f, 2, |H.RenderAll(xs)| + 3);
    LineVerdict(verb, t, version, f);
    ReceiveFeedsTheLine(New(f), chunks);
    var fed := L.Feed("", chunks, f);
    if fed.flag == L.PARSE_URI_SUCCESS {
      var s := Session(STATE_PARSE_HEADERS, fed.fields, H.Start, map[], "");
      FieldsStay(s, [fed.content] + fed.unread);
      StateAfterHeaders(s, [fed.content] + fed.unread);
      VerbOf(verb, t, version);
      HeaderCalls(s, [fed.content] + fed.unread, xs, body);
    }
  }

  // ---------------------------------------------------------------- examples

  function HeadersNext(f: L.Fields): Session {
    Session(STATE_PARSE_HEADERS, f, H.Start, map[], "")
  }

  lemma HalfAKey()
    ensures H.ParseHeaders("\nHo", H.Start, map[]) == H.Outcome(true, H.PARSE_HEADER_AGAIN, H.Key, map[], "Ho")
  {
    hide H.ScanFrom;
    var str := "\nHo";
    var s0 := H.Begin(H.Start, map[]);
    H.OneChar(str, 0, s0);
    H.OneChar(str, 1, s0);
    var s1 := H.ScanChar(str, 1, s0).0;
    H.OneChar(str, 2, s1);
    H.NoMore(str, s1);
  }

  lemma OtherHalf()
    ensures !H.ParseHeaders("Host: x\r\n", H.Key, map[]).defined
  {
    hide H.ScanFrom;
    var str := "Host: x\r\n";
    var s0 := H.Begin(H.Key, map[]);
    H.ReadKey(str, 0, 4, s0);
    H.OneChar(str, 4, s0);
    var s1 := H.ScanChar(str, 4, s0).0;
    H.OneChar(str, 5, s1);
    var s2 := H.ScanChar(str, 5, s1).0;
    H.OneChar(str, 6, s2);
    var s3 := H.ScanChar(str, 6, s2).0;
    H.OneChar(str, 7, s3);
    H.StopNow(str, 8, H.ScanChar(str, 7, s3).0);
  }

  /** A chunk that ends inside a key makes the next call step outside the content. */
  lemma CutInsideAKey(f: L.Fields)
    ensures Receive(HeadersNext(f), ["\nHo", "st: x\r\n"]).progress.Undefined?
  {
    hide H.ParseHeaders;
    HalfAKey();
    OtherHalf();
    assert "" + "\nHo" == "\nHo" && "Ho" + "st: x\r\n" == "Host: x\r\n";
    var chunks := ["\nHo", "st: x\r\n"];
    assert chunks[1..] == ["st: x\r\n"];
  }

  lemma FirstOfTwo()
    ensures H.ParseHeaders("\nA: x\r\n", H.Start, map[])
            == H.Outcome(true, H.PARSE_HEADER_AGAIN, H.LF, map["A" := "x"], "\n")
  {
    hide H.ScanFrom;
    var str := "\nA: x\r\n";
    assert str[1..2] == "A" && str[4..5] == "x" && str[6..] == "\n";
    var s0 := H.Begin(H.Start, map[]);
    H.OneChar(str, 0, s0);
    H.OneChar(str, 1, s0);
    var s1 := H.ScanChar(str, 1, s0).0;
    H.OneChar(str, 2, s1);
    var s2 := H.ScanChar(str, 2, s1).0;
    H.OneChar(str, 3, s2);
    var s3 := H.ScanChar(str, 3, s2).0;
    H.OneChar(str, 4, s3);
    var s4 := H.ScanChar(str, 4, s3).0;
    var s5 := H.ReadLineEnd(str, 5, s4);
    H.NoMore(str, s5);
  }

  lemma SecondOfTwo()
    ensures H.ParseHeaders("\nB: y\r\n", H.LF, map["A" := "x"])
            == H.Outcome(true, H.PARSE_HEADER_AGAIN, H.LF, map["A" := "x", "\nB" := "y"], "\n")
  {
    hide H.ScanFrom;
    var str := "\nB: y\r\n";
    assert str[0..2] == "\nB" && str[4..5] == "y" && str[6..] == "\n";
    var s0 := H.Begin(H.LF, map["A" := "x"]);
    H.OneChar(str, 0, s0);
    var s1 := H.ScanChar(str, 0, s0).0;
    H.ReadKey(str, 1, 2, s1);
    H.OneChar(str, 2, s1);
    var s2 := H.ScanChar(str, 2, s1).0;
    H.OneChar(str, 3, s2);
    var s3 := H.ScanChar(str, 3, s2).0;
    H.OneChar(str, 4, s3);
    var s4 := H.ScanChar(str, 4, s3).0;
    var s5 := H.ReadLineEnd(str, 5, s4);
    H.NoMore(str, s5);
  }

  /** A chunk that ends behind a header puts a line feed into the next key. */
  lemma CutAfterAHeader(f: L.Fields)
    ensures var headers := Receive(HeadersNext(f), ["\nA: x\r\n", "B: y\r\n"]).session.headers;
            headers == map["A" := "x", "\nB" := "y"] && "B" !in headers
  {
    hide H.ParseHeaders;
    FirstOfTwo();
    SecondOfTwo();
    var chunks := ["\nA: x\r\n", "B: y\r\n"];
    assert "" + "\nA: x\r\n" == "\nA: x\r\n" && "\n" + "B: y\r\n" == "\nB: y\r\n";
    assert chunks[1..] == ["B: y\r\n"] && chunks[1..][1..] == [];
  }
}
