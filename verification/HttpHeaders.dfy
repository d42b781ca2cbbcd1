/** The header automaton: `parse_Headers` of Examples/Ver0.1/HttpData.cpp. */
module HttpHeaders {
  import opened HttpText

  const PARSE_HEADER_AGAIN := -1
  const PARSE_HEADER_ERROR := -2
  const PARSE_HEADER_SUCCESS := 0

  datatype HState = Start | Key | Colon | SpacesAfterColon | Value | CR | LF | EndCR | EndLF

  /** The state kept in the request, and the positions that live only as long as one call. */
  datatype Scan = Scan(h: HState, keyStart: int, keyEnd: int, valueStart: int, valueEnd: int, lineBegin: nat,
                       headers: map<string, string>)

  /** `Undefined` stands for iterators outside the string: a call resumed after the positions were forgotten. */
  datatype Verdict = Continue | Finish | Fail | Undefined

  function Begin(h: HState, headers: map<string, string>): Scan {
    Scan(h, -1, -1, -1, -1, 0, headers)
  }

  /** One round of the loop. */
  function ScanChar(str: string, i: nat, s: Scan): (r: (Scan, Verdict))
    requires i < |str| && s.lineBegin <= i
    ensures r.0.lineBegin <= i
  {
    var c := str[i];
    match s.h
    case Start =>
      if c == '\n' || c == '\r' then (s, Continue)
      else (s.(h := Key, keyStart := i, lineBegin := i), Continue)
    case Key =>
      if c == ':' then
        if i - s.keyStart <= 0 then (s.(keyEnd := i), Fail) else (s.(keyEnd := i, h := Colon), Continue)
      else if c == '\n' || c == '\r' then (s, Fail)
      else (s, Continue)
    case Colon => if c == ' ' then (s.(h := SpacesAfterColon), Continue) else (s, Fail)
    case SpacesAfterColon => (s.(h := Value, valueStart := i), Continue)
    case Value =>
      if c == '\r' then
        var t := s.(h := CR, valueEnd := i);
        if i - s.valueStart <= 0 then (t, Fail) else (t, Continue)
      else if i - s.valueStart > 255 then (s, Fail)
      else (s, Continue)
    case CR =>
      if c != '\n' then (s, Fail)
      else if 0 <= s.keyStart <= s.keyEnd <= |str| && 0 <= s.valueStart <= s.valueEnd <= |str| then
        (s.(h := LF, lineBegin := i,
            headers := s.headers[str[s.keyStart..s.keyEnd] := str[s.valueStart..s.valueEnd]]), Continue)
      else (s.(h := LF), Undefined)
    case LF =>
      if c == '\r' then (s.(h := EndCR), Continue) else (s.(keyStart := i, h := Key), Continue)
    case EndCR => if c == '\n' then (s.(h := EndLF), Continue) else (s, Fail)
    case EndLF => (s.(keyStart := i, lineBegin := i), Finish)
  }

  /** The loop from position `i` on. */
  function ScanFrom(str: string, i: nat, s: Scan): (r: (Scan, Verdict))
    requires i <= |str| && s.lineBegin <= i
    ensures r.0.lineBegin <= |str|
    decreases |str| - i
  {
    if i == |str| then (s, Continue)
    else
      var (t, v) := ScanChar(str, i, s);
      if v.Continue? then ScanFrom(str, i + 1, t) else (t, v)
  }

  datatype Outcome = Outcome(defined: bool, flag: int, h: HState, headers: map<string, string>, content: string)

  /** What one call makes of the content. */
  function ParseHeaders(content: string, h: HState, headers: map<string, string>): Outcome {
    var (s, v) := ScanFrom(content, 0, Begin(h, headers));
    if v.Undefined? then Outcome(false, PARSE_HEADER_ERROR, s.h, s.headers, content)
    else if v.Fail? then Outcome(true, PARSE_HEADER_ERROR, s.h, s.headers, content)
    else
      var flag := if s.h.EndLF? then PARSE_HEADER_SUCCESS else PARSE_HEADER_AGAIN;
      Outcome(true, flag, s.h, s.headers, content[s.lineBegin..])
  }

  // ---------------------------------------------------- calls that are defined

  /** The positions that the state will need are set and in order. */
  ghost predicate Placed(s: Scan, i: nat) {
    match s.h
    case Key => 0 <= s.keyStart < i
    case Colon => 0 <= s.keyStart < s.keyEnd < i
    case SpacesAfterColon => 0 <= s.keyStart < s.keyEnd < i
    case Value => 0 <= s.keyStart < s.keyEnd < s.valueStart < i
    case CR => 0 <= s.keyStart < s.keyEnd < s.valueStart < s.valueEnd < i
    case _ => true
  }

  lemma {:induction false} PlacedIsDefined(str: string, i: nat, s: Scan)
    requires i <= |str| && s.lineBegin <= i && Placed(s, i)
    ensures !ScanFrom(str, i, s).1.Undefined?
    decreases |str| - i
  {
    if i < |str| && ScanChar(str, i, s).1.Continue? {
      PlacedIsDefined(str, i + 1, ScanChar(str, i, s).0);
    }
  }

  /** A call that starts between headers never leaves the string, whatever the content. */
  lemma CallBetweenHeadersIsDefined(content: string, h: HState, headers: map<string, string>)
    requires h in {Start, LF, EndCR, EndLF}
    ensures ParseHeaders(content, h, headers).defined
  {
    PlacedIsDefined(content, 0, Begin(h, headers));
  }

  /** What a header still lacks in each state inside it. */
  function RestOfHeader(h: HState): string {
    match h
    case Key => ": v\r\n"
    case Colon => " v\r\n"
    case SpacesAfterColon => "v\r\n"
    case Value => "\r\n"
    case CR => "\n"
    case _ => ""
  }

  lemma {:induction false} ResumedIsUndefined(str: string, i: nat, s: Scan)
    requires s.h in {Key, Colon, SpacesAfterColon, Value, CR} && s.keyStart == -1
    requires s.lineBegin <= i <= |str| && (s.h.Value? ==> s.valueStart < i) && str[i..] == RestOfHeader(s.h)
    ensures ScanFrom(str, i, s).1.Undefined?
    decreases |str| - i
  {
    assert str[i] == RestOfHeader(s.h)[0] && str[i + 1..] == RestOfHeader(s.h)[1..];
    if !s.h.CR? {
      ResumedIsUndefined(str, i + 1, ScanChar(str, i, s).0);
    }
  }

  /** A call stays inside the string whatever the content exactly if it does not start inside a header. */
  lemma CallIsDefinedExactly(h: HState, headers: map<string, string>)
    ensures (forall content :: ParseHeaders(content, h, headers).defined) <==> h in {Start, LF, EndCR, EndLF}
  {
    hide ScanFrom, RestOfHeader;
    if h in {Start, LF, EndCR, EndLF} {
      forall content ensures ParseHeaders(content, h, headers).defined {
        CallBetweenHeadersIsDefined(content, h, headers);
      }
    } else {
      var content := RestOfHeader(h);
      assert content[0..] == content;
      ResumedIsUndefined(content, 0, Begin(h, headers));
      assert !ParseHeaders(content, h, headers).defined;
    }
  }

  // ------------------------------------------------------------- round trip

  datatype Header = Header(key: string, value: string)

  ghost predicate ValidHeader(x: Header) {
    && x.key != "" && Free(x.key, {':', '\r', '\n'})
    && x.value != "" && Free(x.value, {'\r'})
  }

  ghost predicate ValidHeaders(xs: seq<Header>) {
    forall i :: 0 <= i < |xs| ==> ValidHeader(xs[i])
  }

  function Render(x: Header): string {
    x.key + ": " + x.value + "\r\n"
  }

  function RenderAll(xs: seq<Header>): string {
    if xs == [] then "" else Render(xs[0]) + RenderAll(xs[1..])
  }

  /** The map the headers stand for: of several values for a key, the last. */
  function MapOf(xs: seq<Header>, m: map<string, string>): map<string, string> {
    if xs == [] then m else MapOf(xs[1..], m[xs[0].key := xs[0].value])
  }

  ghost predicate Short(xs: seq<Header>) {
    forall i :: 0 <= i < |xs| ==> |xs[i].value| <= 256
  }

  /** Inside a key the automaton reads on. */
  lemma {:induction false} ReadKey(str: string, i: nat, j: nat, s: Scan)
    requires i <= j <= |str| && s.lineBegin <= i && s.h.Key?
    requires forall k :: i <= k < j ==> str[k] !in {':', '\r', '\n'}
    ensures ScanFrom(str, i, s) == ScanFrom(str, j, s)
    decreases j - i
  {
    if i < j {
      ReadKey(str, i + 1, j, s);
    }
  }

  /** Inside a value too, for 256 characters. */
  lemma {:induction false} ReadValue(str: string, i: nat, j: nat, s: Scan)
    requires i <= j <= |str| && s.lineBegin <= i && s.h.Value?
    requires j - 1 - s.valueStart <= 255
    requires forall k :: i <= k < j ==> str[k] != '\r'
    ensures ScanFrom(str, i, s) == ScanFrom(str, j, s)
    decreases j - i
  {
    if i < j {
      ReadValue(str, i + 1, j, s);
    }
  }

  lemma OneChar(str: string, i: nat, s: Scan)
    requires i < |str| && s.lineBegin <= i && ScanChar(str, i, s).1.Continue?
    ensures ScanFrom(str, i, s) == ScanFrom(str, i + 1, ScanChar(str, i, s).0)
  {
  }

  /** From the start of a header to the second character of its value. */
  lemma ReadToValue(str: string, i: nat, s: Scan, x: Header) returns (t: Scan)
    requires (s.h.Start? || s.h.LF?) && s.lineBegin <= i && ValidHeader(x) && At(str, i, x.key + ": " + x.value)
    ensures t.h.Value? && t.keyStart == i && t.keyEnd == i + |x.key| && t.valueStart == i + |x.key| + 2
    ensures t.headers == s.headers && t.lineBegin <= i
    ensures ScanFrom(str, i, s) == ScanFrom(str, i + |x.key| + 3, t)
  {
    hide ScanFrom;
    var keyEnd := i + |x.key|;
    AtSplit(str, i, x.key + ": ", x.value);
    AtSplit(str, i, x.key, ": ");
    forall k | i <= k < keyEnd ensures str[k] == x.key[k - i] {
      CharAt(str, i, x.key, k - i);
    }
    CharAt(str, keyEnd, ": ", 0);
    CharAt(str, keyEnd, ": ", 1);
    OneChar(str, i, s);
    var s1 := ScanChar(str, i, s).0;
    ReadKey(str, i + 1, keyEnd, s1);
    OneChar(str, keyEnd, s1);
    var s2 := ScanChar(str, keyEnd, s1).0;
    OneChar(str, keyEnd + 1, s2);
    var s3 := ScanChar(str, keyEnd + 1, s2).0;
    OneChar(str, keyEnd + 2, s3);
    t := ScanChar(str, keyEnd + 2, s3).0;
  }

  /** A header of at most 256 bytes of value is read and stored. */
  lemma ReadHeader(str: string, i: nat, s: Scan, x: Header) returns (t: Scan)
    requires (s.h.Start? || s.h.LF?) && s.lineBegin <= i && ValidHeader(x) && |x.value| <= 256 && At(str, i, Render(x))
    ensures t.h.LF? && t.headers == s.headers[x.key := x.value] && t.lineBegin == i + |Render(x)| - 1
    ensures ScanFrom(str, i, s) == ScanFrom(str, i + |Render(x)|, t)
  {
    hide ScanFrom, ScanChar, At;
    AtSplit(str, i, x.key + ": " + x.value, "\r\n");
    AtSplit(str, i, x.key + ": ", x.value);
    AtSplit(str, i, x.key, ": ");
    var u := ReadToValue(str, i, s, x);
    var end := u.valueStart + |x.value|;
    forall k | u.valueStart <= k < end ensures str[k] != '\r' {
      CharAt(str, u.valueStart, x.value, k - u.valueStart);
    }
    ReadValue(str, u.valueStart + 1, end, u);
    t := ReadLineEnd(str, end, u);
    AtSlice(str, i, x.key);
    AtSlice(str, u.valueStart, x.value);
  }

  lemma AtSlice(str: string, i: nat, pat: string)
    requires At(str, i, pat)
    ensures str[i..i + |pat|] == pat
  {
  }

  /** The end of the line stores the header. */
  lemma ReadLineEnd(str: string, end: nat, u: Scan) returns (t: Scan)
    requires u.h.Value? && u.lineBegin <= end && At(str, end, "\r\n")
    requires 0 <= u.keyStart <= u.keyEnd <= |str| && 0 <= u.valueStart < end
    ensures t.h.LF? && t.lineBegin == end + 1
    ensures t.headers == u.headers[str[u.keyStart..u.keyEnd] := str[u.valueStart..end]]
    ensures ScanFrom(str, end, u) == ScanFrom(str, end + 2, t)
  {
    hide ScanFrom;
    CharAt(str, end, "\r\n", 0);
    CharAt(str, end, "\r\n", 1);
    OneChar(str, end, u);
    var u1 := ScanChar(str, end, u).0;
    OneChar(str, end + 1, u1);
    t := ScanChar(str, end + 1, u1).0;
  }

  /** A longer one is refused. */
  lemma RefuseHeader(str: string, i: nat, s: Scan, x: Header)
    requires (s.h.Start? || s.h.LF?) && s.lineBegin <= i && ValidHeader(x) && |x.value| > 256 && At(str, i, Render(x))
    ensures ScanFrom(str, i, s).1.Fail?
  {
    hide ScanFrom;
    AtSplit(str, i, x.key + ": " + x.value, "\r\n");
    AtSplit(str, i, x.key + ": ", x.value);
    var u := ReadToValue(str, i, s, x);
    var limit := u.valueStart + 256;
    forall k | u.valueStart <= k <= limit ensures str[k] != '\r' {
      CharAt(str, u.valueStart, x.value, k - u.valueStart);
    }
    ReadValue(str, u.valueStart + 1, limit, u);
    StopNow(str, limit, u);
  }

  lemma StopNow(str: string, i: nat, s: Scan)
    requires i < |str| && s.lineBegin <= i && !ScanChar(str, i, s).1.Continue?
    ensures ScanFrom(str, i, s) == ScanChar(str, i, s)
  {
  }

  lemma NoMore(str: string, s: Scan)
    requires s.lineBegin <= |str|
    ensures ScanFrom(str, |str|, s) == (s, Continue)
  {
  }

  lemma {:induction false} ReadHeaders(str: string, i: nat, s: Scan, xs: seq<Header>) returns (t: Scan)
    requires s.h.LF? || (s.h.Start? && xs != [])
    requires s.lineBegin <= i && ValidHeaders(xs) && Short(xs) && At(str, i, RenderAll(xs))
    ensures t.h.LF? && t.headers == MapOf(xs, s.headers) && t.lineBegin <= i + |RenderAll(xs)|
    ensures if xs == [] then t == s else t.lineBegin == i + |RenderAll(xs)| - 1
    ensures ScanFrom(str, i, s) == ScanFrom(str, i + |RenderAll(xs)|, t)
    decreases xs
  {
    hide ScanFrom, Render;
    if xs == [] {
      t := s;
    } else {
      AtSplit(str, i, Render(xs[0]), RenderAll(xs[1..]));
      var u := ReadHeader(str, i, s, xs[0]);
      t := ReadHeaders(str, i + |Render(xs[0])|, u, xs[1..]);
      assert xs[1..] == [] ==> RenderAll(xs[1..]) == "";
    }
  }

  lemma {:induction false} RefuseHeaders(str: string, i: nat, s: Scan, xs: seq<Header>)
    requires s.h.LF? || s.h.Start?
    requires s.lineBegin <= i && ValidHeaders(xs) && !Short(xs) && At(str, i, RenderAll(xs))
    ensures ScanFrom(str, i, s).1.Fail?
    decreases xs
  {
    hide ScanFrom, Render;
    AtSplit(str, i, Render(xs[0]), RenderAll(xs[1..]));
    if |xs[0].value| > 256 {
      RefuseHeader(str, i, s, xs[0]);
    } else {
      var u := ReadHeader(str, i, s, xs[0]);
      assert !Short(xs[1..]) by {
        var k :| 0 <= k < |xs| && |xs[k].value| > 256;
        assert xs[1..][k - 1] == xs[k];
      }
      RefuseHeaders(str, i + |Render(xs[0])|, u, xs[1..]);
    }
  }

  /** The blank line and the first byte of the body, if there is one. */
  lemma ReadEnd(str: string, i: nat, s: Scan, body: string)
    requires s.h.LF? && s.lineBegin <= i && i + 2 + |body| == |str| && At(str, i, "\r\n" + body)
    ensures var (t, v) := ScanFrom(str, i, s);
            && t.h.EndLF? && t.headers == s.headers && (v.Continue? || v.Finish?)
            && t.lineBegin == (if body == "" then s.lineBegin else i + 2)
  {
    AtSplit(str, i, "\r\n", body);
    CharAt(str, i, "\r\n", 0);
    CharAt(str, i, "\r\n", 1);
    OneChar(str, i, s);
    OneChar(str, i + 1, ScanChar(str, i, s).0);
  }

  /** What is left of the stream after the request line. */
  function RenderRest(xs: seq<Header>, body: string): string {
    "\n" + (RenderAll(xs) + ("\r\n" + body))
  }

  /**
   * Parsing rendered headers in one call gives exactly their map if no value exceeds 256 bytes, and an error
   * otherwise; the content left is the body, unless there is none.
   */
  lemma HeadersRoundTrip(xs: seq<Header>, body: string, m: map<string, string>)
    requires xs != [] && ValidHeaders(xs)
    ensures var r := ParseHeaders(RenderRest(xs, body), Start, m);
            && r.defined
            && (r.flag == PARSE_HEADER_SUCCESS && r.headers == MapOf(xs, m) <==> Short(xs))
            && (r.flag == PARSE_HEADER_ERROR <==> !Short(xs))
            && (Short(xs) ==> (r.content == body <==> body != ""))
            && (Short(xs) && body == "" ==> r.content == "\n\r\n")
  {
    hide ScanFrom, RenderAll;
    var str, hs, end := RenderRest(xs, body), RenderAll(xs), "\r\n" + body;
    var s := Begin(Start, m);
    CallBetweenHeadersIsDefined(str, Start, m);
    assert At(str, 1, hs + end);
    AtSplit(str, 1, hs, end);
    OneChar(str, 0, s);
    if Short(xs) {
      var t := ReadHeaders(str, 1, s, xs);
      ReadEnd(str, 1 + |hs|, t, body);
      assert str[1 + |hs| + 2..] == body;
      LastNewline(xs);
      if body == "" {
        CharAt(str, 1, hs, |hs| - 1);
        assert str[|hs|..] == "\n\r\n";
      }
    } else {
      RefuseHeaders(str, 1, s, xs);
    }
  }

  lemma {:induction false} LastNewline(xs: seq<Header>)
    requires xs != []
    ensures RenderAll(xs) != "" && RenderAll(xs)[|RenderAll(xs)| - 1] == '\n'
  {
    if |xs| > 1 {
      LastNewline(xs[1..]);
    }
  }

  // ---------------------------------------------------------------- refusals

  /** What may be wrong with a header: its key ends with the line, no space follows, or a CR stands alone. */
  datatype Flaw =
    | BrokenKey(key: string, c: char)
    | NoSpace(key: string, c: char)
    | LoneCR(header: Header, c: char)
    | LoneEndCR(c: char)

  ghost predicate ValidFlaw(flaw: Flaw) {
    match flaw
    case BrokenKey(key, c) => key != "" && Free(key, {':', '\r', '\n'}) && c in {'\r', '\n'}
    case NoSpace(key, c) => key != "" && Free(key, {':', '\r', '\n'}) && c != ' '
    case LoneCR(x, c) => ValidHeader(x) && |x.value| <= 256 && c != '\n'
    case LoneEndCR(c) => c != '\n'
  }

  function FlawText(flaw: Flaw): string {
    match flaw
    case BrokenKey(key, c) => key + [c]
    case NoSpace(key, c) => key + ":" + [c]
    case LoneCR(x, c) => x.key + ": " + x.value + ("\r" + [c])
    case LoneEndCR(c) => "\r" + [c]
  }

  /** Blank lines in front of the first header are passed over. */
  lemma {:induction false} BlanksAreSkipped(str: string, i: nat, j: nat, s: Scan)
    requires i <= j <= |str| && s.lineBegin <= i && s.h.Start? && forall k :: i <= k < j ==> str[k] in {'\r', '\n'}
    ensures ScanFrom(str, i, s) == ScanFrom(str, j, s)
    decreases j - i
  {
    if i < j {
      BlanksAreSkipped(str, i + 1, j, s);
    }
  }

  lemma ReadWholeKey(str: string, i: nat, s: Scan, key: string) returns (t: Scan)
    requires (s.h.Start? || s.h.LF?) && s.lineBegin <= i && key != "" && Free(key, {':', '\r', '\n'}) && At(str, i, key)
    ensures t.h.Key? && t.keyStart == i && t.headers == s.headers && t.lineBegin <= i
    ensures i + |key| <= |str| && ScanFrom(str, i, s) == ScanFrom(str, i + |key|, t)
  {
    hide ScanFrom;
    forall k | i <= k < i + |key| ensures str[k] == key[k - i] {
      CharAt(str, i, key, k - i);
    }
    OneChar(str, i, s);
    t := ScanChar(str, i, s).0;
    ReadKey(str, i + 1, i + |key|, t);
  }

  lemma RefuseKey(str: string, i: nat, s: Scan, key: string, c: char)
    requires (s.h.Start? || s.h.LF?) && s.lineBegin <= i && key != "" && Free(key, {':', '\r', '\n'})
    requires c in {'\r', '\n'} && At(str, i, key + [c])
    ensures var (t, v) := ScanFrom(str, i, s); v.Fail? && t.headers == s.headers
  {
    hide ScanFrom, At, Free;
    AtSplit(str, i, key, [c]);
    CharAt(str, i + |key|, [c], 0);
    var t := ReadWholeKey(str, i, s, key);
    AtInside(str, i + |key|, [c]);
    StopNow(str, i + |key|, t);
  }

  lemma AtInside(str: string, i: nat, part: string)
    requires At(str, i, part)
    ensures i + |part| <= |str|
  {
  }

  lemma RefuseColon(str: string, i: nat, s: Scan, key: string, c: char)
    requires (s.h.Start? || s.h.LF?) && s.lineBegin <= i && key != "" && Free(key, {':', '\r', '\n'})
    requires c != ' ' && At(str, i, key + ":" + [c])
    ensures var (t, v) := ScanFrom(str, i, s); v.Fail? && t.headers == s.headers
  {
    hide ScanFrom, At, Free;
    var end := i + |key|;
    AtSplit(str, i, key + ":", [c]);
    AtSplit(str, i, key, ":");
    CharAt(str, end, ":", 0);
    CharAt(str, end + 1, [c], 0);
    AtInside(str, end + 1, [c]);
    var t := ReadWholeKey(str, i, s, key);
    OneChar(str, end, t);
    StopNow(str, end + 1, ScanChar(str, end, t).0);
  }

  lemma RefuseCR(str: string, i: nat, s: Scan, x: Header, c: char)
    requires (s.h.Start? || s.h.LF?) && s.lineBegin <= i && ValidHeader(x) && |x.value| <= 256 && c != '\n'
    requires At(str, i, x.key + ": " + x.value + ("\r" + [c]))
    ensures var (t, v) := ScanFrom(str, i, s); v.Fail? && t.headers == s.headers
  {
    hide ScanFrom;
    AtSplit(str, i, x.key + ": " + x.value, "\r" + [c]);
    AtSplit(str, i, x.key + ": ", x.value);
    var u := ReadToValue(str, i, s, x);
    var end := u.valueStart + |x.value|;
    AtSplit(str, end, "\r", [c]);
    CharAt(str, end, "\r", 0);
    CharAt(str, end + 1, [c], 0);
    forall k | u.valueStart <= k < end ensures str[k] != '\r' {
      CharAt(str, u.valueStart, x.value, k - u.valueStart);
    }
    hide At;
    ReadValue(str, u.valueStart + 1, end, u);
    OneChar(str, end, u);
    StopNow(str, end + 1, ScanChar(str, end, u).0);
  }

  lemma RefuseFlaw(str: string, i: nat, s: Scan, flaw: Flaw)
    requires s.h.LF? || (s.h.Start? && !flaw.LoneEndCR?)
    requires s.lineBegin <= i && ValidFlaw(flaw) && At(str, i, FlawText(flaw))
    ensures var (t, v) := ScanFrom(str, i, s); v.Fail? && t.headers == s.headers
  {
    hide ScanFrom, At, Free;
    match flaw
    case BrokenKey(key, c) => RefuseKey(str, i, s, key, c);
    case NoSpace(key, c) => RefuseColon(str, i, s, key, c);
    case LoneCR(x, c) => RefuseCR(str, i, s, x, c);
    case LoneEndCR(c) => RefuseEndCR(str, i, s, c);
  }

  lemma RefuseEndCR(str: string, i: nat, s: Scan, c: char)
    requires s.h.LF? && s.lineBegin <= i && c != '\n' && At(str, i, "\r" + [c])
    ensures var (t, v) := ScanFrom(str, i, s); v.Fail? && t.headers == s.headers
  {
    hide ScanFrom, At;
    AtSplit(str, i, "\r", [c]);
    CharAt(str, i, "\r", 0);
    CharAt(str, i + 1, [c], 0);
    AtInside(str, i + 1, [c]);
    OneChar(str, i, s);
    StopNow(str, i + 1, ScanChar(str, i, s).0);
  }

  /** A flawed header is refused wherever it stands; the headers before it are kept, and the content is not touched. */
  lemma FlawIsRefused(blanks: string, xs: seq<Header>, flaw: Flaw, rest: string, m: map<string, string>)
    requires forall k :: 0 <= k < |blanks| ==> blanks[k] in {'\r', '\n'}
    requires ValidHeaders(xs) && Short(xs) && ValidFlaw(flaw) && (flaw.LoneEndCR? ==> xs != [])
    ensures var str := blanks + (RenderAll(xs) + (FlawText(flaw) + rest));
            ParseHeaders(str, Start, m) ==
            Outcome(true, PARSE_HEADER_ERROR, ParseHeaders(str, Start, m).h, MapOf(xs, m), str)
  {
    hide ScanFrom, RenderAll, FlawText, ValidFlaw, MapOf;
    var hs, bad := RenderAll(xs), FlawText(flaw);
    var str := blanks + (hs + (bad + rest));
    var s := Begin(Start, m);
    assert At(str, 0, blanks + (hs + (bad + rest)));
    AtSplit(str, 0, blanks, hs + (bad + rest));
    AtSplit(str, |blanks|, hs, bad + rest);
    AtSplit(str, |blanks| + |hs|, bad, rest);
    BlanksAreSkipped(str, 0, |blanks|, s);
    if xs == [] {
      NothingRendered(m);
      RefuseFlaw(str, |blanks|, s, flaw);
    } else {
      var t := ReadHeaders(str, |blanks|, s, xs);
      RefuseFlaw(str, |blanks| + |hs|, t, flaw);
    }
  }

  lemma NothingRendered(m: map<string, string>)
    ensures RenderAll([]) == "" && MapOf([], m) == m
  {
  }
}
