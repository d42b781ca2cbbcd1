/** `requestData` of Examples/Ver0.1/HttpData.cpp: the parsers on the fields they rewrite. */
module HttpRequest {
  import opened HttpText
  import L = HttpRequestLine
  import H = HttpHeaders
  import S = HttpSession

  class RequestData {
    var content: string
    var verb: int
    var version: int
    var fileName: string
    var state: int
    var hState: H.HState
    var headers: map<string, string>

    constructor ()
      ensures content == "" && state == S.STATE_PARSE_URI && hState == H.Start && headers == map[]
    {
      content, verb, version, fileName := "", 0, 0, "";
      state, hState, headers := S.STATE_PARSE_URI, H.Start, map[];
    }

    function FieldsView(): L.Fields
      reads this
    {
      L.Fields(verb, fileName, version)
    }

    function View(): S.Session
      reads this
    {
      S.Session(state, FieldsView(), hState, headers, content)
    }

    /** `parse_URI`: waits for a whole request line, removes it from the content and reads it. */
    method ParseUri() returns (flag: int)
      modifies this`content, this`verb, this`version, this`fileName, this`state
      ensures var pos := FindChar(old(content), '\r', 0);
              if pos < 0 then flag == L.PARSE_URI_AGAIN && unchanged(this)
              else (flag, FieldsView()) == L.ParseLine(old(content)[..pos], old(FieldsView()))
                   && content == old(content)[pos + 1..]
                   && state == if flag == L.PARSE_URI_SUCCESS then S.STATE_PARSE_HEADERS else old(state)
    {
      hide FindChar, Find, L.ParseTarget;
      var pos := FindChar(content, '\r', 0);
      if pos < 0 {
        return L.PARSE_URI_AGAIN;
      }
      var line := content[..pos];
      if |content| > pos + 1 {
        content := content[pos + 1..];
      } else {
        content := "";
      }
      pos := Find(line, "GET", 0);
      if pos < 0 {
        pos := Find(line, "POST", 0);
        if pos < 0 {
          return L.PARSE_URI_ERROR;
        }
        verb := L.METHOD_POST;
      } else {
        verb := L.METHOD_GET;
      }
      flag := ParseTarget(line, pos);
      if flag == L.PARSE_URI_SUCCESS {
        state := S.STATE_PARSE_HEADERS;
      }
    }

    /** The file name and the version of `parse_URI`. */
    method ParseTarget(line: string, from: nat) returns (flag: int)
      modifies this`version, this`fileName
      ensures (flag, FieldsView()) == L.ParseTarget(line, old(FieldsView()), from)
    {
      hide FindChar;
      var pos := FindChar(line, '/', from);
      if pos < 0 {
        return L.PARSE_URI_ERROR;
      }
      var space := FindChar(line, ' ', pos);
      if space < 0 {
        return L.PARSE_URI_ERROR;
      }
      if space - pos > 1 {
        fileName := line[pos + 1..space];
        var query := FindChar(fileName, '?', 0);
        if query >= 0 {
          fileName := fileName[..query];
        }
      } else {
        fileName := "index.html";
      }
      pos := FindChar(line, '/', space);
      if pos < 0 {
        return L.PARSE_URI_ERROR;
      }
      flag := ParseVersion(line, pos);
    }

    method ParseVersion(line: string, pos: nat) returns (flag: int)
      requires pos < |line|
      modifies this`version
      ensures (flag, FieldsView()) == L.ParseVersion(line, old(FieldsView()), pos)
    {
      if |line| - pos <= 3 {
        return L.PARSE_URI_ERROR;
      }
      var ver := line[pos + 1..pos + 4];
      if ver == "1.0" {
        version := L.HTTP_10;
      } else if ver == "1.1" {
        version := L.HTTP_11;
      } else {
        return L.PARSE_URI_ERROR;
      }
      flag := L.PARSE_URI_SUCCESS;
    }

    /** One pass of `handleRequest` over what was read, as far as the headers go. */
    method HandleInput(input: string) returns (progress: S.Progress)
      requires S.Reading(View())
      modifies this
      ensures (View(), progress) == S.Pass(old(View()), input)
    {
      hide FindChar, L.ParseLine, H.ParseHeaders;
      progress, content := S.Again, content + input;
      if state == S.STATE_PARSE_URI {
        var flag := ParseUri();
        if flag == L.PARSE_URI_AGAIN {
          return;
        } else if flag == L.PARSE_URI_ERROR {
          return S.Error;
        }
      }
      if state == S.STATE_PARSE_HEADERS {
        progress := HandleHeaders();
      }
    }

    method HandleHeaders() returns (progress: S.Progress)
      modifies this`content, this`hState, this`headers, this`state
      ensures (View(), progress) == S.HeaderPass(old(View()))
    {
      hide H.ParseHeaders;
      var defined, flag := ParseHeaders();
      if !defined {
        return S.Undefined;
      }
      if flag == H.PARSE_HEADER_AGAIN {
        return S.Again;
      } else if flag == H.PARSE_HEADER_ERROR {
        return S.Error;
      }
      state := if verb == L.METHOD_POST then S.STATE_RECV_BODY else S.STATE_ANALYSIS;
      progress := S.HeadersDone;
    }

    /** `handleRequest` called again for every chunk until the headers are done or an error ends the request. */
    method Receive(chunks: seq<string>) returns (progress: S.Progress, unread: seq<string>)
      requires S.Reading(View())
      modifies this
      ensures S.Received(progress, View(), unread) == S.Receive(old(View()), chunks)
    {
      hide S.Pass;
      progress, unread := S.Again, chunks;
      while unread != [] && progress.Again?
        invariant progress.Again? ==> S.Reading(View()) && S.Receive(View(), unread) == S.Receive(old(View()), chunks)
        invariant !progress.Again? ==> S.Received(progress, View(), unread) == S.Receive(old(View()), chunks)
        decreases |unread|
      {
        progress := HandleInput(unread[0]);
        unread := unread[1..];
      }
    }

    /** `parse_Headers`; `defined` is false if the call would step outside the content. */
    method ParseHeaders() returns (defined: bool, flag: int)
      modifies this`content, this`hState, this`headers
      ensures H.Outcome(defined, flag, hState, headers, content)
              == H.ParseHeaders(old(content), old(hState), old(headers))
    {
      var keyStart, keyEnd, valueStart, valueEnd, lineBegin := -1, -1, -1, -1, 0;
      var notFinish := true;
      var i := 0;
      ghost var goal := H.ScanFrom(content, 0, H.Begin(hState, headers));
      while i < |content| && notFinish
        invariant content == old(content) && lineBegin <= i <= |content|
        invariant var s := H.Scan(hState, keyStart, keyEnd, valueStart, valueEnd, lineBegin, headers);
                  if notFinish then H.ScanFrom(content, i, s) == goal else goal == (s, H.Finish)
      {
        var c := content[i];
        match hState {
          case Start =>
            if c != '\n' && c != '\r' {
              hState, keyStart, lineBegin := H.Key, i, i;
            }
          case Key =>
            if c == ':' {
              keyEnd := i;
              if keyEnd - keyStart <= 0 {
                return true, H.PARSE_HEADER_ERROR;
              }
              hState := H.Colon;
            } else if c == '\n' || c == '\r' {
              return true, H.PARSE_HEADER_ERROR;
            }
          case Colon =>
            if c == ' ' {
              hState := H.SpacesAfterColon;
            } else {
              return true, H.PARSE_HEADER_ERROR;
            }
          case SpacesAfterColon =>
            hState, valueStart := H.Value, i;
          case Value =>
            if c == '\r' {
              hState, valueEnd := H.CR, i;
              if valueEnd - valueStart <= 0 {
                return true, H.PARSE_HEADER_ERROR;
              }
            } else if i - valueStart > 255 {
              return true, H.PARSE_HEADER_ERROR;
            }
          case CR =>
            if c == '\n' {
              hState := H.LF;
              if !(0 <= keyStart <= keyEnd <= |content| && 0 <= valueStart <= valueEnd <= |content|) {
                return false, H.PARSE_HEADER_ERROR;
              }
              headers := headers[content[keyStart..keyEnd] := content[valueStart..valueEnd]];
              lineBegin := i;
            } else {
              return true, H.PARSE_HEADER_ERROR;
            }
          case LF =>
            if c == '\r' {
              hState := H.EndCR;
            } else {
              keyStart, hState := i, H.Key;
            }
          case EndCR =>
            if c == '\n' {
              hState := H.EndLF;
            } else {
              return true, H.PARSE_HEADER_ERROR;
            }
          case EndLF =>
            notFinish := false;
            keyStart, lineBegin := i, i;
        }
        i := i + 1;
      }
      defined := true;
      flag := if hState.EndLF? then H.PARSE_HEADER_SUCCESS else H.PARSE_HEADER_AGAIN;
      content := content[lineBegin..];
    }
  }
}
