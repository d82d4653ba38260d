/**
 The incremental HTTP request parser: it resumes where the last chunk ended, and cuts the
 buffer into C strings in place.
 */
module HttpParser {
  import opened HttpSpec

  const BUFFER_SIZE := 4096

  // ----- Lines

  datatype LineScan = LineScan(status: LineStatus, checked: nat, buffer: string)

  /** The buffer and the position after looking for a line end from `checked` on. */
  function ScanLine(s: string, checked: nat, read: nat): LineScan
    requires checked <= read <= |s|
  {
    var k := FindBreak(s[..read], checked);
    if k == read || (s[k] == '\r' && k + 1 == read) then LineScan(LineOpen, k, s)
    else if s[k] == '\r' && s[k + 1] == '\n' then LineScan(LineOk, k + 2, s[k := '\0'][k + 1 := '\0'])
    else if s[k] == '\n' && k > 1 && s[k - 1] == '\r' then LineScan(LineOk, k + 1, s[k - 1 := '\0'][k := '\0'])
    else LineScan(LineBad, k, s)
  }

  method ParseLine(buffer: array<char>, checkedIndex: nat, readIndex: nat)
    returns (status: LineStatus, checked: nat)
    requires checkedIndex <= readIndex <= buffer.Length
    modifies buffer
    ensures LineScan(status, checked, buffer[..]) == ScanLine(old(buffer[..]), checkedIndex, readIndex)
  {
    ghost var s := buffer[..];
    checked := checkedIndex;
    while checked < readIndex
      invariant checkedIndex <= checked <= readIndex && buffer[..] == s
      invariant FindBreak(s[..readIndex], checked) == FindBreak(s[..readIndex], checkedIndex)
    {
      var temp := buffer[checked];
      if temp == '\r' {
        if checked + 1 == readIndex {
          return LineOpen, checked;
        } else if buffer[checked + 1] == '\n' {
          buffer[checked] := '\0';
          buffer[checked + 1] := '\0';
          return LineOk, checked + 2;
        }
        return LineBad, checked;
      } else if temp == '\n' {
        if checked > 1 && buffer[checked - 1] == '\r' {
          buffer[checked - 1] := '\0';
          buffer[checked] := '\0';
          return LineOk, checked + 1;
        }
        return LineBad, checked;
      }
      checked := checked + 1;
    }
    status := LineOpen;
  }

  /** A line feed at which a scan starts ends the line if a carriage return stands before it, but not at the second
   byte of the buffer. */
  lemma {:induction false} StartsAtLineFeed(s: string, checked: nat, read: nat)
    requires 0 < checked < read <= |s| && s[checked - 1] == '\r' && s[checked] == '\n'
    ensures ScanLine(s, checked, read) ==
      if checked >= 2 then LineScan(LineOk, checked + 1, s[checked - 1 := '\0'][checked := '\0'])
      else LineScan(LineBad, checked, s)
  {
  }

  // ----- C strings in the buffer

  lemma {:induction false} FindAt(s: string, i: nat, k: nat, c: char)
    requires i <= k <= |s| && (forall j :: i <= j < k ==> s[j] != c) && (k < |s| ==> s[k] == c)
    ensures Find(s, i, c) == k
    decreases k - i
  {
    if i < k { FindAt(s, i + 1, k, c); }
  }

  /** `text` stands at `i` in the buffer and a zero byte follows it. */
  ghost predicate StringAt(s: string, i: nat, text: string) {
    && i + |text| < |s| && s[i..i + |text|] == text && s[i + |text|] == '\0'
    && forall j :: 0 <= j < |text| ==> text[j] != '\0'
  }

  lemma {:induction false} ReadString(s: string, i: nat, text: string)
    requires StringAt(s, i, text)
    ensures CString(s[i..]) == text
  {
    FindAt(s[i..], 0, |text|, '\0');
  }

  /** A zero byte written into a string ends it there and leaves the rest as a string of its own. */
  lemma {:induction false} CutString(s: string, i: nat, text: string, k: nat)
    requires StringAt(s, i, text) && k < |text|
    ensures StringAt(s[i + k := '\0'], i, text[..k])
    ensures forall j :: k < j <= |text| ==> StringAt(s[i + k := '\0'], i + j, text[j..])
  {
  }

  lemma {:induction false} Tail(s: string, i: nat, text: string, k: nat)
    requires StringAt(s, i, text) && k <= |text|
    ensures StringAt(s, i + k, text[k..])
  {
  }

  // ----- The request line and the headers

  /** Only bytes of the string of length `n` at `at` may have changed. */
  twostate predicate ChangedOnly(buffer: array<char>, at: nat, n: nat)
    reads buffer
  {
    forall j :: 0 <= j < buffer.Length && !(at <= j < at + n) ==> buffer[j] == old(buffer[j])
  }

  method ParseRequestLine(buffer: array<char>, szTemp: nat, ghost line: string)
    returns (code: HttpCode, state: CheckState)
    requires StringAt(buffer[..], szTemp, line)
    modifies buffer
    ensures if AcceptsRequestLine(line) then code == NoRequest && state == CheckHeader
            else code == BadRequest && state == CheckRequestLine
    ensures ChangedOnly(buffer, szTemp, |line|)
  {
    hide SameText, ValidUrl, FindBlank, SkipBlanks, AcceptsTarget, CString;
    state := CheckRequestLine;
    ReadString(buffer[..], szTemp, line);
    var blank := FindBlank(CString(buffer[szTemp..]), 0);
    if blank == |CString(buffer[szTemp..])| {
      return BadRequest, state;
    }
    CutString(buffer[..], szTemp, line, blank);
    buffer[szTemp + blank] := '\0';
    ReadString(buffer[..], szTemp, line[..blank]);
    if !SameText(CString(buffer[szTemp..]), "GET") {
      return BadRequest, state;
    }
    code, state := ParseTarget(buffer, szTemp + blank + 1, line[blank + 1..]);
  }

  /** The rest of the request line: the URL and the version. */
  method ParseTarget(buffer: array<char>, start: nat, ghost line: string)
    returns (code: HttpCode, state: CheckState)
    requires StringAt(buffer[..], start, line)
    modifies buffer
    ensures if AcceptsTarget(line) then code == NoRequest && state == CheckHeader
            else code == BadRequest && state == CheckRequestLine
    ensures ChangedOnly(buffer, start, |line|)
  {
    hide AcceptsVersion, ValidUrl, FindBlank, SkipBlanks, CString;
    state := CheckRequestLine;
    ReadString(buffer[..], start, line);
    var skip := SkipBlanks(CString(buffer[start..]), 0);
    var szURL := start + skip;
    ghost var target := line[skip..];
    Tail(buffer[..], start, line, skip);
    ReadString(buffer[..], szURL, target);
    var blank := FindBlank(CString(buffer[szURL..]), 0);
    if blank == |CString(buffer[szURL..])| {
      return BadRequest, state;
    }
    CutString(buffer[..], szURL, target, blank);
    buffer[szURL + blank] := '\0';
    ReadString(buffer[..], szURL, target[..blank]);
    var versionOk := CheckVersion(buffer, szURL + blank + 1, target[blank + 1..]);
    if !versionOk {
      return BadRequest, state;
    }
    var urlOk := CheckUrl(buffer, szURL, target[..blank]);
    if !urlOk {
      return BadRequest, state;
    }
    return NoRequest, CheckHeader;
  }

  /** Behind the scheme the URL is taken from its first slash on; without one there is none. */
  method CheckUrl(buffer: array<char>, start: nat, ghost url: string) returns (ok: bool)
    requires StringAt(buffer[..], start, url)
    ensures ok <==> IsUrl(url)
    ensures ok <==> ValidUrl(url)
  {
    hide SameText, CString, Find, IsUrl;
    UrlParts(url);
    ReadString(buffer[..], start, url);
    var text := CString(buffer[start..]);
    var szURL: nat := 0;
    if |text| >= 7 && SameText(text[..7], "http://") {
      szURL := Find(text, 7, '/');
      if szURL == |text| {
        return false;
      }
    }
    ok := szURL < |text| && text[szURL] == '/';
  }

  method CheckVersion(buffer: array<char>, start: nat, ghost version: string) returns (ok: bool)
    requires StringAt(buffer[..], start, version)
    ensures ok == AcceptsVersion(version)
  {
    hide SameText, SkipBlanks, CString;
    ReadString(buffer[..], start, version);
    var skip := SkipBlanks(CString(buffer[start..]), 0);
    Tail(buffer[..], start, version, skip);
    ReadString(buffer[..], start + skip, version[skip..]);
    ok := SameText(CString(buffer[start + skip..]), "HTTP/1.1");
  }

  method ParseHeaders(buffer: array<char>, szTemp: nat) returns (code: HttpCode)
    requires szTemp < buffer.Length
    ensures code == if CString(buffer[szTemp..]) == [] then GetRequest else NoRequest
  {
    if buffer[szTemp] == '\0' {
      code := GetRequest;
    } else {
      code := NoRequest;
    }
  }

  // ----- The buffer and the bytes received

  /** The buffer still holds the bytes received since the current line began. */
  ghost predicate Holds(s: string, data: string, start: nat, checked: nat) {
    && |data| <= |s| && start <= checked <= |data|
    && (forall j :: start <= j < |data| ==> s[j] == data[j])
    && (start > 0 ==> s[start - 1] != '\r')
    && forall j :: start <= j < checked ==> !IsBreak(data[j])
  }

  lemma {:induction false} BreakShift(data: string, start: nat)
    requires start <= |data|
    ensures FindBreak(data, start) == start + FindBreak(data[start..], 0)
  {
    FindBreakAt(data[start..], 0, FindBreak(data, start) - start);
  }

  /** The scan finds the line end of the bytes received. */
  lemma {:induction false} BreakFound(s: string, data: string, start: nat, checked: nat)
    requires Holds(s, data, start, checked)
    ensures FindBreak(s[..|data|], checked) == FindBreak(data, start) >= checked
  {
    FindBreakAt(s[..|data|], checked, FindBreak(data, start));
  }

  /** The first step of the verdict. */
  lemma {:induction false} VerdictStep(state: CheckState, s: string, k: nat)
    requires k == FindBreak(s, 0)
    ensures Verdict(state, s) ==
      if k == |s| || (s[k] == '\r' && k + 1 == |s|) then NoRequest
      else if s[k] == '\n' || s[k + 1] != '\n' then BadRequest
      else AfterLine(state, CString(s[..k]), s[k + 2..])
  {
    hide FindBreak, AfterLine, CString;
  }

  lemma {:induction false} VerdictAt(state: CheckState, data: string, start: nat)
    requires start <= |data|
    ensures var k := FindBreak(data, start);
      Verdict(state, data[start..]) ==
      if k == |data| || (data[k] == '\r' && k + 1 == |data|) then NoRequest
      else if data[k] == '\n' || data[k + 1] != '\n' then BadRequest
      else AfterLine(state, CString(data[start..k]), data[k + 2..])
  {
    hide FindBreak, AfterLine, CString, Verdict;
    BreakShift(data, start);
    var k, rest := FindBreak(data, start), data[start..];
    VerdictStep(state, rest, k - start);
    if k + 1 < |data| {
      assert rest[..k - start] == data[start..k] && rest[k - start + 2..] == data[k + 2..];
    }
  }

  /** A scan that finds no complete line end leaves the buffer ready for the next bytes. */
  lemma {:induction false} OpenHolds(s: string, data: string, start: nat, checked: nat)
    requires Holds(s, data, start, checked)
    ensures var r := ScanLine(s, checked, |data|);
      r.status == LineOpen ==> r.buffer == s && Holds(s, data, start, r.checked)
  {
    hide FindBreak;
    BreakFound(s, data, start, checked);
    FindBreakAt(data, start, FindBreak(data, start));
  }

  /** What a scan for a line end says about the bytes received. */
  lemma {:induction false} ScanMeaning(s: string, data: string, start: nat, checked: nat, state: CheckState)
    requires Holds(s, data, start, checked)
    ensures var r, k := ScanLine(s, checked, |data|), FindBreak(data, start);
      && (r.status == LineOpen ==>
            Verdict(state, data[start..]) == NoRequest && r.buffer == s && Holds(s, data, start, r.checked))
      && (r.status == LineBad ==> Verdict(state, data[start..]) == BadRequest)
      && (r.status == LineOk ==>
            && k + 1 < |data| && r.checked == k + 2 && r.buffer == s[k := '\0'][k + 1 := '\0']
            && Verdict(state, data[start..]) == AfterLine(state, CString(data[start..k]), data[k + 2..])
            && data[k] == '\r' && data[k + 1] == '\n')
  {
    hide FindBreak, AfterLine, CString, Verdict;
    BreakFound(s, data, start, checked);
    VerdictAt(state, data, start);
    OpenHolds(s, data, start, checked);
  }

  /** After the bytes `prefix` the parser continues in `state`, whatever follows. */
  ghost predicate Consumed(prefix: string, state: CheckState) {
    forall t: string :: Verdict(CheckRequestLine, prefix + t) == Verdict(state, t)
  }

  /** A complete line decides `code`, or nothing and the parser goes on in state `next`. */
  ghost predicate LineDecides(state: CheckState, line: string, code: HttpCode, next: CheckState) {
    forall rest :: AfterLine(state, line, rest) == if code == NoRequest then Verdict(next, rest) else code
  }

  lemma {:induction false} ConsumedLine(prefix: string, line: string, state: CheckState, next: CheckState, t: string)
    requires Consumed(prefix, state) && BreakFree(line) && LineDecides(state, CString(line), NoRequest, next)
    ensures Verdict(CheckRequestLine, prefix + (line + "\r\n" + t)) == Verdict(next, t)
  {
    hide CString, AfterLine, Verdict;
    VerdictOfLine(state, line, t);
  }

  lemma {:induction false} Rejoin(data: string, start: nat, k: nat, t: string)
    requires start <= k && k + 1 < |data| && data[k] == '\r' && data[k + 1] == '\n'
    ensures data[..k + 2] + t == data[..start] + (data[start..k] + "\r\n" + t)
  {
    assert data[..k + 2] == data[..start] + data[start..k] + "\r\n";
  }

  lemma {:induction false} LineConsumed(data: string, start: nat, k: nat, state: CheckState, next: CheckState)
    requires start <= |data| && Consumed(data[..start], state) && k == FindBreak(data, start)
    requires k + 1 < |data| && data[k] == '\r' && data[k + 1] == '\n'
    requires LineDecides(state, CString(data[start..k]), NoRequest, next)
    ensures Consumed(data[..k + 2], next)
  {
    assert BreakFree(data[start..k]);
    hide FindBreak, CString, AfterLine, Verdict;
    forall t: string ensures Verdict(CheckRequestLine, data[..k + 2] + t) == Verdict(next, t) {
      ConsumedLine(data[..start], data[start..k], state, next, t);
      Rejoin(data, start, k, t);
    }
  }

  /** The text of a complete line stands in the buffer as a C string. */
  lemma {:induction false} LineIsString(s: string, data: string, start: nat, checked: nat, k: nat)
    requires Holds(s, data, start, checked) && k == FindBreak(data, start) && k + 1 < |data|
    ensures StringAt(s[k := '\0'][k + 1 := '\0'], start, CString(data[start..k]))
    ensures |CString(data[start..k])| <= k - start
  {
    var line := data[start..k];
    assert forall j :: 0 <= j < |line| ==> line[j] == s[start + j];
  }

  class Connection {
    const buffer: array<char>
    var readIndex: nat
    var checkedIndex: nat
    var startLine: nat
    var checkState: CheckState
    /** All bytes received so far. */
    ghost var data: string

    ghost predicate Valid()
      reads this, buffer
    {
      && buffer.Length == BUFFER_SIZE && readIndex == |data| && checkState != CheckContent
      && Holds(buffer[..], data, startLine, checkedIndex)
      && Consumed(data[..startLine], checkState)
    }

    constructor ()
      ensures Valid() && fresh(buffer) && data == []
    {
      buffer := new char[BUFFER_SIZE](_ => '\0');
      readIndex, checkedIndex, startLine := 0, 0, 0;
      checkState := CheckRequestLine;
      data := [];
      new;
      forall t: string ensures [] + t == t {}
    }

    /** What the parser does with a complete line. */
    method TakeLine(szTemp: nat, ghost line: string) returns (code: HttpCode)
      requires StringAt(buffer[..], szTemp, line)
      modifies this`checkState, buffer
      ensures LineDecides(old(checkState), line, code, checkState)
      ensures code == NoRequest ==> checkState == CheckHeader
      ensures ChangedOnly(buffer, szTemp, |line|)
    {
      hide AcceptsRequestLine, Verdict;
      match checkState
      case CheckRequestLine =>
        var state;
        code, state := ParseRequestLine(buffer, szTemp, line);
        checkState := state;
      case CheckHeader =>
        ReadString(buffer[..], szTemp, line);
        code := ParseHeaders(buffer, szTemp);
      case CheckContent =>
        code := InternalError;
    }

    /** Takes the complete line that ends at `k`, where the line end has just been cut off. */
    method TakeComplete(ghost s: string, ghost checked: nat, ghost k: nat) returns (code: HttpCode)
      requires buffer.Length == |s| == BUFFER_SIZE && readIndex == |data| && checkState != CheckContent
      requires Holds(s, data, startLine, checked) && Consumed(data[..startLine], checkState)
      requires k == FindBreak(data, startLine) && k + 1 < |data| && data[k] == '\r' && data[k + 1] == '\n'
      requires checkedIndex == k + 2 && buffer[..] == s[k := '\0'][k + 1 := '\0']
      modifies this`startLine, this`checkState, buffer
      ensures code == NoRequest ==> Valid() && startLine == k + 2
      ensures LineDecides(old(checkState), CString(data[old(startLine)..k]), code, checkState)
    {
      hide FindBreak, CString, AfterLine, Verdict, LineDecides, Consumed;
      LineIsString(s, data, startLine, checked, k);
      ghost var state := checkState;
      var szTemp := startLine;
      startLine := checkedIndex;
      code := TakeLine(szTemp, CString(data[szTemp..k]));
      if code == NoRequest { LineConsumed(data, szTemp, k, state, checkState); }
    }

    /** One turn of the loop: looks for a line end and takes the line if it is complete. */
    method ParseOne() returns (done: bool, code: HttpCode)
      requires Valid()
      modifies this, buffer
      ensures data == old(data) && readIndex == old(readIndex)
      ensures done ==> code == Verdict(CheckRequestLine, data) && (code == NoRequest ==> Valid())
      ensures !done ==> Valid() && old(startLine) < startLine
    {
      hide FindBreak, CString, AfterLine, Verdict, ScanLine;
      ghost var k, s, was := FindBreak(data, startLine), buffer[..], checkedIndex;
      ScanMeaning(s, data, startLine, checkedIndex, checkState);
      assert data == data[..startLine] + data[startLine..];
      hide Holds;
      var status, checked := ParseLine(buffer, checkedIndex, readIndex);
      checkedIndex := checked;
      if status != LineOk {
        return true, if status == LineOpen then NoRequest else BadRequest;
      }
      code := TakeComplete(s, was, k);
      done := code != NoRequest;
    }

    method ParseContent() returns (code: HttpCode)
      requires Valid()
      modifies this, buffer
      ensures data == old(data) && readIndex == old(readIndex)
      ensures code == Verdict(CheckRequestLine, data)
      ensures code == NoRequest ==> Valid()
    {
      hide Verdict, Consumed;
      var done := false;
      code := NoRequest;
      while !done
        invariant data == old(data) && readIndex == old(readIndex)
        invariant done ==> code == Verdict(CheckRequestLine, data) && (code == NoRequest ==> Valid())
        invariant !done ==> Valid()
        decreases !done, readIndex - startLine
      {
        done, code := ParseOne();
      }
    }

    /** Receives the next chunk and parses what is complete. */
    method Receive(chunk: string) returns (code: HttpCode)
      requires Valid() && readIndex + |chunk| <= BUFFER_SIZE
      modifies this, buffer
      ensures data == old(data) + chunk && readIndex == old(readIndex) + |chunk|
      ensures code == Verdict(CheckRequestLine, data)
      ensures code == NoRequest ==> Valid()
    {
      ghost var before := buffer[..];
      forall i | 0 <= i < |chunk| {
        buffer[readIndex + i] := chunk[i];
      }
      readIndex := readIndex + |chunk|;
      data := data + chunk;
      assert data[..startLine] == old(data)[..startLine];
      assert Holds(buffer[..], data, startLine, checkedIndex);
      code := ParseContent();
    }
  }

  // ----- The receive loop

  function Min(a: int, b: int): (m: int)
    ensures m <= a && m <= b && (m == a || m == b)
  {
    if a < b then a else b
  }

  /** The bytes that arrive before the peer closes, which a receive call of size zero reports. */
  function Total(sizes: seq<nat>): nat {
    if sizes == [] || sizes[0] == 0 then 0 else sizes[0] + Total(sizes[1..])
  }

  /**
   Serves one client that sends `stream`.  The i-th receive call delivers `sizes[i]` bytes, or
   as many as are left in the stream or fit into the buffer; when it delivers none the
   connection counts as closed.
   */
  method Serve(stream: string, sizes: seq<nat>) returns (code: HttpCode)
    ensures code == Verdict(CheckRequestLine, stream[..Min(Total(sizes), Min(|stream|, 4096))])
  {
    hide Verdict, Holds, Consumed, Total;
    NothingDecided();
    var c := new Connection();
    ghost var limit := Min(|stream|, BUFFER_SIZE);
    ghost var end := Min(Total(sizes), limit);
    code := NoRequest;
    TotalFrom(sizes, 0);
    for i := 0 to |sizes|
      invariant fresh(c) && fresh(c.buffer) && c.Valid()
      invariant c.readIndex <= limit && c.data == stream[..c.readIndex]
      invariant Min(c.readIndex + Total(sizes[i..]), limit) == end
      invariant code == NoRequest == Verdict(CheckRequestLine, c.data)
    {
      TotalFrom(sizes, i);
      var dataRead;
      dataRead, code := Deliver(c, stream, sizes[i]);
      if dataRead == 0 || code != NoRequest {
        DecidedEarly(stream, c.readIndex, end);
        return;
      }
    }
    TotalFrom(sizes, |sizes|);
  }

  lemma {:induction false} NothingDecided()
    ensures Verdict(CheckRequestLine, []) == NoRequest
  {
  }

  lemma {:induction false} TotalFrom(sizes: seq<nat>, i: nat)
    requires i <= |sizes|
    ensures sizes[0..] == sizes
    ensures i == |sizes| ==> Total(sizes[i..]) == 0
    ensures i < |sizes| ==> Total(sizes[i..]) == if sizes[i] == 0 then 0 else sizes[i] + Total(sizes[i + 1..])
  {
    if i < |sizes| { assert sizes[i..][1..] == sizes[i + 1..]; }
  }

  /** Once there is a verdict, what arrives later does not change it. */
  lemma {:induction false} DecidedEarly(stream: string, n: nat, end: nat)
    requires n <= end <= |stream|
    ensures Verdict(CheckRequestLine, stream[..n]) != NoRequest ==>
              Verdict(CheckRequestLine, stream[..end]) == Verdict(CheckRequestLine, stream[..n])
  {
    hide Verdict;
    if Verdict(CheckRequestLine, stream[..n]) != NoRequest {
      VerdictStable(CheckRequestLine, stream[..n], stream[n..end]);
      assert stream[..n] + stream[n..end] == stream[..end];
    }
  }

  /** One turn of the receive loop. */
  method Deliver(c: Connection, stream: string, size: nat) returns (dataRead: nat, code: HttpCode)
    requires c.Valid() && c.readIndex <= Min(|stream|, BUFFER_SIZE) && c.data == stream[..c.readIndex]
    requires Verdict(CheckRequestLine, c.data) == NoRequest
    modifies c, c.buffer
    ensures dataRead == Min(size, Min(|stream|, BUFFER_SIZE) - old(c.readIndex))
    ensures c.readIndex == old(c.readIndex) + dataRead && c.data == stream[..c.readIndex]
    ensures code == Verdict(CheckRequestLine, c.data) && (code == NoRequest ==> c.Valid())
  {
    hide Verdict, Holds, Consumed;
    dataRead := Min(size, Min(|stream|, BUFFER_SIZE) - c.readIndex);
    if dataRead == 0 {
      return 0, NoRequest;
    }
    var n := c.readIndex + dataRead;
    code := c.Receive(stream[c.readIndex..n]);
    assert c.data == stream[..n];
  }
}
