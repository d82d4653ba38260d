/**
 What the HTTP request parser accepts, stated on the bytes received and not on its buffer.
 */
module HttpSpec {
  datatype CheckState = CheckRequestLine | CheckHeader | CheckContent
  datatype LineStatus = LineOk | LineBad | LineOpen
  datatype HttpCode = NoRequest | GetRequest | BadRequest | ForbiddenRequest | InternalError | ClosedConnection

  // ----- Text

  predicate IsBlank(c: char) { c == ' ' || c == '\t' }

  predicate IsBreak(c: char) { c == '\r' || c == '\n' }

  predicate AllBlank(s: string) { forall i :: 0 <= i < |s| ==> s[i] in " \t" }

  predicate NoBlank(s: string) { forall i :: 0 <= i < |s| ==> s[i] !in " \t" }

  function Lower(c: char): char {
    if 'A' <= c <= 'Z' then c - 'A' + 'a' else c
  }

  /** Equality that ignores the case of letters. */
  predicate SameText(a: string, b: string) {
    |a| == |b| && forall i :: 0 <= i < |a| ==> Lower(a[i]) == Lower(b[i])
  }

  /** The first index at or after `i` that holds `c`, or the length. */
  function Find(s: string, i: nat, c: char): (k: nat)
    requires i <= |s|
    ensures i <= k <= |s| && (k < |s| ==> s[k] == c)
    ensures forall j :: i <= j < k ==> s[j] != c
    decreases |s| - i
  {
    if i == |s| || s[i] == c then i else Find(s, i + 1, c)
  }

  function FindBlank(s: string, i: nat): (k: nat)
    requires i <= |s|
    ensures i <= k <= |s| && (k < |s| ==> IsBlank(s[k]))
    ensures forall j :: i <= j < k ==> !IsBlank(s[j])
    decreases |s| - i
  {
    if i == |s| || IsBlank(s[i]) then i else FindBlank(s, i + 1)
  }

  function SkipBlanks(s: string, i: nat): (k: nat)
    requires i <= |s|
    ensures i <= k <= |s| && (k < |s| ==> !IsBlank(s[k]))
    ensures forall j :: i <= j < k ==> IsBlank(s[j])
    decreases |s| - i
  {
    if i == |s| || !IsBlank(s[i]) then i else SkipBlanks(s, i + 1)
  }

  /** The text a C string function sees: everything before the first zero byte. */
  function CString(s: string): string {
    s[..Find(s, 0, '\0')]
  }

  // ----- The request line

  /** One character, or one letter in two cases. */
  predicate SameLetter(a: char, b: char) {
    || a == b
    || ('A' <= a <= 'Z' && b as int == a as int + 32)
    || ('A' <= b <= 'Z' && a as int == b as int + 32)
  }

  /** What a comparison that ignores case identifies. */
  lemma {:induction false} SameTextIs(a: string, b: string)
    ensures SameText(a, b) <==> |a| == |b| && forall i :: 0 <= i < |a| ==> SameLetter(a[i], b[i])
  {
    if |a| == |b| {
      forall i | 0 <= i < |a| ensures Lower(a[i]) == Lower(b[i]) <==> SameLetter(a[i], b[i]) {
        LowerIs(a[i], b[i]);
      }
    }
  }

  lemma {:induction false} LowerIs(a: char, b: char)
    ensures Lower(a) == Lower(b) <==> SameLetter(a, b)
  {
  }

  /** An absolute path, or the scheme and something with a slash in it. */
  ghost predicate IsUrl(u: string) {
    (exists p :: IsPath(u, p)) || exists scheme, host, p :: IsAbsolute(u, scheme, host, p)
  }

  ghost predicate IsPath(u: string, p: string) {
    u == "/" + p
  }

  ghost predicate IsAbsolute(u: string, scheme: string, host: string, p: string) {
    u == scheme + host + "/" + p && SameText(scheme, "http://")
  }

  /** The same, by looking at the first characters. */
  predicate ValidUrl(u: string) {
    if |u| >= 7 && SameText(u[..7], "http://") then Find(u, 7, '/') < |u| else |u| > 0 && u[0] == '/'
  }

  lemma {:induction false} FindFirst(s: string, i: nat, k: nat, c: char)
    requires i <= k < |s| && s[k] == c
    ensures Find(s, i, c) <= k
  {
  }

  lemma {:induction false} UrlParts(u: string)
    ensures ValidUrl(u) <==> IsUrl(u)
  {
    hide SameText, Find;
    if ValidUrl(u) { PartsOfUrl(u); }
    if p :| IsPath(u, p) { PathIsUrl(u, p); }
    if scheme, host, p :| IsAbsolute(u, scheme, host, p) {
      assert |scheme| == 7 by { SameTextIs(scheme, "http://"); }
      assert u[..7] == scheme && u[7 + |host|] == '/';
      FindFirst(u, 7, 7 + |host|, '/');
    }
  }

  lemma {:induction false} PartsOfUrl(u: string)
    requires ValidUrl(u)
    ensures IsUrl(u)
  {
    hide SameText, Find;
    if |u| >= 7 && SameText(u[..7], "http://") {
      var k := Find(u, 7, '/');
      assert u == u[..7] + u[7..k] + "/" + u[k + 1..];
      assert IsAbsolute(u, u[..7], u[7..k], u[k + 1..]);
    } else {
      assert u == "/" + u[1..];
      assert IsPath(u, u[1..]);
    }
  }

  lemma {:induction false} PathIsUrl(u: string, p: string)
    requires IsPath(u, p)
    ensures ValidUrl(u)
  {
    if |u| >= 7 {
      assert !SameLetter(u[..7][0], "http://"[0]);
      SameTextIs(u[..7], "http://");
    }
  }

  /** The words of a request line: a method, a URL and a version between runs of blanks. */
  ghost predicate RequestWords(line: string, m: string, b1: string, u: string, b2: string, v: string) {
    && line == m + b1 + u + b2 + v
    && SameText(m, "GET") && AllBlank(b1) && b1 != []
    && NoBlank(u) && u != [] && AllBlank(b2) && b2 != [] && SameText(v, "HTTP/1.1")
    && IsUrl(u)
  }

  ghost predicate ValidRequestLine(line: string) {
    exists m, b1, u, b2, v :: RequestWords(line, m, b1, u, b2, v)
  }

  /** The same, by cutting the line from the left. */
  predicate AcceptsRequestLine(line: string) {
    var k := FindBlank(line, 0);
    k < |line| && SameText(line[..k], "GET") && AcceptsTarget(line[k + 1..])
  }

  predicate AcceptsTarget(s: string) {
    var u := s[SkipBlanks(s, 0)..];
    var k := FindBlank(u, 0);
    k < |u| && AcceptsVersion(u[k + 1..]) && ValidUrl(u[..k])
  }

  predicate AcceptsVersion(s: string) {
    SameText(s[SkipBlanks(s, 0)..], "HTTP/1.1")
  }

  // ----- The request

  /** The first line break at or after `i`, or the length. */
  function FindBreak(s: string, i: nat): (k: nat)
    requires i <= |s|
    ensures i <= k <= |s| && (k < |s| ==> IsBreak(s[k]))
    ensures forall j :: i <= j < k ==> !IsBreak(s[j])
    decreases |s| - i
  {
    if i == |s| || IsBreak(s[i]) then i else FindBreak(s, i + 1)
  }

  /** The verdict on everything received so far, line by line. */
  function Verdict(state: CheckState, s: string): HttpCode
    decreases |s|
  {
    var k := FindBreak(s, 0);
    if k == |s| || (s[k] == '\r' && k + 1 == |s|) then NoRequest
    else if s[k] == '\n' || s[k + 1] != '\n' then BadRequest
    else AfterLine(state, CString(s[..k]), s[k + 2..])
  }

  /** What a complete line decides, or else the verdict on what follows it. */
  function AfterLine(state: CheckState, line: string, rest: string): HttpCode
    decreases |rest| + 1
  {
    match state
    case CheckRequestLine => if AcceptsRequestLine(line) then Verdict(CheckHeader, rest) else BadRequest
    case CheckHeader => if line == [] then GetRequest else Verdict(CheckHeader, rest)
    case CheckContent => InternalError
  }

  // ----- Facts about the specification

  lemma {:induction false} FindBlankAt(s: string, i: nat, k: nat)
    requires i <= k <= |s| && (forall j :: i <= j < k ==> !IsBlank(s[j])) && (k < |s| ==> IsBlank(s[k]))
    ensures FindBlank(s, i) == k
    decreases k - i
  {
    if i < k { FindBlankAt(s, i + 1, k); }
  }

  lemma {:induction false} SkipBlanksAt(s: string, i: nat, k: nat)
    requires i <= k <= |s| && (forall j :: i <= j < k ==> IsBlank(s[j])) && (k < |s| ==> !IsBlank(s[k]))
    ensures SkipBlanks(s, i) == k
    decreases k - i
  {
    if i < k { SkipBlanksAt(s, i + 1, k); }
  }

  /** A line is accepted exactly when it consists of the three words. */
  lemma {:induction false} AcceptsIsValid(line: string)
    ensures AcceptsRequestLine(line) <==> ValidRequestLine(line)
  {
    if AcceptsRequestLine(line) {
      var m, b1, u, b2, v := AcceptedWords(line);
    }
    if ValidRequestLine(line) {
      var m, b1, u, b2, v :| RequestWords(line, m, b1, u, b2, v);
      WordsAccepted(line, m, b1, u, b2, v);
    }
  }

  lemma {:induction false} AcceptedWords(line: string) returns (m: string, b1: string, u: string, b2: string, v: string)
    requires AcceptsRequestLine(line)
    ensures RequestWords(line, m, b1, u, b2, v)
  {
    hide SameText, ValidUrl, FindBlank, SkipBlanks, AcceptsTarget;
    var k := FindBlank(line, 0);
    var blanks;
    blanks, u, b2, v := TargetWords(line[k + 1..]);
    m, b1 := line[..k], [line[k]] + blanks;
    UrlParts(u);
    Regroup(line, k, blanks, u, b2, v);
  }

  lemma {:induction false} Regroup(line: string, k: nat, b1: string, u: string, b2: string, v: string)
    requires k < |line| && line[k + 1..] == b1 + u + b2 + v
    ensures line == line[..k] + ([line[k]] + b1) + u + b2 + v
  {
    assert line == line[..k] + [line[k]] + line[k + 1..];
  }

  lemma {:induction false} RegroupTarget(s: string, i: nat, k: nat, l: nat)
    requires i <= |s| && k < |s[i..]| && l <= |s[i..][k + 1..]|
    ensures s == s[..i] + s[i..][..k] + ([s[i..][k]] + s[i..][k + 1..][..l]) + s[i..][k + 1..][l..]
  {
    var t := s[i..];
    assert t == t[..k] + ([t[k]] + t[k + 1..][..l]) + t[k + 1..][l..];
    assert s == s[..i] + t;
  }

  lemma {:induction false} BlankRun(c: char, w: string, l: nat)
    requires IsBlank(c) && l <= |w| && forall j :: 0 <= j < l ==> IsBlank(w[j])
    ensures AllBlank([c] + w[..l])
  {
  }

  lemma {:induction false} TargetWords(s: string) returns (b1: string, u: string, b2: string, v: string)
    requires AcceptsTarget(s)
    ensures s == b1 + u + b2 + v && AllBlank(b1) && NoBlank(u) && u != [] && ValidUrl(u)
    ensures AllBlank(b2) && b2 != [] && SameText(v, "HTTP/1.1")
  {
    hide SameText, ValidUrl, FindBlank, SkipBlanks;
    var i := SkipBlanks(s, 0);
    var target := s[i..];
    var k := FindBlank(target, 0);
    var w := target[k + 1..];
    var l := SkipBlanks(w, 0);
    assert AllBlank(s[..i]) && NoBlank(target[..k]);
    b1, u, b2, v := s[..i], target[..k], [target[k]] + w[..l], w[l..];
    RegroupTarget(s, i, k, l);
    BlankRun(target[k], w, l);
  }

  lemma {:induction false} WordsAccepted(line: string, m: string, b1: string, u: string, b2: string, v: string)
    requires RequestWords(line, m, b1, u, b2, v)
    ensures AcceptsRequestLine(line)
  {
    hide ValidUrl, SameText, AcceptsRequestLine, AcceptsTarget, AcceptsVersion, IsUrl;
    UrlParts(u);
    GetHasNoBlank(m, v);
    VersionAccepted(b2[1..], v);
    TargetAccepted(b1[1..], u, b2[0], b2[1..] + v);
    LineAccepted(m, b1[0], b1[1..] + u + [b2[0]] + (b2[1..] + v));
    RegroupWords(m, b1, u, b2, v);
  }

  lemma {:induction false} RegroupWords(m: string, b1: string, u: string, b2: string, v: string)
    requires b1 != [] && b2 != []
    ensures m + b1 + u + b2 + v == m + [b1[0]] + (b1[1..] + u + [b2[0]] + (b2[1..] + v))
  {
    assert b1 == [b1[0]] + b1[1..] && b2 == [b2[0]] + b2[1..];
  }

  lemma {:induction false} VersionAccepted(b: string, v: string)
    requires AllBlank(b) && SameText(v, "HTTP/1.1") && NoBlank(v)
    ensures AcceptsVersion(b + v)
  {
    assert (b + v)[|b|] == v[0] && (b + v)[|b|..] == v;
    SkipBlanksAt(b + v, 0, |b|);
  }

  lemma {:induction false} TargetAccepted(b: string, u: string, c: char, w: string)
    requires AllBlank(b) && NoBlank(u) && u != [] && IsBlank(c) && AcceptsVersion(w) && ValidUrl(u)
    ensures AcceptsTarget(b + u + [c] + w)
  {
    var s, target := b + u + [c] + w, u + [c] + w;
    hide ValidUrl, AcceptsVersion;
    assert s[|b|] == u[0] && s[|b|..] == target;
    SkipBlanksAt(s, 0, |b|);
    assert target[..|u|] == u && target[|u|] == c && target[|u| + 1..] == w;
    FindBlankAt(target, 0, |u|);
  }

  lemma {:induction false} LineAccepted(m: string, c: char, w: string)
    requires SameText(m, "GET") && NoBlank(m) && IsBlank(c) && AcceptsTarget(w)
    ensures AcceptsRequestLine(m + [c] + w)
  {
    var s := m + [c] + w;
    hide AcceptsTarget, SameText;
    assert s[..|m|] == m && s[|m|] == c && s[|m| + 1..] == w;
    FindBlankAt(s, 0, |m|);
  }

  lemma {:induction false} GetHasNoBlank(m: string, v: string)
    requires SameText(m, "GET") && SameText(v, "HTTP/1.1")
    ensures NoBlank(m) && NoBlank(v)
  {
  }

  lemma {:induction false} FindBreakAt(s: string, i: nat, k: nat)
    requires i <= k <= |s| && (forall j :: i <= j < k ==> !IsBreak(s[j])) && (k < |s| ==> IsBreak(s[k]))
    ensures FindBreak(s, i) == k
    decreases k - i
  {
    if i < k { FindBreakAt(s, i + 1, k); }
  }

  /** A decision does not change when more bytes arrive. */
  lemma {:induction false} VerdictStable(state: CheckState, s: string, t: string)
    requires Verdict(state, s) != NoRequest
    ensures Verdict(state, s + t) == Verdict(state, s)
    decreases |s|
  {
    hide Verdict, AfterLine, CString, FindBreak;
    var k := Decided(state, s);
    if s[k] == '\n' || s[k + 1] != '\n' {
      BadStable(state, s, t);
    } else {
      var line, rest := s[..k], s[k + 2..];
      CutLine(s, k, t);
      VerdictOfLine(state, line, rest);
      VerdictOfLine(state, line, rest + t);
      AfterLineStable(state, CString(line), rest, t);
    }
  }

  /** A decision needs a line end. */
  lemma {:induction false} Decided(state: CheckState, s: string) returns (k: nat)
    requires Verdict(state, s) != NoRequest
    ensures k == FindBreak(s, 0) < |s| && BreakFree(s[..k]) && (s[k] == '\r' || s[k] == '\n')
    ensures s[k] == '\r' ==> k + 1 < |s|
  {
    hide AfterLine, CString;
    k := FindBreak(s, 0);
  }

  lemma {:induction false} CutLine(s: string, k: nat, t: string)
    requires k + 1 < |s| && s[k] == '\r' && s[k + 1] == '\n'
    ensures s == s[..k] + "\r\n" + s[k + 2..]
    ensures s + t == s[..k] + "\r\n" + (s[k + 2..] + t)
  {
    assert s == s[..k] + "\r\n" + s[k + 2..];
  }

  lemma {:induction false} BadStable(state: CheckState, s: string, t: string)
    requires var k := FindBreak(s, 0);
      k < |s| && (s[k] == '\n' || (k + 1 < |s| && s[k + 1] != '\n'))
    ensures Verdict(state, s) == Verdict(state, s + t) == BadRequest
  {
    FindBreakAt(s + t, 0, FindBreak(s, 0));
    hide AfterLine, CString, FindBreak;
  }

  lemma {:induction false} AfterLineStable(state: CheckState, line: string, rest: string, t: string)
    requires AfterLine(state, line, rest) != NoRequest
    ensures AfterLine(state, line, rest + t) == AfterLine(state, line, rest)
    decreases |rest| + 1
  {
    hide AcceptsRequestLine, Verdict;
    if state != CheckContent && AfterLine(state, line, rest) == Verdict(CheckHeader, rest) {
      VerdictStable(CheckHeader, rest, t);
    }
  }

  // ----- Accepted requests, without reference to the scan

  function Joined(lines: seq<string>): string {
    if lines == [] then [] else lines[0] + "\r\n" + Joined(lines[1..])
  }

  predicate BreakFree(s: string) { forall i :: 0 <= i < |s| ==> s[i] !in "\r\n" }

  /** Non-empty header lines and then an empty one. */
  ghost predicate HeaderBlock(lines: seq<string>) {
    && lines != [] && (forall i :: 0 <= i < |lines| ==> BreakFree(lines[i]))
    && CString(lines[|lines| - 1]) == []
    && forall i :: 0 <= i < |lines| - 1 ==> CString(lines[i]) != []
  }

  /** `s` begins with a request line and a block of headers. */
  ghost predicate IsRequest(s: string, line: string, headers: seq<string>, rest: string) {
    && s == line + "\r\n" + (Joined(headers) + rest)
    && BreakFree(line) && ValidRequestLine(CString(line)) && HeaderBlock(headers)
  }

  lemma {:induction false} VerdictOfLine(state: CheckState, line: string, rest: string)
    requires BreakFree(line)
    ensures Verdict(state, line + "\r\n" + rest) == AfterLine(state, CString(line), rest)
  {
    var s, k := line + "\r\n" + rest, |line|;
    FindBreakAt(s, 0, k);
    assert s[..k] == line && s[k + 2..] == rest;
  }

  lemma {:induction false} JoinedFirst(lines: seq<string>, rest: string)
    requires lines != []
    ensures Joined(lines) + rest == lines[0] + "\r\n" + (Joined(lines[1..]) + rest)
  {
  }

  lemma {:induction false} JoinedMore(line: string, lines: seq<string>)
    ensures Joined([line] + lines) == line + "\r\n" + Joined(lines)
  {
    assert ([line] + lines)[1..] == lines;
  }

  lemma {:induction false} HeadersAccepted(lines: seq<string>, rest: string)
    requires HeaderBlock(lines)
    ensures Verdict(CheckHeader, Joined(lines) + rest) == GetRequest
    decreases |lines|
  {
    hide Verdict, CString, Joined, BreakFree;
    VerdictOfLine(CheckHeader, lines[0], Joined(lines[1..]) + rest);
    JoinedFirst(lines, rest);
    if |lines| > 1 { HeadersAccepted(lines[1..], rest); }
  }

  /** The first line of an accepted header block. */
  lemma {:induction false} AcceptedFirst(s: string) returns (line: string, more: string)
    requires Verdict(CheckHeader, s) == GetRequest
    ensures s == line + "\r\n" + more && BreakFree(line)
    ensures CString(line) == [] || Verdict(CheckHeader, more) == GetRequest
  {
    var k := FindBreak(s, 0);
    line, more := s[..k], s[k + 2..];
    hide FindBreak, CString;
    CutLine(s, k, []);
  }

  lemma {:induction false} AcceptedHeaders(s: string) returns (lines: seq<string>, rest: string)
    requires Verdict(CheckHeader, s) == GetRequest
    ensures HeaderBlock(lines) && s == Joined(lines) + rest
    decreases |s|
  {
    hide Verdict, CString, BreakFree, Joined;
    var line, more := AcceptedFirst(s);
    if CString(line) == [] {
      lines, rest := [line], more;
      JoinedMore(line, []);
      assert [line] + [] == [line] && Joined([]) == [] by { JoinedNone(); }
    } else {
      lines, rest := AcceptedHeaders(more);
      JoinedMore(line, lines);
      assert (line + "\r\n" + Joined(lines)) + rest == line + "\r\n" + (Joined(lines) + rest);
      lines := [line] + lines;
    }
  }

  lemma {:induction false} JoinedNone()
    ensures Joined([]) == []
  {
  }

  /** A request is accepted exactly when it has the shape of one. */
  lemma {:induction false} AcceptedIsRequest(s: string)
    ensures Verdict(CheckRequestLine, s) == GetRequest <==>
            exists line, headers, rest :: IsRequest(s, line, headers, rest)
  {
    if Verdict(CheckRequestLine, s) == GetRequest {
      var k := FindBreak(s, 0);
      var line, more := s[..k], s[k + 2..];
      assert s == line + "\r\n" + more;
      VerdictOfLine(CheckRequestLine, line, more);
      hide ValidRequestLine, AcceptsRequestLine, HeaderBlock, Joined, CString;
      AcceptsIsValid(CString(line));
      var headers, rest := AcceptedHeaders(more);
      assert IsRequest(s, line, headers, rest);
    }
    if exists line, headers, rest :: IsRequest(s, line, headers, rest) {
      hide ValidRequestLine, AcceptsRequestLine, HeaderBlock, Joined, CString;
      var line, headers, rest :| IsRequest(s, line, headers, rest);
      VerdictOfLine(CheckRequestLine, line, Joined(headers) + rest);
      AcceptsIsValid(CString(line));
      HeadersAccepted(headers, rest);
    }
  }

  // ----- Requests that are not complete

  /** The beginning of a line: its end has not arrived. */
  ghost predicate OpenLine(s: string) {
    BreakFree(s) || (s != [] && s[|s| - 1] == '\r' && BreakFree(s[..|s| - 1]))
  }

  /** Complete lines that are not the last of a header block, and the beginning of another. */
  ghost predicate OpenHeaders(s: string, lines: seq<string>, tail: string) {
    && s == Joined(lines) + tail && OpenLine(tail)
    && forall i :: 0 <= i < |lines| ==> BreakFree(lines[i]) && CString(lines[i]) != []
  }

  /** The beginning of a request: not even one line, or a request line and some headers. */
  ghost predicate OpenRequest(s: string) {
    OpenLine(s) || exists line, more, lines, tail ::
      && s == line + "\r\n" + more && BreakFree(line) && ValidRequestLine(CString(line))
      && OpenHeaders(more, lines, tail)
  }

  lemma {:induction false} OpenLineWaits(state: CheckState, s: string)
    requires OpenLine(s)
    ensures Verdict(state, s) == NoRequest
  {
    hide AfterLine, CString;
    FindBreakAt(s, 0, if BreakFree(s) then |s| else |s| - 1);
  }

  /** A stream without a decision before its first line end is the beginning of a line, or else has one. */
  lemma {:induction false} FirstLine(state: CheckState, s: string) returns (line: string, more: string)
    requires Verdict(state, s) != BadRequest && !OpenLine(s)
    ensures s == line + "\r\n" + more && BreakFree(line)
    ensures Verdict(state, s) == AfterLine(state, CString(line), more)
  {
    var k := FindBreak(s, 0);
    line, more := s[..k], s[k + 2..];
    hide FindBreak, CString, AfterLine;
    CutLine(s, k, []);
  }

  lemma {:induction false} HeadersWait(s: string) returns (lines: seq<string>, tail: string)
    requires Verdict(CheckHeader, s) == NoRequest
    ensures OpenHeaders(s, lines, tail)
    decreases |s|
  {
    hide Verdict, CString, BreakFree, Joined, OpenLine;
    if OpenLine(s) {
      lines, tail := [], s;
      JoinedNone();
      assert [] + s == s;
    } else {
      var line, more := FirstLine(CheckHeader, s);
      lines, tail := HeadersWait(more);
      JoinedMore(line, lines);
      assert (line + "\r\n" + Joined(lines)) + tail == line + "\r\n" + (Joined(lines) + tail);
      lines := [line] + lines;
    }
  }

  lemma {:induction false} WaitingHeaders(s: string, lines: seq<string>, tail: string)
    requires OpenHeaders(s, lines, tail)
    ensures Verdict(CheckHeader, s) == NoRequest
    decreases |lines|
  {
    hide Verdict, CString, BreakFree, Joined, OpenLine;
    if lines == [] {
      JoinedNone();
      assert [] + tail == tail;
      OpenLineWaits(CheckHeader, s);
    } else {
      JoinedFirst(lines, tail);
      VerdictOfLine(CheckHeader, lines[0], Joined(lines[1..]) + tail);
      WaitingHeaders(Joined(lines[1..]) + tail, lines[1..], tail);
    }
  }

  /** The parser waits for more exactly if what it has is the beginning of a request. */
  lemma {:induction false} WaitsForMore(s: string)
    ensures Verdict(CheckRequestLine, s) == NoRequest <==> OpenRequest(s)
  {
    hide Verdict, CString, BreakFree, Joined, OpenLine, OpenHeaders, ValidRequestLine, AcceptsRequestLine;
    if OpenLine(s) {
      OpenLineWaits(CheckRequestLine, s);
    } else if Verdict(CheckRequestLine, s) == NoRequest {
      var line, more := FirstLine(CheckRequestLine, s);
      AcceptsIsValid(CString(line));
      var lines, tail := HeadersWait(more);
    } else if line, more, lines, tail :|
      && s == line + "\r\n" + more && BreakFree(line) && ValidRequestLine(CString(line))
      && OpenHeaders(more, lines, tail) {
      VerdictOfLine(CheckRequestLine, line, more);
      AcceptsIsValid(CString(line));
      WaitingHeaders(more, lines, tail);
    }
  }

  /** Everything else is refused. */
  lemma {:induction false} OtherwiseBad(state: CheckState, s: string)
    requires state != CheckContent
    ensures Verdict(state, s) == NoRequest || Verdict(state, s) == GetRequest || Verdict(state, s) == BadRequest
    decreases |s|
  {
    hide Verdict, CString, BreakFree, OpenLine, AcceptsRequestLine;
    if Verdict(state, s) != BadRequest && !OpenLine(s) {
      var line, more := FirstLine(state, s);
      OtherwiseBad(CheckHeader, more);
    } else if OpenLine(s) {
      OpenLineWaits(state, s);
    }
  }
}
