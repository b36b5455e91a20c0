/** engmoded's HTTP responses: preparing and parsing. */
module HttpResponse {
  import opened Words
  import opened Http

  datatype Response = Response(protocol: Protocol, status: u32, reason: string, headers: seq<Header>, body: string)

  /** A number as an output stream writes it. */
  function Decimal(n: nat): (s: string)
    ensures s != "" && forall c :: c in s ==> IsDigit(c)
  {
    (if n < 10 then "" else Decimal(n / 10)) + [('0' as int + n % 10) as char]
  }

  predicate IsDigit(c: char) {
    '0' <= c <= '9'
  }

  /** The value of the digits `s` begins with, behind digits of value `acc`. */
  function DigitsValue(s: string, acc: nat): nat {
    if s == "" || !IsDigit(s[0]) then acc
    else DigitsValue(s[1..], acc * 10 + (s[0] as int - '0' as int))
  }

  function SkipBlanks(s: string): string {
    if s != "" && s[0] in " \t\n\U{0B}\U{0C}\r" then SkipBlanks(s[1..]) else s
  }

  /** `atoi`; `None` when the number does not fit an `int`. */
  function Atoi(s: string): Option<int> {
    var t := SkipBlanks(s);
    var negative := t != "" && t[0] == '-';
    var magnitude: int := DigitsValue(if t != "" && t[0] in "+-" then t[1..] else t, 0);
    var value := if negative then -magnitude else magnitude;
    if -0x8000_0000 <= value < 0x8000_0000 then Some(value) else None
  }

  function Prepare(r: Response): string
    requires !r.protocol.UNSUPPORTED?
  {
    ProtocolName(r.protocol) + " " + Decimal(r.status) + " " + r.reason + CRLF + Text(Headers(r.headers, r.body))
  }

  /** `parseResponse` on an object in state `r`. */
  function Parse(r: Response, data: string): Outcome<Response> {
    var space := Find(data, " ", 0);
    var protocol := ParseProtocol(Substr(data, 0, space).value);
    if protocol.UNSUPPORTED? then Done(r.(protocol := protocol))
    else ParseAfterProtocol(r.(protocol := protocol), data, Plus(space, 1))
  }

  /** The status code, kept as an unsigned number, and everything behind it. */
  function ParseAfterProtocol(r: Response, data: string, at: nat): Outcome<Response>
    requires at <= |data|
  {
    var space := Find(data, " ", at);
    var status := Atoi(Substr(data, at, space).value);
    if status.None? then Undefined
    else ParseAfterStatus(r.(status := status.value % 0x1_0000_0000), data, Plus(space, 1))
  }

  /** The reason phrase and everything behind it. */
  function ParseAfterStatus(r: Response, data: string, at: nat): Outcome<Response>
    requires at <= |data|
  {
    var eol := Find(data, CRLF, at);
    var reason := Substr(data, at, eol).value;
    match ParseHeaders(data, Plus(eol, 2), r.headers, false)
    case Done(h) => Done(r.(reason := reason, headers := h.list, body := h.body))
    case Throws => Throws
    case Diverges => Diverges
    case Undefined => Undefined
  }

  /** An object of class HTTPResponse. */
  class ResponseObject {
    var protocol: Protocol
    var statusCode: u32
    var reasonPhrase: string
    var headers: seq<Header>
    var body: string
    var data: string

    function View(): Response
      reads this
    {
      Response(protocol, statusCode, reasonPhrase, headers, body)
    }

    /** `prepareResponse`; false is the error return. */
    method PrepareResponse() returns (ok: bool)
      modifies this`data
      ensures ok == !protocol.UNSUPPORTED?
      ensures data == if ok then Prepare(View()) else old(data)
    {
      if protocol.UNSUPPORTED? { return false; }
      var line := ProtocolName(protocol) + " " + Decimal(statusCode) + " " + reasonPhrase + CRLF;
      var text := PutHeaders(headers, body);
      data := line + text;
      return true;
    }

    /** `parseResponse`. When it does not come to an end there is no state to speak of. */
    method ParseResponse() returns (r: Outcome<Response>)
      modifies this`protocol, this`statusCode, this`reasonPhrase, this`headers, this`body
      ensures r == Parse(old(View()), data)
      ensures r.Done? ==> View() == r.value
    {
      hide ParseAfterStatus, Atoi;
      var space := Find(data, " ", 0);
      protocol := ParseProtocol(Substr(data, 0, space).value);
      if protocol.UNSUPPORTED? { return Done(View()); }
      var at := Plus(space, 1);
      space := Find(data, " ", at);
      var status := Atoi(Substr(data, at, space).value);
      if status.None? { return Undefined; }
      statusCode := status.value % 0x1_0000_0000;
      r := ParseRest(Plus(space, 1));
    }

    /** The second half of `parseResponse`, from the reason phrase on. */
    method ParseRest(at: nat) returns (r: Outcome<Response>)
      requires at <= |data|
      modifies this`reasonPhrase, this`headers, this`body
      ensures r == ParseAfterStatus(old(View()), data, at)
      ensures r.Done? ==> View() == r.value
    {
      hide ParseHeaders;
      var eol := Find(data, CRLF, at);
      reasonPhrase := Substr(data, at, eol).value;
      var h := HeaderLoop(data, Plus(eol, 2), headers);
      if h.Throws? { return Throws; }
      if h.Diverges? { return Diverges; }
      if h.Undefined? { return Undefined; }
      headers, body := h.value.list, h.value.body;
      return Done(View());
    }
  }

  lemma {:induction false} DigitsAppend(s: string, c: char, acc: nat)
    requires IsDigit(c) && forall d :: d in s ==> IsDigit(d)
    ensures DigitsValue(s + [c], acc) == DigitsValue(s, acc) * 10 + (c as int - '0' as int)
    decreases |s|
  {
    if s != "" {
      assert (s + [c])[1..] == s[1..] + [c];
      assert IsDigit(s[0]);
      DigitsAppend(s[1..], c, acc * 10 + (s[0] as int - '0' as int));
    }
  }

  lemma {:induction false} DecimalValue(n: nat)
    ensures DigitsValue(Decimal(n), 0) == n
  {
    if n >= 10 {
      DecimalValue(n / 10);
      DigitsAppend(Decimal(n / 10), ('0' as int + n % 10) as char, 0);
    }
  }

  /** `atoi` inverts the decimal writing of every number that fits an `int`. */
  lemma AtoiDecimal(n: u32)
    ensures Atoi(Decimal(n)) == if n < 0x8000_0000 then Some(n) else None
  {
    DecimalValue(n);
    assert IsDigit(Decimal(n)[0]);
  }

  predicate Blank(c: char) {
    c == ' ' || c == '\t' || c == '\n' || c == '\U{0B}' || c == '\U{0C}' || c == '\r'
  }

  lemma {:induction false} SkipBlanksPast(blanks: string, rest: string)
    requires (forall k :: 0 <= k < |blanks| ==> Blank(blanks[k])) && (rest != "" ==> !Blank(rest[0]))
    ensures SkipBlanks(blanks + rest) == rest
    decreases |blanks|
  {
    if blanks == "" {
      assert blanks + rest == rest;
    } else {
      assert (blanks + rest)[1..] == blanks[1..] + rest && (blanks + rest)[0] == blanks[0];
      SkipBlanksPast(blanks[1..], rest);
    }
  }

  lemma {:induction false} DigitsStop(s: string, rest: string, acc: nat)
    requires (forall c :: c in s ==> IsDigit(c)) && (rest != "" ==> !IsDigit(rest[0]))
    ensures DigitsValue(s + rest, acc) == DigitsValue(s, acc)
    decreases |s|
  {
    if s == "" {
      assert s + rest == rest;
    } else {
      assert (s + rest)[1..] == s[1..] + rest;
      assert IsDigit(s[0]);
      DigitsStop(s[1..], rest, acc * 10 + (s[0] as int - '0' as int));
    }
  }

  predicate IsSign(sign: string) {
    sign == "" || sign == "+" || sign == "-"
  }

  function Signed(sign: string, n: nat): int {
    if sign == "-" then -(n as int) else n
  }

  /** `atoi` on any text with a number behind blanks and a sign: the number, if it fits an `int`. */
  lemma AtoiNumber(blanks: string, sign: string, n: nat, rest: string)
    requires (forall k :: 0 <= k < |blanks| ==> Blank(blanks[k])) && IsSign(sign) && (rest != "" ==> !IsDigit(rest[0]))
    ensures Atoi(blanks + (sign + (Decimal(n) + rest)))
            == if -0x8000_0000 <= Signed(sign, n) < 0x8000_0000 then Some(Signed(sign, n)) else None
  {
    hide Decimal, DigitsValue, SkipBlanks;
    var digits := Decimal(n) + rest;
    assert IsDigit(Decimal(n)[0]) && digits[0] == Decimal(n)[0];
    SkipBlanksPast(blanks, sign + digits);
    DigitsStop(Decimal(n), rest, 0);
    DecimalValue(n);
    assert sign != "" ==> (sign + digits)[1..] == digits && (sign + digits)[0] == sign[0];
    assert sign == "" ==> sign + digits == digits;
  }

  /** And on any text without one: zero. */
  lemma AtoiNothing(blanks: string, sign: string, rest: string)
    requires (forall k :: 0 <= k < |blanks| ==> Blank(blanks[k])) && IsSign(sign) && (rest != "" ==> !IsDigit(rest[0]))
    requires sign == "" && rest != "" ==> !Blank(rest[0]) && rest[0] != '+' && rest[0] != '-'
    ensures Atoi(blanks + (sign + rest)) == Some(0)
  {
    hide SkipBlanks;
    SkipBlanksPast(blanks, sign + rest);
    assert sign != "" ==> (sign + rest)[1..] == rest && (sign + rest)[0] == sign[0];
    assert sign == "" ==> sign + rest == rest;
  }

  lemma ReasonKept(r: Response, reason: string, rest: string, data: string, at: nat)
    requires !OneLine(reason) && at <= |data| && data[at..] == reason + rest
    ensures var o := ParseAfterStatus(r, data, at); o.Done? ==> o.value.reason != reason
  {
    hide ParseHeaders;
    var k :| 0 <= k < |reason| && reason[k] in CRLF;
    assert data[at + k] == data[at..][k] == reason[k];
    assert |Substr(data, at, Find(data, CRLF, at)).value| < |reason|;
  }

  /** What stands behind the status code of a prepared response. */
  function Tail(r: Response): string {
    r.reason + CRLF + Text(Headers(r.headers, r.body))
  }

  lemma AfterStatus(r0: Response, r: Response, data: string, at: nat)
    requires r0.headers == [] && r0.protocol == r.protocol && r0.status == r.status
    requires at <= |data| && data[at..] == Tail(r)
    ensures ParseAfterStatus(r0, data, at) == Done(r) <==> OneLine(r.reason) && AllClean(r.headers)
    ensures OneLine(r.reason) && r.headers == [] ==> ParseAfterStatus(r0, data, at) == Throws
  {
    hide Text, AllClean, ParseHeaders, Find;
    var h := Headers(r.headers, r.body);
    if OneLine(r.reason) {
      FirstLine(data, at, r.reason, Text(h));
      HeadersRoundTrip(data, at + |r.reason| + 2, h);
    } else {
      assert data[at..] == r.reason + (CRLF + Text(h));
      ReasonKept(r0, r.reason, CRLF + Text(h), data, at);
    }
  }

  lemma AfterProtocol(r0: Response, r: Response, data: string, at: nat)
    requires r0.headers == [] && r0.protocol == r.protocol
    requires at <= |data| && data[at..] == Decimal(r.status) + [' '] + Tail(r)
    ensures ParseAfterProtocol(r0, data, at) == Done(r)
            <==> r.status < 0x8000_0000 && OneLine(r.reason) && AllClean(r.headers)
  {
    hide Tail, AllClean, ParseAfterStatus, Decimal, Atoi, OneLine, Find;
    var code := Decimal(r.status);
    FirstPiece(data, at, code, ' ', Tail(r), " ");
    AtoiDecimal(r.status);
    AfterStatus(r0.(status := r.status), r, data, at + |code| + 1);
  }

  /** Parsing a prepared response into a fresh object gives the response back if and only if the
      status fits an `int`, the reason phrase is one line, there is a header, and every
      header is clean. */
  lemma ResponseRoundTrip(r0: Response, r: Response)
    requires !r.protocol.UNSUPPORTED? && r0.headers == []
    ensures Parse(r0, Prepare(r)) == Done(r)
            <==> r.status < 0x8000_0000 && OneLine(r.reason) && AllClean(r.headers)
  {
    hide *;
    PreparedText(r);
    ProtocolRead(r0, r.protocol, Decimal(r.status) + [' '] + Tail(r), Prepare(r));
    AfterProtocol(r0.(protocol := r.protocol), r, Prepare(r), |ProtocolName(r.protocol)| + 1);
  }

  /** The first line of a prepared response, and that the headers and the body follow it. */
  lemma PreparedLine(r: Response)
    requires !r.protocol.UNSUPPORTED? && OneLine(r.reason)
    ensures var protocol := if r.protocol == HTTP1_0 then "HTTP/1.0" else "HTTP/1.1";
            SplitLines(Prepare(r)) ==
              ConsCut(Cut(protocol + " " + Decimal(r.status) + " " + r.reason, ['\r', '\n']),
                      SplitLines(Text(Headers(r.headers, r.body))))
  {
    hide SplitLines, Text, ConsCut, Decimal;
    var protocol := if r.protocol == HTTP1_0 then "HTTP/1.0" else "HTTP/1.1";
    var line, text := protocol + " " + Decimal(r.status) + " " + r.reason, Text(Headers(r.headers, r.body));
    assert OneLine(protocol) && OneLine(Decimal(r.status)) && OneLine(line);
    assert Prepare(r) == line + (CRLF + text);
    SplitFront(line, CRLF, text);
  }

  lemma PreparedText(r: Response)
    requires !r.protocol.UNSUPPORTED?
    ensures Prepare(r) == ProtocolName(r.protocol) + [' '] + (Decimal(r.status) + [' '] + Tail(r))
  {
  }

  lemma ProtocolRead(r0: Response, protocol: Protocol, rest: string, data: string)
    requires !protocol.UNSUPPORTED? && data == ProtocolName(protocol) + [' '] + rest
    ensures var at := |ProtocolName(protocol)| + 1;
            && at <= |data| && data[at..] == rest
            && Parse(r0, data) == ParseAfterProtocol(r0.(protocol := protocol), data, at)
  {
    hide ParseAfterProtocol, Find, ProtocolName, ParseProtocol;
    assert data[0..] == data;
    FirstPiece(data, 0, ProtocolName(protocol), ' ', rest, " ");
  }

  // ---- every status line, and every text behind it -----------------------------------------------

  /** A status line of any three parts. */
  function StatusLine(name: string, code: string, reason: string): string {
    name + [' '] + (code + [' '] + reason)
  }

  /** The outcome of a response whose headers have that outcome. */
  function WithHeaders(r: Response, h: Outcome<Headers>): Outcome<Response> {
    match h
    case Done(h) => Done(r.(headers := h.list, body := h.body))
    case Throws => Throws
    case Diverges => Diverges
    case Undefined => Undefined
  }

  lemma ReasonRead(r: Response, reason: string, sep: string, rest: string, data: string, at: nat)
    requires OneLine(reason) && |sep| == 2 && sep[0] in CRLF && at <= |data| && data[at..] == reason + (sep + rest)
    ensures ParseAfterStatus(r, data, at)
            == WithHeaders(r.(reason := reason), ParseHeaders(data, at + |reason| + 2, r.headers, false))
  {
    hide ParseHeaders, Find, OneLine;
    NextLine(data, at, reason, sep, rest);
    assert Plus(Find(data, CRLF, at), 2) == at + |reason| + 2;
    assert Substr(data, at, Find(data, CRLF, at)) == Some(reason);
  }

  /** The status, whatever it is: a number that does not fit is undefined, a negative one wraps. */
  lemma StatusRead(r: Response, code: string, tail: string, data: string, at: nat)
    requires ' ' !in code && at <= |data| && data[at..] == code + [' '] + tail
    ensures var at' := at + |code| + 1;
            && at' <= |data| && data[at'..] == tail
            && ParseAfterProtocol(r, data, at)
               == if Atoi(code).None? then Undefined
                  else ParseAfterStatus(r.(status := Atoi(code).value % 0x1_0000_0000), data, at')
  {
    hide ParseAfterStatus, Find, Atoi;
    FirstPiece(data, at, code, ' ', tail, " ");
  }

  /** The first word, whatever it is. */
  lemma NameRead(r0: Response, name: string, rest: string, data: string)
    requires ' ' !in name && data == name + [' '] + rest
    ensures var at, p := |name| + 1, ParseProtocol(name);
            && at <= |data| && data[at..] == rest
            && Parse(r0, data) == if p.UNSUPPORTED? then Done(r0.(protocol := p)) else ParseAfterProtocol(r0.(protocol := p), data, at)
  {
    hide ParseAfterProtocol, Find, ParseProtocol;
    assert data[0..] == data;
    FirstPiece(data, 0, name, ' ', rest, " ");
  }

  lemma StatusPieces(name: string, code: string, reason: string, more: string)
    ensures StatusLine(name, code, reason) + more == name + [' '] + (code + [' '] + (reason + more))
    ensures |StatusLine(name, code, reason)| == |name| + 1 + |code| + 1 + |reason|
  {
  }

  lemma StatusLineRead(r0: Response, name: string, code: string, reason: string, sep: string, rest: string)
    requires ' ' !in name && ' ' !in code && OneLine(reason) && |sep| == 2 && sep[0] in CRLF
    ensures var first, p := StatusLine(name, code, reason), ParseProtocol(name);
            Parse(r0, first + (sep + rest))
              == if p.UNSUPPORTED? then Done(r0.(protocol := p))
                 else if Atoi(code).None? then Undefined
                 else WithHeaders(Response(p, Atoi(code).value % 0x1_0000_0000, reason, r0.headers, r0.body),
                                  ParseHeaders(first + (sep + rest), |first| + 2, r0.headers, false))
  {
    hide *;
    var data, tail := StatusLine(name, code, reason) + (sep + rest), reason + (sep + rest);
    StatusPieces(name, code, reason, sep + rest);
    NameRead(r0, name, code + [' '] + tail, data);
    var at, p := |name| + 1, ParseProtocol(name);
    if !p.UNSUPPORTED? {
      StatusRead(r0.(protocol := p), code, tail, data, at);
      if Atoi(code).Some? {
        ReasonRead(r0.(protocol := p, status := Atoi(code).value % 0x1_0000_0000), reason, sep, rest, data, at + |code| + 1);
      }
    }
  }

  lemma StatusLineOne(name: string, code: string, reason: string)
    requires IsProtocol(name) && OneLine(code) && OneLine(reason)
    ensures |StatusLine(name, code, reason)| >= 2 && OneLine(StatusLine(name, code, reason))
  {
    hide IsProtocol;
    ProtocolNamed(name);
  }

  /** What `parseResponse` makes of every status line and every text behind it. A first word that is no protocol ends
      the parsing with a mark, a status that does not fit an `int` is undefined. Otherwise, if all lines can be
      read and the last one has no end, it never ends, or throws if a reason phrase spoils the status line by
      ending in its only colon; and else the first line that cannot be read decides. */
  lemma ResponseOutcome(r0: Response, name: string, code: string, reason: string, sep: string, rest: string)
    requires ' ' !in name && ' ' !in code && OneLine(code) && OneLine(reason) && |sep| == 2 && sep[0] in CRLF
    ensures var first := StatusLine(name, code, reason);
            var o := Parse(r0, first + (sep + rest));
            && (!IsProtocol(name) ==> o == Done(r0.(protocol := UNSUPPORTED)))
            && (IsProtocol(name) && Atoi(code).None? ==> o == Undefined)
            && (IsProtocol(name) && Atoi(code).Some? ==>
                  var l, h := SplitLines(rest), Ending(SplitLines(rest), r0.headers);
                  && (RunsOff(l) ==> o == if Readable(first[1..]) then Diverges else Throws)
                  && (!RunsOff(l) && h.Throws? ==> o == Throws)
                  && (!RunsOff(l) && !h.Throws? ==>
                        && o.Done? && h.Done? && NamesProtocol(name, o.value.protocol)
                        && o.value.status == Atoi(code).value % 0x1_0000_0000 && o.value.reason == reason
                        && o.value.headers == h.value.list && o.value.body == h.value.body))
  {
    hide ParseHeaders, Parse, SplitLines, RunsOff, StatusLine, Readable, Atoi, ParseProtocol, IsProtocol, NamesProtocol, Ending;
    ProtocolNamed(name);
    StatusLineRead(r0, name, code, reason, sep, rest);
    if IsProtocol(name) && Atoi(code).Some? {
      StatusLineOne(name, code, reason);
      var first := StatusLine(name, code, reason);
      assert first + sep + rest == first + (sep + rest);
      MessageOutcome(first, sep, rest, r0.headers);
      EndingKinds(SplitLines(rest), r0.headers);
    }
  }
}
