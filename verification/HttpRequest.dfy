/** engmoded's HTTP requests: parsing and preparing. */
module HttpRequest {
  import opened Words
  import opened Http

  datatype Verb = GET | PUT | HEAD | POST | NOT_IMPLEMENTED

  datatype Request = Request(verb: Verb, url: string, protocol: Protocol, headers: seq<Header>, body: string)

  function ParseVerb(s: string): Verb {
    if s == "GET" then GET
    else if s == "PUT" then PUT
    else if s == "POST" || s == "OPTIONS" then POST
    else NOT_IMPLEMENTED
  }

  predicate Preparable(r: Request) {
    (r.verb.GET? || r.verb.PUT? || r.verb.POST?) && !r.protocol.UNSUPPORTED?
  }

  function VerbName(v: Verb): (s: string)
    requires v.GET? || v.PUT? || v.POST?
    ensures ParseVerb(s) == v && forall c :: c in s ==> c != ' '
  {
    if v.GET? then "GET" else if v.PUT? then "PUT" else "POST"
  }

  function Prepare(r: Request): string
    requires Preparable(r)
  {
    VerbName(r.verb) + " " + r.url + " " + ProtocolName(r.protocol) + CRLF + Text(Headers(r.headers, r.body))
  }

  /** `parseRequest` on an object in state `r`. */
  function Parse(r: Request, data: string): Outcome<Request> {
    var space := Find(data, " ", 0);
    var verb := ParseVerb(Substr(data, 0, space).value);
    if verb.NOT_IMPLEMENTED? then Done(r.(verb := verb))
    else ParseAfterVerb(r.(verb := verb), data, Plus(space, 1))
  }

  /** The URL and everything behind it. */
  function ParseAfterVerb(r: Request, data: string, at: nat): Outcome<Request>
    requires at <= |data|
  {
    var space := Find(data, " ", at);
    ParseAfterUrl(r.(url := Substr(data, at, space).value), data, Plus(space, 1))
  }

  /** The protocol and everything behind it. */
  function ParseAfterUrl(r: Request, data: string, at: nat): Outcome<Request>
    requires at <= |data|
  {
    var eol := Find(data, CRLF, at);
    var protocol := ParseProtocol(Substr(data, at, eol).value);
    if protocol.UNSUPPORTED? then Done(r.(protocol := protocol))
    else
      match ParseHeaders(data, Plus(eol, 2), r.headers, false)
      case Done(h) => Done(r.(protocol := protocol, headers := h.list, body := h.body))
      case Throws => Throws
      case Diverges => Diverges
      case Undefined => Undefined
  }

  /** An object of class HTTPRequest. */
  class RequestObject {
    var verb: Verb
    var url: string
    var protocol: Protocol
    var headers: seq<Header>
    var body: string
    var data: string

    function View(): Request
      reads this
    {
      Request(verb, url, protocol, headers, body)
    }

    /** `prepareRequest`; false is the error return. */
    method PrepareRequest() returns (ok: bool)
      modifies this`data
      ensures ok == Preparable(View())
      ensures data == if ok then old(data) + Prepare(View()) else old(data)
    {
      if !(verb.GET? || verb.PUT? || verb.POST?) { return false; }
      if protocol.UNSUPPORTED? { return false; }
      var line := VerbName(verb) + " " + url + " " + ProtocolName(protocol) + CRLF;
      var text := PutHeaders(headers, body);
      assert line + text == Prepare(View());
      data := data + (line + text);
      return true;
    }

    /** `parseRequest`. When it does not come to an end there is no state to speak of. */
    method ParseRequest() returns (r: Outcome<Request>)
      modifies this`verb, this`url, this`protocol, this`headers, this`body
      ensures r == Parse(old(View()), data)
      ensures r.Done? ==> View() == r.value
    {
      hide ParseAfterUrl;
      var space := Find(data, " ", 0);
      verb := ParseVerb(Substr(data, 0, space).value);
      if verb.NOT_IMPLEMENTED? { return Done(View()); }
      var at := Plus(space, 1);
      space := Find(data, " ", at);
      url := Substr(data, at, space).value;
      r := ParseRest(Plus(space, 1));
    }

    /** The second half of `parseRequest`, from the protocol on. */
    method ParseRest(at: nat) returns (r: Outcome<Request>)
      requires at <= |data|
      modifies this`protocol, this`headers, this`body
      ensures r == ParseAfterUrl(old(View()), data, at)
      ensures r.Done? ==> View() == r.value
    {
      hide ParseHeaders;
      var eol := Find(data, CRLF, at);
      protocol := ParseProtocol(Substr(data, at, eol).value);
      if protocol.UNSUPPORTED? { return Done(View()); }
      var h := HeaderLoop(data, Plus(eol, 2), headers);
      if h.Throws? { return Throws; }
      if h.Diverges? { return Diverges; }
      if h.Undefined? { return Undefined; }
      headers, body := h.value.list, h.value.body;
      return Done(View());
    }
  }

  /** What stands behind the URL of a prepared request. */
  function Tail(r: Request): string
    requires Preparable(r)
  {
    ProtocolName(r.protocol) + CRLF + Text(Headers(r.headers, r.body))
  }

  /** Behind the URL: the rest is read back exactly when the headers are clean. */
  lemma AfterUrl(r0: Request, r: Request, data: string, at: nat)
    requires Preparable(r) && r0.headers == [] && r0.verb == r.verb && r0.url == r.url
    requires at <= |data| && data[at..] == Tail(r)
    ensures ParseAfterUrl(r0, data, at) == Done(r) <==> AllClean(r.headers)
    ensures r.headers == [] ==> ParseAfterUrl(r0, data, at) == Throws
  {
    hide Text, AllClean, ParseHeaders;
    var name, h := ProtocolName(r.protocol), Headers(r.headers, r.body);
    FirstLine(data, at, name, Text(h));
    HeadersRoundTrip(data, at + |name| + 2, h);
  }

  lemma UrlKept(r: Request, data: string, at: nat)
    requires at <= |data|
    ensures var o := ParseAfterUrl(r, data, at); o.Done? ==> o.value.url == r.url
  {
  }

  /** A URL with a space is cut there. */
  lemma UrlCut(r0: Request, url: string, tail: string, data: string, at: nat)
    requires ' ' in url && at <= |data| && data[at..] == url + [' '] + tail
    ensures var o := ParseAfterVerb(r0, data, at); o.Done? ==> o.value.url != url
  {
    hide ParseAfterUrl;
    var k :| 0 <= k < |url| && url[k] == ' ';
    assert data[at + k] == data[at..][k] == ' ';
    var space := Find(data, " ", at);
    assert |Substr(data, at, space).value| < |url|;
    UrlKept(r0.(url := Substr(data, at, space).value), data, Plus(space, 1));
  }

  lemma UrlRead(r0: Request, url: string, tail: string, data: string, at: nat)
    requires ' ' !in url && at <= |data| && data[at..] == url + [' '] + tail
    ensures var at' := at + |url| + 1;
            && at' <= |data| && data[at'..] == tail
            && ParseAfterVerb(r0, data, at) == ParseAfterUrl(r0.(url := url), data, at')
  {
    hide ParseAfterUrl, Find;
    FirstPiece(data, at, url, ' ', tail, " ");
  }

  lemma AfterVerb(r0: Request, r: Request, data: string, at: nat)
    requires Preparable(r) && r0.headers == [] && r0.verb == r.verb
    requires at <= |data| && data[at..] == r.url + [' '] + Tail(r)
    ensures ParseAfterVerb(r0, data, at) == Done(r) <==> ' ' !in r.url && AllClean(r.headers)
    ensures ' ' !in r.url && r.headers == [] ==> ParseAfterVerb(r0, data, at) == Throws
  {
    hide *;
    if ' ' in r.url {
      UrlCut(r0, r.url, Tail(r), data, at);
    } else {
      UrlRead(r0, r.url, Tail(r), data, at);
      AfterUrl(r0.(url := r.url), r, data, at + |r.url| + 1);
    }
  }

  /** Parsing a prepared request into a fresh object gives the request back if and only if the URL
      has no space, there is a header, and every header is clean; without headers it throws. */
  lemma RequestRoundTrip(r0: Request, r: Request)
    requires Preparable(r) && r0.headers == []
    ensures Parse(r0, Prepare(r)) == Done(r) <==> ' ' !in r.url && AllClean(r.headers)
    ensures ' ' !in r.url && r.headers == [] ==> Parse(r0, Prepare(r)) == Throws
  {
    hide *;
    PreparedText(r);
    VerbRead(r0, r.verb, r.url + [' '] + Tail(r), Prepare(r));
    AfterVerb(r0.(verb := r.verb), r, Prepare(r), |VerbName(r.verb)| + 1);
  }

  /** The first line of a prepared request, and that the headers and the body follow it. */
  lemma PreparedLine(r: Request)
    requires Preparable(r) && OneLine(r.url)
    ensures var verb := match r.verb { case GET => "GET" case PUT => "PUT" case _ => "POST" };
            var protocol := if r.protocol == HTTP1_0 then "HTTP/1.0" else "HTTP/1.1";
            SplitLines(Prepare(r)) ==
              ConsCut(Cut(verb + " " + r.url + " " + protocol, ['\r', '\n']), SplitLines(Text(Headers(r.headers, r.body))))
  {
    hide SplitLines, Text, ConsCut;
    var verb := match r.verb { case GET => "GET" case PUT => "PUT" case _ => "POST" };
    var protocol := if r.protocol == HTTP1_0 then "HTTP/1.0" else "HTTP/1.1";
    var line, text := verb + " " + r.url + " " + protocol, Text(Headers(r.headers, r.body));
    assert OneLine(verb) && OneLine(protocol) && OneLine(line);
    assert Prepare(r) == line + (CRLF + text);
    SplitFront(line, CRLF, text);
  }

  lemma PreparedText(r: Request)
    requires Preparable(r)
    ensures r.verb.GET? || r.verb.PUT? || r.verb.POST?
    ensures Prepare(r) == VerbName(r.verb) + [' '] + (r.url + [' '] + Tail(r))
  {
  }

  lemma VerbRead(r0: Request, verb: Verb, rest: string, data: string)
    requires (verb.GET? || verb.PUT? || verb.POST?) && data == VerbName(verb) + [' '] + rest
    ensures var at := |VerbName(verb)| + 1;
            && at <= |data| && data[at..] == rest
            && Parse(r0, data) == ParseAfterVerb(r0.(verb := verb), data, at)
  {
    hide ParseAfterVerb, Find, VerbName, ParseVerb, Parse;
    WordRead(r0, VerbName(verb), rest, data);
  }

  /** The first word, whatever it is. */
  lemma WordRead(r0: Request, word: string, rest: string, data: string)
    requires ' ' !in word && data == word + [' '] + rest
    ensures var at, verb := |word| + 1, ParseVerb(word);
            && at <= |data| && data[at..] == rest
            && Parse(r0, data) == if verb.NOT_IMPLEMENTED? then Done(r0.(verb := verb)) else ParseAfterVerb(r0.(verb := verb), data, at)
  {
    hide ParseAfterVerb, Find, ParseVerb;
    assert data[0..] == data;
    FirstPiece(data, 0, word, ' ', rest, " ");
  }

  // ---- every request line, and every text behind it ----------------------------------------------

  /** A request line of any three words. */
  function RequestLine(word: string, url: string, name: string): string {
    word + [' '] + (url + [' '] + name)
  }

  /** The words that name a verb, and the verb; `OPTIONS` is taken for a POST. */
  predicate Names(word: string, verb: Verb) {
    || (word == "GET" && verb == GET)
    || (word == "PUT" && verb == PUT)
    || (word == "POST" && verb == POST)
    || (word == "OPTIONS" && verb == POST)
  }

  predicate IsVerb(word: string) {
    word == "GET" || word == "PUT" || word == "POST" || word == "OPTIONS"
  }

  lemma VerbNamed(word: string)
    ensures if IsVerb(word) then Names(word, ParseVerb(word)) && !ParseVerb(word).NOT_IMPLEMENTED? else ParseVerb(word) == NOT_IMPLEMENTED
    ensures IsVerb(word) ==> |word| > 2 && OneLine(word) && ' ' !in word && word[0] != 'H'
  {
  }

  lemma RequestLineReadable(word: string, url: string, name: string)
    requires IsVerb(word) && IsProtocol(name) && OneLine(url)
    ensures var first := RequestLine(word, url, name);
            |first| >= 2 && OneLine(first) && Readable(first[1..])
  {
    hide Find, IsVerb, IsProtocol;
    VerbNamed(word);
    ProtocolNamed(name);
    var first := RequestLine(word, url, name);
    var line := first[1..];
    assert line[|line| - 1] == first[|first| - 1] == name[7];
  }

  /** The outcome of a request whose headers have that outcome. */
  function WithHeaders(r: Request, h: Outcome<Headers>): Outcome<Request> {
    match h
    case Done(h) => Done(r.(headers := h.list, body := h.body))
    case Throws => Throws
    case Diverges => Diverges
    case Undefined => Undefined
  }

  /** The protocol, whatever it is, up to a line end. */
  lemma ProtocolRead(r: Request, name: string, sep: string, rest: string, data: string, at: nat)
    requires OneLine(name) && |sep| == 2 && sep[0] in CRLF
    requires at <= |data| && data[at..] == name + (sep + rest)
    ensures var p := ParseProtocol(name);
            ParseAfterUrl(r, data, at)
            == if p.UNSUPPORTED? then Done(r.(protocol := p))
               else WithHeaders(r.(protocol := p), ParseHeaders(data, at + |name| + 2, r.headers, false))
  {
    hide ParseHeaders, Find, ParseProtocol, OneLine;
    NextLine(data, at, name, sep, rest);
    assert Plus(Find(data, CRLF, at), 2) == at + |name| + 2;
    assert Substr(data, at, Find(data, CRLF, at)) == Some(name);
  }

  lemma RequestPieces(word: string, url: string, name: string, more: string)
    ensures RequestLine(word, url, name) + more == word + [' '] + (url + [' '] + (name + more))
    ensures |RequestLine(word, url, name)| == |word| + 1 + |url| + 1 + |name|
  {
  }

  /** A request line is read word by word: a first word that is no verb, or a third one that is no protocol, ends
      the parsing with a mark and leaves the rest of the object alone. */
  lemma RequestLineRead(r0: Request, word: string, url: string, name: string, sep: string, rest: string)
    requires ' ' !in word && ' ' !in url && OneLine(name) && |sep| == 2 && sep[0] in CRLF
    ensures var first, v, p := RequestLine(word, url, name), ParseVerb(word), ParseProtocol(name);
            Parse(r0, first + (sep + rest))
              == if v.NOT_IMPLEMENTED? then Done(r0.(verb := v))
                 else if p.UNSUPPORTED? then Done(r0.(verb := v, url := url, protocol := p))
                 else WithHeaders(Request(v, url, p, r0.headers, r0.body),
                                  ParseHeaders(first + (sep + rest), |first| + 2, r0.headers, false))
  {
    hide *;
    var data, tail := RequestLine(word, url, name) + (sep + rest), name + (sep + rest);
    RequestPieces(word, url, name, sep + rest);
    WordRead(r0, word, url + [' '] + tail, data);
    var at, v := |word| + 1, ParseVerb(word);
    if !v.NOT_IMPLEMENTED? {
      UrlRead(r0.(verb := v), url, tail, data, at);
      ProtocolRead(r0.(verb := v, url := url), name, sep, rest, data, at + |url| + 1);
    }
  }

  /** What `parseRequest` makes of every request line and every text behind it. With a verb and a protocol it never
      ends exactly if all lines behind can be read and the last one has no end; otherwise the first
      line that cannot be read decides. */
  lemma RequestOutcome(r0: Request, word: string, url: string, name: string, sep: string, rest: string)
    requires ' ' !in word && ' ' !in url && OneLine(url) && OneLine(name) && |sep| == 2 && sep[0] in CRLF
    ensures var o := Parse(r0, RequestLine(word, url, name) + (sep + rest));
            && (!IsVerb(word) ==> o == Done(r0.(verb := NOT_IMPLEMENTED)))
            && (IsVerb(word) && !IsProtocol(name) ==>
                  o.Done? && Names(word, o.value.verb) && o.value == r0.(verb := o.value.verb, url := url, protocol := UNSUPPORTED))
            && (IsVerb(word) && IsProtocol(name) ==>
                  var l, h := SplitLines(rest), Ending(SplitLines(rest), r0.headers);
                  && (RunsOff(l) ==> o == Diverges)
                  && (!RunsOff(l) && h.Throws? ==> o == Throws)
                  && (!RunsOff(l) && !h.Throws? ==>
                        && o.Done? && h.Done? && Names(word, o.value.verb) && NamesProtocol(name, o.value.protocol)
                        && o.value.url == url && o.value.headers == h.value.list && o.value.body == h.value.body))
  {
    hide ParseHeaders, Parse, SplitLines, Ending, RunsOff, RequestLine, Readable, ParseVerb, ParseProtocol, Names, NamesProtocol;
    hide IsVerb, IsProtocol;
    VerbNamed(word);
    ProtocolNamed(name);
    RequestLineRead(r0, word, url, name, sep, rest);
    if IsVerb(word) && IsProtocol(name) {
      var first := RequestLine(word, url, name);
      RequestLineReadable(word, url, name);
      MessageOutcome(first, sep, rest, r0.headers);
      assert first + sep + rest == first + (sep + rest);
      EndingKinds(SplitLines(rest), r0.headers);
    }
  }

  /** A request line without any line end, and one with half of one. */
  lemma NoEndHangs(r0: Request, word: string, url: string, name: string)
    requires IsVerb(word) && IsProtocol(name) && ' ' !in url && OneLine(url)
    ensures Parse(r0, RequestLine(word, url, name)).Diverges?
  {
    hide ParseHeaders, Find, ParseAfterVerb, ParseProtocol, ParseVerb, Readable, RequestLine, Parse, IsVerb, IsProtocol;
    var data := RequestLine(word, url, name);
    VerbNamed(word);
    ProtocolNamed(name);
    RequestLineReadable(word, url, name);
    RequestPieces(word, url, name, "");
    assert data + "" == data && name + "" == name;
    WordRead(r0, word, url + [' '] + name, data);
    var at, v := |word| + 1, ParseVerb(word);
    UrlRead(r0.(verb := v), url, name, data, at);
    var at' := at + |url| + 1;
    NoLineEnd(data, at');
    assert data[at'..|data|] == name;
    OneLineDiverges(data, r0.headers);
  }

  lemma ProtocolHalf(r: Request, name: string, sep: char, data: string, at: nat)
    requires IsProtocol(name) && sep in CRLF && at <= |data| && data[at..] == name + [sep]
    ensures ParseAfterUrl(r, data, at) == Throws
  {
    hide ParseHeaders, Find, ParseProtocol, IsProtocol;
    ProtocolNamed(name);
    assert name + [sep] == name + [sep] + "";
    FirstPiece(data, at, name, sep, "", CRLF);
    assert |data| == at + |name| + 1;
    PastTheEnd(data, at + |name| + 2, r.headers);
  }

  lemma HalfEndThrows(r0: Request, word: string, url: string, name: string, sep: char)
    requires IsVerb(word) && IsProtocol(name) && ' ' !in url && sep in CRLF
    ensures Parse(r0, RequestLine(word, url, name) + [sep]) == Throws
  {
    hide *;
    var data, tail := RequestLine(word, url, name) + [sep], name + [sep];
    VerbNamed(word);
    RequestPieces(word, url, name, [sep]);
    WordRead(r0, word, url + [' '] + tail, data);
    var at, v := |word| + 1, ParseVerb(word);
    UrlRead(r0.(verb := v), url, tail, data, at);
    ProtocolHalf(r0.(verb := v, url := url), name, sep, data, at + |url| + 1);
  }

  lemma PastTheEnd(data: string, at: nat, list: seq<Header>)
    requires at > |data|
    ensures ParseHeaders(data, at, list, false) == Throws
  {
  }

  /** A URL without a blank behind it: the cursor wraps. */
  lemma UrlToEnd(r: Request, data: string, at: nat)
    requires at <= |data| && ' ' !in data[at..] && data != "" && data[0] != 'H'
    ensures ParseAfterVerb(r, data, at) == Done(r.(url := data[at..], protocol := UNSUPPORTED))
  {
    hide ParseHeaders, ParseProtocol, Find;
    FindFrom(data, " ", at, 0);
    NoBlank(data[at..], 0);
    assert data[at..|data|] == data[at..];
    NotAProtocol(data);
  }

  /** A text with one blank or none is no request, since its beginning is no protocol. */
  lemma WordsMissing(r0: Request, word: string, url: string)
    requires ' ' !in word && ' ' !in url
    ensures Parse(r0, word)
            == if IsVerb(word) then Done(r0.(verb := ParseVerb(word), url := word, protocol := UNSUPPORTED))
               else Done(r0.(verb := NOT_IMPLEMENTED))
    ensures Parse(r0, word + [' '] + url)
            == if IsVerb(word) then Done(r0.(verb := ParseVerb(word), url := url, protocol := UNSUPPORTED))
               else Done(r0.(verb := NOT_IMPLEMENTED))
  {
    hide *;
    VerbNamed(word);
    var data := word + [' '] + url;
    WordRead(r0, word, url, data);
    WordAlone(r0, word);
    if IsVerb(word) {
      assert word[0..] == word;
      UrlToEnd(r0.(verb := ParseVerb(word)), word, 0);
      UrlToEnd(r0.(verb := ParseVerb(word)), data, |word| + 1);
    }
  }

  lemma WordAlone(r0: Request, word: string)
    requires ' ' !in word
    ensures var verb := ParseVerb(word);
            Parse(r0, word) == if verb.NOT_IMPLEMENTED? then Done(r0.(verb := verb)) else ParseAfterVerb(r0.(verb := verb), word, 0)
  {
    hide ParseAfterVerb, Find, ParseVerb;
    NoBlank(word, 0);
    assert word[0..|word|] == word;
  }

  lemma NoBlank(s: string, from: nat)
    requires ' ' !in s
    ensures Find(s, " ", from) == None
  {
    hide Find;
    assert forall k :: 0 <= k < |s| ==> s[k] in s;
  }

  /** What begins like a verb is no protocol, wherever its line ends. */
  lemma NotAProtocol(data: string)
    requires data != "" && data[0] != 'H'
    ensures ParseProtocol(Substr(data, 0, Find(data, CRLF, 0)).value) == UNSUPPORTED
  {
    hide Find, ParseProtocol, IsProtocol;
    var name := Substr(data, 0, Find(data, CRLF, 0)).value;
    ProtocolNamed(name);
    assert name != "" ==> name[0] == data[0];
  }

  /** A request that ends behind its first header hangs the parser. */
  lemma HostHangs(r0: Request)
    ensures Parse(r0, "GET / HTTP/1.0\r\nHost: x").Diverges?
  {
    hide ParseHeaders, Parse, Ending;
    var rest := "Host: x";
    assert RequestLine("GET", "/", "HTTP/1.0") == "GET / HTTP/1.0";
    assert RequestLine("GET", "/", "HTTP/1.0") + (CRLF + rest) == "GET / HTTP/1.0\r\nHost: x";
    RequestOutcome(r0, "GET", "/", "HTTP/1.0", CRLF, rest);
    HostLine(rest);
  }

  lemma HostLine(rest: string)
    requires rest == "Host: x"
    ensures RunsOff(SplitLines(rest))
  {
    hide Find;
    NoLineEnd(rest, 0);
    assert rest[4] == ':';
    assert Find(rest, ":", 0).value <= 4;
  }
}
