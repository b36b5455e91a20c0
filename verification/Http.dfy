/** The cursor arithmetic and the header loop that engmoded's requests and responses share. */
module Http {
  import opened Words

  const CRLF: string := "\r\n"

  datatype Header = Header(name: string, content: string)

  datatype Protocol = HTTP1_0 | HTTP1_1 | UNSUPPORTED

  function ParseProtocol(s: string): Protocol {
    if s == "HTTP/1.0" then HTTP1_0
    else if s == "HTTP/1.1" then HTTP1_1
    else UNSUPPORTED
  }

  function ProtocolName(p: Protocol): (s: string)
    requires !p.UNSUPPORTED?
    ensures ParseProtocol(s) == p && forall c :: c in s ==> c !in " \r\n"
  {
    if p.HTTP1_0? then "HTTP/1.0" else "HTTP/1.1"
  }

  /** The two words that name a protocol. */
  predicate NamesProtocol(name: string, protocol: Protocol) {
    (name == "HTTP/1.0" && protocol == HTTP1_0) || (name == "HTTP/1.1" && protocol == HTTP1_1)
  }

  predicate IsProtocol(name: string) {
    name == "HTTP/1.0" || name == "HTTP/1.1"
  }

  lemma ProtocolNamed(name: string)
    ensures if IsProtocol(name) then NamesProtocol(name, ParseProtocol(name)) && !ParseProtocol(name).UNSUPPORTED?
            else ParseProtocol(name) == UNSUPPORTED
    ensures IsProtocol(name) ==> |name| == 8 && OneLine(name) && name[7] in "01" && name[0] == 'H'
  {
  }

  /** `s.find_first_of(chars, from)`; `None` is `npos`. */
  function Find(s: string, chars: string, from: nat): (r: Option<nat>)
    ensures r.Some? ==> from <= r.value < |s| && s[r.value] in chars && forall k :: from <= k < r.value ==> s[k] !in chars
    ensures r.None? ==> forall k :: from <= k < |s| ==> s[k] !in chars
    decreases |s| - from
  {
    if from >= |s| then None
    else if s[from] in chars then Some(from)
    else Find(s, chars, from + 1)
  }

  /** `found + n` for a small `n`; the unsigned sum wraps when nothing was found. */
  function Plus(found: Option<nat>, n: nat): nat
    requires n > 0
  {
    if found.Some? then found.value + n else n - 1
  }

  /** `s.substr(from, found - from)`; `None` is the exception `out_of_range`. */
  function Substr(s: string, from: nat, found: Option<nat>): (r: Option<string>)
    requires found.Some? ==> from <= found.value <= |s|
  {
    if from > |s| then None
    else Some(s[from..if found.Some? then found.value else |s|])
  }

  /** One header line; `None` is an exception. */
  function ParseLine(line: string): Option<Header> {
    var colon := Find(line, ":", 0);
    var from := Plus(colon, 2);
    var content := Substr(line, from, Find(line, CRLF, from));
    if content.None? then None else Some(Header(Substr(line, 0, colon).value, content.value))
  }

  datatype Outcome<+T> =
    | Done(value: T)
    | Throws      // the exception `out_of_range`
    | Diverges    // the header loop never ends
    | Undefined   // the integer result of `atoi` does not exist

  datatype Headers = Headers(list: seq<Header>, body: string)

  predicate EndsAt(data: string, at: nat) {
    at + 2 <= |data| && data[at..at + 2] == CRLF
  }

  /** One round of the header loop: the header, and the cursor behind it; `found` says that the line
      has an end. `None` is an exception. */
  datatype Round = Round(header: Header, at: nat, found: bool)

  function ParseRound(data: string, at: nat): (r: Option<Round>)
    ensures r.Some? ==> r.value.at <= |data| && (r.value.found ==> at < r.value.at)
  {
    var eol := Find(data, CRLF, at);
    var line := Substr(data, at, eol);
    if line.None? then None
    else
      var header := ParseLine(line.value);
      if header.None? || Plus(eol, 2) > |data| then None
      else Some(Round(header.value, Plus(eol, 2), eol.Some?))
  }

  /** The header loop from cursor `at`, with the headers collected so far. A line without an end sets
      the cursor back to 1, and `wrapped` says that this has happened: the second time, the
      loop is in the same place as the first time and so runs for ever. */
  function ParseHeaders(data: string, at: nat, list: seq<Header>, wrapped: bool): (r: Outcome<Headers>)
    ensures r.Done? ==> list <= r.value.list
    decreases if wrapped then 0 else 1, |data| - at
  {
    var round := ParseRound(data, at);
    if round.None? then Throws
    else
      var list', at' := list + [round.value.header], round.value.at;
      if EndsAt(data, at') then Done(Headers(list', data[at' + 2..]))
      else if round.value.found then ParseHeaders(data, at', list', wrapped)
      else if wrapped then Diverges
      else ParseHeaders(data, at', list', true)
  }

  lemma ParseHeadersStep(data: string, at: nat, list: seq<Header>, wrapped: bool)
    ensures var round := ParseRound(data, at);
            ParseHeaders(data, at, list, wrapped) ==
            if round.None? then Throws
            else if EndsAt(data, round.value.at) then Done(Headers(list + [round.value.header], data[round.value.at + 2..]))
            else if round.value.found then ParseHeaders(data, round.value.at, list + [round.value.header], wrapped)
            else if wrapped then Diverges
            else ParseHeaders(data, round.value.at, list + [round.value.header], true)
  {
  }

  /** The `while (1)` loop of parseRequest and parseResponse. */
  method HeaderLoop(data: string, start: nat, before: seq<Header>) returns (r: Outcome<Headers>)
    ensures r == ParseHeaders(data, start, before, false)
  {
    hide ParseHeaders, Find, ParseLine;
    var at: nat, list, wrapped := start, before, false;
    while true
      invariant ParseHeaders(data, start, before, false) == ParseHeaders(data, at, list, wrapped)
      decreases if wrapped then 0 else 1, |data| - at
    {
      ParseHeadersStep(data, at, list, wrapped);
      var eol := Find(data, CRLF, at);
      var line := Substr(data, at, eol);
      if line.None? { return Throws; }
      var header := ParseLine(line.value);
      if header.None? { return Throws; }
      at := Plus(eol, 2);
      if at > |data| { return Throws; }
      list := list + [header.value];
      if EndsAt(data, at) { return Done(Headers(list, data[at + 2..])); }
      if eol.None? {
        if wrapped { return Diverges; }
        wrapped := true;
      }
    }
  }

  /** The loop is still running after `n` rounds from cursor `at`. */
  ghost predicate Running(data: string, at: nat, n: nat)
    decreases n
  {
    n == 0
    || (var round := ParseRound(data, at);
        round.Some? && !EndsAt(data, round.value.at) && Running(data, round.value.at, n - 1))
  }

  /** What the loop does does not depend on the headers it has collected. */
  lemma {:induction false} DivergesAnyway(data: string, at: nat, list: seq<Header>, other: seq<Header>, wrapped: bool)
    requires ParseHeaders(data, at, list, wrapped).Diverges?
    ensures ParseHeaders(data, at, other, wrapped).Diverges?
    decreases if wrapped then 0 else 1, |data| - at
  {
    hide ParseHeaders, ParseRound, EndsAt;
    ParseHeadersStep(data, at, list, wrapped);
    ParseHeadersStep(data, at, other, wrapped);
    var round := ParseRound(data, at).value;
    if round.found {
      DivergesAnyway(data, round.at, list + [round.header], other + [round.header], wrapped);
    } else if !wrapped {
      DivergesAnyway(data, round.at, list + [round.header], other + [round.header], true);
    }
  }

  lemma {:induction false} DivergesRuns(data: string, at: nat, list: seq<Header>, wrapped: bool, n: nat)
    requires ParseHeaders(data, at, list, wrapped).Diverges?
    requires wrapped ==> ParseHeaders(data, 1, [], true).Diverges?
    ensures Running(data, at, n)
    decreases n
  {
    hide ParseHeaders, ParseRound, EndsAt;
    if n > 0 {
      ParseHeadersStep(data, at, list, wrapped);
      var round := ParseRound(data, at).value;
      if round.found {
        DivergesRuns(data, round.at, list + [round.header], wrapped, n - 1);
      } else {
        UnfoundWraps(data, at);
        if !wrapped {
          DivergesAnyway(data, 1, list + [round.header], [], true);
        }
        DivergesRuns(data, 1, [], true, n - 1);
      }
    }
  }

  lemma UnfoundWraps(data: string, at: nat)
    requires ParseRound(data, at).Some? && !ParseRound(data, at).value.found
    ensures ParseRound(data, at).value.at == 1
  {
  }

  lemma {:induction false} OthersStop(data: string, at: nat, list: seq<Header>, wrapped: bool) returns (n: nat)
    requires !ParseHeaders(data, at, list, wrapped).Diverges?
    ensures !Running(data, at, n)
    decreases if wrapped then 0 else 1, |data| - at
  {
    hide ParseHeaders, ParseRound, EndsAt;
    ParseHeadersStep(data, at, list, wrapped);
    n := 1;
    if ParseRound(data, at).Some? && !EndsAt(data, ParseRound(data, at).value.at) {
      var round := ParseRound(data, at).value;
      n := OthersStop(data, round.at, list + [round.header], if round.found then wrapped else true);
      n := n + 1;
    }
  }

  /** The loop is said to diverge exactly when it runs for ever. */
  lemma DivergesIff(data: string, at: nat, list: seq<Header>)
    ensures ParseHeaders(data, at, list, false).Diverges? <==> forall n: nat :: Running(data, at, n)
  {
    hide ParseHeaders, Running;
    if ParseHeaders(data, at, list, false).Diverges? {
      forall n: nat ensures Running(data, at, n) {
        DivergesRuns(data, at, list, false, n);
      }
    } else {
      var n := OthersStop(data, at, list, false);
    }
  }

  // ---- which texts the loop can read ----------------------------------------------------------

  /** A line can be read: it is not empty, and its first colon is not its last character. */
  predicate Readable(line: string) {
    line != "" && var colon := Find(line, ":", 0); colon.None? || colon.value + 2 <= |line|
  }

  lemma ReadableIff(line: string)
    ensures ParseLine(line).Some? <==> Readable(line)
  {
    hide Find;
  }

  /** A line, and the two characters that end it: the loop skips the one behind a line end whatever it is. */
  datatype Cut = Cut(line: string, sep: string)

  datatype Lines = Lines(cuts: seq<Cut>, tail: string)

  function ConsCut(c: Cut, l: Lines): Lines {
    Lines([c] + l.cuts, l.tail)
  }

  /** A text as the loop sees it. */
  function SplitLines(data: string): Lines
    decreases |data|
  {
    var eol := Find(data, CRLF, 0);
    if eol.None? || eol.value + 2 > |data| then Lines([], data)
    else ConsCut(Cut(data[..eol.value], data[eol.value..eol.value + 2]), SplitLines(data[eol.value + 2..]))
  }

  lemma SplitStep(data: string)
    ensures var eol := Find(data, CRLF, 0);
            SplitLines(data) == if eol.None? || eol.value + 2 > |data| then Lines([], data)
                                else ConsCut(Cut(data[..eol.value], data[eol.value..eol.value + 2]), SplitLines(data[eol.value + 2..]))
  {
    hide Find, ConsCut;
  }

  lemma ConsParts(c: Cut, l: Lines)
    ensures var r := ConsCut(c, l); r.cuts != [] && r.cuts[0] == c && Lines(r.cuts[1..], r.tail) == l
  {
  }

  function JoinLines(l: Lines): string
    decreases |l.cuts|
  {
    if l.cuts == [] then l.tail
    else l.cuts[0].line + l.cuts[0].sep + JoinLines(Lines(l.cuts[1..], l.tail))
  }

  /** Splitting loses nothing. */
  lemma {:induction false} LinesJoin(data: string)
    ensures JoinLines(SplitLines(data)) == data
    decreases |data|
  {
    hide Find, SplitLines, ConsCut;
    SplitStep(data);
    var eol := Find(data, CRLF, 0);
    if eol.Some? && eol.value + 2 <= |data| {
      var n := eol.value;
      LinesJoin(data[n + 2..]);
      ConsParts(Cut(data[..n], data[n..n + 2]), SplitLines(data[n + 2..]));
      assert data == data[..n] + data[n..n + 2] + data[n + 2..];
    }
  }

  /** The number of the first line that cannot be read. */
  function FirstBad(cuts: seq<Cut>): (k: nat)
    ensures k <= |cuts| && (forall j :: 0 <= j < k ==> Readable(cuts[j].line)) && (k < |cuts| ==> !Readable(cuts[k].line))
  {
    if cuts == [] || !Readable(cuts[0].line) then 0 else 1 + FirstBad(cuts[1..])
  }

  /** All lines can be read, and the last one has no end. */
  predicate RunsOff(l: Lines) {
    FirstBad(l.cuts) == |l.cuts| && OneLine(l.tail) && Readable(l.tail)
  }

  /** The header on a line that can be read. */
  function Head(line: string): Header
    requires Readable(line)
  {
    ReadableIff(line);
    ParseLine(line).value
  }

  function Heads(cuts: seq<Cut>): seq<Header>
    requires forall j :: 0 <= j < |cuts| ==> Readable(cuts[j].line)
  {
    if cuts == [] then [] else [Head(cuts[0].line)] + Heads(cuts[1..])
  }

  /** What comes of lines that do not run off: the headers end at the first line that cannot be read if that is
      the empty line, ended by CRLF, behind at least one header; otherwise the parser throws. */
  function Ending(l: Lines, list: seq<Header>): Outcome<Headers> {
    var k := FirstBad(l.cuts);
    if 0 < k < |l.cuts| && l.cuts[k] == Cut("", CRLF)
    then Done(Headers(list + Heads(l.cuts[..k]), JoinLines(Lines(l.cuts[k + 1..], l.tail))))
    else Throws
  }

  function AllHeads(l: Lines): seq<Header>
    requires RunsOff(l)
  {
    Heads(l.cuts) + [Head(l.tail)]
  }

  /** The cursor has been set back to 1. */
  function AfterWrap(data: string, list: seq<Header>, wrapped: bool): Outcome<Headers> {
    if EndsAt(data, 1) then Done(Headers(list, data[3..]))
    else if wrapped then Diverges
    else ParseHeaders(data, 1, list, true)
  }

  lemma {:induction false} FindFrom(data: string, chars: string, at: nat, from: nat)
    requires at + from <= |data|
    ensures Find(data, chars, at + from)
            == if Find(data[at..], chars, from).None? then None else Some(at + Find(data[at..], chars, from).value)
    decreases |data| - at - from
  {
    if at + from < |data| {
      assert data[at..][from] == data[at + from];
      if data[at + from] !in chars {
        FindFrom(data, chars, at, from + 1);
      }
    }
  }

  /** One round of the loop, on the lines from the cursor on: when only one is left, and when there are more. */
  lemma RoundOnLast(data: string, at: nat)
    requires at <= |data| && SplitLines(data[at..]).cuts == []
    ensures var tail := SplitLines(data[at..]).tail;
            && (OneLine(tail) && Readable(tail) ==>
                  |data| >= 1 && ParseRound(data, at) == Some(Round(Head(tail), 1, false)))
            && (!(OneLine(tail) && Readable(tail)) ==> ParseRound(data, at) == None)
  {
    hide Find, ParseLine, Readable, SplitLines, ConsCut;
    var text := data[at..];
    SplitStep(text);
    var eol := Find(text, CRLF, 0);
    if eol.Some? && eol.value + 2 <= |text| {
      ConsParts(Cut(text[..eol.value], text[eol.value..eol.value + 2]), SplitLines(text[eol.value + 2..]));
      assert false;
    }
    FindFrom(data, CRLF, at, 0);
    NotReadable();
    if eol.None? {
      assert data[at..|data|] == text;
      ReadableIff(text);
      NoEnd(text);
    } else {
      HasEnd(text, eol.value);
    }
  }

  lemma RoundOnCut(data: string, at: nat)
    requires at <= |data| && SplitLines(data[at..]).cuts != []
    ensures var l := SplitLines(data[at..]);
            var line := l.cuts[0].line;
            var at' := at + |line| + 2;
            && at' <= |data| && SplitLines(data[at'..]) == Lines(l.cuts[1..], l.tail)
            && ParseRound(data, at) == if Readable(line) then Some(Round(Head(line), at', true)) else None
  {
    hide Find, ParseLine, Readable, SplitLines;
    var text := data[at..];
    FirstCut(text);
    FindFrom(data, CRLF, at, 0);
    var eol := Find(text, CRLF, 0).value;
    assert data[at..at + eol] == text[..eol];
    ReadableIff(text[..eol]);
    assert data[at + eol + 2..] == text[eol + 2..];
  }

  lemma FirstCut(text: string)
    requires SplitLines(text).cuts != []
    ensures var eol, l := Find(text, CRLF, 0), SplitLines(text);
            && eol.Some? && eol.value + 2 <= |text| && l.cuts[0] == Cut(text[..eol.value], text[eol.value..eol.value + 2])
            && Lines(l.cuts[1..], l.tail) == SplitLines(text[eol.value + 2..])
  {
    hide Find, SplitLines, ConsCut;
    SplitStep(text);
    var eol := Find(text, CRLF, 0).value;
    ConsParts(Cut(text[..eol], text[eol..eol + 2]), SplitLines(text[eol + 2..]));
  }

  lemma NoEnd(text: string)
    requires Find(text, CRLF, 0).None?
    ensures OneLine(text)
  {
    hide Find;
    assert forall k :: 0 <= k < |text| ==> text[k] !in CRLF;
  }

  lemma HasEnd(text: string, k: nat)
    requires k < |text| && text[k] in CRLF
    ensures !OneLine(text)
  {
  }

  /** The loop ends at a cursor exactly if the next line is the empty one, ended by CRLF. */
  lemma EndsOnLines(data: string, at: nat)
    requires at <= |data|
    ensures var l := SplitLines(data[at..]);
            && (EndsAt(data, at) <==> l.cuts != [] && l.cuts[0] == Cut("", CRLF))
            && (EndsAt(data, at) ==> data[at + 2..] == JoinLines(Lines(l.cuts[1..], l.tail)))
  {
    hide Find, JoinLines, SplitLines, ConsCut;
    var text := data[at..];
    SplitStep(text);
    var eol := Find(text, CRLF, 0);
    if eol.Some? && eol.value + 2 <= |text| {
      var n := eol.value;
      ConsParts(Cut(text[..n], text[n..n + 2]), SplitLines(text[n + 2..]));
      assert text[n..n + 2] == data[at + n..at + n + 2];
      assert text[..n] == "" <==> n == 0;
      assert text[n + 2..] == data[at + n + 2..];
      LinesJoin(text[n + 2..]);
    }
    if at + 2 <= |data| {
      assert text[0] == data[at] && data[at..at + 2] == text[..2];
    }
  }

  lemma BadNext(cuts: seq<Cut>)
    requires cuts != [] && Readable(cuts[0].line)
    ensures FirstBad(cuts) == 1 + FirstBad(cuts[1..])
    ensures var k := FirstBad(cuts); Heads(cuts[..k]) == [Head(cuts[0].line)] + Heads(cuts[1..][..k - 1])
  {
    hide Readable;
    var k := FirstBad(cuts);
    assert cuts[..k][1..] == cuts[1..][..k - 1] && cuts[..k][0] == cuts[0];
  }

  /** A readable line does not change how the lines behind it end. */
  lemma EndingNext(l: Lines, list: seq<Header>)
    requires l.cuts != [] && Readable(l.cuts[0].line)
    ensures var rest, head := Lines(l.cuts[1..], l.tail), Head(l.cuts[0].line);
            && (RunsOff(l) <==> RunsOff(rest))
            && (RunsOff(l) ==> list + AllHeads(l) == list + [head] + AllHeads(rest))
            && (rest.cuts != [] && rest.cuts[0] == Cut("", CRLF) ==>
                  Ending(l, list) == Done(Headers(list + [head], JoinLines(Lines(rest.cuts[1..], l.tail)))) && !RunsOff(l))
            && (!(rest.cuts != [] && rest.cuts[0] == Cut("", CRLF)) ==> Ending(l, list) == Ending(rest, list + [head]))
  {
    hide Head, JoinLines;
    BadNext(l.cuts);
    var rest, head, k := Lines(l.cuts[1..], l.tail), Head(l.cuts[0].line), FirstBad(l.cuts);
    assert l.cuts[..|l.cuts|] == l.cuts && rest.cuts[..|rest.cuts|] == rest.cuts;
    assert list + ([head] + Heads(rest.cuts[..k - 1])) == list + [head] + Heads(rest.cuts[..k - 1]);
    if rest.cuts != [] && rest.cuts[0] == Cut("", CRLF) {
      assert k == 1 && rest.cuts[..0] == [] && [head] + [] == [head];
      assert l.cuts[2..] == rest.cuts[1..];
    } else if k < |l.cuts| {
      assert l.cuts[k + 1..] == rest.cuts[k..];
    }
  }

  /** One pass of the loop over the lines from the cursor on. */
  lemma {:induction false} PassOnLines(data: string, at: nat, list: seq<Header>, wrapped: bool)
    requires at <= |data|
    ensures var l := SplitLines(data[at..]);
            ParseHeaders(data, at, list, wrapped)
              == if RunsOff(l) then AfterWrap(data, list + AllHeads(l), wrapped) else Ending(l, list)
    decreases |data| - at
  {
    hide *;
    var l := SplitLines(data[at..]);
    ParseHeadersStep(data, at, list, wrapped);
    if l.cuts == [] {
      RoundOnLast(data, at);
      LastLine(l, list);
      if OneLine(l.tail) && Readable(l.tail) {
        WrapStep(data, list + [Head(l.tail)], wrapped);
      }
    } else if !Readable(l.cuts[0].line) {
      RoundOnCut(data, at);
      BadLine(l, list);
    } else {
      RoundOnCut(data, at);
      var at', head := at + |l.cuts[0].line| + 2, Head(l.cuts[0].line);
      EndsOnLines(data, at');
      EndingNext(l, list);
      PassOnLines(data, at', list + [head], wrapped);
    }
  }

  lemma WrapStep(data: string, list: seq<Header>, wrapped: bool)
    ensures AfterWrap(data, list, wrapped)
            == if EndsAt(data, 1) then Done(Headers(list, data[3..])) else if wrapped then Diverges else ParseHeaders(data, 1, list, true)
  {
  }

  lemma LastLine(l: Lines, list: seq<Header>)
    requires l.cuts == []
    ensures RunsOff(l) <==> OneLine(l.tail) && Readable(l.tail)
    ensures RunsOff(l) ==> list + AllHeads(l) == list + [Head(l.tail)]
    ensures Ending(l, list) == Throws
  {
    hide Head, Readable;
  }

  lemma BadLine(l: Lines, list: seq<Header>)
    requires l.cuts != [] && !Readable(l.cuts[0].line)
    ensures !RunsOff(l) && Ending(l, list) == Throws
  {
    hide Readable;
  }

  /** What the header loop does, on every text and from every cursor inside it. If the lines from the cursor on do
      not run off, the first one that cannot be read decides; if they do, the lines from the second
      character of the whole text on, and if they run off as well, the loop never ends. */
  lemma HeadersOutcome(data: string, at: nat, list: seq<Header>)
    requires at <= |data|
    ensures var l := SplitLines(data[at..]);
            ParseHeaders(data, at, list, false) ==
            if !RunsOff(l) then Ending(l, list)
            else if EndsAt(data, 1) then Done(Headers(list + AllHeads(l), data[3..]))
            else if |data| >= 1 && !RunsOff(SplitLines(data[1..])) then Ending(SplitLines(data[1..]), list + AllHeads(l))
            else Diverges
  {
    hide *;
    var l := SplitLines(data[at..]);
    PassOnLines(data, at, list, false);
    if RunsOff(l) {
      RunsOffSome(data, at);
      var list' := list + AllHeads(l);
      WrapStep(data, list', false);
      PassOnLines(data, 1, list', true);
      if RunsOff(SplitLines(data[1..])) {
        WrapStep(data, list' + AllHeads(SplitLines(data[1..])), true);
      }
    }
  }

  lemma RunsOffSome(data: string, at: nat)
    requires at <= |data| && RunsOff(SplitLines(data[at..]))
    ensures |data| >= 1
  {
    LinesJoin(data[at..]);
    hide Find;
  }

  /** Behind a first line of at least one character, the parser never ends exactly if all lines behind it can be
      read, the last one without an end, and so can the first line without its first character. */
  lemma MessageDiverges(first: string, sep: string, rest: string, list: seq<Header>)
    requires first != "" && OneLine(first) && |sep| == 2 && sep[0] in CRLF
    ensures ParseHeaders(first + sep + rest, |first| + 2, list, false).Diverges?
            <==> RunsOff(SplitLines(rest)) && Readable(first[1..])
  {
    hide ParseHeaders, Readable, AllHeads, Ending, SplitLines;
    var data := first + sep + rest;
    assert data[|first| + 2..] == rest;
    HeadersOutcome(data, |first| + 2, list);
    SecondLook(first, sep, rest);
    EndingKinds(SplitLines(rest), list);
    if RunsOff(SplitLines(rest)) {
      EndingKinds(SplitLines(data[1..]), list + AllHeads(SplitLines(rest)));
    }
  }

  /** Behind a first line of at least two characters, the lines of the rest decide, and if they run off, whether the
      first line without its first character can be read. */
  lemma MessageOutcome(first: string, sep: string, rest: string, list: seq<Header>)
    requires |first| >= 2 && OneLine(first) && |sep| == 2 && sep[0] in CRLF
    ensures ParseHeaders(first + sep + rest, |first| + 2, list, false)
            == if !RunsOff(SplitLines(rest)) then Ending(SplitLines(rest), list)
               else if Readable(first[1..]) then Diverges
               else Throws
  {
    hide ParseHeaders, Readable, AllHeads, Ending, SplitLines, RunsOff, ConsCut;
    var data := first + sep + rest;
    assert data[|first| + 2..] == rest;
    HeadersOutcome(data, |first| + 2, list);
    SecondLook(first, sep, rest);
    assert data[1] == first[1] && first[1] in first;
    if RunsOff(SplitLines(rest)) && !Readable(first[1..]) {
      ConsParts(Cut(first[1..], sep), SplitLines(rest));
      BadLine(SplitLines(data[1..]), list + AllHeads(SplitLines(rest)));
    }
  }

  lemma EndingKinds(l: Lines, list: seq<Header>)
    ensures Ending(l, list).Done? || Ending(l, list).Throws?
  {
    hide Heads, JoinLines;
  }

  /** A line in front of a text. */
  lemma SplitFront(line: string, sep: string, rest: string)
    requires OneLine(line) && |sep| == 2 && sep[0] in CRLF
    ensures SplitLines(line + (sep + rest)) == ConsCut(Cut(line, sep), SplitLines(rest))
  {
    hide Find, SplitLines, ConsCut;
    var text := line + (sep + rest);
    assert text[0..] == text;
    NextLine(text, 0, line, sep, rest);
    SplitStep(text);
    assert text[..|line|] == line && text[|line|..|line| + 2] == sep && text[|line| + 2..] == rest;
  }

  lemma RunsOffCons(c: Cut, l: Lines)
    ensures RunsOff(ConsCut(c, l)) <==> Readable(c.line) && RunsOff(l)
  {
    hide Readable;
    assert ([c] + l.cuts)[1..] == l.cuts;
  }

  /** The lines from the second character on. */
  lemma SecondLook(first: string, sep: string, rest: string)
    requires first != "" && OneLine(first) && |sep| == 2 && sep[0] in CRLF
    ensures var data, l := first + sep + rest, SplitLines(rest);
            && SplitLines(data[1..]) == ConsCut(Cut(first[1..], sep), l)
            && (RunsOff(SplitLines(data[1..])) <==> Readable(first[1..]) && RunsOff(l))
            && (EndsAt(data, 1) ==> !Readable(first[1..]))
  {
    hide Readable, SplitLines, ConsCut, RunsOff;
    var data, line := first + sep + rest, first[1..];
    assert data[1..] == line + (sep + rest);
    SplitFront(line, sep, rest);
    RunsOffCons(Cut(line, sep), SplitLines(rest));
    assert |first| > 1 ==> data[1] == first[1] && first[1] in first;
    NotReadable();
  }

  lemma NotReadable()
    ensures !Readable("")
  {
  }

  /** A text of one line, without an end. */
  lemma OneLineDiverges(data: string, list: seq<Header>)
    requires data != "" && OneLine(data)
    ensures ParseHeaders(data, 1, list, false).Diverges? <==> Readable(data[1..])
  {
    hide ParseHeaders, Readable, Heads, Head, Find, SplitLines;
    var text := data[1..];
    HeadersOutcome(data, 1, list);
    NoLineEnd(text, 0);
    SplitStep(text);
    EndingKinds(SplitLines(text), list);
    assert |data| > 1 ==> data[1] in data;
  }

  function HeaderText(list: seq<Header>): string {
    if list == [] then ""
    else list[0].name + ": " + list[0].content + CRLF + HeaderText(list[1..])
  }

  /** The text of a message behind its first line. */
  function Text(h: Headers): string {
    HeaderText(h.list) + CRLF + h.body
  }

  method PutHeaders(list: seq<Header>, body: string) returns (text: string)
    ensures text == Text(Headers(list, body))
  {
    text := "";
    for i := 0 to |list|
      invariant text + HeaderText(list[i..]) == HeaderText(list)
    {
      assert list[i..][1..] == list[i + 1..];
      text := text + (list[i].name + ": " + list[i].content + CRLF);
    }
    text := text + CRLF + body;
  }

  predicate OneLine(s: string) {
    '\r' !in s && '\n' !in s
  }

  /** How a message is written, as section 3 of RFC 7230 has it: for every header a line with its name, a colon, a
      blank and its content, in order, then an empty line, then the body. */
  lemma {:induction false} TextLines(h: Headers)
    requires forall k :: 0 <= k < |h.list| ==> OneLine(h.list[k].name) && OneLine(h.list[k].content)
    ensures var l := SplitLines(Text(h));
            && |l.cuts| > |h.list| && l.cuts[|h.list|] == Cut("", ['\r', '\n'])
            && (forall k :: 0 <= k < |h.list| ==>
                  l.cuts[k] == Cut(h.list[k].name + [':', ' '] + h.list[k].content, ['\r', '\n']))
            && JoinLines(Lines(l.cuts[|h.list| + 1..], l.tail)) == h.body
    decreases |h.list|
  {
    hide SplitLines, HeaderText, JoinLines;
    if h.list == [] {
      BodyText(h.body);
      SplitFront("", CRLF, h.body);
      LinesJoin(h.body);
      var l := SplitLines(h.body);
      assert ([Cut("", CRLF)] + l.cuts)[1..] == l.cuts;
    } else {
      var rest := h.(list := h.list[1..]);
      TextLines(rest);
      FirstText(h);
      SplitFront(Line(h.list[0]), CRLF, Text(rest));
      var l, l' := SplitLines(Text(h)), SplitLines(Text(rest));
      assert l.cuts == [Cut(Line(h.list[0]), CRLF)] + l'.cuts && l.cuts[1..] == l'.cuts;
      assert l.cuts[|h.list| + 1..] == l'.cuts[|rest.list| + 1..];
      assert Line(h.list[0]) == h.list[0].name + [':', ' '] + h.list[0].content;
      forall k | 0 <= k < |h.list|
        ensures l.cuts[k] == Cut(h.list[k].name + [':', ' '] + h.list[k].content, ['\r', '\n'])
      {
        if k > 0 { assert l.cuts[k] == l'.cuts[k - 1] && h.list[k] == rest.list[k - 1]; }
      }
    }
  }

  lemma BodyText(body: string)
    ensures Text(Headers([], body)) == "" + (CRLF + body)
  {
  }

  lemma FirstText(h: Headers)
    requires h.list != []
    ensures Text(h) == Line(h.list[0]) + (CRLF + Text(h.(list := h.list[1..])))
  {
  }

  /** What a header must be made of to survive. */
  predicate Clean(h: Header) {
    ':' !in h.name && OneLine(h.name) && OneLine(h.content)
  }

  predicate AllClean(list: seq<Header>) {
    list != [] && forall k :: 0 <= k < |list| ==> Clean(list[k])
  }

  function Line(h: Header): string {
    h.name + ": " + h.content
  }

  /** A line read back is the header it was written for exactly when the name has no colon... */
  lemma LineRoundTrip(h: Header)
    requires OneLine(Line(h))
    ensures ParseLine(Line(h)) == Some(h) <==> ':' !in h.name
  {
    hide Find;
    var line := Line(h);
    assert line[|h.name|] == ':' && forall k :: 0 <= k < |h.name| ==> line[k] == h.name[k];
    if ':' in h.name {
      var k :| 0 <= k < |h.name| && h.name[k] == ':';
      assert line[k] == ':';
      NameCut(line, h);
    } else {
      assert Find(line, ":", 0) == Some(|h.name|);
      NoLineEnd(line, |h.name| + 2);
      assert line[0..|h.name|] == h.name && line[|h.name| + 2..|line|] == h.content;
    }
  }

  lemma NoLineEnd(line: string, from: nat)
    requires OneLine(line)
    ensures Find(line, CRLF, from) == None
  {
    hide Find;
    assert forall k :: 0 <= k < |line| ==> line[k] in line;
  }

  /** What is read from every line: the name up to the first colon, and what stands behind the character that follows
      the colon; from a line without a colon, the line itself and the line without its first character;
      and nothing from an empty line or one that ends with its first colon. */
  lemma LineRead(name: string, rest: string)
    requires OneLine(name) && OneLine(rest) && ':' !in name
    ensures ParseLine(name + ":" + rest) == if rest == "" then None else Some(Header(name, rest[1..]))
    ensures ParseLine(name) == if name == "" then None else Some(Header(name, name[1..]))
  {
    hide Find;
    var line := name + ":" + rest;
    assert line[|name|] == ':' && forall k :: 0 <= k < |name| ==> line[k] == name[k];
    assert Find(line, ":", 0) == Some(|name|) && line[..|name|] == name;
    if rest != "" {
      NoLineEnd(line, |name| + 2);
      assert line[|name| + 2..|line|] == rest[1..] && line[0..|name|] == name;
    }
    assert Find(name, ":", 0) == None;
    if name != "" { NoLineEnd(name, 1); }
    assert name[0..|name|] == name;
  }

  /** With a colon in the name, the name read back is shorter. */
  lemma NameCut(line: string, h: Header)
    requires |h.name| < |line| && exists k :: 0 <= k < |h.name| && line[k] == ':'
    ensures ParseLine(line) != Some(h)
  {
    hide Find;
    var k :| 0 <= k < |h.name| && line[k] == ':';
    var colon := Find(line, ":", 0);
    assert colon.Some? && colon.value <= k;
    assert |Substr(line, 0, colon).value| == colon.value;
  }

  /** ...and it has no line end: what is left of it in front of one is never the header. */
  lemma CutLine(h: Header, n: nat)
    requires n < |Line(h)| && Line(h)[n] in CRLF
    ensures ParseLine(Line(h)[..n]) != Some(h)
  {
  }

  /** The piece of text in front of a separator. */
  lemma FirstPiece(data: string, at: nat, piece: string, sep: char, rest: string, chars: string)
    requires at <= |data| && data[at..] == piece + [sep] + rest && sep in chars
    requires forall c :: c in piece ==> c !in chars
    ensures Find(data, chars, at) == Some(at + |piece|) && data[at..at + |piece|] == piece
    ensures at + |piece| < |data| && data[at + |piece| + 1..] == rest
  {
    assert data[at + |piece|] == data[at..][|piece|] == sep;
    forall k | at <= k < at + |piece|
      ensures data[k] in piece
    {
      assert data[k] == data[at..][k - at] == piece[k - at];
    }
  }

  /** A line behind the cursor, ended in any way. */
  lemma NextLine(data: string, at: nat, line: string, sep: string, rest: string)
    requires at <= |data| && data[at..] == line + (sep + rest) && OneLine(line) && |sep| == 2 && sep[0] in CRLF
    ensures Find(data, CRLF, at) == Some(at + |line|) && data[at..at + |line|] == line
  {
    hide Find;
    assert sep + rest == [sep[0]] + ([sep[1]] + rest);
    assert line + (sep + rest) == line + [sep[0]] + ([sep[1]] + rest);
    FirstPiece(data, at, line, sep[0], [sep[1]] + rest, CRLF);
  }

  lemma FirstLine(data: string, at: nat, line: string, rest: string)
    requires at <= |data| && data[at..] == line + CRLF + rest && OneLine(line)
    ensures Find(data, CRLF, at) == Some(at + |line|) && data[at..at + |line|] == line
    ensures at + |line| + 2 <= |data| && data[at + |line| + 2..] == rest
  {
    assert line + CRLF + rest == line + ['\r'] + (['\n'] + rest);
    FirstPiece(data, at, line, '\r', ['\n'] + rest, CRLF);
    assert data[at + |line| + 2..] == data[at + |line| + 1..][1..] == rest;
  }

  /** One round over a header that is clean, and one that is not. */
  lemma CleanRound(data: string, at: nat, h: Header, rest: string)
    requires Clean(h) && at <= |data| && data[at..] == Line(h) + CRLF + rest
    ensures var at' := at + |Line(h)| + 2;
            && ParseRound(data, at) == Some(Round(h, at', true)) && data[at'..] == rest
  {
    FirstLine(data, at, Line(h), rest);
    LineRoundTrip(h);
  }

  lemma UncleanRound(data: string, at: nat, h: Header, rest: string)
    requires !Clean(h) && at <= |data| && data[at..] == Line(h) + CRLF + rest
    ensures ParseRound(data, at).Some? ==> ParseRound(data, at).value.header != h
  {
    hide Line, ParseLine, Clean, OneLine;
    var line := Line(h);
    if OneLine(line) {
      FirstLine(data, at, line, rest);
      LineRoundTrip(h);
      UncleanName(h);
    } else {
      var n := CutAt(data, at, line, rest);
      CutLine(h, n);
    }
  }

  lemma UncleanName(h: Header)
    requires !Clean(h) && OneLine(Line(h))
    ensures ':' in h.name
  {
    var line := Line(h);
    assert forall k :: 0 <= k < |h.name| ==> h.name[k] == line[k];
    assert forall k :: 0 <= k < |h.content| ==> h.content[k] == line[|h.name| + 2 + k];
  }

  /** The first line end comes too early. */
  lemma CutAt(data: string, at: nat, line: string, rest: string) returns (n: nat)
    requires at <= |data| && data[at..] == line + CRLF + rest && !OneLine(line)
    ensures n < |line| && line[n] in CRLF && Find(data, CRLF, at) == Some(at + n)
    ensures at + n <= |data| && data[at..at + n] == line[..n]
  {
    var k :| 0 <= k < |line| && line[k] in CRLF;
    assert data[at + k] == data[at..][k] == line[k];
    n := Find(data, CRLF, at).value - at;
    assert data[at + n] == data[at..][n] == line[n];
    assert data[at..at + n] == data[at..][..n] == line[..n];
  }

  lemma EndsIff(data: string, at: nat, rest: string)
    requires at <= |data| && data[at..] == rest
    ensures EndsAt(data, at) <==> CRLF <= rest
    ensures EndsAt(data, at) ==> data[at + 2..] == rest[2..]
  {
    assert at + 2 <= |data| ==> data[at..at + 2] == rest[..2];
  }

  /** The text behind a header, and whether it begins with the empty line. */
  lemma TextTail(h: Headers)
    requires h.list != []
    ensures Text(h) == Line(h.list[0]) + CRLF + Text(h.(list := h.list[1..]))
    ensures |h.list| == 1 ==> Text(h.(list := h.list[1..])) == CRLF + h.body
    ensures |h.list| > 1 && Clean(h.list[1]) ==> !(CRLF <= Text(h.(list := h.list[1..])))
  {
    if |h.list| > 1 {
      var name := h.list[1].name;
      assert Text(h.(list := h.list[1..]))[0] == (name + ": ")[0];
    }
  }

  lemma CleanTail(list: seq<Header>)
    requires list != []
    ensures AllClean(list) ==> Clean(list[0]) && (|list| > 1 ==> Clean(list[1]) && AllClean(list[1..]))
    ensures !AllClean(list) && Clean(list[0]) ==> |list| > 1 && !AllClean(list[1..])
  {
    if |list| > 1 && AllClean(list[1..]) {
      assert forall k :: 0 < k < |list| ==> list[k] == list[1..][k - 1];
    }
  }

  /** One round of the loop over a clean header. */
  lemma CleanStep(data: string, at: nat, list: seq<Header>, h: Headers, wrapped: bool)
    requires h.list != [] && Clean(h.list[0]) && at <= |data| && data[at..] == Text(h)
    ensures var at', list', rest := at + |Line(h.list[0])| + 2, list + [h.list[0]], Text(h.(list := h.list[1..]));
            && at' <= |data| && data[at'..] == rest
            && ParseHeaders(data, at, list, wrapped)
               == if CRLF <= rest then Done(Headers(list', rest[2..])) else ParseHeaders(data, at', list', wrapped)
  {
    hide *;
    var rest := Text(h.(list := h.list[1..]));
    TextTail(h);
    CleanRound(data, at, h.list[0], rest);
    EndsIff(data, at + |Line(h.list[0])| + 2, rest);
    ParseHeadersStep(data, at, list, wrapped);
  }

  /** Clean headers are read back as they were written. */
  lemma {:induction false} CleanRoundTrip(data: string, at: nat, list: seq<Header>, h: Headers, wrapped: bool)
    requires AllClean(h.list) && h.list != [] && at <= |data| && data[at..] == Text(h)
    ensures ParseHeaders(data, at, list, wrapped) == Done(Headers(list + h.list, h.body))
    decreases |h.list|
  {
    hide *;
    var first, tail := h.list[0], h.(list := h.list[1..]);
    CleanTail(h.list);
    TextTail(h);
    CleanStep(data, at, list, h, wrapped);
    assert list + h.list == list + [first] + tail.list;
    if |h.list| == 1 {
      assert CRLF <= CRLF + h.body && (CRLF + h.body)[2..] == h.body;
      assert list + h.list == list + [first];
    } else {
      CleanRoundTrip(data, at + |Line(first)| + 2, list + [first], tail, wrapped);
    }
  }

  /** A header that is not clean is not read back, and spoils the list. */
  lemma UncleanFirst(data: string, at: nat, list: seq<Header>, h: Headers, wrapped: bool)
    requires h.list != [] && !Clean(h.list[0]) && at <= |data| && data[at..] == Text(h)
    ensures var r := ParseHeaders(data, at, list, wrapped);
            r.Done? ==> |r.value.list| > |list| && r.value.list[|list|] != h.list[0]
  {
    hide *;
    TextTail(h);
    UncleanRound(data, at, h.list[0], Text(h.(list := h.list[1..])));
    ParseHeadersStep(data, at, list, wrapped);
  }

  lemma {:induction false} UncleanLost(data: string, at: nat, list: seq<Header>, h: Headers, wrapped: bool)
    requires h.list != [] && !AllClean(h.list) && at <= |data| && data[at..] == Text(h)
    ensures var r := ParseHeaders(data, at, list, wrapped); r.Done? ==> r.value.list != list + h.list
    decreases |h.list|
  {
    hide *;
    var first, tail := h.list[0], h.(list := h.list[1..]);
    CleanTail(h.list);
    if Clean(first) {
      CleanStep(data, at, list, h, wrapped);
      UncleanLost(data, at + |Line(first)| + 2, list + [first], tail, wrapped);
      assert list + h.list == list + [first] + tail.list;
    } else {
      UncleanFirst(data, at, list, h, wrapped);
    }
  }

  lemma NoHeaders(data: string, at: nat, list: seq<Header>, body: string, wrapped: bool)
    requires at <= |data| && data[at..] == Text(Headers([], body))
    ensures ParseHeaders(data, at, list, wrapped) == Throws
  {
    assert data[at..] == "" + CRLF + body;
    FirstLine(data, at, "", body);
  }

  /** The header loop inverts the text of the headers and the body exactly when there is a header
      and every header is clean; without headers it throws. */
  lemma HeadersRoundTrip(data: string, at: nat, h: Headers)
    requires at <= |data| && data[at..] == Text(h)
    ensures ParseHeaders(data, at, [], false) == Done(h) <==> AllClean(h.list)
    ensures h.list == [] ==> ParseHeaders(data, at, [], false) == Throws
  {
    hide ParseHeaders, Text;
    assert [] + h.list == h.list;
    if h.list == [] {
      NoHeaders(data, at, [], h.body, false);
    } else if AllClean(h.list) {
      CleanRoundTrip(data, at, [], h, false);
    } else {
      UncleanLost(data, at, [], h, false);
    }
  }
}
