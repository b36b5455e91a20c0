/** engmoded's URL coding and the parameters of a query. */
module Url {
  import opened Words

  type Bytes = seq<bv8>

  const PERCENT: bv8 := 0x25
  const AMPERSAND: bv8 := 0x26
  const PLUS: bv8 := 0x2B
  const EQUALS: bv8 := 0x3D
  const QUESTION: bv8 := 0x3F
  const HASH: bv8 := 0x23
  const SPACE: bv8 := 0x20

  predicate IsDigit(c: bv8) {
    0x30 <= c <= 0x39
  }

  predicate IsAlnum(c: bv8) {
    IsDigit(c) || 0x41 <= c <= 0x5A || 0x61 <= c <= 0x7A
  }

  function ToHex(x: bv8): bv8 {
    if x > 9 then x - 10 + 0x41 else x + 0x30
  }

  function FromHex(x: bv8): bv8 {
    if IsDigit(x) then x - 0x30 else x - 0x41 + 10
  }

  function High(c: bv8): bv8 {
    ToHex(c >> 4)
  }

  function Low(c: bv8): bv8 {
    ToHex(c % 16)
  }

  function Join(h: bv8, l: bv8): bv8 {
    (FromHex(h) << 4) | FromHex(l)
  }

  /** `s.c_str()` read as a C string. */
  function CString(s: Bytes): Bytes {
    if s == [] || s[0] == 0 then [] else [s[0]] + CString(s[1..])
  }

  function Encode1(c: bv8): Bytes {
    if IsAlnum(c) then [c] else [PERCENT, High(c), Low(c)]
  }

  /** `URLEncode` on a C string. */
  function Encode(s: Bytes): Bytes {
    if s == [] then [] else Encode1(s[0]) + Encode(s[1..])
  }

  /** `URLDecode` on the C string `s`, whose end is followed by a zero byte; `None` when it reads past
      that byte. */
  function Decode(s: Bytes): Option<Bytes>
    decreases |s|
  {
    if s == [] then Some([])
    else if s == [PERCENT] then None
    else if s[0] == PERCENT && |s| == 2 then Some([Join(s[1], 0)])
    else if s[0] == PERCENT then Glue([Join(s[1], s[2])], Decode(s[3..]))
    else Glue([if s[0] == PLUS then SPACE else s[0]], Decode(s[1..]))
  }

  method UrlEncode(text: Bytes) returns (out: Bytes)
    ensures out == Encode(CString(text))
  {
    hide Encode, High, Low, CString;
    var s := CString(text);
    out := [];
    EncodeEnds(s);
    for i := 0 to |s|
      invariant out + Encode(s[i..]) == Encode(s)
    {
      EncodeFrom(out, s, i);
      if IsAlnum(s[i]) {
        out := out + [s[i]];
      } else {
        out := out + [PERCENT, High(s[i]), Low(s[i])];
      }
    }
  }

  lemma EncodeEnds(s: Bytes)
    ensures [] + Encode(s[0..]) == Encode(s) && Encode(s[|s|..]) == []
  {
    assert s[0..] == s;
  }

  lemma EncodeFrom(out: Bytes, s: Bytes, i: nat)
    requires i < |s|
    ensures out + Encode(s[i..]) == (out + Encode1(s[i])) + Encode(s[i + 1..])
  {
    hide High, Low;
    assert s[i..][1..] == s[i + 1..];
  }

  method UrlDecode(s: Bytes) returns (out: Option<Bytes>)
    ensures out == Decode(s)
  {
    var got: Bytes := [];
    var i := 0;
    assert s[0..] == s && (Decode(s).Some? ==> [] + Decode(s).value == Decode(s).value);
    while i < |s|
      invariant i <= |s| && Decode(s) == Glue(got, Decode(s[i..]))
    {
      ghost var rest := s[i..];
      if s[i] == PERCENT {
        if i + 1 == |s| { return None; }
        if i + 2 == |s| { return Some(got + [Join(s[i + 1], 0)]); }
        assert s[i + 3..] == rest[3..];
        GlueGlue(got, [Join(s[i + 1], s[i + 2])], Decode(s[i + 3..]));
        got := got + [Join(s[i + 1], s[i + 2])];
        i := i + 3;
      } else {
        var c := if s[i] == PLUS then SPACE else s[i];
        assert s[i + 1..] == rest[1..];
        GlueGlue(got, [c], Decode(s[i + 1..]));
        got := got + [c];
        i := i + 1;
      }
    }
    assert got + [] == got;
    return Some(got);
  }

  lemma Hex(c: bv8)
    ensures Join(High(c), Low(c)) == c
    ensures IsAlnum(High(c)) && IsAlnum(Low(c))
  {
  }

  /** Decoding inverts encoding. */
  lemma {:induction false} DecodeEncode(s: Bytes)
    ensures Decode(Encode(s)) == Some(s)
  {
    if s != [] {
      var c, rest := s[0], Encode(s[1..]);
      DecodeEncode(s[1..]);
      Hex(c);
      hide Join, High, Low;
      assert s == [c] + s[1..];
      if IsAlnum(c) {
        assert Encode(s)[1..] == rest;
      } else {
        assert Encode(s)[3..] == rest;
      }
    }
  }

  // ---- what a text means --------------------------------------------------------------------

  /** A hexadecimal digit, of either case. */
  predicate IsHex(x: bv8) {
    0x30 <= x <= 0x39 || 0x41 <= x <= 0x46 || 0x61 <= x <= 0x66
  }

  function HexValue(x: bv8): bv8
    requires IsHex(x)
  {
    if x <= 0x39 then x - 0x30 else if x <= 0x46 then x - 0x37 else x - 0x57
  }

  /** An escape with a small letter as its second digit, behind a first digit 0, 1, 4, 5, 8, 9, c or d. */
  predicate Misread(h: bv8, l: bv8) {
    0x61 <= l <= 0x66 && h in {0x30, 0x31, 0x34, 0x35, 0x38, 0x39, 0x43, 0x44, 0x63, 0x64}
  }

  /** Section 2.1 of RFC 3986 makes the two cases of a digit the same; the decoder reads an escape as the byte it
      stands for exactly if it is not one of these. */
  lemma EscapeIff(h: bv8, l: bv8)
    requires IsHex(h) && IsHex(l)
    ensures Join(h, l) == 16 * HexValue(h) + HexValue(l) <==> !Misread(h, l)
  {
  }

  /** Every escape is a percent sign and two digits. */
  predicate WellWritten(text: Bytes)
    decreases |text|
  {
    text == []
    || if text[0] == PERCENT then |text| >= 3 && IsHex(text[1]) && IsHex(text[2]) && WellWritten(text[3..])
       else WellWritten(text[1..])
  }

  /** The bytes that a text stands for: a blank for a plus sign, the byte of its two digits for an escape, and every
      other byte for itself. */
  function Meaning(text: Bytes): Bytes
    requires WellWritten(text)
    decreases |text|
  {
    if text == [] then []
    else if text[0] == 0x25 then [16 * HexValue(text[1]) + HexValue(text[2])] + Meaning(text[3..])
    else [if text[0] == 0x2B then 0x20 else text[0]] + Meaning(text[1..])
  }

  /** Some escape of the text is misread. */
  predicate Misreads(text: Bytes)
    requires WellWritten(text)
    decreases |text|
  {
    text != []
    && if text[0] == PERCENT then Misread(text[1], text[2]) || Misreads(text[3..]) else Misreads(text[1..])
  }

  /** Decoding gives as many bytes as the text stands for, and exactly these if and only if it misreads no escape. */
  lemma {:induction false} DecodeMeaning(text: Bytes)
    requires WellWritten(text)
    ensures Decode(text).Some? && |Decode(text).value| == |Meaning(text)|
    ensures Decode(text) == Some(Meaning(text)) <==> !Misreads(text)
    decreases |text|
  {
    hide Join, HexValue, Misread;
    if text != [] {
      if text[0] == PERCENT {
        DecodeMeaning(text[3..]);
        EscapeIff(text[1], text[2]);
        OneMore(Join(text[1], text[2]), Decode(text[3..]).value, 16 * HexValue(text[1]) + HexValue(text[2]), Meaning(text[3..]));
      } else {
        DecodeMeaning(text[1..]);
        var c := if text[0] == PLUS then SPACE else text[0];
        OneMore(c, Decode(text[1..]).value, c, Meaning(text[1..]));
      }
    }
  }

  lemma OneMore(a: bv8, x: Bytes, b: bv8, y: Bytes)
    ensures [a] + x == [b] + y <==> a == b && x == y
  {
    if [a] + x == [b] + y {
      assert ([a] + x)[0] == a && ([b] + y)[0] == b && ([a] + x)[1..] == x && ([b] + y)[1..] == y;
    }
  }

  lemma DigitsWritten(c: bv8)
    ensures IsHex(High(c)) && IsHex(Low(c)) && 16 * HexValue(High(c)) + HexValue(Low(c)) == c && !Misread(High(c), Low(c))
  {
  }

  /** An encoding stands for what was encoded, without an escape that is misread. */
  lemma {:induction false} EncodeWrites(s: Bytes)
    ensures WellWritten(Encode(s)) && Meaning(Encode(s)) == s && !Misreads(Encode(s))
  {
    if s != [] {
      var c, rest := s[0], Encode(s[1..]);
      EncodeWrites(s[1..]);
      DigitsWritten(c);
      hide High, Low, HexValue, Misread;
      assert s == [c] + s[1..];
      if IsAlnum(c) {
        assert Encode(s)[1..] == rest;
      } else {
        assert Encode(s)[3..] == rest;
      }
    }
  }

  lemma {:induction false} DecodeTwo(front: Bytes, back: Bytes)
    requires WellWritten(front)
    ensures Decode(front).Some? && Decode(front + back) == Glue(Decode(front).value, Decode(back))
    decreases |front|
  {
    hide Join;
    DecodeMeaning(front);
    if front == [] {
      assert front + back == back;
      if Decode(back).Some? { assert [] + Decode(back).value == Decode(back).value; }
    } else {
      var n := if front[0] == PERCENT then 3 else 1;
      DecodeTwo(front[n..], back);
      DecodeMeaning(front[n..]);
      assert (front + back)[n..] == front[n..] + back;
      var c := if front[0] == PERCENT then Join(front[1], front[2]) else if front[0] == PLUS then SPACE else front[0];
      GlueGlue([c], Decode(front[n..]).value, Decode(back));
    }
  }

  /** An escape that the end of the string cuts short after one digit is read with the terminating zero as the
      other, and nothing behind that is read. */
  lemma CutEscape(front: Bytes, d: bv8)
    requires WellWritten(front) && IsHex(d)
    ensures Decode(front).Some? && Decode(front + [PERCENT, d]) == Some(Decode(front).value + [(HexValue(d) << 4) | 0xC9])
  {
    DecodeMeaning(front);
    DecodeTwo(front, [PERCENT, d]);
    assert Join(d, 0) == (HexValue(d) << 4) | 0xC9;
  }

  /** A letter or a digit. */
  predicate Unreserved(c: bv8) {
    0x30 <= c <= 0x39 || 0x41 <= c <= 0x5A || 0x61 <= c <= 0x7A
  }

  /** Exactly the strings of letters and digits are encoded as themselves. */
  lemma {:induction false} EncodePlainIff(s: Bytes)
    ensures |Encode(s)| >= |s|
    ensures Encode(s) == s <==> forall k :: 0 <= k < |s| ==> Unreserved(s[k])
  {
    hide High, Low;
    if s != [] {
      EncodePlainIff(s[1..]);
      assert forall k :: 0 < k < |s| ==> s[k] == s[1..][k - 1];
      assert s == [s[0]] + s[1..];
      if IsAlnum(s[0]) {
        assert Encode(s)[1..] == Encode(s[1..]);
      }
    }
  }

  /** Every escape has both of its digits. */
  predicate Whole(s: Bytes)
    decreases |s|
  {
    s == [] || if s[0] == PERCENT then |s| >= 3 && Whole(s[3..]) else Whole(s[1..])
  }

  /** The string ends in a percent sign that begins an escape. */
  predicate StopsShort(s: Bytes) {
    s != [] && s[|s| - 1] == PERCENT && Whole(s[..|s| - 1])
  }

  /** Decoding reads past the end of the string exactly if that begins an escape with its last byte. */
  lemma {:induction false} DecodeLeaves(s: Bytes)
    ensures Decode(s).None? <==> StopsShort(s)
    decreases |s|
  {
    hide Join;
    if |s| <= 2 {
      if |s| == 2 {
        DecodeLeaves(s[1..]);
        assert s[..1][1..] == s[1..][..0] == [];
      }
    } else {
      var n := if s[0] == PERCENT then 3 else 1;
      DecodeLeaves(s[n..]);
      if |s| > n {
        assert s[..|s| - 1][n..] == s[n..][..|s| - n - 1] && s[n..][|s| - n - 1] == s[|s| - 1];
      }
    }
  }

  /** An encoded string is made of letters, digits and percent signs. */
  lemma {:induction false} EncodeSafe(s: Bytes)
    ensures forall c :: c in Encode(s) ==> IsAlnum(c) || c == PERCENT
  {
    if s != [] {
      EncodeSafe(s[1..]);
      Hex(s[0]);
    }
  }

  // ---- the parameters of a query ----------------------------------------------------------

  /** `s.find(c)` */
  function IndexOf(s: Bytes, c: bv8): (r: Option<nat>)
    ensures r.Some? ==> r.value < |s| && s[r.value] == c && forall k :: 0 <= k < r.value ==> s[k] != c
    ensures r.None? ==> c !in s
  {
    if s == [] then None
    else if s[0] == c then Some(0)
    else
      var r := IndexOf(s[1..], c);
      if r.None? then None else Some(r.value + 1)
  }

  /** A position that the code accepts: found, and not at the very beginning. */
  predicate Inside(r: Option<nat>) {
    r.Some? && r.value > 0
  }

  /** The value of the pair `query`, if its key is `key`. */
  function Match(query: Bytes, key: Bytes): Option<Bytes> {
    var eq := IndexOf(query, EQUALS);
    if Inside(eq) && query[..eq.value] == key then Some(query[eq.value + 1..]) else None
  }

  /** The text that the loop of `getParameter` finds for `key` in a query. */
  function Lookup(query: Bytes, key: Bytes): Bytes
    decreases |query|
  {
    var amp := IndexOf(query, AMPERSAND);
    if Inside(amp) then
      var m := Match(query[..amp.value], key);
      if m.Some? then m.value else Lookup(query[amp.value + 1..], key)
    else
      var m := Match(query, key);
      if m.Some? then m.value else []
  }

  function AfterQuestion(url: Bytes): Bytes {
    var q := IndexOf(url, QUESTION);
    if q.Some? then url[q.value + 1..] else url
  }

  function BeforeHash(s: Bytes): Bytes {
    var h := IndexOf(s, HASH);
    if h.Some? then s[..h.value] else s
  }

  function Parameter(url: Bytes, key: Bytes): Option<Bytes> {
    Decode(CString(Lookup(BeforeHash(AfterQuestion(url)), key)))
  }

  /** `getParameter` */
  method GetParameter(url: Bytes, key: Bytes) returns (value: Option<Bytes>)
    ensures value == Parameter(url, key)
  {
    var rest := BeforeHash(AfterQuestion(url));
    ghost var query := rest;
    var found: Bytes := [];
    while true
      invariant found == [] && Lookup(query, key) == Lookup(rest, key)
      decreases |rest|
    {
      var pos := IndexOf(rest, AMPERSAND);
      var pair := rest;
      if Inside(pos) {
        pair := rest[..pos.value];
        rest := rest[pos.value + 1..];
      }
      var eq := IndexOf(pair, EQUALS);
      if Inside(eq) && pair[..eq.value] == key {
        found := pair[eq.value + 1..];
        break;
      }
      if !Inside(pos) {
        break;
      }
    }
    value := UrlDecode(CString(found));
  }

  /** A key, the text that stands for its value, and what may follow the text behind a zero byte. */
  datatype Pair = Pair(key: Bytes, text: Bytes, behind: Bytes)

  function PairText(p: Pair): Bytes {
    p.key + [EQUALS] + (p.text + p.behind)
  }

  function QueryText(pairs: seq<Pair>): Bytes {
    if pairs == [] then []
    else if |pairs| == 1 then PairText(pairs[0])
    else PairText(pairs[0]) + [AMPERSAND] + QueryText(pairs[1..])
  }

  /** The first pair with this key, or one without a text. */
  function First(pairs: seq<Pair>, key: Bytes): Pair {
    if pairs == [] then Pair(key, [], []) else if pairs[0].key == key then pairs[0] else First(pairs[1..], key)
  }

  predicate KeyOk(key: Bytes) {
    key != [] && EQUALS !in key && AMPERSAND !in key && HASH !in key
  }

  predicate TextOk(text: Bytes, behind: Bytes) {
    && AMPERSAND !in text && HASH !in text && 0 !in text
    && AMPERSAND !in behind && HASH !in behind && (behind != [] ==> behind[0] == 0)
  }

  predicate PairsOk(pairs: seq<Pair>) {
    forall k :: 0 <= k < |pairs| ==>
      KeyOk(pairs[k].key) && TextOk(pairs[k].text, pairs[k].behind) && WellWritten(pairs[k].text)
  }

  lemma {:induction false} IndexIs(front: Bytes, c: bv8, back: Bytes)
    requires c !in front
    ensures IndexOf(front + [c] + back, c) == Some(|front|)
  {
    var s := front + [c] + back;
    assert s[|front|] == c;
    assert forall k :: 0 <= k < |front| ==> s[k] == front[k];
  }

  /** One pair of a query. */
  lemma MatchPair(p: Pair, key: Bytes)
    requires KeyOk(p.key) && TextOk(p.text, p.behind)
    ensures Match(PairText(p), key) == if p.key == key then Some(p.text + p.behind) else None
    ensures AMPERSAND !in PairText(p) && HASH !in PairText(p) && PairText(p) != []
  {
    IndexIs(p.key, EQUALS, p.text + p.behind);
    assert PairText(p)[..|p.key|] == p.key && PairText(p)[|p.key| + 1..] == p.text + p.behind;
  }

  lemma LookupNothing(key: Bytes)
    ensures Lookup([], key) == []
  {
  }

  lemma {:induction false} LookupFirst(pairs: seq<Pair>, key: Bytes)
    requires PairsOk(pairs)
    ensures Lookup(QueryText(pairs), key) == First(pairs, key).text + First(pairs, key).behind && HASH !in QueryText(pairs)
    decreases |pairs|
  {
    hide WellWritten, Match, PairText;
    if pairs == [] {
      LookupNothing(key);
    } else {
      var pair, rest := PairText(pairs[0]), QueryText(pairs[1..]);
      MatchPair(pairs[0], key);
      LookupFirst(pairs[1..], key);
      if |pairs| > 1 {
        IndexIs(pair, AMPERSAND, rest);
        var s := pair + [AMPERSAND] + rest;
        assert s[..|pair|] == pair && s[|pair| + 1..] == rest;
      }
    }
  }

  lemma {:induction false} FirstWritten(pairs: seq<Pair>, key: Bytes)
    requires PairsOk(pairs)
    ensures WellWritten(First(pairs, key).text) && TextOk(First(pairs, key).text, First(pairs, key).behind)
  {
    if pairs != [] {
      FirstWritten(pairs[1..], key);
    }
  }

  /** An encoded value can stand in a query. */
  lemma EncodedOk(value: Bytes)
    ensures TextOk(Encode(value), [])
    ensures WellWritten(Encode(value)) && Meaning(Encode(value)) == value && !Misreads(Encode(value))
  {
    EncodeSafe(value);
    EncodeWrites(value);
  }

  /** A C string ends before the first zero byte. */
  lemma {:induction false} CStringEnds(text: Bytes, behind: Bytes)
    requires 0 !in text && (behind != [] ==> behind[0] == 0)
    ensures CString(text + behind) == text
  {
    if text == [] {
      assert text + behind == behind;
    } else {
      CStringEnds(text[1..], behind);
      assert (text + behind)[1..] == text[1..] + behind;
    }
  }

  /** What stands before the query: the path and a question mark, or nothing. */
  function Opening(path: Option<Bytes>): Bytes {
    if path.Some? then path.value + [QUESTION] else []
  }

  /** What may stand behind it. */
  function Ending(fragment: Option<Bytes>): Bytes {
    if fragment.Some? then [HASH] + fragment.value else []
  }

  /** Every parameter of a well-formed URL is looked up, decoded, in the text up to a zero byte of its first pair, or
      is empty; it is what that text stands for exactly if no escape in it is misread. The path, and what
      follows a hash sign, do not matter, and without a question mark the whole of the URL is searched. */
  lemma ParameterFound(path: Option<Bytes>, pairs: seq<Pair>, fragment: Option<Bytes>, key: Bytes)
    requires if path.Some? then QUESTION !in path.value else QUESTION !in QueryText(pairs) + Ending(fragment)
    requires PairsOk(pairs)
    ensures var value, text := Parameter(Opening(path) + (QueryText(pairs) + Ending(fragment)), key), First(pairs, key).text;
            && WellWritten(text) && value.Some? && |value.value| == |Meaning(text)|
            && (value == Some(Meaning(text)) <==> !Misreads(text))
  {
    hide *;
    LookupFirst(pairs, key);
    QueryFound(path, QueryText(pairs), fragment, key);
    FirstWritten(pairs, key);
    TextParts(First(pairs, key));
    CStringEnds(First(pairs, key).text, First(pairs, key).behind);
    DecodeMeaning(First(pairs, key).text);
  }

  lemma TextParts(p: Pair)
    requires TextOk(p.text, p.behind)
    ensures 0 !in p.text && (p.behind != [] ==> p.behind[0] == 0)
  {
  }

  lemma QueryFound(path: Option<Bytes>, query: Bytes, fragment: Option<Bytes>, key: Bytes)
    requires (if path.Some? then QUESTION !in path.value else QUESTION !in query + Ending(fragment)) && HASH !in query
    ensures Parameter(Opening(path) + (query + Ending(fragment)), key) == Decode(CString(Lookup(query, key)))
  {
    hide Decode, CString, Lookup;
    var end := Ending(fragment);
    var url := Opening(path) + (query + end);
    if path.Some? {
      IndexIs(path.value, QUESTION, query + end);
      assert url[|path.value| + 1..] == query + end;
    } else {
      assert url == query + end;
    }
    assert AfterQuestion(url) == query + end;
    if fragment.Some? {
      assert query + end == query + [HASH] + fragment.value;
      IndexIs(query, HASH, fragment.value);
    } else {
      assert query + end == query;
    }
  }

  // ---- any query ----------------------------------------------------------------------------

  /** The segments of a query: what stands between its ampersands. */
  function Split(query: Bytes): (segments: seq<Bytes>)
    ensures segments != [] && forall k :: 0 <= k < |segments| ==> AMPERSAND !in segments[k]
    decreases |query|
  {
    var amp := IndexOf(query, AMPERSAND);
    if amp.None? then [query] else [query[..amp.value]] + Split(query[amp.value + 1..])
  }

  function JoinSegments(segments: seq<Bytes>): Bytes {
    if segments == [] then []
    else if |segments| == 1 then segments[0]
    else segments[0] + [AMPERSAND] + JoinSegments(segments[1..])
  }

  /** Splitting takes a query apart, and joining puts it together: neither loses anything. */
  lemma {:induction false} SplitJoins(query: Bytes)
    ensures JoinSegments(Split(query)) == query
    decreases |query|
  {
    hide IndexOf, JoinSegments;
    var amp := IndexOf(query, AMPERSAND);
    if amp.None? {
      JoinOne(query);
    } else {
      var rest := query[amp.value + 1..];
      SplitJoins(rest);
      JoinCons(query[..amp.value], Split(rest));
      assert query == query[..amp.value] + [AMPERSAND] + rest;
    }
  }

  lemma JoinOne(segment: Bytes)
    ensures JoinSegments([segment]) == segment
  {
  }

  lemma JoinCons(first: Bytes, rest: seq<Bytes>)
    requires rest != []
    ensures JoinSegments([first] + rest) == first + [AMPERSAND] + JoinSegments(rest)
  {
    assert ([first] + rest)[1..] == rest;
  }

  /** The first segment with this key. */
  function FirstMatch(segments: seq<Bytes>, key: Bytes): (r: Option<nat>)
    ensures r.Some? ==> r.value < |segments| && Match(segments[r.value], key).Some?
    ensures r.Some? ==> forall k :: 0 <= k < r.value ==> Match(segments[k], key).None?
    ensures r.None? ==> forall k :: 0 <= k < |segments| ==> Match(segments[k], key).None?
  {
    if segments == [] then None
    else if Match(segments[0], key).Some? then Some(0)
    else
      var r := FirstMatch(segments[1..], key);
      if r.None? then None else Some(r.value + 1)
  }

  /** No empty segment stands before number `n`. */
  predicate Visible(segments: seq<Bytes>, n: nat)
    requires n <= |segments|
  {
    forall k :: 0 <= k < n ==> segments[k] != []
  }

  /** What is found: the first segment with the key, if it is visible. */
  function Seen(segments: seq<Bytes>, key: Bytes): Option<Bytes> {
    var n := FirstMatch(segments, key);
    if n.Some? && Visible(segments, n.value) then Some(Match(segments[n.value], key).value) else None
  }

  lemma SeenTail(segments: seq<Bytes>, key: Bytes)
    requires segments != [] && segments[0] != [] && Match(segments[0], key).None?
    ensures Seen(segments, key) == Seen(segments[1..], key)
  {
    hide Match;
    var n, m := FirstMatch(segments, key), FirstMatch(segments[1..], key);
    if m.Some? {
      assert Visible(segments, n.value) <==> Visible(segments[1..], m.value) by {
        assert forall k :: 0 < k < n.value ==> segments[k] == segments[1..][k - 1];
        assert forall k :: 0 <= k < m.value ==> segments[1..][k] == segments[k + 1];
      }
    }
  }

  /** A query that begins with an ampersand hides all of its parameters. */
  lemma LeadingAmpersandHides(query: Bytes, key: Bytes)
    requires AMPERSAND !in key && query != [] && query[0] == AMPERSAND
    ensures Lookup(query, key) == [] && Seen(Split(query), key) == None
  {
    var eq, segments := IndexOf(query, EQUALS), Split(query);
    if Inside(eq) {
      assert query[..eq.value][0] == AMPERSAND;
    }
    assert segments[0] == [];
    assert Match([], key).None?;
  }

  /** For every query: the text found for a key is that of the first segment with the key if no empty
      segment stands before it, and nothing otherwise. */
  lemma {:induction false} LookupExact(query: Bytes, key: Bytes)
    requires AMPERSAND !in key
    ensures Lookup(query, key) == var seen := Seen(Split(query), key); if seen.Some? then seen.value else []
    decreases |query|
  {
    hide *;
    LookupStep(query, key);
    if AMPERSAND !in query {
      SeenAlone(query, key);
    } else if query[0] == AMPERSAND {
      LeadingAmpersandHides(query, key);
    } else {
      LookupExact(query[IndexOf(query, AMPERSAND).value + 1..], key);
      if Match(Split(query)[0], key).None? {
        SeenTail(Split(query), key);
      } else {
        SeenFirst(Split(query), key);
      }
    }
  }

  /** One round of the lookup, and one step of the split. */
  lemma LookupStep(query: Bytes, key: Bytes)
    ensures AMPERSAND !in query ==>
              && Split(query) == [query]
              && Lookup(query, key) == if Match(query, key).Some? then Match(query, key).value else []
    ensures AMPERSAND in query && query[0] != AMPERSAND ==>
              var amp := IndexOf(query, AMPERSAND);
              && amp.Some? && 0 < amp.value < |query|
              && Split(query)[0] == query[..amp.value] != [] && Split(query)[1..] == Split(query[amp.value + 1..])
              && Lookup(query, key) == (var m := Match(query[..amp.value], key);
                                        if m.Some? then m.value else Lookup(query[amp.value + 1..], key))
  {
    hide Match;
  }

  lemma SeenAlone(segment: Bytes, key: Bytes)
    ensures Seen([segment], key) == Match(segment, key)
  {
    hide Match;
    assert [segment][1..] == [];
    assert FirstMatch([], key) == None;
  }

  lemma SeenFirst(segments: seq<Bytes>, key: Bytes)
    requires segments != [] && Match(segments[0], key).Some?
    ensures Seen(segments, key) == Match(segments[0], key)
  {
    hide Match;
  }

  /** The value of a parameter is not defined exactly if its segment is seen and its text, as a C string, ends
      in the beginning of an escape. */
  lemma ParameterLeaves(url: Bytes, key: Bytes)
    requires AMPERSAND !in key
    ensures var seen := Seen(Split(BeforeHash(AfterQuestion(url))), key);
            Parameter(url, key).None? <==> seen.Some? && StopsShort(CString(seen.value))
  {
    hide Decode, Lookup, Split, Seen, Whole, BeforeHash, AfterQuestion;
    var query := BeforeHash(AfterQuestion(url));
    LookupExact(query, key);
    DecodeLeaves(CString(Lookup(query, key)));
  }

  /** At the URL `?a=%`, for the key `a`. */
  lemma LonePercent()
    ensures Parameter([QUESTION, 0x61, EQUALS, PERCENT], [0x61]).None?
  {
    var a: bv8 := 0x61;
    var url, query := [QUESTION, a, EQUALS, PERCENT], [a, EQUALS, PERCENT];
    assert url[1..] == query;
    assert AfterQuestion(url) == query && HASH !in query && BeforeHash(query) == query;
    assert AMPERSAND !in query;
    LookupStep(query, [a]);
    assert IndexOf(query, EQUALS) == Some(1);
    assert query[..1] == [a] && query[2..] == [PERCENT];
    assert Match(query, [a]) == Some([PERCENT]);
    assert CString([PERCENT]) == [PERCENT];
  }
}
