/** The command tokeniser of the WCN daemon. */
module Wcnd {
  import opened Words

  const ARGS_MAX: nat := 16
  const TMP_SIZE: nat := 255
  const NUL: char := '\0'

  /** The variables of the tokeniser: the finished arguments, the one under way, and its two flags. */
  datatype Scan = Scan(argv: seq<string>, tmp: string, esc: bool, quote: bool)

  const START: Scan := Scan([], "", false, false)

  /** `TooLong` and `TooMany` are the two ways to the "Command too long" answer: a full `tmp` and a
      full `argv`. */
  datatype Outcome = Args(argv: seq<string>) | TooLong | TooMany | BadEscape | Unclosed

  datatype Stepped = Next(scan: Scan) | Stop(outcome: Outcome)

  function Append(s: Scan, c: char): Stepped {
    if |s.tmp| >= TMP_SIZE - 1 then Stop(TooLong) else Next(s.(tmp := s.tmp + [c], esc := false))
  }

  /** One character of the loop of `dispatch_command2`. */
  function Step(s: Scan, c: char): Stepped {
    if c == '\\' then
      if s.esc then Append(s, c) else Next(s.(esc := true))
    else if s.esc then
      if c == '"' then Append(s, c) else Stop(BadEscape)
    else if c == '"' then Next(s.(quote := !s.quote))
    else if |s.tmp| >= TMP_SIZE - 1 then Stop(TooLong)
    else if !s.quote && c == ' ' then
      if |s.argv| >= ARGS_MAX then Stop(TooMany) else Next(s.(argv := s.argv + [s.tmp], tmp := ""))
    else Append(s, c)
  }

  function Finish(s: Scan): Outcome {
    if |s.argv| >= ARGS_MAX then TooMany
    else if s.quote then Unclosed
    else Args(s.argv + [s.tmp])
  }

  /** `dispatch_command2` on the rest of a C string. */
  function Run(s: Scan, data: string): Outcome
    decreases |data|
  {
    if data == [] then Finish(s)
    else
      match Step(s, data[0])
      case Next(s') => Run(s', data[1..])
      case Stop(outcome) => outcome
  }

  /** `dispatch_command2` up to the choice of a handler; `data` is the C string it is given. */
  method DispatchCommand2(data: string) returns (r: Outcome)
    ensures r == Run(START, data)
  {
    var argv, tmp := new string[ARGS_MAX], new char[TMP_SIZE];
    var argc, q, esc, quote := 0, 0, false, false;
    assert argv[..0] == [] && tmp[..0] == [];
    for p := 0 to |data|
      invariant argc <= ARGS_MAX && q < TMP_SIZE
      invariant Run(START, data) == Run(Scan(argv[..argc], tmp[..q], esc, quote), data[p..])
    {
      ghost var scan := Scan(argv[..argc], tmp[..q], esc, quote);
      var c := data[p];
      assert data[p..][0] == c && data[p..][1..] == data[p + 1..];
      if c == '\\' && !esc {
        esc := true;
        continue;
      }
      if c == '\\' || esc {
        if c != '\\' && c != '"' { return BadEscape; }
        if q >= TMP_SIZE - 1 { return TooLong; }
        tmp[q] := c;
        assert tmp[..q + 1] == scan.tmp + [c];
        q, esc := q + 1, false;
        continue;
      }
      if c == '"' {
        quote := !quote;
        continue;
      }
      if q >= TMP_SIZE - 1 { return TooLong; }
      if !quote && c == ' ' {
        if argc >= ARGS_MAX { return TooMany; }
        argv[argc] := tmp[..q];
        assert argv[..argc + 1] == scan.argv + [scan.tmp];
        argc, q := argc + 1, 0;
        assert tmp[..0] == [];
        continue;
      }
      tmp[q] := c;
      assert tmp[..q + 1] == scan.tmp + [c];
      q := q + 1;
    }
    if argc >= ARGS_MAX { return TooMany; }
    if quote { return Unclosed; }
    return Args(argv[..argc] + [tmp[..q]]);
  }

  /** The non-empty stretches between zero bytes; `open` is the one under way. */
  function Segments(open: string, s: string): seq<string>
    decreases |s|
  {
    if s == [] then Closed(open)
    else if s[0] == NUL then Closed(open) + Segments("", s[1..])
    else Segments(open + [s[0]], s[1..])
  }

  function Closed(open: string): seq<string> {
    if open == "" then [] else [open]
  }

  function SkipBlanks(s: string): string {
    if s != [] && s[0] == ' ' then SkipBlanks(s[1..]) else s
  }

  /** The C strings that `dispatch_command` passes on. */
  function Dispatched(data: string): seq<string> {
    if |data| >= TMP_SIZE then [] else Segments("", SkipBlanks(data))
  }

  /** The number of blanks at the beginning of the buffer. */
  method LeadingBlanks(buffer: array<char>, len: nat) returns (count: nat)
    requires len < buffer.Length && buffer[len] == NUL
    ensures count <= len && buffer[count..len] == SkipBlanks(buffer[..len])
  {
    count := 0;
    ghost var data := buffer[..len];
    while buffer[count] == ' '
      invariant count <= len && SkipBlanks(data) == SkipBlanks(data[count..])
      decreases len - count
    {
      assert data[count..][1..] == data[count + 1..];
      count := count + 1;
    }
    assert data[count..] == buffer[count..len];
  }

  /** `dispatch_command`. The byte behind the data is always zero, since the buffer is longer. */
  method DispatchCommand(data: string) returns (commands: seq<string>)
    ensures commands == Dispatched(data)
  {
    commands := [];
    if |data| >= TMP_SIZE { return; }
    var buffer := new char[TMP_SIZE](i => if 0 <= i < |data| then data[i] else NUL);
    assert buffer[..|data|] == data;
    var count := LeadingBlanks(buffer, |data|);
    commands := SplitAtNul(buffer[count..|data|]);
  }

  /** The loop of `dispatch_command` over the part `s` of the buffer. */
  method SplitAtNul(s: string) returns (commands: seq<string>)
    ensures commands == Segments("", s)
  {
    hide Segments;
    commands := [];
    var start, count := 0, 0;
    assert s[0..] == s && s[0..0] == [];
    while count < |s|
      invariant start <= count <= |s|
      invariant Segments("", s) == commands + Segments(s[start..count], s[count..])
    {
      SegmentsStep(s, start, count);
      if s[count] == NUL {
        if start < count {
          commands := commands + [s[start..count]];
        }
        start := count + 1;
        assert s[start..count + 1] == [];
      }
      count := count + 1;
    }
    SegmentsEnd(s[start..count], s[count..]);
    if start < count {
      commands := commands + [s[start..count]];
    }
  }

  lemma SegmentsEnd(open: string, s: string)
    requires s == []
    ensures Segments(open, s) == Closed(open)
  {
  }

  lemma SegmentsStep(s: string, start: nat, count: nat)
    requires start <= count < |s|
    ensures Segments(s[start..count], s[count..])
            == if s[count] == NUL then Closed(s[start..count]) + Segments("", s[count + 1..])
               else Segments(s[start..count + 1], s[count + 1..])
  {
    hide Segments, Closed;
    var open, rest := s[start..count], s[count..];
    assert rest[0] == s[count] && rest[1..] == s[count + 1..];
    assert open + [s[count]] == s[start..count + 1];
    SegmentsHead(open, rest);
  }

  lemma SegmentsHead(open: string, s: string)
    requires s != []
    ensures Segments(open, s) == if s[0] == NUL then Closed(open) + Segments("", s[1..]) else Segments(open + [s[0]], s[1..])
  {
  }

  // ---- quoting ---------------------------------------------------------------------------

  function Escape(s: string): string {
    if s == [] then []
    else (if s[0] == '\\' || s[0] == '"' then ['\\', s[0]] else [s[0]]) + Escape(s[1..])
  }

  function Quote(s: string): string {
    ['"'] + Escape(s) + ['"']
  }

  /** A command line: every argument quoted, one blank between two. */
  function Line(args: seq<string>): string {
    if args == [] then []
    else if |args| == 1 then Quote(args[0])
    else Quote(args[0]) + [' '] + Line(args[1..])
  }

  lemma {:induction false} RunEscape(s: Scan, arg: string, rest: string)
    requires !s.esc && s.quote && |s.tmp| + |arg| < TMP_SIZE
    ensures Run(s, Escape(arg) + rest) == Run(s.(tmp := s.tmp + arg), rest)
    decreases |arg|
  {
    hide Run, Step;
    if arg == [] {
      assert Escape(arg) + rest == rest && s.tmp + arg == s.tmp;
    } else {
      var c := arg[0];
      var tail := Escape(arg[1..]) + rest;
      RunEscape(s.(tmp := s.tmp + [c]), arg[1..], rest);
      assert s.tmp + [c] + arg[1..] == s.tmp + arg;
      EscapeHead(arg, rest);
      RunEscaped(s, c, tail);
    }
  }

  lemma EscapeHead(arg: string, rest: string)
    requires arg != []
    ensures Escape(arg) + rest
            == (if arg[0] == '\\' || arg[0] == '"' then ['\\', arg[0]] else [arg[0]]) + (Escape(arg[1..]) + rest)
  {
  }

  /** One character of a quoted argument. */
  lemma RunEscaped(s: Scan, c: char, tail: string)
    requires !s.esc && s.quote && |s.tmp| < TMP_SIZE - 1
    ensures Run(s, (if c == '\\' || c == '"' then ['\\', c] else [c]) + tail) == Run(s.(tmp := s.tmp + [c]), tail)
  {
    if c == '\\' || c == '"' {
      var data := ['\\', c] + tail;
      assert data[1..] == [c] + tail && data[1..][1..] == tail;
    } else {
      assert ([c] + tail)[1..] == tail;
    }
  }

  lemma {:induction false} EscapeLength(s: string)
    ensures |s| <= |Escape(s)| && (NUL !in s ==> NUL !in Escape(s))
  {
    if s != [] {
      EscapeLength(s[1..]);
    }
  }

  /** A quoted argument becomes the argument under way. */
  lemma RunQuote(argv: seq<string>, arg: string, rest: string)
    requires |arg| < TMP_SIZE
    ensures Run(Scan(argv, "", false, false), Quote(arg) + rest) == Run(Scan(argv, arg, false, false), rest)
  {
    var data := Quote(arg) + rest;
    var inner := ['"'] + rest;
    assert data[0] == '"' && data[1..] == Escape(arg) + inner;
    RunEscape(Scan(argv, "", false, true), arg, inner);
    assert "" + arg == arg;
    assert inner[1..] == rest;
  }

  /** The end of an argument. */
  lemma RunEnd(argv: seq<string>, arg: string, rest: string)
    requires |arg| < TMP_SIZE - 1
    ensures Run(Scan(argv, arg, false, false), "") == if |argv| >= ARGS_MAX then TooMany else Args(argv + [arg])
    ensures Run(Scan(argv, arg, false, false), [' '] + rest)
            == if |argv| >= ARGS_MAX then TooMany else Run(Scan(argv + [arg], "", false, false), rest)
  {
    assert ([' '] + rest)[1..] == rest;
  }

  lemma LineSplits(args: seq<string>)
    requires args != []
    ensures |args[0]| + 2 <= |Line(args)|
    ensures |args| == 1 ==> Line(args) == Quote(args[0]) + ""
    ensures |args| > 1 ==> Line(args) == Quote(args[0]) + ([' '] + Line(args[1..])) && |Line(args[1..])| < |Line(args)|
  {
    EscapeLength(args[0]);
    hide Escape;
    var quoted := Quote(args[0]);
    assert |args[0]| + 2 <= |quoted|;
    hide Quote;
    if |args| == 1 {
      assert quoted + "" == quoted;
    } else {
      var rest := Line(args[1..]);
      assert quoted + [' '] + rest == quoted + ([' '] + rest);
    }
  }

  lemma {:induction false} RunLine(argv: seq<string>, args: seq<string>)
    requires args != [] && |argv| <= ARGS_MAX && |Line(args)| < TMP_SIZE
    ensures Run(Scan(argv, "", false, false), Line(args))
            == if |argv| + |args| <= ARGS_MAX then Args(argv + args) else TooMany
    decreases |args|
  {
    hide *;
    var arg := args[0];
    LineSplits(args);
    if |args| == 1 {
      RunQuote(argv, arg, "");
      RunEnd(argv, arg, "");
      assert args == [arg];
    } else {
      var rest := Line(args[1..]);
      RunQuote(argv, arg, [' '] + rest);
      RunEnd(argv, arg, rest);
      if |argv| < ARGS_MAX {
        RunLine(argv + [arg], args[1..]);
        assert argv + [arg] + args[1..] == argv + args;
      }
    }
  }

  /** Tokenising a command line that fits the buffer gives its arguments back if and only if there
      are between 1 and 16 of them. */
  lemma LineRoundTrip(args: seq<string>)
    requires |Line(args)| <= 254
    ensures Run(START, Line(args)) == Args(args) <==> 1 <= |args| <= 16
  {
    if args != [] {
      RunLine([], args);
      assert [] + args == args;
    }
  }

  // ---- the token buffer --------------------------------------------------------------------

  lemma {:induction false} RunFits(s: Scan, data: string)
    requires |s.tmp| + |data| < TMP_SIZE
    ensures Run(s, data) != TooLong
    decreases |data|
  {
    if data != [] && Step(s, data[0]).Next? {
      RunFits(Step(s, data[0]).scan, data[1..]);
    }
  }

  function Plain(n: nat): (s: string)
    ensures |s| == n
  {
    if n == 0 then "" else ['a'] + Plain(n - 1)
  }

  lemma {:induction false} RunPlain(s: Scan, n: nat)
    requires !s.esc && |s.tmp| < TMP_SIZE <= |s.tmp| + n
    ensures Run(s, Plain(n)) == TooLong
    decreases n
  {
    assert Plain(n)[0] == 'a' && Plain(n)[1..] == Plain(n - 1);
    if |s.tmp| < TMP_SIZE - 1 {
      RunPlain(s.(tmp := s.tmp + ['a']), n - 1);
    }
  }

  /** The token buffer overflows for no string of `n` characters exactly when `n` is less than its
      size. */
  lemma OverflowIff(n: nat)
    ensures (forall data: string | |data| == n :: Run(START, data) != TooLong) <==> n <= 254
  {
    if n < TMP_SIZE {
      forall data: string | |data| == n ensures Run(START, data) != TooLong {
        RunFits(START, data);
      }
    } else {
      RunPlain(START, n);
    }
  }

  lemma {:induction false} SegmentsFit(open: string, s: string)
    ensures forall c :: c in Segments(open, s) ==> |c| <= |open| + |s|
    decreases |s|
  {
    if s != [] {
      SegmentsFit(if s[0] == NUL then "" else open + [s[0]], s[1..]);
    }
  }

  lemma {:induction false} SkipBlanksShorter(s: string)
    ensures |SkipBlanks(s)| <= |s|
  {
    if s != [] {
      SkipBlanksShorter(s[1..]);
    }
  }

  /** So no command that `dispatch_command` passes on overflows it, whatever the data. */
  lemma DispatchedFits(data: string)
    ensures forall c :: c in Dispatched(data) ==> Run(START, c) != TooLong
  {
    SegmentsFit("", SkipBlanks(data));
    SkipBlanksShorter(data);
    forall c | c in Dispatched(data) ensures Run(START, c) != TooLong {
      RunFits(START, c);
    }
  }

  // ---- which strings are refused ------------------------------------------------------------

  /** Every escape sign stands in front of an escape sign or a quote, or at the very end. */
  predicate EscapesOk(s: string)
    decreases |s|
  {
    if |s| <= 1 then true
    else if s[0] == '\\' then (s[1] == '\\' || s[1] == '"') && EscapesOk(s[2..])
    else EscapesOk(s[1..])
  }

  /** What is left, up to the first escape sign that is out of place, when every escape sign is taken out
      together with what it escapes. */
  function Unescaped(s: string): string
    decreases |s|
  {
    if s == [] || s == ['\\'] then []
    else if s[0] == '\\' then if s[1] == '\\' || s[1] == '"' then Unescaped(s[2..]) else []
    else [s[0]] + Unescaped(s[1..])
  }

  /** `s`, begun inside or outside of quotes, ends inside of them. */
  predicate Open(quote: bool, s: string)
    decreases |s|
  {
    if s == [] then quote else Open(if s[0] == '"' then !quote else quote, s[1..])
  }

  /** The blanks outside of quotes. */
  function Blanks(quote: bool, s: string): nat
    decreases |s|
  {
    if s == [] then 0
    else if s[0] == '"' then Blanks(!quote, s[1..])
    else (if s[0] == ' ' && !quote then 1 else 0) + Blanks(quote, s[1..])
  }

  /** The outcome, as far as the errors and the number of arguments go. */
  ghost predicate Verdict(args: nat, quote: bool, data: string, r: Outcome) {
    var plain := Unescaped(data);
    if args + Blanks(quote, plain) > 16 then r == TooMany
    else if !EscapesOk(data) then r == BadEscape
    else if args + Blanks(quote, plain) == 16 then r == TooMany
    else if Open(quote, plain) then r == Unclosed
    else r.Args? && |r.argv| == args + Blanks(quote, plain) + 1
  }

  lemma {:induction false} RunVerdict(s: Scan, data: string)
    requires !s.esc && |s.argv| <= ARGS_MAX && |s.tmp| + |data| < TMP_SIZE
    ensures Verdict(|s.argv|, s.quote, data, Run(s, data))
    decreases |data|
  {
    if data == [] {
    } else if data[0] == '\\' {
      if |data| > 1 {
        assert data[1..][1..] == data[2..];
        if data[1] == '\\' || data[1] == '"' {
          RunVerdict(s.(tmp := s.tmp + [data[1]]), data[2..]);
        }
      }
    } else {
      PlainVerdict(s, data);
    }
  }

  lemma PlainVerdict(s: Scan, data: string)
    requires !s.esc && |s.argv| <= ARGS_MAX && |s.tmp| + |data| < TMP_SIZE && data != [] && data[0] != '\\'
    ensures Verdict(|s.argv|, s.quote, data, Run(s, data))
    decreases |data|, 0
  {
    var plain, rest := Unescaped(data), data[1..];
    assert plain[1..] == Unescaped(rest);
    if Step(s, data[0]).Next? {
      RunVerdict(Step(s, data[0]).scan, rest);
    }
  }

  /** Every string that fits the buffer is judged by its escapes, its quotes and its blanks alone: a bad
      escape counts exactly if at most 16 blanks outside of quotes come before it. */
  lemma Judged(data: string)
    requires |data| <= 254
    ensures Verdict(0, false, data, Run(START, data))
  {
    RunVerdict(START, data);
  }

  // ---- the arguments --------------------------------------------------------------------------

  /** A character of a command once its escapes are resolved; `Kept` is one that was escaped. */
  datatype Sign = Bare(c: char) | Kept(c: char)

  /** Every escape sign is taken together with what it escapes; one at the very end stands for nothing. */
  function Signs(s: string): seq<Sign>
    decreases |s|
  {
    if s == [] || s == ['\\'] then []
    else if s[0] == '\\' then [Kept(s[1])] + Signs(s[2..])
    else [Bare(s[0])] + Signs(s[1..])
  }

  /** The stretches between the blanks outside of quotes, without the quotes. */
  function Pieces(quote: bool, signs: seq<Sign>): (r: seq<string>)
    ensures r != []
    decreases |signs|
  {
    if signs == [] then [""]
    else if signs[0] == Bare('"') then Pieces(!quote, signs[1..])
    else if signs[0] == Bare(' ') && !quote then [""] + Pieces(quote, signs[1..])
    else Before(signs[0].c, Pieces(quote, signs[1..]))
  }

  /** The first piece begins with `c`. */
  function Before(c: char, pieces: seq<string>): (r: seq<string>)
    requires pieces != []
    ensures |r| == |pieces|
  {
    [[c] + pieces[0]] + pieces[1..]
  }

  /** What is under way comes in front of the first piece. */
  function Attach(tmp: string, pieces: seq<string>): (r: seq<string>)
    requires pieces != []
  {
    [tmp + pieces[0]] + pieces[1..]
  }

  lemma AttachBefore(tmp: string, c: char, pieces: seq<string>)
    requires pieces != []
    ensures Attach(tmp, Before(c, pieces)) == Attach(tmp + [c], pieces)
  {
    assert tmp + ([c] + pieces[0]) == tmp + [c] + pieces[0];
  }

  lemma AttachNothing(tmp: string)
    ensures Attach(tmp, [""]) == [tmp]
  {
    assert tmp + "" == tmp;
  }

  lemma AttachBlank(argv: seq<string>, tmp: string, pieces: seq<string>)
    requires pieces != []
    ensures argv + Attach(tmp, [""] + pieces) == argv + [tmp] + Attach("", pieces)
  {
    assert tmp + "" == tmp && "" + pieces[0] == pieces[0];
  }

  /** What the rest of a command gives, if it is accepted. */
  ghost predicate Gives(s: Scan, data: string, r: Outcome) {
    r.Args? ==> r.argv == s.argv + Attach(s.tmp, Pieces(s.quote, Signs(data)))
  }

  lemma {:induction false} RunGives(s: Scan, data: string)
    requires !s.esc
    ensures Gives(s, data, Run(s, data))
    decreases |data|
  {
    if data == [] {
      AttachNothing(s.tmp);
    } else if data[0] == '\\' {
      EscapeGives(s, data);
    } else {
      PlainGives(s, data);
    }
  }

  lemma EscapeGives(s: Scan, data: string)
    requires !s.esc && data != [] && data[0] == '\\'
    ensures Gives(s, data, Run(s, data))
    decreases |data|, 0
  {
    var s' := s.(esc := true);
    assert Run(s, data) == Run(s', data[1..]);
    if |data| == 1 {
      AttachNothing(s.tmp);
    } else {
      assert data[1..][1..] == data[2..];
      var step := Step(s', data[1]);
      if step.Next? {
        assert Signs(data)[1..] == Signs(data[2..]);
        RunGives(step.scan, data[2..]);
        AttachBefore(s.tmp, data[1], Pieces(s.quote, Signs(data[2..])));
      }
    }
  }

  lemma PlainGives(s: Scan, data: string)
    requires !s.esc && data != [] && data[0] != '\\'
    ensures Gives(s, data, Run(s, data))
    decreases |data|, 0
  {
    var step, rest := Step(s, data[0]), data[1..];
    assert Signs(data)[1..] == Signs(rest);
    if step.Next? {
      RunGives(step.scan, rest);
      hide Attach;
      if !s.quote && data[0] == ' ' {
        AttachBlank(s.argv, s.tmp, Pieces(s.quote, Signs(rest)));
      } else if data[0] != '"' {
        AttachBefore(s.tmp, data[0], Pieces(s.quote, Signs(rest)));
      }
    }
  }

  /** Of every string that is accepted the arguments are exactly its stretches between blanks outside of quotes,
      without the quotes, and with every escape resolved. */
  lemma ArgumentsExact(data: string)
    ensures Run(START, data).Args? ==> Run(START, data) == Args(Pieces(false, Signs(data)))
  {
    hide Run;
    RunGives(START, data);
    var pieces := Pieces(false, Signs(data));
    assert "" + pieces[0] == pieces[0];
    assert [] + Attach("", pieces) == pieces;
  }

  predicate PlainWord(word: string) {
    forall k :: 0 <= k < |word| ==> word[k] != ' ' && word[k] != '"' && word[k] != '\\'
  }

  /** Words with a blank between two. */
  function PlainLine(words: seq<string>): string {
    if words == [] then []
    else if |words| == 1 then words[0]
    else words[0] + [' '] + PlainLine(words[1..])
  }

  lemma {:induction false} RunWord(s: Scan, word: string, rest: string)
    requires !s.esc && !s.quote && PlainWord(word) && |s.tmp| + |word| < TMP_SIZE
    ensures Run(s, word + rest) == Run(s.(tmp := s.tmp + word), rest)
    decreases |word|
  {
    if word == [] {
      assert word + rest == rest && s.tmp + word == s.tmp;
    } else {
      var data := word + rest;
      assert data[1..] == word[1..] + rest && data[0] == word[0];
      RunWord(s.(tmp := s.tmp + [word[0]]), word[1..], rest);
      assert s.tmp + [word[0]] + word[1..] == s.tmp + word;
    }
  }

  lemma RunFinish(argv: seq<string>, word: string)
    ensures Run(Scan(argv, word, false, false), "") == if |argv| >= ARGS_MAX then TooMany else Args(argv + [word])
  {
  }

  lemma {:induction false} RunPlainLine(argv: seq<string>, words: seq<string>)
    requires words != [] && |argv| <= ARGS_MAX && |PlainLine(words)| < TMP_SIZE
    requires forall k :: 0 <= k < |words| ==> PlainWord(words[k])
    ensures Run(Scan(argv, "", false, false), PlainLine(words))
            == if |argv| + |words| <= ARGS_MAX then Args(argv + words) else TooMany
    decreases |words|
  {
    hide *;
    var word := words[0];
    PlainLineSplits(words);
    assert "" + word == word;
    if |words| == 1 {
      RunWord(Scan(argv, "", false, false), word, "");
      assert words == [word];
      RunFinish(argv, word);
    } else {
      var rest := PlainLine(words[1..]);
      RunWord(Scan(argv, "", false, false), word, [' '] + rest);
      RunEnd(argv, word, rest);
      if |argv| < ARGS_MAX {
        RunPlainLine(argv + [word], words[1..]);
        assert argv + [word] + words[1..] == argv + words;
      }
    }
  }

  lemma PlainLineSplits(words: seq<string>)
    requires words != []
    ensures |words| == 1 ==> PlainLine(words) == words[0] + ""
    ensures |words| > 1 ==> PlainLine(words) == words[0] + ([' '] + PlainLine(words[1..]))
  {
    if |words| == 1 {
      assert words[0] + "" == words[0];
    }
  }

  /** A command of plain words is taken apart into exactly them if and only if there are between 1 and 16. */
  lemma PlainRoundTrip(words: seq<string>)
    requires |PlainLine(words)| <= 254 && forall k :: 0 <= k < |words| ==> PlainWord(words[k])
    ensures Run(START, PlainLine(words)) == Args(words) <==> 1 <= |words| <= 16
  {
    if words != [] {
      RunPlainLine([], words);
      assert [] + words == words;
    }
  }

  // ---- end to end ---------------------------------------------------------------------------

  /** What a client sends for a list of commands. */
  function Message(commands: seq<seq<string>>): string {
    if commands == [] then [] else Line(commands[0]) + [NUL] + Message(commands[1..])
  }

  function Lines(commands: seq<seq<string>>): (r: seq<string>)
    ensures |r| == |commands| && forall k :: 0 <= k < |r| ==> r[k] == Line(commands[k])
  {
    if commands == [] then [] else [Line(commands[0])] + Lines(commands[1..])
  }

  predicate NulFree(args: seq<string>) {
    forall k :: 0 <= k < |args| ==> NUL !in args[k]
  }

  predicate Sendable(commands: seq<seq<string>>) {
    forall k :: 0 <= k < |commands| ==> commands[k] != [] && NulFree(commands[k])
  }

  lemma {:induction false} LineClean(args: seq<string>)
    requires NulFree(args) && args != []
    ensures NUL !in Line(args) && |Line(args)| > 0 && Line(args)[0] == '"'
    decreases |args|
  {
    EscapeLength(args[0]);
    if |args| > 1 {
      LineClean(args[1..]);
    }
  }

  lemma {:induction false} SegmentLine(open: string, line: string, rest: string)
    requires NUL !in line
    ensures Segments(open, line + rest) == Segments(open + line, rest)
    decreases |line|
  {
    if line == [] {
      assert line + rest == rest && open + line == open;
    } else {
      assert (line + rest)[1..] == line[1..] + rest;
      SegmentLine(open + [line[0]], line[1..], rest);
      assert open + [line[0]] + line[1..] == open + line;
    }
  }

  lemma {:induction false} SegmentsMessage(commands: seq<seq<string>>)
    requires Sendable(commands)
    ensures Segments("", Message(commands)) == Lines(commands)
    decreases |commands|
  {
    if commands != [] {
      var line, rest := Line(commands[0]), [NUL] + Message(commands[1..]);
      LineClean(commands[0]);
      assert Message(commands) == line + rest;
      SegmentLine("", line, rest);
      assert "" + line == line && rest[1..] == Message(commands[1..]);
      SegmentsMessage(commands[1..]);
    }
  }

  predicate AllBlank(s: string) {
    forall k :: 0 <= k < |s| ==> s[k] == ' '
  }

  lemma {:induction false} BlanksSkipped(blanks: string, rest: string)
    requires AllBlank(blanks) && (rest != [] ==> rest[0] != ' ')
    ensures SkipBlanks(blanks + rest) == rest
  {
    if blanks == [] {
      assert blanks + rest == rest;
    } else {
      BlanksSkipped(blanks[1..], rest);
      assert (blanks + rest)[1..] == blanks[1..] + rest;
    }
  }

  /** Stretches with a zero byte between them. */
  function Joined(parts: seq<string>): string {
    if parts == [] then "" else if |parts| == 1 then parts[0] else parts[0] + [NUL] + Joined(parts[1..])
  }

  function Nonempty(parts: seq<string>): seq<string> {
    if parts == [] then [] else (if parts[0] == "" then [] else [parts[0]]) + Nonempty(parts[1..])
  }

  lemma {:induction false} SegmentsJoined(parts: seq<string>)
    requires forall k :: 0 <= k < |parts| ==> NUL !in parts[k]
    ensures Segments("", Joined(parts)) == Nonempty(parts)
    decreases |parts|
  {
    if parts != [] {
      var rest := if |parts| == 1 then "" else [NUL] + Joined(parts[1..]);
      assert Joined(parts) == parts[0] + rest;
      SegmentLine("", parts[0], rest);
      assert "" + parts[0] == parts[0];
      if |parts| > 1 {
        assert rest[1..] == Joined(parts[1..]);
        SegmentsJoined(parts[1..]);
      }
    }
  }

  /** Whatever is received: blanks at its beginning are skipped, and what stands between zero bytes is passed on,
      in order, but for empty stretches, if it has at most 254 characters; nothing if it has more. */
  lemma DispatchedExact(blanks: string, parts: seq<string>)
    requires AllBlank(blanks) && forall k :: 0 <= k < |parts| ==> NUL !in parts[k]
    requires Joined(parts) != [] ==> Joined(parts)[0] != ' '
    ensures Dispatched(blanks + Joined(parts)) == if |blanks| + |Joined(parts)| <= 254 then Nonempty(parts) else []
  {
    hide Segments, SkipBlanks, Joined, Nonempty;
    BlanksSkipped(blanks, Joined(parts));
    SegmentsJoined(parts);
  }

  /** A message of at most 254 characters is taken apart into exactly the commands it was made of, and
      each of up to 16 arguments into exactly its arguments. */
  lemma MessageRoundTrip(blanks: string, commands: seq<seq<string>>)
    requires AllBlank(blanks) && Sendable(commands) && |blanks| + |Message(commands)| <= 254
    ensures Dispatched(blanks + Message(commands)) == Lines(commands)
    ensures forall k :: 0 <= k < |commands| ==>
              (Run(START, Lines(commands)[k]) == Args(commands[k]) <==> |commands[k]| <= 16)
  {
    SegmentsMessage(commands);
    if commands != [] {
      LineClean(commands[0]);
    }
    BlanksSkipped(blanks, Message(commands));
    forall k | 0 <= k < |commands|
      ensures Run(START, Lines(commands)[k]) == Args(commands[k]) <==> |commands[k]| <= 16
    {
      LinesShort(commands, k);
      LineRoundTrip(commands[k]);
    }
  }

  lemma {:induction false} LinesShort(commands: seq<seq<string>>, k: nat)
    requires k < |commands|
    ensures |Line(commands[k])| < |Message(commands)|
    decreases |commands|
  {
    if k > 0 {
      LinesShort(commands[1..], k - 1);
    }
  }
}
