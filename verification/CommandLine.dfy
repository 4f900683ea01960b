/** The command tokenizer and parseInputLine of DumpRenderTreeCommon.cpp. */
module CommandLine {
  import opened Basics
  import opened StringPieces

  const Quote := '\''  // kSeparator

  // ----- Tokens -----

  /** The longest run of leading pieces that are not empty. */
  function Leading(pieces: seq<string>): (tokens: seq<string>) {
    if pieces == [] || pieces[0] == "" then [] else [pieces[0]] + Leading(pieces[1..])
  }

  function Tokens(input: string): seq<string> { Leading(Pieces(input, Quote)) }

  class CommandTokenizer {
    const input: string
    var next: string
    var posNextSeparator: Option<nat>  // None is npos

    /** The tokens still to come, the one in `next` first. */
    ghost function Remaining(): seq<string>
      reads this
    {
      if next == "" then [] else [next] + AfterSeparator()
    }

    ghost function AfterSeparator(): seq<string>
      reads this
    {
      if posNextSeparator.None? || posNextSeparator.value >= |input| then []
      else Tokens(input[posNextSeparator.value + 1..])
    }

    ghost predicate Valid()
      reads this
    {
      next != "" && posNextSeparator.Some? ==> 0 < posNextSeparator.value < |input|
    }

    /** The tokens from where `Pump` looks next: after the separator, or from the start before the first call. */
    ghost function Unpumped(): seq<string>
      reads this
    {
      if posNextSeparator.None? || posNextSeparator.value >= |input| then []
      else if posNextSeparator.value == 0 then Tokens(input)
      else Tokens(input[posNextSeparator.value + 1..])
    }

    constructor (input: string)
      ensures Valid() && Remaining() == Tokens(input)
    {
      this.input := input;
      next := "";
      posNextSeparator := Some(0);
      new;
      Pump();
      NoTokens();
    }

    /** Moves on by one piece; what was to come from there is what remains, an empty piece being the end. */
    method Pump()
      requires posNextSeparator.Some? ==> posNextSeparator.value <= |input|
      modifies this
      ensures Valid() && Remaining() == old(Unpumped())
    {
      hide Tokens, Find;
      if posNextSeparator.None? || posNextSeparator.value == |input| {
        next := "";
        return;
      }
      var start := if posNextSeparator.value > 0 then posNextSeparator.value + 1 else 0;
      var i := Find(input, Quote, start);
      posNextSeparator := if i == |input| then None else Some(i);
      next := input[start..i];
      assert input[0..] == input;
      PumpedTokens(input, start);
    }

    predicate HasNext()
      reads this
      ensures HasNext() <==> Remaining() != []
    {
      next != ""
    }

    /** The next token; the source asserts that there is one. */
    method Next() returns (token: string)
      requires Valid() && HasNext()
      modifies this
      ensures Valid() && [token] + Remaining() == old(Remaining())
    {
      hide Tokens, Find;
      var oldNext := next;
      Pump();
      token := oldNext;
    }
  }

  /** What `Pump` finds from `start` on: the first piece, and after its separator the others. */
  lemma PumpedTokens(input: string, start: nat)
    requires start <= |input|
    ensures var i := Find(input, Quote, start);
            Tokens(input[start..]) ==
              if i == start then []
              else [input[start..i]] + if i == |input| then [] else Tokens(input[i + 1..])
  {
    hide Find, Pieces;
    var i := Find(input, Quote, start);
    var s, a := input[start..], input[start..i];
    assert Quote !in a by { assert forall j :: 0 <= j < |a| ==> a[j] == input[start + j]; }
    if i == |input| {
      assert a == s;
      PiecesCons(a, Quote, "");
      LeadingCons(a, []);
      assert [a] + [] == [a];
    } else {
      assert s == a + [Quote] + input[i + 1..];
      PiecesCons(a, Quote, input[i + 1..]);
      LeadingCons(a, Pieces(input[i + 1..], Quote));
    }
  }

  lemma NoTokens()
    ensures Tokens("") == []
  {
  }

  lemma LeadingCons(a: string, rest: seq<string>)
    ensures Leading([a] + rest) == if a == "" then [] else [a] + Leading(rest)
    ensures Leading([]) == []
  {
    assert ([a] + rest)[1..] == rest;
  }

  // ----- Commands -----

  datatype TestCommand = TestCommand(pathOrURL: string, shouldDumpPixels: bool, expectedPixelHash: string, timeout: int)

  /** Died is the exit for an unexpected line; AssertionFailed is next() without a token, after a final --timeout. */
  datatype Outcome = Parsed(command: TestCommand) | Died | AssertionFailed

  predicate IsDigit(c: char) { '0' <= c <= '9' }

  predicate IsBlank(c: char) { c in {' ', '\t', '\n', '\r', 11 as char, 12 as char} }

  /** The leading digits of `s` as a number, after `value` has been read. */
  function DigitsValue(s: string, value: int): int
    decreases |s|
  {
    if s == "" || !IsDigit(s[0]) then value else DigitsValue(s[1..], value * 10 + (s[0] as int - '0' as int))
  }

  /** atoi, without the overflow that C leaves undefined. */
  function Atoi(s: string): int
    decreases |s|
  {
    if s != "" && IsBlank(s[0]) then Atoi(s[1..])
    else if s != "" && s[0] == '-' then -DigitsValue(s[1..], 0)
    else if s != "" && s[0] == '+' then DigitsValue(s[1..], 0)
    else DigitsValue(s, 0)
  }

  /** The options after the path. */
  function ParseOptions(tokens: seq<string>, command: TestCommand): Outcome
    decreases |tokens|
  {
    if tokens == [] then Parsed(command)
    else if tokens[0] == "--timeout" then
      if |tokens| == 1 then AssertionFailed else ParseOptions(tokens[2..], command.(timeout := Atoi(tokens[1])))
    else if tokens[0] == "-p" || tokens[0] == "--pixel-test" then
      if |tokens| == 1 then Parsed(command.(shouldDumpPixels := true))
      else ParseOptions(tokens[2..], command.(shouldDumpPixels := true, expectedPixelHash := tokens[1]))
    else Died
  }

  function Parse(inputLine: string): Outcome {
    var tokens := Tokens(inputLine);
    if tokens == [] then Died else ParseOptions(tokens[1..], TestCommand(tokens[0], false, "", 30000))
  }

  method ParseInputLine(inputLine: string) returns (r: Outcome)
    ensures r == Parse(inputLine)
  {
    var tokenizer := new CommandTokenizer(inputLine);
    if !tokenizer.HasNext() {
      return Died;
    }
    var arg := tokenizer.Next();
    var result := TestCommand(arg, false, "", 30000);
    assert tokenizer.Remaining() == Tokens(inputLine)[1..];
    while tokenizer.HasNext()
      invariant tokenizer.Valid() && fresh(tokenizer)
      invariant ParseOptions(tokenizer.Remaining(), result) == Parse(inputLine)
      decreases |tokenizer.Remaining()|
    {
      var failure;
      result, failure := ParseOption(tokenizer, result);
      if failure.Some? {
        return failure.value;
      }
    }
    r := Parsed(result);
  }

  /** One turn of that loop. */
  method ParseOption(tokenizer: CommandTokenizer, command: TestCommand) returns (result: TestCommand, failure: Option<Outcome>)
    requires tokenizer.Valid() && tokenizer.HasNext()
    modifies tokenizer
    ensures failure.Some? ==> ParseOptions(old(tokenizer.Remaining()), command) == failure.value
    ensures failure.None? ==>
              && tokenizer.Valid() && |tokenizer.Remaining()| < |old(tokenizer.Remaining())|
              && ParseOptions(tokenizer.Remaining(), result) == ParseOptions(old(tokenizer.Remaining()), command)
  {
    hide Tokens, Atoi;
    ghost var tokens := tokenizer.Remaining();
    result, failure := command, None;
    var arg := tokenizer.Next();
    assert tokens[0] == arg && tokens[1..] == tokenizer.Remaining();
    if arg == "--timeout" {
      if !tokenizer.HasNext() {
        return command, Some(AssertionFailed);
      }
      var timeoutToken := tokenizer.Next();
      assert tokens[1] == timeoutToken && tokens[2..] == tokenizer.Remaining();
      result := result.(timeout := Atoi(timeoutToken));
    } else if arg == "-p" || arg == "--pixel-test" {
      result := result.(shouldDumpPixels := true);
      if tokenizer.HasNext() {
        var hash := tokenizer.Next();
        assert tokens[1] == hash && tokens[2..] == tokenizer.Remaining();
        result := result.(expectedPixelHash := hash);
      }
    } else {
      return command, Some(Died);
    }
  }

  // ----- Round trip -----

  const DecimalDigits := "0123456789"

  function Digits(n: nat): (s: string)
    ensures s != "" && forall i :: 0 <= i < |s| ==> IsDigit(s[i])
  {
    if n < 10 then [DecimalDigits[n]] else Digits(n / 10) + [DecimalDigits[n % 10]]
  }

  function Decimal(n: int): string { if n < 0 then "-" + Digits(-n) else Digits(n) }

  lemma {:induction false} DigitsValueSnoc(s: string, d: char, value: int)
    requires IsDigit(d) && forall i :: 0 <= i < |s| ==> IsDigit(s[i])
    ensures DigitsValue(s + [d], value) == DigitsValue(s, value) * 10 + (d as int - '0' as int)
    decreases |s|
  {
    if s == "" {
      assert s + [d] == [d];
      assert [d][1..] == "";
    } else {
      assert (s + [d])[1..] == s[1..] + [d];
      DigitsValueSnoc(s[1..], d, value * 10 + (s[0] as int - '0' as int));
    }
  }

  lemma {:induction false} DigitsRoundTrip(n: nat)
    ensures DigitsValue(Digits(n), 0) == n
  {
    if n < 10 {
      assert Digits(n)[1..] == "";
    } else {
      DigitsRoundTrip(n / 10);
      DigitsValueSnoc(Digits(n / 10), DecimalDigits[n % 10], 0);
    }
  }

  lemma AtoiRoundTrip(n: int)
    ensures Atoi(Decimal(n)) == n
  {
    if n < 0 {
      DigitsRoundTrip(-n);
      assert Decimal(n)[1..] == Digits(-n);
    } else {
      DigitsRoundTrip(n);
      assert IsDigit(Digits(n)[0]);
    }
  }

  /** The tokens of a command line for a command. */
  function CommandTokens(c: TestCommand): seq<string> {
    [c.pathOrURL, "--timeout", Decimal(c.timeout)] +
    if !c.shouldDumpPixels then [] else if c.expectedPixelHash == "" then ["-p"] else ["-p", c.expectedPixelHash]
  }

  function Print(c: TestCommand): string { Join(CommandTokens(c), Quote) }

  /** Commands that a line can express: a path and a hash without quotes, and a hash only with the pixel flag. */
  ghost predicate Expressible(c: TestCommand) {
    && c.pathOrURL != "" && Quote !in c.pathOrURL && Quote !in c.expectedPixelHash
    && (!c.shouldDumpPixels ==> c.expectedPixelHash == "")
  }

  lemma {:induction false} LeadingAll(pieces: seq<string>)
    requires forall i :: 0 <= i < |pieces| ==> pieces[i] != ""
    ensures Leading(pieces) == pieces
  {
    if pieces != [] {
      LeadingAll(pieces[1..]);
      assert [pieces[0]] + pieces[1..] == pieces;
    }
  }

  lemma DecimalPlain(n: int)
    ensures Decimal(n) != "" && Quote !in Decimal(n)
  {
    if n < 0 {
      var d := Digits(-n);
      forall i | 0 <= i < |Decimal(n)| ensures Decimal(n)[i] != Quote { assert i > 0 ==> IsDigit(d[i - 1]); }
    }
  }

  lemma PrintedTokens(c: TestCommand)
    requires Expressible(c)
    ensures Tokens(Print(c)) == CommandTokens(c)
  {
    hide Decimal, Pieces, Join, Leading;
    DecimalPlain(c.timeout);
    var tokens := CommandTokens(c);
    assert Without(tokens, Quote) && forall i :: 0 <= i < |tokens| ==> tokens[i] != "";
    PiecesOfJoin(tokens, Quote);
    LeadingAll(tokens);
  }

  /** Parsing a printed command gives it back. */
  lemma {:induction false} ParsePrint(c: TestCommand)
    requires Expressible(c)
    ensures Parse(Print(c)) == Parsed(c)
  {
    hide Decimal, Atoi, Print, Tokens;
    PrintedTokens(c);
    AtoiRoundTrip(c.timeout);
    var options := CommandTokens(c)[1..];
    var start := TestCommand(c.pathOrURL, false, "", 30000);
    var timed := start.(timeout := c.timeout);
    var rest := options[2..];
    assert ParseOptions(options, start) == ParseOptions(rest, timed);
    if c.shouldDumpPixels {
      if c.expectedPixelHash == "" {
        assert rest == ["-p"];
      } else {
        assert rest == ["-p", c.expectedPixelHash] && rest[2..] == [];
        assert ParseOptions(rest, timed) == ParseOptions([], c);
      }
    } else {
      assert rest == [];
    }
  }

  // ----- Which commands lines can express -----

  lemma {:induction false} LeadingPlain(pieces: seq<string>)
    requires Without(pieces, Quote)
    ensures Without(Leading(pieces), Quote) && forall i :: 0 <= i < |Leading(pieces)| ==> Leading(pieces)[i] != ""
  {
    if pieces != [] && pieces[0] != "" {
      LeadingPlain(pieces[1..]);
    }
  }

  lemma {:induction false} OptionsExpressible(tokens: seq<string>, c: TestCommand)
    requires Without(tokens, Quote) && Expressible(c)
    ensures ParseOptions(tokens, c).Parsed? ==> Expressible(ParseOptions(tokens, c).command)
    decreases |tokens|
  {
    hide Atoi;
    if tokens != [] {
      if tokens[0] == "--timeout" {
        if |tokens| > 1 {
          OptionsExpressible(tokens[2..], c.(timeout := Atoi(tokens[1])));
        }
      } else if tokens[0] == "-p" || tokens[0] == "--pixel-test" {
        if |tokens| > 1 {
          OptionsExpressible(tokens[2..], c.(shouldDumpPixels := true, expectedPixelHash := tokens[1]));
        }
      }
    }
  }

  /** Whatever a line parses to is expressible. */
  lemma ParsedExpressible(line: string)
    ensures Parse(line).Parsed? ==> Expressible(Parse(line).command)
  {
    hide Pieces, ParseOptions;
    PiecesWithout(line, Quote);
    LeadingPlain(Pieces(line, Quote));
    var tokens := Tokens(line);
    if tokens != [] {
      OptionsExpressible(tokens[1..], TestCommand(tokens[0], false, "", 30000));
    }
  }

  /** The round trip holds for exactly the expressible commands, and they are exactly those that some line parses to. */
  lemma {:induction false} RoundTripExact(c: TestCommand)
    ensures Parse(Print(c)) == Parsed(c) <==> Expressible(c)
    ensures (exists line :: Parse(line) == Parsed(c)) <==> Expressible(c)
  {
    hide Parse, Print, Expressible;
    ParsedExpressible(Print(c));
    if Expressible(c) {
      ParsePrint(c);
    }
    forall line | Parse(line) == Parsed(c) ensures Expressible(c) { ParsedExpressible(line); }
  }

  // ----- What becomes of a line -----

  predicate IsOption(word: string) { word == "--timeout" || word == "-p" || word == "--pixel-test" }

  /** Every other word, from the first on, is an option. */
  predicate Alternates(tokens: seq<string>) {
    forall i :: 0 <= i < |tokens| && i % 2 == 0 ==> IsOption(tokens[i])
  }

  /** The last word is a --timeout that has no token after it. */
  predicate Dangling(tokens: seq<string>) { |tokens| % 2 == 1 && tokens[|tokens| - 1] == "--timeout" }

  lemma {:induction false} OptionsOutcome(tokens: seq<string>, c: TestCommand)
    ensures ParseOptions(tokens, c).Died? <==> !Alternates(tokens)
    ensures ParseOptions(tokens, c).AssertionFailed? <==> Alternates(tokens) && Dangling(tokens)
    decreases |tokens|
  {
    hide Atoi;
    if |tokens| >= 2 && IsOption(tokens[0]) {
      var rest := tokens[2..];
      OptionsOutcome(rest, if tokens[0] == "--timeout" then c.(timeout := Atoi(tokens[1]))
                           else c.(shouldDumpPixels := true, expectedPixelHash := tokens[1]));
      assert Alternates(tokens) <==> Alternates(rest) by {
        forall i | 0 <= i < |tokens| && i % 2 == 0 && Alternates(rest) ensures IsOption(tokens[i]) {
          assert i > 0 ==> tokens[i] == rest[i - 2] && (i - 2) % 2 == 0;
        }
        forall i | 0 <= i < |rest| && i % 2 == 0 && Alternates(tokens) ensures IsOption(rest[i]) {
          assert rest[i] == tokens[i + 2] && (i + 2) % 2 == 0;
        }
      }
      assert Dangling(tokens) <==> Dangling(rest);
    }
  }

  /**
   Exactly which lines die, which break the assertion in next() and which parse: a line dies without a first token or
   with anything but an option where one is due, and otherwise breaks the assertion if it ends in a --timeout.
   */
  lemma {:induction false} LineOutcome(line: string)
    ensures Parse(line).Died? <==> Tokens(line) == [] || !Alternates(Tokens(line)[1..])
    ensures Parse(line).AssertionFailed?
       <==> Tokens(line) != [] && Alternates(Tokens(line)[1..]) && Dangling(Tokens(line)[1..])
  {
    hide Tokens, ParseOptions, Alternates, Dangling;
    var tokens := Tokens(line);
    if tokens != [] {
      OptionsOutcome(tokens[1..], TestCommand(tokens[0], false, "", 30000));
    }
  }

  /** Lines of two words. */
  lemma TwoWords(a: string, b: string)
    requires a != "" && b != "" && Quote !in a && Quote !in b
    ensures Parse(a + [Quote] + b).Died? <==> !IsOption(b)
    ensures Parse(a + [Quote] + b).AssertionFailed? <==> b == "--timeout"
  {
    hide Tokens, ParseOptions, Parse;
    TwoTokens(a, b);
    LineOutcome(a + [Quote] + b);
    assert [a, b][1..] == [b] && (Alternates([b]) <==> IsOption([b][0]));
  }

  /** A line that breaks the assertion, and one that dies. */
  lemma {:induction false} BadLines()
    ensures Parse("a.html'--timeout") == AssertionFailed
    ensures Parse("a.html'--time") == Died
  {
    hide Parse;
    TwoWords("a.html", "--timeout");
    assert "a.html'--timeout" == "a.html" + [Quote] + "--timeout";
    TwoWords("a.html", "--time");
    assert "a.html'--time" == "a.html" + [Quote] + "--time";
  }

  lemma TwoTokens(a: string, b: string)
    requires a != "" && b != "" && Quote !in a && Quote !in b
    ensures Tokens(a + [Quote] + b) == [a, b]
  {
    hide Pieces;
    PiecesCons(a, Quote, b);
    PiecesCons(b, Quote, "");
    assert Pieces(a + [Quote] + b, Quote) == [a, b];
    LeadingAll([a, b]);
  }

  // ----- What a line says -----

  predicate IsPixelOption(word: string) { word == "-p" || word == "--pixel-test" }

  /** At `i` stands an option of the given kind that has a token after it. */
  predicate OptionAt(tokens: seq<string>, pixel: bool, i: int) {
    0 <= i < |tokens| - 1 && i % 2 == 0 && if pixel then IsPixelOption(tokens[i]) else tokens[i] == "--timeout"
  }

  ghost predicate LastOptionAt(tokens: seq<string>, pixel: bool, i: int) {
    OptionAt(tokens, pixel, i) && forall j :: j > i ==> !OptionAt(tokens, pixel, j)
  }

  ghost predicate NoOption(tokens: seq<string>, pixel: bool) { forall i :: !OptionAt(tokens, pixel, i) }

  /** `r` is what the options say, with the values of `c` for what they leave unsaid. */
  ghost predicate Says(tokens: seq<string>, c: TestCommand, r: TestCommand) {
    && r.pathOrURL == c.pathOrURL
    && (r.shouldDumpPixels <==> c.shouldDumpPixels || exists i :: 0 <= i < |tokens| && i % 2 == 0 && IsPixelOption(tokens[i]))
    && (NoOption(tokens, true) ==> r.expectedPixelHash == c.expectedPixelHash)
    && (forall i :: LastOptionAt(tokens, true, i) ==> r.expectedPixelHash == tokens[i + 1])
    && (NoOption(tokens, false) ==> r.timeout == c.timeout)
    && (forall i :: LastOptionAt(tokens, false, i) ==> r.timeout == Atoi(tokens[i + 1]))
  }

  /** The options after the first one and its token, two places further on. */
  lemma OptionsShift(tokens: seq<string>, pixel: bool)
    requires |tokens| >= 2
    ensures forall i :: i > 0 ==> (OptionAt(tokens, pixel, i) <==> OptionAt(tokens[2..], pixel, i - 2))
    ensures NoOption(tokens, pixel) <==> !OptionAt(tokens, pixel, 0) && NoOption(tokens[2..], pixel)
    ensures forall i :: LastOptionAt(tokens, pixel, i) ==>
              if i == 0 then NoOption(tokens[2..], pixel) else LastOptionAt(tokens[2..], pixel, i - 2)
  {
    var rest := tokens[2..];
    forall i | i > 0 ensures OptionAt(tokens, pixel, i) <==> OptionAt(rest, pixel, i - 2) {
      if 2 <= i < |tokens| { assert tokens[i] == rest[i - 2]; }
    }
    if NoOption(tokens, pixel) {
      forall j ensures !OptionAt(rest, pixel, j) { assert !OptionAt(tokens, pixel, j + 2); }
    }
    forall i | LastOptionAt(tokens, pixel, i)
      ensures if i == 0 then NoOption(rest, pixel) else LastOptionAt(rest, pixel, i - 2)
    {
      forall j | j > i - 2 ensures !OptionAt(rest, pixel, j) { assert !OptionAt(tokens, pixel, j + 2); }
    }
  }

  lemma PixelShift(tokens: seq<string>)
    requires |tokens| >= 2
    ensures (exists i :: 0 <= i < |tokens| && i % 2 == 0 && IsPixelOption(tokens[i]))
       <==> IsPixelOption(tokens[0]) || exists i :: 0 <= i < |tokens[2..]| && i % 2 == 0 && IsPixelOption(tokens[2..][i])
  {
    var rest := tokens[2..];
    if i :| 0 <= i < |tokens| && i % 2 == 0 && IsPixelOption(tokens[i]) {
      assert i > 0 ==> rest[i - 2] == tokens[i] && (i - 2) % 2 == 0;
    }
    if i :| 0 <= i < |rest| && i % 2 == 0 && IsPixelOption(rest[i]) {
      assert tokens[i + 2] == rest[i] && (i + 2) % 2 == 0;
    }
  }

  lemma SaysFirst(tokens: seq<string>, c: TestCommand, next: TestCommand, r: TestCommand)
    requires |tokens| >= 2 && IsOption(tokens[0]) && Says(tokens[2..], next, r)
    requires next == if tokens[0] == "--timeout" then c.(timeout := Atoi(tokens[1]))
                     else c.(shouldDumpPixels := true, expectedPixelHash := tokens[1])
    ensures Says(tokens, c, r)
  {
    hide Atoi, NoOption, LastOptionAt;
    OptionsShift(tokens, true);
    OptionsShift(tokens, false);
    PixelShift(tokens);
    SayHash(tokens, next, r);
    SayTimeout(tokens, next, r);
  }

  lemma SayHash(tokens: seq<string>, next: TestCommand, r: TestCommand)
    requires |tokens| >= 2 && Says(tokens[2..], next, r)
    ensures forall i :: LastOptionAt(tokens, true, i) && i > 0 ==> r.expectedPixelHash == tokens[i + 1]
    ensures LastOptionAt(tokens, true, 0) ==> r.expectedPixelHash == next.expectedPixelHash
    ensures forall i :: LastOptionAt(tokens, true, i) ==> i >= 0 && (i == 0 ==> OptionAt(tokens, true, 0))
  {
    hide Atoi;
    OptionsShift(tokens, true);
    forall i | LastOptionAt(tokens, true, i) && i > 0 ensures r.expectedPixelHash == tokens[i + 1] {
      assert tokens[2..][i - 1] == tokens[i + 1];
    }
  }

  lemma SayTimeout(tokens: seq<string>, next: TestCommand, r: TestCommand)
    requires |tokens| >= 2 && Says(tokens[2..], next, r)
    ensures forall i :: LastOptionAt(tokens, false, i) && i > 0 ==> r.timeout == Atoi(tokens[i + 1])
    ensures LastOptionAt(tokens, false, 0) ==> r.timeout == next.timeout
    ensures forall i :: LastOptionAt(tokens, false, i) ==> i >= 0 && (i == 0 ==> OptionAt(tokens, false, 0))
  {
    hide Atoi;
    OptionsShift(tokens, false);
    forall i | LastOptionAt(tokens, false, i) && i > 0 ensures r.timeout == Atoi(tokens[i + 1]) {
      assert tokens[2..][i - 1] == tokens[i + 1];
    }
  }

  lemma {:induction false} OptionsSay(tokens: seq<string>, c: TestCommand)
    ensures ParseOptions(tokens, c).Parsed? ==> Says(tokens, c, ParseOptions(tokens, c).command)
    decreases |tokens|
  {
    hide Atoi, Says;
    if |tokens| < 2 {
      SaysAtOnce(tokens, c);
    } else if IsOption(tokens[0]) {
      var next := if tokens[0] == "--timeout" then c.(timeout := Atoi(tokens[1]))
                  else c.(shouldDumpPixels := true, expectedPixelHash := tokens[1]);
      OptionsSay(tokens[2..], next);
      if ParseOptions(tokens[2..], next).Parsed? { SaysFirst(tokens, c, next, ParseOptions(tokens[2..], next).command); }
    }
  }

  lemma SaysAtOnce(tokens: seq<string>, c: TestCommand)
    requires |tokens| < 2
    ensures ParseOptions(tokens, c).Parsed? ==> Says(tokens, c, ParseOptions(tokens, c).command)
  {
  }

  /**
   What a line that parses says: the path is its first token; pixels are dumped exactly if a pixel option stands where an
   option is due; the hash is the token after the last one that has a token, or empty; and the timeout is the number
   after the last timeout option, or 30000.
   */
  lemma {:induction false} LineSays(line: string)
    requires Parse(line).Parsed?
    ensures Tokens(line) != [] && Says(Tokens(line)[1..], TestCommand(Tokens(line)[0], false, "", 30000), Parse(line).command)
  {
    hide Tokens, ParseOptions, Says;
    OptionsSay(Tokens(line)[1..], TestCommand(Tokens(line)[0], false, "", 30000));
  }

  // ----- atoi -----

  predicate Blanks(s: string) { forall i :: 0 <= i < |s| ==> s[i] as int == 32 || 9 <= s[i] as int <= 13 }

  lemma {:induction false} AtoiSkips(blanks: string, s: string)
    requires Blanks(blanks)
    ensures Atoi(blanks + s) == Atoi(s)
    decreases |blanks|
  {
    if blanks == "" {
      assert blanks + s == s;
    } else {
      assert (blanks + s)[1..] == blanks[1..] + s;
      AtoiSkips(blanks[1..], s);
    }
  }

  lemma {:induction false} DigitsStop(s: string, rest: string, value: int)
    requires (forall i :: 0 <= i < |s| ==> IsDigit(s[i])) && (rest == "" || !('0' <= rest[0] <= '9'))
    ensures DigitsValue(s + rest, value) == DigitsValue(s, value)
    decreases |s|
  {
    if s == "" {
      assert s + rest == rest;
    } else {
      assert (s + rest)[1..] == s[1..] + rest;
      DigitsStop(s[1..], rest, value * 10 + (s[0] as int - '0' as int));
    }
  }

  lemma AtoiSigned(sign: string, number: string)
    requires (sign == "" || sign == "+" || sign == "-") && number != "" && IsDigit(number[0])
    ensures sign == "-" ==> Atoi(sign + number) == -DigitsValue(number, 0)
    ensures sign != "-" ==> Atoi(sign + number) == DigitsValue(number, 0)
  {
    hide DigitsValue;
    if sign == "" {
      assert sign + number == number;
    } else {
      assert (sign + number)[1..] == number;
    }
  }

  /** Blanks, a sign, the decimal writing of a number and anything that does not go on with a digit: the number. */
  lemma {:induction false} AtoiReads(blanks: string, sign: string, n: nat, rest: string)
    requires Blanks(blanks) && (sign == "" || sign == "+" || sign == "-") && (rest == "" || !('0' <= rest[0] <= '9'))
    ensures sign == "-" ==> Atoi(blanks + (sign + (Digits(n) + rest))) == -(n as int)
    ensures sign != "-" ==> Atoi(blanks + (sign + (Digits(n) + rest))) == n
  {
    hide *;
    var number := Digits(n) + rest;
    AtoiSkips(blanks, sign + number);
    AtoiSigned(sign, number);
    DigitsStop(Digits(n), rest, 0);
    DigitsRoundTrip(n);
  }

  /** Without a digit there it is zero. */
  lemma {:induction false} AtoiZero(blanks: string, sign: string, rest: string)
    requires Blanks(blanks) && (sign == "+" || sign == "-") && (rest == "" || !('0' <= rest[0] <= '9'))
    ensures Atoi(blanks + (sign + rest)) == 0
    ensures rest == "" || (!Blanks(rest[..1]) && rest[0] != '+' && rest[0] != '-') ==> Atoi(blanks + rest) == 0
  {
    AtoiSkips(blanks, sign + rest);
    AtoiSkips(blanks, rest);
    assert (sign + rest)[1..] == rest;
  }
}
