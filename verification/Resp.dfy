/**
 The request half of the Redis serialization protocol: the client's encoder
 (RedisClient/src/CommandHandler.cpp) and the server's parser
 (src/RedisCommandHandler.cpp), as functions, and as the loops of the source proved against them.
 */
module Resp {
  import opened Bytes

  const INT_MAX: int := 0x7FFF_FFFF
  const INT_MIN: int := -0x8000_0000

  // ----- encoding -----

  /** An unsigned number as an output stream prints it. */
  function Decimal(n: nat): (s: Str)
    ensures |s| >= 1
    ensures forall b <- s :: IsDigit(b)
  {
    if n < 10 then [DIGIT_ZERO + n as Byte]
    else Decimal(n / 10) + [DIGIT_ZERO + (n % 10) as Byte]
  }

  /** "$<length>\r\n", the part of a bulk string before its payload. */
  function BulkHead(a: Str): Str {
    [DOLLAR] + Decimal(|a|) + CRLF
  }

  function Bulk(a: Str): Str {
    BulkHead(a) + a + CRLF
  }

  function Bulks(args: seq<Str>): Str {
    if args == [] then [] else Bulk(args[0]) + Bulks(args[1..])
  }

  function ArrayHead(n: nat): Str {
    [STAR] + Decimal(n) + CRLF
  }

  function Encode(args: seq<Str>): Str {
    ArrayHead(|args|) + Bulks(args)
  }

  method BuildRespCommand(args: seq<Str>) returns (oss: Str)
    ensures oss == Encode(args)
  {
    oss := [STAR] + Decimal(|args|) + CRLF;
    for i := 0 to |args|
      invariant oss + Bulks(args[i..]) == Encode(args)
    {
      var arg := args[i];
      assert args[i..][1..] == args[i + 1..];
      oss := oss + ([DOLLAR] + Decimal(|arg|) + CRLF + arg + CRLF);
    }
    assert args[|args|..] == [];
  }

  // ----- the library calls the parser makes -----

  predicate CrlfAt(input: Str, j: nat) {
    j + 2 <= |input| && input[j] == CR && input[j + 1] == LF
  }

  /** input.find("\r\n", pos): the first match at or after pos. */
  function FindCrlf(input: Str, pos: nat): (r: Option<nat>)
    ensures r.Some? ==> pos <= r.value && CrlfAt(input, r.value)
    ensures r.Some? ==> forall j :: pos <= j < r.value ==> !CrlfAt(input, j)
    ensures r.None? ==> forall j :: pos <= j ==> !CrlfAt(input, j)
    decreases |input| - pos
  {
    if pos + 2 > |input| then None
    else if CrlfAt(input, pos) then Some(pos)
    else FindCrlf(input, pos + 1)
  }

  datatype Error = InvalidArgument | OutOfRange | SignedOverflow

  datatype IntResult = Int(value: int) | Bad(error: Error)

  /** The length of the longest prefix of digits. */
  function DigitRun(s: Str): (n: nat)
    ensures n <= |s|
    ensures forall i :: 0 <= i < n ==> IsDigit(s[i])
    ensures n < |s| ==> !IsDigit(s[n])
  {
    if s == [] || !IsDigit(s[0]) then 0 else 1 + DigitRun(s[1..])
  }

  function DigitValue(b: Byte): nat
    requires IsDigit(b)
  {
    b as int - DIGIT_ZERO as int
  }

  function DigitsValue(s: Str): nat
    requires forall b <- s :: IsDigit(b)
  {
    if s == [] then 0
    else DigitsValue(s[..|s| - 1]) * 10 + DigitValue(s[|s| - 1])
  }

  function SkipSpaces(s: Str): Str {
    if s != [] && IsSpace(s[0]) then SkipSpaces(s[1..]) else s
  }

  /** std::stoi in base 10: leading blanks, an optional sign, digits; whatever follows is ignored. */
  function Stoi(s: Str): IntResult {
    var t := SkipSpaces(s);
    var signed := t != [] && (t[0] == MINUS || t[0] == PLUS);
    var u := if signed then t[1..] else t;
    var n := DigitRun(u);
    if n == 0 then Bad(InvalidArgument)
    else
      assert forall b <- u[..n] :: IsDigit(b);
      var magnitude := DigitsValue(u[..n]);
      var v: int := if signed && t[0] == MINUS then -(magnitude as int) else magnitude;
      if INT_MIN <= v <= INT_MAX then Int(v) else Bad(OutOfRange)
  }

  // ----- parsing -----

  /** What the parser returns, or the exception (or undefined arithmetic) that ends it. */
  datatype Parsed = Tokens(tokens: seq<Str>) | Raised(error: Error)

  function Prepend(ts: seq<Str>, p: Parsed): Parsed {
    match p
    case Tokens(us) => Tokens(ts + us)
    case Raised(_) => p
  }

  /**
   The test pos + len > input.size(). The source converts len to an unsigned 64-bit value, so
   a sum below zero wraps around to a number above the size of any string.
   */
  predicate PastEnd(input: Str, start: nat, len: int) {
    start + len < 0 || start + len > |input|
  }

  /** input.substr(start, len), where a negative len has become a huge count and takes the rest. */
  function Substr(input: Str, start: nat, len: int): Str
    requires start <= |input|
    requires start + len <= |input|
  {
    if len < 0 then input[start..] else input[start..start + len]
  }

  lemma PrependTwice(ts: seq<Str>, us: seq<Str>, p: Parsed)
    ensures Prepend(ts, Prepend(us, p)) == Prepend(ts + us, p)
  {
    if p.Tokens? {
      assert ts + (us + p.tokens) == (ts + us) + p.tokens;
    }
  }

  /** One turn of the element loop: it stops the loop, raises, or finds a token and moves on to next. */
  datatype Element = Stop | Fail(error: Error) | Found(token: Str, next: nat)

  function ElementAt(input: Str, pos: nat): Element {
    if pos >= |input| || input[pos] != DOLLAR then Stop
    else match FindCrlf(input, pos + 1)
      case None => Stop
      case Some(crlf) =>
        match Stoi(input[pos + 1..crlf])
        case Bad(e) => Fail(e)
        case Int(len) =>
          if PastEnd(input, crlf + 2, len) then Stop
          else if len + 2 > INT_MAX then Fail(SignedOverflow)
          else Found(Substr(input, crlf + 2, len), crlf + 2 + len + 2)
  }

  /** The remaining n elements of an array, read from pos. */
  function Elements(input: Str, pos: nat, n: int): Parsed
    decreases n
  {
    if n <= 0 then Tokens([])
    else match ElementAt(input, pos)
      case Stop => Tokens([])
      case Fail(e) => Raised(e)
      case Found(token, next) => Prepend([token], Elements(input, next, n - 1))
  }

  /** The length of the longest prefix without whitespace. */
  function WordLength(s: Str): (n: nat)
    ensures n <= |s|
    ensures forall i :: 0 <= i < n ==> !IsSpace(s[i])
    ensures n < |s| ==> IsSpace(s[n])
  {
    if s == [] || IsSpace(s[0]) then 0 else 1 + WordLength(s[1..])
  }

  /** What repeated extraction from an input stream yields. */
  function Words(s: Str): seq<Str>
    decreases |s|
  {
    if s == [] then []
    else if IsSpace(s[0]) then Words(s[1..])
    else [s[..WordLength(s)]] + Words(s[WordLength(s)..])
  }

  function Parse(input: Str): Parsed {
    if input == [] then Tokens([])
    else if input[0] != STAR then Tokens(Words(input))
    else match FindCrlf(input, 1)
      case None => Tokens([])
      case Some(crlf) =>
        match Stoi(input[1..crlf])
        case Bad(e) => Raised(e)
        case Int(n) => Elements(input, crlf + 2, n)
  }

  /** iss >> token, repeated until it fails. */
  method SplitWords(input: Str) returns (tokens: seq<Str>)
    ensures tokens == Words(input)
  {
    tokens := [];
    var rest := input;
    while rest != []
      invariant tokens + Words(rest) == Words(input)
      decreases |rest|
    {
      if IsSpace(rest[0]) {
        rest := rest[1..];
      } else {
        var n := WordLength(rest);
        tokens := tokens + [rest[..n]];
        rest := rest[n..];
      }
    }
  }

  method ReadElement(input: Str, start: nat) returns (e: Element)
    ensures e == ElementAt(input, start)
  {
    var pos := start;
    if pos >= |input| || input[pos] != DOLLAR { return Stop; }
    pos := pos + 1;
    var crlf := FindCrlf(input, pos);
    if crlf.None? { return Stop; }
    var len := Stoi(input[pos..crlf.value]);
    if len.Bad? { return Fail(len.error); }
    pos := crlf.value + 2;
    if PastEnd(input, pos, len.value) { return Stop; }
    if len.value + 2 > INT_MAX { return Fail(SignedOverflow); }
    return Found(Substr(input, pos, len.value), pos + len.value + 2);
  }

  method ReadElements(input: Str, start: nat, numElements: int) returns (r: Parsed)
    ensures r == Elements(input, start, numElements)
  {
    hide ElementAt;
    var pos := start;
    var tokens: seq<Str> := [];
    var i := 0;
    while i < numElements
      invariant Prepend(tokens, Elements(input, pos, numElements - i)) == Elements(input, start, numElements)
    {
      var e := ReadElement(input, pos);
      match e
      case Stop =>
        assert tokens + [] == tokens;
        return Tokens(tokens);
      case Fail(error) => return Raised(error);
      case Found(token, next) =>
        PrependTwice(tokens, [token], Elements(input, next, numElements - i - 1));
        tokens := tokens + [token];
        pos := next;
        i := i + 1;
    }
    assert tokens + [] == tokens;
    return Tokens(tokens);
  }

  method ParseRespCommand(input: Str) returns (r: Parsed)
    ensures r == Parse(input)
  {
    if input == [] {
      return Tokens([]);
    }
    if input[0] != STAR {
      var words := SplitWords(input);
      return Tokens(words);
    }
    var crlf := FindCrlf(input, 1);
    if crlf.None? {
      return Tokens([]);
    }
    var numElements := Stoi(input[1..crlf.value]);
    if numElements.Bad? {
      return Raised(numElements.error);
    }
    r := ReadElements(input, crlf.value + 2, numElements.value);
  }
}
