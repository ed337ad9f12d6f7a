/**
 The encoder and the parser undo each other: exactly when the sizes fit in an int, whatever the
 payloads contain, whatever follows on the connection, and wherever the stream is cut.
 */
module RespProofs {
  import opened Bytes
  import opened Resp

  // ----- decimal lengths -----

  lemma {:induction false} DecimalRoundTrip(n: nat)
    ensures DigitsValue(Decimal(n)) == n
  {
    if n >= 10 {
      DecimalRoundTrip(n / 10);
      var s := Decimal(n);
      assert s[..|s| - 1] == Decimal(n / 10);
    } else {
      assert DigitsValue([]) == 0;
    }
  }

  lemma StoiOfDecimal(n: nat)
    ensures Stoi(Decimal(n)) == if n <= INT_MAX then Int(n) else Bad(OutOfRange)
  {
    var s := Decimal(n);
    assert IsDigit(s[0]);
    assert SkipSpaces(s) == s;
    assert DigitRun(s) == |s| && s[..|s|] == s;
    DecimalRoundTrip(n);
  }

  // ----- streams -----

  /** From pos on, and as far as it has arrived, input is s (and then anything). */
  predicate ReadsAs(input: Str, pos: nat, s: Str) {
    forall j {:trigger input[j]} :: pos <= j < |input| && j < pos + |s| ==> input[j] == s[j - pos]
  }

  lemma ReadsInTwo(input: Str, pos: nat, a: Str, b: Str)
    requires ReadsAs(input, pos, a + b)
    ensures ReadsAs(input, pos, a)
    ensures ReadsAs(input, pos + |a|, b)
  {
  }

  lemma SliceReads(input: Str, pos: nat, s: Str)
    requires ReadsAs(input, pos, s) && pos + |s| <= |input|
    ensures input[pos..pos + |s|] == s
  {
  }

  /** The header line that starts at pos ends where its digits end, once it has all arrived. */
  lemma FindAfterDigits(input: Str, pos: nat, digits: Str)
    requires forall b <- digits :: IsDigit(b)
    requires ReadsAs(input, pos, digits + CRLF)
    ensures FindCrlf(input, pos) == if pos + |digits| + 2 <= |input| then Some(pos + |digits|) else None
  {
    var s := digits + CRLF;
    ReadsInTwo(input, pos, digits, CRLF);
    forall j | pos <= j < pos + |digits| ensures !CrlfAt(input, j) {
      if j < |input| {
        assert input[j] == digits[j - pos];
        assert IsDigit(digits[j - pos]);
      }
    }
    if pos + |digits| + 2 <= |input| {
      var e := pos + |digits|;
      assert input[e] == CRLF[0] && input[e + 1] == CRLF[1];
      assert CrlfAt(input, e);
    }
  }

  // ----- one element, then all -----

  predicate Fits(a: Str) {
    |a| + 2 <= INT_MAX
  }

  // A "<mark><digits>\r\n" header: where it ends, the digits it holds, and what comes after it.

  lemma HeaderEnd(input: Str, pos: nat, mark: Byte, d: Str, tail: Str)
    requires forall b <- d :: IsDigit(b)
    requires ReadsAs(input, pos, [mark] + ((d + CRLF) + tail))
    ensures FindCrlf(input, pos + 1) == if pos + 1 + |d| + 2 <= |input| then Some(pos + 1 + |d|) else None
  {
    ReadsInTwo(input, pos, [mark], (d + CRLF) + tail);
    ReadsInTwo(input, pos + 1, d + CRLF, tail);
    FindAfterDigits(input, pos + 1, d);
  }

  lemma HeaderDigits(input: Str, pos: nat, mark: Byte, d: Str, tail: Str)
    requires forall b <- d :: IsDigit(b)
    requires ReadsAs(input, pos, [mark] + ((d + CRLF) + tail))
    ensures pos + 1 + |d| + 2 <= |input| ==> input[pos + 1..pos + 1 + |d|] == d
  {
    ReadsInTwo(input, pos, [mark], (d + CRLF) + tail);
    ReadsInTwo(input, pos + 1, d + CRLF, tail);
    ReadsInTwo(input, pos + 1, d, CRLF);
  }

  lemma HeaderTail(input: Str, pos: nat, mark: Byte, d: Str, tail: Str)
    requires forall b <- d :: IsDigit(b)
    requires ReadsAs(input, pos, [mark] + ((d + CRLF) + tail))
    ensures pos < |input| ==> input[pos] == mark
    ensures ReadsAs(input, pos + 1 + |d| + 2, tail)
  {
    ReadsInTwo(input, pos, [mark], (d + CRLF) + tail);
    ReadsInTwo(input, pos + 1, d + CRLF, tail);
  }

  /** A bulk string is read whole once its payload has arrived, and not at all before. */
  lemma ReadBulk(input: Str, pos: nat, a: Str)
    requires ReadsAs(input, pos, Bulk(a))
    ensures !(pos + |BulkHead(a)| + |a| <= |input|) && Fits(a) ==> ElementAt(input, pos) == Stop
    ensures pos + |BulkHead(a)| + |a| <= |input| && Fits(a) ==> ElementAt(input, pos) == Found(a, pos + |Bulk(a)|)
    ensures pos + |BulkHead(a)| + |a| <= |input| && !Fits(a) ==> ElementAt(input, pos).Fail?
  {
    hide Stoi, Decimal, ReadsAs, CrlfAt, FindCrlf;
    var d := Decimal(|a|);
    assert Bulk(a) == [DOLLAR] + ((d + CRLF) + (a + CRLF));
    HeaderEnd(input, pos, DOLLAR, d, a + CRLF);
    HeaderDigits(input, pos, DOLLAR, d, a + CRLF);
    HeaderTail(input, pos, DOLLAR, d, a + CRLF);
    StoiOfDecimal(|a|);
    var start := pos + |BulkHead(a)|;
    ReadsInTwo(input, start, a, CRLF);
    if start + |a| <= |input| {
      SliceReads(input, start, a);
    }
  }

  /** How many of the payloads are wholly inside the first k bytes of Bulks(args). */
  function Arrived(args: seq<Str>, k: int): (n: nat)
    ensures n <= |args|
  {
    if args == [] || k < |BulkHead(args[0])| + |args[0]| then 0
    else 1 + Arrived(args[1..], k - |Bulk(args[0])|)
  }

  lemma {:induction false} ReadBulks(input: Str, pos: nat, args: seq<Str>)
    requires ReadsAs(input, pos, Bulks(args))
    requires forall a <- args :: Fits(a)
    ensures Elements(input, pos, |args|) == Tokens(args[..Arrived(args, |input| - pos)])
    decreases args
  {
    hide ElementAt, Bulk, BulkHead;
    if args != [] {
      ReadsInTwo(input, pos, Bulk(args[0]), Bulks(args[1..]));
      ReadBulk(input, pos, args[0]);
      if pos + |BulkHead(args[0])| + |args[0]| <= |input| {
        var next := pos + |Bulk(args[0])|;
        ReadBulks(input, next, args[1..]);
        var n := Arrived(args[1..], |input| - next);
        assert [args[0]] + args[1..][..n] == args[..n + 1];
      }
    }
  }

  /** Where the payload of argument i ends within Bulks(args). */
  function PayloadEndInBulks(args: seq<Str>, i: nat): nat
    requires i < |args|
  {
    |Bulks(args[..i])| + |BulkHead(args[i])| + |args[i]|
  }

  lemma {:induction false} ArrivedExactly(args: seq<Str>, k: int, i: nat)
    requires i < |args|
    ensures i < Arrived(args, k) <==> PayloadEndInBulks(args, i) <= k
  {
    if i == 0 {
      assert Bulks(args[..0]) == [];
    } else {
      var k' := k - |Bulk(args[0])|;
      ArrivedExactly(args[1..], k', i - 1);
      assert args[1..][..i - 1] == args[..i][1..];
      assert PayloadEndInBulks(args, i) == |Bulk(args[0])| + PayloadEndInBulks(args[1..], i - 1);
    }
  }

  /** An oversized payload that has arrived makes the parser raise. */
  lemma {:induction false} OversizedRaises(input: Str, pos: nat, args: seq<Str>)
    requires ReadsAs(input, pos, Bulks(args)) && pos + |Bulks(args)| <= |input|
    requires exists a <- args :: !Fits(a)
    ensures Elements(input, pos, |args|).Raised?
    decreases args
  {
    hide ElementAt, Decimal;
    ReadsInTwo(input, pos, Bulk(args[0]), Bulks(args[1..]));
    ReadBulk(input, pos, args[0]);
    if Fits(args[0]) {
      OversizedRaises(input, pos + |Bulk(args[0])|, args[1..]);
    }
  }

  // ----- whole commands -----

  lemma ReadArrayHead(input: Str, args: seq<Str>)
    requires ReadsAs(input, 0, Encode(args))
    ensures ReadsAs(input, |ArrayHead(|args|)|, Bulks(args))
    ensures |ArrayHead(|args|)| <= |input| ==>
      Parse(input) == if |args| <= INT_MAX then Elements(input, |ArrayHead(|args|)|, |args|) else Raised(OutOfRange)
    ensures |input| < |ArrayHead(|args|)| ==> Parse(input) == Tokens([])
  {
    hide Elements, Bulks, Decimal, Stoi;
    var d := Decimal(|args|);
    assert Encode(args) == [STAR] + ((d + CRLF) + Bulks(args));
    HeaderEnd(input, 0, STAR, d, Bulks(args));
    HeaderDigits(input, 0, STAR, d, Bulks(args));
    HeaderTail(input, 0, STAR, d, Bulks(args));
    StoiOfDecimal(|args|);
  }

  /** The sizes that survive the parser's int arithmetic. */
  predicate Sized(args: seq<Str>) {
    |args| <= INT_MAX && forall a <- args :: Fits(a)
  }

  lemma EncodingReads(args: seq<Str>, rest: Str, k: nat)
    requires k <= |Encode(args) + rest|
    ensures ReadsAs((Encode(args) + rest)[..k], 0, Encode(args))
  {
    hide Encode;
  }

  /**
   Round trip under pipelining: whatever bytes the arguments hold and whatever follows them, the
   server reads back the client's arguments, if and only if the sizes fit.
   */
  lemma RoundTrip(args: seq<Str>, rest: Str)
    ensures Parse(Encode(args) + rest) == Tokens(args) <==> Sized(args)
  {
    hide Parse, Elements, Bulks, Decimal, ArrayHead, ReadsAs;
    var input := Encode(args) + rest;
    EncodingReads(args, rest, |input|);
    assert input[..|input|] == input;
    ReadArrayHead(input, args);
    var pos := |ArrayHead(|args|)|;
    if |args| <= INT_MAX {
      if forall a <- args :: Fits(a) {
        ReadBulks(input, pos, args);
        if args != [] {
          ArrivedExactly(args, |input| - pos, |args| - 1);
          BulksSplit(args, |args| - 1);
        }
      } else {
        OversizedRaises(input, pos, args);
      }
    }
  }

  lemma {:induction false} BulksSplit(args: seq<Str>, i: nat)
    requires i < |args|
    ensures |Bulks(args[..i])| + |Bulk(args[i])| <= |Bulks(args)|
  {
    if i > 0 {
      BulksSplit(args[1..], i - 1);
      assert args[..i][1..] == args[1..][..i - 1];
    }
  }

  /** Where the payload of argument i ends within the encoded command. */
  function PayloadEnd(args: seq<Str>, i: nat): nat
    requires i < |args|
  {
    |ArrayHead(|args|)| + |Bulks(args[..i])| + |BulkHead(args[i])| + |args[i]|
  }

  /**
   Truncation: however few bytes of the stream have arrived, the parser yields exactly the leading
   arguments whose payload is complete, never a wrong or partial one.
   */
  lemma Truncation(args: seq<Str>, rest: Str, k: nat)
    requires Sized(args) && k <= |Encode(args) + rest|
    ensures var parsed := Parse((Encode(args) + rest)[..k]);
            && parsed.Tokens?
            && parsed.tokens <= args
            && forall i :: 0 <= i < |args| ==> (i < |parsed.tokens| <==> PayloadEnd(args, i) <= k)
  {
    hide Parse, Elements, Bulks, Bulk, BulkHead, Decimal, ArrayHead, ReadsAs, Arrived;
    var input := (Encode(args) + rest)[..k];
    EncodingReads(args, rest, k);
    ReadArrayHead(input, args);
    var pos := |ArrayHead(|args|)|;
    if pos <= k {
      ReadBulks(input, pos, args);
      forall i | 0 <= i < |args|
        ensures i < Arrived(args, k - pos) <==> PayloadEnd(args, i) <= k
      {
        ArrivedExactly(args, k - pos, i);
      }
    }
  }

  // ----- on the wire -----

  /** Numbers are written in decimal digits, the most significant first. */
  lemma DecimalDigits()
    ensures Decimal(0) == [48] && Decimal(1) == [49] && Decimal(2) == [50] && Decimal(3) == [51]
    ensures Decimal(12) == [49, 50] && Decimal(905) == [57, 48, 53]
  {
    assert Decimal(90) == Decimal(9) + [48] && Decimal(905) == Decimal(90) + [53];
    assert Decimal(12) == Decimal(1) + [50];
  }

  lemma TwoBulks(a: Str, b: Str)
    ensures Bulks([a, b]) == Bulk(a) + Bulk(b)
    ensures Bulks([a]) == Bulk(a)
  {
    hide Bulk;
    assert [a, b][1..] == [b] && [b][1..] == [] && [a][1..] == [];
    assert Bulks([b]) == Bulk(b) + [];
  }

  /** GET k, one empty argument, and none, byte for byte. */
  lemma OnTheWire()
    ensures Encode([[71, 69, 84], [107]])
         == [42, 50, 13, 10, 36, 51, 13, 10, 71, 69, 84, 13, 10, 36, 49, 13, 10, 107, 13, 10]
    ensures Encode([[]]) == [42, 49, 13, 10, 36, 48, 13, 10, 13, 10]
    ensures Encode([]) == [42, 48, 13, 10]
  {
    hide Decimal, Bulks;
    DecimalDigits();
    TwoBulks([71, 69, 84], [107]);
    TwoBulks([], []);
    NoBulks();
  }

  lemma NoBulks()
    ensures Bulks([]) == []
  {
  }

  lemma {:induction false} DigitRunIs(d: Str, rest: Str)
    requires forall b <- d :: IsDigit(b)
    requires rest != [] ==> !IsDigit(rest[0])
    ensures DigitRun(d + rest) == |d|
  {
    if d == [] {
      assert d + rest == rest;
    } else {
      assert d[0] in d && (d + rest)[1..] == d[1..] + rest;
      DigitRunIs(d[1..], rest);
    }
  }

  lemma {:induction false} BlanksSkipped(blanks: Str, s: Str)
    requires forall b <- blanks :: b in {9, 10, 11, 12, 13, 32}
    requires s != [] && !IsSpace(s[0])
    ensures SkipSpaces(blanks + s) == s
  {
    if blanks == [] {
      assert blanks + s == s;
    } else {
      assert blanks[0] in blanks && (blanks + s)[1..] == blanks[1..] + s;
      assert forall b <- blanks[1..] :: b in blanks;
      BlanksSkipped(blanks[1..], s);
    }
  }

  lemma UnsignedRead(n: nat, rest: Str)
    requires rest != [] ==> !IsDigit(rest[0])
    ensures var u := Decimal(n) + rest;
            && DigitRun(u) == |Decimal(n)| && u[..DigitRun(u)] == Decimal(n)
            && u != [] && IsDigit(u[0])
            && DigitsValue(Decimal(n)) == n
  {
    hide Decimal, DigitRun, DigitsValue;
    DecimalRoundTrip(n);
    DigitRunIs(Decimal(n), rest);
    assert Decimal(n)[0] in Decimal(n);
  }

  /** stoi skips leading blanks, takes a sign, and ignores what follows the digits. */
  lemma StoiUnsigned(blanks: Str, n: nat, rest: Str)
    requires forall b <- blanks :: b in {9, 10, 11, 12, 13, 32}
    requires rest != [] ==> !(48 <= rest[0] <= 57)
    ensures Stoi(blanks + (Decimal(n) + rest)) == if n <= 0x7FFF_FFFF then Int(n) else Bad(OutOfRange)
  {
    hide Decimal, DigitRun, DigitsValue, SkipSpaces;
    UnsignedRead(n, rest);
    BlanksSkipped(blanks, Decimal(n) + rest);
  }

  lemma StoiSigned(blanks: Str, sign: Byte, n: nat, rest: Str)
    requires forall b <- blanks :: b in {9, 10, 11, 12, 13, 32}
    requires rest != [] ==> !(48 <= rest[0] <= 57)
    requires sign == 43 || sign == 45
    ensures sign == 43 ==>
      Stoi(blanks + ([sign] + (Decimal(n) + rest))) == if n <= 0x7FFF_FFFF then Int(n) else Bad(OutOfRange)
    ensures sign == 45 ==>
      Stoi(blanks + ([sign] + (Decimal(n) + rest))) == if n <= 0x8000_0000 then Int(-(n as int)) else Bad(OutOfRange)
  {
    hide Decimal, DigitRun, DigitsValue, SkipSpaces;
    var u := Decimal(n) + rest;
    UnsignedRead(n, rest);
    BlanksSkipped(blanks, [sign] + u);
    assert ([sign] + u)[1..] == u;
  }

  /** A negative number of elements is read as none. */
  lemma NegativeCount(n: nat, rest: Str)
    requires n <= 0x8000_0000
    ensures Parse([42, 45] + Decimal(n) + [13, 10] + rest) == Tokens([])
  {
    hide Decimal, Stoi;
    var input := [42, 45] + Decimal(n) + [13, 10] + rest;
    var d := Decimal(n);
    assert input == [42, 45] + (d + CRLF) + rest;
    assert ReadsAs(input, 2, d + CRLF);
    FindAfterDigits(input, 2, d);
    assert input[1..2 + |d|] == [] + ([45] + (d + []));
    StoiSigned([], 45, n, []);
  }

  /** The first element of an array header followed by anything. */
  lemma AfterArrayHead(n: nat, rest: Str)
    requires n <= INT_MAX
    ensures Parse(ArrayHead(n) + rest) == Elements(ArrayHead(n) + rest, |ArrayHead(n)|, n)
  {
    hide Decimal, Stoi, Elements;
    var input, d := ArrayHead(n) + rest, Decimal(n);
    assert input == [STAR] + ((d + CRLF) + rest);
    assert ReadsAs(input, 0, [STAR] + ((d + CRLF) + rest));
    HeaderEnd(input, 0, STAR, d, rest);
    HeaderDigits(input, 0, STAR, d, rest);
    StoiOfDecimal(n);
  }

  /** An element that does not start with a dollar sign ends the command. */
  lemma ForeignMarkStops(n: nat, mark: Byte, rest: Str)
    requires n <= INT_MAX && mark != 36
    ensures Parse(ArrayHead(n) + ([mark] + rest)) == Tokens([])
  {
    hide ArrayHead, Parse;
    AfterArrayHead(n, [mark] + rest);
    var input := ArrayHead(n) + ([mark] + rest);
    assert input[|ArrayHead(n)|] == mark;
  }

  /** A bulk string of length -1 is read as all the rest of the input. */
  lemma NullBulkTakesTheRest(rest: Str)
    ensures Parse([42, 49, 13, 10, 36, 45, 49, 13, 10] + rest) == Tokens([rest])
  {
    hide ArrayHead, Parse, Stoi, Decimal;
    DecimalDigits();
    assert ArrayHead(1) == [42, 49, 13, 10] by { OneArrayHead(); }
    var tail := [36, 45, 49, 13, 10] + rest;
    var input := [42, 49, 13, 10] + tail;
    assert [42, 49, 13, 10, 36, 45, 49, 13, 10] + rest == input;
    AfterArrayHead(1, tail);
    StoiSigned([], 45, 1, []);
    assert [] + ([45] + ([49] + [])) == [45, 49];
    assert !CrlfAt(input, 5) && !CrlfAt(input, 6) && CrlfAt(input, 7);
    assert FindCrlf(input, 5) == Some(7);
    assert input[5..7] == [45, 49] && input[9..] == rest;
    assert ElementAt(input, 4) == Found(rest, 10);
    assert Elements(input, 4, 1) == Prepend([rest], Elements(input, 10, 0));
  }

  lemma OneArrayHead()
    ensures ArrayHead(1) == [STAR] + Decimal(1) + CRLF
  {
  }
}
