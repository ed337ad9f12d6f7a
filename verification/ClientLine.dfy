/**
 The client's command line: splitArgs (RedisClient/src/CommandHandler.cpp), which walks the matches
 of the regular expression  "[^"]+" | \S+  and strips enclosing quotes, and the path of a typed
 line all the way to the server's tokens.
 */
module ClientLine {
  import opened Bytes
  import opened Resp
  import RespProofs

  function UnquotedRun(s: Str): (n: nat)
    ensures n <= |s|
    ensures forall i :: 0 <= i < n ==> s[i] != QUOTE
    ensures n < |s| ==> s[n] == QUOTE
  {
    if s == [] || s[0] == QUOTE then 0 else 1 + UnquotedRun(s[1..])
  }

  /**
   The length of the match at the start of s, 0 if there is none. A quoted stretch with something
   between the quotes is tried first, a stretch without blanks second.
   */
  function MatchLength(s: Str): (n: nat)
    requires s != []
    ensures n <= |s|
  {
    var n := UnquotedRun(s[1..]);
    if s[0] == QUOTE && n >= 1 && 1 + n < |s| then n + 2 else WordLength(s)
  }

  function Unquote(token: Str): Str {
    if |token| >= 2 && token[0] == QUOTE && token[|token| - 1] == QUOTE then token[1..|token| - 1] else token
  }

  function Split(s: Str): seq<Str>
    decreases |s|
  {
    if s == [] then []
    else if MatchLength(s) == 0 then Split(s[1..])
    else [Unquote(s[..MatchLength(s)])] + Split(s[MatchLength(s)..])
  }

  method SplitArgs(input: Str) returns (tokens: seq<Str>)
    ensures tokens == Split(input)
  {
    hide MatchLength;
    tokens := [];
    var rest := input;
    while rest != []
      invariant tokens + Split(rest) == Split(input)
      decreases |rest|
    {
      var n := MatchLength(rest);
      if n == 0 {
        rest := rest[1..];
      } else {
        var token := rest[..n];
        if |token| >= 2 && token[0] == QUOTE && token[|token| - 1] == QUOTE {
          token := token[1..|token| - 1];
        }
        assert Split(rest) == [token] + Split(rest[n..]);
        tokens := tokens + [token];
        rest := rest[n..];
      }
    }
  }

  /** An argument as typed: bare, or between double quotes. */
  datatype Typed = Bare(text: Str) | Quoted(text: Str)

  predicate Blank(s: Str) {
    exists b <- s :: IsSpace(b)
  }

  /** The arguments that quoting carries through splitArgs unharmed. */
  predicate Quotable(a: Str) {
    QUOTE !in a || (a[0] == QUOTE && !Blank(a))
  }

  predicate Typable(t: Typed) {
    match t
    case Bare(a) => a != [] && a[0] != QUOTE && !Blank(a)
    case Quoted(a) => Quotable(a)
  }

  function Render(t: Typed): Str {
    match t
    case Bare(a) => a
    case Quoted(a) => [QUOTE] + a + [QUOTE]
  }

  /** The arguments joined by single blanks. */
  function Line(ts: seq<Typed>): Str
    decreases |ts|, 0
  {
    if ts == [] then [] else Render(ts[0]) + LineTail(ts[1..])
  }

  function LineTail(ts: seq<Typed>): Str
    decreases |ts|, 1
  {
    if ts == [] then [] else [SPACE] + Line(ts)
  }

  function Texts(ts: seq<Typed>): (args: seq<Str>)
    ensures |args| == |ts|
    ensures forall i :: 0 <= i < |ts| ==> args[i] == ts[i].text
  {
    seq(|ts|, i requires 0 <= i < |ts| => ts[i].text)
  }

  lemma WordLengthIs(s: Str, n: nat)
    requires n <= |s|
    requires forall i :: 0 <= i < n ==> !IsSpace(s[i])
    requires n < |s| ==> IsSpace(s[n])
    ensures WordLength(s) == n
  {
    var m := WordLength(s);
    assert m == |s| || IsSpace(s[m]);
    assert n == |s| || IsSpace(s[n]);
  }

  lemma UnquotedRunIs(s: Str, n: nat)
    requires n < |s|
    requires forall i :: 0 <= i < n ==> s[i] != QUOTE
    requires s[n] == QUOTE
    ensures UnquotedRun(s) == n
  {
    var m := UnquotedRun(s);
    assert m == |s| || s[m] == QUOTE;
  }

  // What the first match takes from a quoted argument followed by the rest of a line.

  function QuotedLine(a: Str, tail: Str): Str {
    [QUOTE] + a + [QUOTE] + tail
  }

  lemma FirstPlain(a: Str, tail: Str)
    requires QUOTE !in a
    requires tail == [] || IsSpace(tail[0])
    ensures MatchLength(QuotedLine(a, tail)) == |a| + 2
  {
    var s := QuotedLine(a, tail);
    forall i | 0 <= i < |a| ensures s[1..][i] != QUOTE {
      assert s[1..][i] == a[i] && a[i] in a;
    }
    UnquotedRunIs(s[1..], |a|);
    if a == [] {
      WordLengthIs(s, 2);
    }
  }

  /** A leading quote inside the argument makes the match a run without blanks. */
  lemma FirstLeadingQuote(a: Str, tail: Str)
    requires a != [] && a[0] == QUOTE
    ensures MatchLength(QuotedLine(a, tail)) == WordLength(QuotedLine(a, tail)) > 0
  {
    UnquotedRunIs(QuotedLine(a, tail)[1..], 0);
  }

  lemma FirstLeadingQuoteWhole(a: Str, tail: Str)
    requires a != [] && a[0] == QUOTE && !Blank(a)
    requires tail == [] || IsSpace(tail[0])
    ensures MatchLength(QuotedLine(a, tail)) == |a| + 2
  {
    var s := QuotedLine(a, tail);
    FirstLeadingQuote(a, tail);
    forall i | 0 <= i < |a| + 2 ensures !IsSpace(s[i]) {
      assert 0 < i <= |a| ==> s[i] == a[i - 1] && a[i - 1] in a;
    }
    WordLengthIs(s, |a| + 2);
  }

  lemma FirstLeadingQuoteCut(a: Str, tail: Str)
    requires a != [] && a[0] == QUOTE && Blank(a)
    ensures Unquote(QuotedLine(a, tail)[..MatchLength(QuotedLine(a, tail))]) != a
  {
    var s := QuotedLine(a, tail);
    FirstLeadingQuote(a, tail);
    var n := WordLength(s);
    var j :| 0 <= j < |a| && IsSpace(a[j]);
    assert s[j + 1] == a[j];
    assert forall i :: 0 <= i < n ==> !IsSpace(s[..n][i]);
  }

  lemma FirstInnerQuote(a: Str, tail: Str)
    requires QUOTE in a && a[0] != QUOTE
    ensures MatchLength(QuotedLine(a, tail)) > 0
    ensures Unquote(QuotedLine(a, tail)[..MatchLength(QuotedLine(a, tail))]) != a
  {
    var s := QuotedLine(a, tail);
    var n := UnquotedRun(a);
    var j :| 0 <= j < |a| && a[j] == QUOTE;
    assert n <= j;
    forall i | 0 <= i < n ensures s[1..][i] != QUOTE {
      assert s[1..][i] == a[i];
    }
    UnquotedRunIs(s[1..], n);
    assert |Unquote(s[..n + 2])| == n;
  }

  lemma FirstQuoted(a: Str, tail: Str)
    requires tail == [] || IsSpace(tail[0])
    ensures var s := QuotedLine(a, tail);
            && MatchLength(s) > 0
            && (Quotable(a) ==> MatchLength(s) == |a| + 2)
            && (!Quotable(a) ==> Unquote(s[..MatchLength(s)]) != a)
  {
    hide MatchLength, Unquote, QuotedLine;
    if QUOTE !in a {
      FirstPlain(a, tail);
    } else if a[0] != QUOTE {
      FirstInnerQuote(a, tail);
    } else if Blank(a) {
      FirstLeadingQuote(a, tail);
      FirstLeadingQuoteCut(a, tail);
    } else {
      FirstLeadingQuoteWhole(a, tail);
    }
  }

  /** The first match of a line is its first argument, as it was typed. */
  lemma FirstTyped(t: Typed, tail: Str)
    requires Typable(t)
    requires tail == [] || IsSpace(tail[0])
    ensures Render(t) != [] && Unquote(Render(t)) == t.text
    ensures MatchLength(Render(t) + tail) == |Render(t)|
  {
    var a := t.text;
    if t.Bare? {
      forall i | 0 <= i < |a| ensures !IsSpace((a + tail)[i]) {
        assert a[i] in a;
      }
      WordLengthIs(a + tail, |a|);
    } else {
      FirstQuoted(a, tail);
    }
  }

  lemma BlankSkipped(s: Str, b: Byte := SPACE)
    requires IsSpace(b)
    ensures Split([b] + s) == Split(s)
  {
    WordLengthIs([b] + s, 0);
    assert ([b] + s)[1..] == s;
  }

  lemma SplitFirst(w: Str, tail: Str)
    requires w != [] && MatchLength(w + tail) == |w|
    ensures Split(w + tail) == [Unquote(w)] + Split(tail)
  {
    hide MatchLength, Unquote;
    assert (w + tail)[..|w|] == w && (w + tail)[|w|..] == tail;
  }

  /** A line of typable arguments splits into those arguments, blanks and empty ones included. */
  lemma {:induction false} SplitsBack(ts: seq<Typed>)
    requires forall t <- ts :: Typable(t)
    ensures Split(Line(ts)) == Texts(ts)
    decreases |ts|
  {
    hide MatchLength, Unquote, Render, Typable;
    if ts != [] {
      FirstTyped(ts[0], LineTail(ts[1..]));
      SplitFirst(Render(ts[0]), LineTail(ts[1..]));
      SplitsBack(ts[1..]);
      BlankSkipped(Line(ts[1..]));
      assert Texts(ts) == [ts[0].text] + Texts(ts[1..]);
    }
  }

  // ----- lines with any blanks -----

  /** The pieces of a line with the gaps before, between and after them. */
  function Spread(pieces: seq<Str>, gaps: seq<Str>): Str
    requires |gaps| == |pieces| + 1
  {
    if pieces == [] then gaps[0] else gaps[0] + (pieces[0] + Spread(pieces[1..], gaps[1..]))
  }

  /** The six blank bytes. */
  predicate AllBlank(s: Str) {
    forall b <- s :: b in {9, 10, 11, 12, 13, 32}
  }

  /** Every gap is blank, and none between two pieces is empty. */
  predicate Gapped(pieces: seq<Str>, gaps: seq<Str>) {
    && |gaps| == |pieces| + 1
    && (forall i :: 0 <= i < |gaps| ==> AllBlank(gaps[i]))
    && (forall i :: 0 < i < |pieces| ==> gaps[i] != [])
  }

  lemma GappedTail(pieces: seq<Str>, gaps: seq<Str>)
    requires pieces != [] && Gapped(pieces, gaps)
    ensures Gapped(pieces[1..], gaps[1..])
    ensures var tail := Spread(pieces[1..], gaps[1..]); tail == [] || IsSpace(tail[0])
  {
    var gap := gaps[1..][0];
    assert AllBlank(gap);
    if gap != [] {
      assert gap[0] in gap;
    }
  }

  lemma {:induction false} SplitSkips(gap: Str, s: Str)
    requires AllBlank(gap)
    ensures Split(gap + s) == Split(s)
  {
    if gap == [] {
      assert gap + s == s;
    } else {
      assert gap[0] in gap && gap + s == [gap[0]] + (gap[1..] + s);
      assert AllBlank(gap[1..]) by { assert forall b <- gap[1..] :: b in gap; }
      BlankSkipped(gap[1..] + s, gap[0]);
      SplitSkips(gap[1..], s);
    }
  }

  function Rendered(ts: seq<Typed>): (pieces: seq<Str>)
    ensures |pieces| == |ts|
    ensures forall i :: 0 <= i < |ts| ==> pieces[i] == Render(ts[i])
  {
    seq(|ts|, i requires 0 <= i < |ts| => Render(ts[i]))
  }

  /** Tabs, line ends and runs of blanks separate arguments as a single blank does. */
  lemma {:induction false} SplitsSpread(ts: seq<Typed>, gaps: seq<Str>)
    requires forall t <- ts :: Typable(t)
    requires Gapped(Rendered(ts), gaps)
    ensures Split(Spread(Rendered(ts), gaps)) == Texts(ts)
    decreases |ts|
  {
    hide MatchLength, Unquote, Render, Typable, AllBlank;
    if ts == [] {
      assert gaps[0] + [] == gaps[0];
      SplitSkips(gaps[0], []);
    } else {
      var pieces := Rendered(ts);
      GappedTail(pieces, gaps);
      assert pieces[1..] == Rendered(ts[1..]);
      var tail := Spread(pieces[1..], gaps[1..]);
      SplitSkips(gaps[0], pieces[0] + tail);
      FirstTyped(ts[0], tail);
      SplitFirst(Render(ts[0]), tail);
      SplitsSpread(ts[1..], gaps[1..]);
      assert Texts(ts) == [ts[0].text] + Texts(ts[1..]);
    }
  }

  function QuoteAll(args: seq<Str>): (ts: seq<Typed>)
    ensures |ts| == |args| && Texts(ts) == args
  {
    seq(|args|, i requires 0 <= i < |args| => Quoted(args[i]))
  }

  /** Quoting every argument works exactly for the quotable ones. */
  lemma {:induction false} QuotingRoundTrip(args: seq<Str>)
    ensures Split(Line(QuoteAll(args))) == args <==> forall a <- args :: Quotable(a)
  {
    var ts := QuoteAll(args);
    if forall a <- args :: Quotable(a) {
      SplitsBack(ts);
    } else {
      var a, tail := args[0], LineTail(ts[1..]);
      FirstQuoted(a, tail);
      assert ts[0] == Quoted(a);
      assert Line(ts) == QuotedLine(a, tail);
      if Quotable(a) {
        SplitFirst([QUOTE] + a + [QUOTE], tail);
        BlankSkipped(Line(ts[1..]));
        assert ts[1..] == QuoteAll(args[1..]);
        QuotingRoundTrip(args[1..]);
      }
    }
  }

  /** From the keyboard to the server: a typed line arrives as the arguments that were typed. */
  lemma TypedLineArrives(ts: seq<Typed>, rest: Str)
    requires forall t <- ts :: Typable(t)
    requires RespProofs.Sized(Texts(ts))
    ensures Parse(Encode(Split(Line(ts))) + rest) == Tokens(Texts(ts))
  {
    hide Parse, Encode, Split, Line;
    SplitsBack(ts);
    RespProofs.RoundTrip(Texts(ts), rest);
  }

  /** In bytes: a word, a blank, and text between double quotes are two arguments. */
  lemma TypedBytes(word: Str, text: Str)
    requires word != [] && 34 !in word && AllVisible(word)
    requires 34 !in text
    ensures Split(word + [32, 34] + text + [34]) == [word, text]
  {
    hide Split;
    var ts := [Bare(word), Quoted(text)];
    assert ts[1..] == [ts[1]] && ts[1..][1..] == [];
    assert Line([ts[1]]) == Render(ts[1]) + [];
    assert Line(ts) == word + ([32] + ([34] + text + [34]));
    assert word + [32, 34] + text + [34] == Line(ts);
    assert word[0] in word;
    SplitsBack(ts);
  }

  predicate AllVisible(s: Str) {
    forall b <- s :: b !in {9, 10, 11, 12, 13, 32}
  }

  // ----- the inline format -----

  function BareAll(words: seq<Str>): (ts: seq<Typed>)
    ensures |ts| == |words| && Texts(ts) == words
  {
    seq(|words|, i requires 0 <= i < |words| => Bare(words[i]))
  }

  predicate IsWord(a: Str) {
    a != [] && !Blank(a)
  }

  /** Without the leading '*', the server takes the words of the line as they stand. */
  lemma {:induction false} WordsBack(words: seq<Str>)
    requires forall a <- words :: IsWord(a)
    ensures Words(Line(BareAll(words))) == words
    decreases |words|
  {
    if words != [] {
      var a, rest := words[0], BareAll(words[1..]);
      var tail := LineTail(rest);
      assert IsWord(a);
      assert BareAll(words)[1..] == rest;
      assert Line(BareAll(words)) == a + tail;
      forall i | 0 <= i < |a| ensures !IsSpace((a + tail)[i]) {
        assert a[i] in a;
      }
      WordLengthIs(a + tail, |a|);
      assert (a + tail)[..|a|] == a && (a + tail)[|a|..] == tail;
      WordsBack(words[1..]);
      if rest != [] {
        assert tail[1..] == Line(rest);
      }
    }
  }

  lemma {:induction false} WordsSkip(gap: Str, s: Str)
    requires AllBlank(gap)
    ensures Words(gap + s) == Words(s)
  {
    if gap == [] {
      assert gap + s == s;
    } else {
      assert gap[0] in gap && (gap + s)[1..] == gap[1..] + s;
      assert AllBlank(gap[1..]) by { assert forall b <- gap[1..] :: b in gap; }
      WordsSkip(gap[1..], s);
    }
  }

  lemma WordsFirst(w: Str, tail: Str)
    requires IsWord(w)
    requires tail == [] || IsSpace(tail[0])
    ensures Words(w + tail) == [w] + Words(tail)
  {
    forall i | 0 <= i < |w| ensures !IsSpace((w + tail)[i]) {
      assert w[i] in w;
    }
    WordLengthIs(w + tail, |w|);
    assert (w + tail)[..|w|] == w && (w + tail)[|w|..] == tail;
  }

  lemma {:induction false} WordsSpread(words: seq<Str>, gaps: seq<Str>)
    requires forall a <- words :: IsWord(a)
    requires Gapped(words, gaps)
    ensures Words(Spread(words, gaps)) == words
    decreases |words|
  {
    hide IsWord, AllBlank;
    if words == [] {
      assert gaps[0] + [] == gaps[0];
      WordsSkip(gaps[0], []);
    } else {
      GappedTail(words, gaps);
      var tail := Spread(words[1..], gaps[1..]);
      WordsSkip(gaps[0], words[0] + tail);
      WordsFirst(words[0], tail);
      WordsSpread(words[1..], gaps[1..]);
    }
  }

  /** So an inline command may end in CRLF, begin with blanks, and hold tabs and runs of blanks. */
  lemma InlineSpreadArrives(words: seq<Str>, gaps: seq<Str>)
    requires forall a <- words :: IsWord(a)
    requires Gapped(words, gaps)
    requires var line := Spread(words, gaps); line != [] ==> line[0] != STAR
    ensures Parse(Spread(words, gaps)) == Tokens(words)
  {
    hide Words, Elements, Stoi;
    WordsSpread(words, gaps);
    if Spread(words, gaps) == [] {
      NoWords();
    }
  }

  lemma NoWords()
    ensures Words([]) == []
  {
  }

  lemma {:induction false} WordsHaveNoCr(words: seq<Str>)
    requires forall a <- words :: IsWord(a)
    ensures CR !in Line(BareAll(words))
    decreases |words|
  {
    if words != [] {
      var a, rest := words[0], BareAll(words[1..]);
      assert IsWord(a) && CR !in a;
      WordsHaveNoCr(words[1..]);
      assert BareAll(words)[1..] == rest;
      assert Line(BareAll(words)) == a + LineTail(rest);
    }
  }

  /** Inline commands: a line of words, sent as it is, arrives as those words unless it starts with '*'. */
  lemma InlineArrives(words: seq<Str>)
    requires words != [] && IsWord(words[0]) && forall a <- words :: IsWord(a)
    ensures Parse(Line(BareAll(words))) == Tokens(words) <==> words[0][0] != STAR
  {
    hide Words, Elements, Stoi;
    var line := Line(BareAll(words));
    assert IsWord(words[0]);
    assert line == words[0] + LineTail(BareAll(words)[1..]);
    assert line[0] == words[0][0];
    WordsBack(words);
    WordsHaveNoCr(words);
    assert FindCrlf(line, 1) == None;
  }
}
