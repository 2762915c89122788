/**
 * src/CommandLine.mjs: the interactive command line. parseCommand splits a
 * typed line into words, with a string mode switched on by the first quote;
 * handleCommand decides whether the line ends the session and, for `list`,
 * which stored requests are printed.
 */
module CommandLine {
  import opened Wrappers
  import opened Protocol
  import opened RequestEntries
  import opened ReqResEntries
  import opened RequestStores
  import opened NetworkLoggers

  // ---------------------------------------------------------------------------
  // Specification of parseCommand

  /** The two characters that switch on string mode. */
  predicate IsQuote(c: char) {
    c == '"' || c == '\''
  }

  /** The index of the first quote of `s`, if there is one. */
  function QuoteAt(s: string): (r: Option<nat>)
    ensures r.Some? ==> r.value < |s| && IsQuote(s[r.value]) && forall i :: 0 <= i < r.value ==> !IsQuote(s[i])
    ensures r.None? ==> forall i :: 0 <= i < |s| ==> !IsQuote(s[i])
  {
    if s == [] then None
    else if IsQuote(s[0]) then Some(0)
    else match QuoteAt(s[1..]) {
      case None => None
      case Some(k) => Some(k + 1)
    }
  }

  /** The part of `s` read outside string mode: everything before the first quote. */
  function Head(s: string): string {
    match QuoteAt(s)
    case None => s
    case Some(q) => s[..q]
  }

  /** The part of `s` read in string mode: everything after the first quote. */
  function Tail(s: string): string {
    match QuoteAt(s)
    case None => ""
    case Some(q) => s[q + 1..]
  }

  function Last(r: seq<string>): string
    requires |r| >= 1
  {
    r[|r| - 1]
  }

  function Front(r: seq<string>): seq<string>
    requires |r| >= 1
  {
    r[..|r| - 1]
  }

  /**
   * The pieces of `s` between its spaces, empty ones included, read from the
   * left: a space starts a new piece, any other character extends the last.
   */
  function Split(s: string): (r: seq<string>)
    ensures |r| >= 1
  {
    if s == [] then [""]
    else
      var r := Split(s[..|s| - 1]);
      if s[|s| - 1] == ' ' then r + [""] else Front(r) + [Last(r) + [s[|s| - 1]]]
  }

  /**
   * The word the line ends with: the last piece of the head, with the whole
   * tail appended to it.
   */
  function FinalWord(s: string): string {
    Last(Split(Head(s))) + Tail(s)
  }

  /**
   * What parseCommand returns: every piece of the head that a space ends,
   * then the final word unless it is empty.
   */
  function Tokens(s: string): seq<string> {
    var front := Front(Split(Head(s)));
    if FinalWord(s) == "" then front else front + [FinalWord(s)]
  }

  function Spaces(s: string): nat {
    if s == [] then 0 else Spaces(s[..|s| - 1]) + if s[|s| - 1] == ' ' then 1 else 0
  }

  function RemoveSpaces(s: string): string {
    if s == [] then [] else RemoveSpaces(s[..|s| - 1]) + if s[|s| - 1] == ' ' then [] else [s[|s| - 1]]
  }

  function Concat(r: seq<string>): string {
    if r == [] then [] else Concat(r[..|r| - 1]) + r[|r| - 1]
  }

  /** The words of `r` with one space between neighbours. */
  function JoinSpaces(r: seq<string>): string
    requires |r| >= 1
  {
    if |r| == 1 then r[0] else JoinSpaces(Front(r)) + " " + Last(r)
  }

  // ---------------------------------------------------------------------------
  // Properties of the specification

  /** Reading one more character: a space opens a new piece, anything else extends the last one. */
  lemma SplitSnoc(h: string, c: char)
    ensures Split(h + [c]) == if c == ' ' then Split(h) + [""] else Front(Split(h)) + [Last(Split(h)) + [c]]
  {
    assert (h + [c])[..|h|] == h;
  }

  /** Splitting at the spaces and joining with single spaces gives the line back. */
  lemma {:induction false} JoinSplit(s: string)
    ensures JoinSpaces(Split(s)) == s
  {
    if s != [] {
      var h, c := s[..|s| - 1], s[|s| - 1];
      JoinSplit(h);
      var r := Split(h);
      if c == ' ' {
        assert Front(r + [""]) == r;
      } else {
        var r' := Front(r) + [Last(r) + [c]];
        assert Front(r') == Front(r);
        if |r| > 1 {
          assert JoinSpaces(r) == JoinSpaces(Front(r)) + " " + Last(r);
        }
      }
      assert s == h + [c];
    }
  }

  /** One piece more than there are spaces. */
  lemma {:induction false} SplitCount(s: string)
    ensures |Split(s)| == Spaces(s) + 1
  {
    if s != [] {
      SplitCount(s[..|s| - 1]);
    }
  }

  /** No piece holds a space. */
  lemma {:induction false} SplitNoSpace(s: string)
    ensures forall i :: 0 <= i < |Split(s)| ==> ' ' !in Split(s)[i]
  {
    if s != [] {
      var h, c := s[..|s| - 1], s[|s| - 1];
      SplitNoSpace(h);
      var r := Split(h);
      if c != ' ' {
        assert ' ' !in Last(r);
        assert forall i :: 0 <= i < |r| - 1 ==> Split(s)[i] == r[i];
      }
    }
  }

  /** Reading a character after pieces `a + b` changes only the part that comes from `b`. */
  lemma SnocPieces(a: seq<string>, b: seq<string>, c: char)
    requires |b| >= 1
    ensures (if c == ' ' then (a + b) + [""] else Front(a + b) + [Last(a + b) + [c]])
            == a + (if c == ' ' then b + [""] else Front(b) + [Last(b) + [c]])
  {
    if c != ' ' {
      assert Front(a + b) == a + Front(b) && Last(a + b) == Last(b);
    }
  }

  /** A word without spaces is a single piece. */
  lemma {:induction false} SplitWord(w: string)
    requires ' ' !in w
    ensures Split(w) == [w]
  {
    if w != [] {
      var h, c := w[..|w| - 1], w[|w| - 1];
      assert w == h + [c];
      assert ' ' !in h by {
        forall i | 0 <= i < |h| ensures h[i] != ' ' { assert h[i] == w[i]; }
      }
      SplitWord(h);
      SplitSnoc(h, c);
      assert Front([h]) == [] && Last([h]) == h;
    }
  }

  /** Splitting two texts joined by a space gives the pieces of one, then those of the other. */
  lemma {:induction false} SplitAtSpace(x: string, y: string)
    ensures Split(x + " " + y) == Split(x) + Split(y)
  {
    if y == [] {
      assert x + " " + y == x + [' '];
      SplitSnoc(x, ' ');
    } else {
      var y', c := y[..|y| - 1], y[|y| - 1];
      var z' := x + " " + y';
      SplitAtSpace(x, y');
      assert x + " " + y == z' + [c];
      assert y == y' + [c];
      SplitSnoc(z', c);
      SplitSnoc(y', c);
      SnocPieces(Split(x), Split(y'), c);
    }
  }

  lemma {:induction false} ConcatSnoc(r: seq<string>, w: string)
    ensures Concat(r + [w]) == Concat(r) + w
  {
    assert (r + [w])[..|r|] == r;
  }

  /** The pieces, put together, are the text without its spaces. */
  lemma {:induction false} SplitConcat(s: string)
    ensures Concat(Split(s)) == RemoveSpaces(s)
  {
    if s != [] {
      var h, c := s[..|s| - 1], s[|s| - 1];
      SplitConcat(h);
      var r := Split(h);
      assert r == Front(r) + [Last(r)];
      ConcatSnoc(Front(r), Last(r));
      if c == ' ' {
        ConcatSnoc(r, "");
      } else {
        ConcatSnoc(Front(r), Last(r) + [c]);
      }
    }
  }

  /** QuoteAt finds exactly the first quote. */
  lemma QuoteAtFirst(s: string, q: nat)
    ensures QuoteAt(s) == Some(q) <==> q < |s| && IsQuote(s[q]) && forall i :: 0 <= i < q ==> !IsQuote(s[i])
  {
    if q < |s| && IsQuote(s[q]) && (forall i :: 0 <= i < q ==> !IsQuote(s[i])) {
      assert QuoteAt(s).Some?;
    }
  }

  /** Every quote of the head would have been the first one. */
  lemma HeadHasNoQuote(s: string)
    ensures forall i :: 0 <= i < |Head(s)| ==> !IsQuote(Head(s)[i])
  {
  }

  /** Head, the first quote and Tail make up the line. */
  lemma HeadQuoteTail(s: string)
    ensures QuoteAt(s).None? ==> s == Head(s) && Tail(s) == ""
    ensures QuoteAt(s).Some? ==> s == Head(s) + [s[QuoteAt(s).value]] + Tail(s)
  {
    if QuoteAt(s).Some? {
      var q := QuoteAt(s).value;
      assert s == s[..q] + [s[q]] + s[q + 1..];
    }
  }

  lemma ConcatFinal(f: seq<string>, l: string, t: string)
    ensures Concat(if l + t == "" then f else f + [l + t]) == Concat(f) + l + t
  {
    if l + t != "" {
      ConcatSnoc(f, l + t);
    }
  }

  /**
   * The tokens put together are the line with its first quote and every
   * space before that quote removed.
   */
  lemma TokensConcat(s: string)
    ensures Concat(Tokens(s)) == RemoveSpaces(Head(s)) + Tail(s)
  {
    var h, t := Head(s), Tail(s);
    var p := Split(h);
    var f, l := Front(p), Last(p);
    assert p == f + [l];
    ConcatSnoc(f, l);
    SplitConcat(h);
    assert Tokens(s) == if l + t == "" then f else f + [l + t];
    ConcatFinal(f, l, t);
  }

  /** One token per space before the first quote, and one more when the final word is not empty. */
  lemma TokensCount(s: string)
    ensures |Tokens(s)| == Spaces(Head(s)) + if FinalWord(s) == "" then 0 else 1
  {
    SplitCount(Head(s));
  }

  /**
   * Every token but the final word is free of spaces and quotes; so is the
   * final word when the line has no quote.
   */
  lemma TokensWords(s: string)
    ensures forall i :: 0 <= i < |Tokens(s)| - 1 ==> ' ' !in Tokens(s)[i] && forall c :: c in Tokens(s)[i] ==> !IsQuote(c)
    ensures QuoteAt(s).None? ==> forall i :: 0 <= i < |Tokens(s)| ==> ' ' !in Tokens(s)[i] && forall c :: c in Tokens(s)[i] ==> !IsQuote(c)
  {
    var h := Head(s);
    var p := Split(h);
    SplitNoSpace(h);
    JoinSplit(h);
    forall i | 0 <= i < |p|
      ensures forall c :: c in p[i] ==> !IsQuote(c)
    {
      PieceWithin(p, i);
    }
  }

  /** Every character of a piece occurs in the text the pieces were joined from. */
  lemma {:induction false} PieceWithin(p: seq<string>, i: nat)
    requires |p| >= 1 && i < |p|
    ensures forall c :: c in p[i] ==> c in JoinSpaces(p)
  {
    if |p| > 1 && i < |p| - 1 {
      PieceWithin(Front(p), i);
    }
  }

  /** A line without quotes is read entirely outside string mode. */
  lemma HeadWithoutQuote(s: string)
    requires '"' !in s && '\'' !in s
    ensures Head(s) == s && Tail(s) == ""
  {
  }

  /** A line whose first quote follows `x` has `x` as head and the rest as tail. */
  lemma HeadAtQuote(x: string, q: char, y: string)
    requires '"' !in x && '\'' !in x && IsQuote(q)
    ensures Head(x + [q] + y) == x && Tail(x + [q] + y) == y
  {
    var s := x + [q] + y;
    forall i | 0 <= i < |x|
      ensures !IsQuote(s[i])
    {
      assert s[i] == x[i] && x[i] in x;
    }
    QuoteAtFirst(s, |x|);
    assert s[..|x|] == x && s[|x| + 1..] == y;
  }

  // Examples of what parseCommand returns.

  /** Without a quote the tokens are the pieces, less an empty last one. */
  lemma TokensNoQuote(s: string)
    requires '"' !in s && '\'' !in s
    ensures Tokens(s) == if Last(Split(s)) == "" then Front(Split(s)) else Split(s)
  {
    HeadWithoutQuote(s);
    var p := Split(s);
    assert FinalWord(s) == Last(p) + "" == Last(p);
    assert p == Front(p) + [Last(p)];
  }

  /** A word that neither contains a space nor switches on string mode. */
  predicate Plain(w: string) {
    ' ' !in w && '"' !in w && '\'' !in w
  }

  /** Joining words that hold no space and splitting again gives the words back. */
  lemma {:induction false} SplitJoin(ws: seq<string>)
    requires |ws| >= 1 && forall i :: 0 <= i < |ws| ==> ' ' !in ws[i]
    ensures Split(JoinSpaces(ws)) == ws
  {
    if |ws| == 1 {
      SplitWord(ws[0]);
    } else {
      var f, l := Front(ws), Last(ws);
      assert forall i :: 0 <= i < |f| ==> f[i] == ws[i];
      SplitJoin(f);
      SplitWord(l);
      SplitAtSpace(JoinSpaces(f), l);
      assert ws == f + [l];
    }
  }

  /** Plain words joined with spaces contain no quote. */
  lemma {:induction false} JoinPlain(ws: seq<string>)
    requires |ws| >= 1 && forall i :: 0 <= i < |ws| ==> Plain(ws[i])
    ensures '"' !in JoinSpaces(ws) && '\'' !in JoinSpaces(ws)
  {
    if |ws| == 1 {
      assert Plain(ws[0]);
    } else {
      var f := Front(ws);
      assert forall i :: 0 <= i < |f| ==> f[i] == ws[i];
      JoinPlain(f);
      assert Plain(Last(ws));
    }
  }

  /**
   * A line of plain words separated by single spaces is read back word by
   * word; an empty word between two spaces stays, an empty final word is
   * dropped.
   */
  lemma TokensOfWords(ws: seq<string>)
    requires |ws| >= 1 && forall i :: 0 <= i < |ws| ==> Plain(ws[i])
    ensures Tokens(JoinSpaces(ws)) == if Last(ws) == "" then Front(ws) else ws
  {
    JoinPlain(ws);
    TokensNoQuote(JoinSpaces(ws));
    SplitJoin(ws);
  }

  /**
   * After the first quote everything, spaces and later quotes included, is
   * appended to the word the quote interrupted: the quote is dropped and no
   * closing quote is recognised.
   */
  lemma TokensQuoted(ws: seq<string>, q: char, t: string)
    requires |ws| >= 1 && forall i :: 0 <= i < |ws| ==> Plain(ws[i])
    requires IsQuote(q)
    ensures Tokens(JoinSpaces(ws) + [q] + t) == Front(ws) + if Last(ws) + t == "" then [] else [Last(ws) + t]
  {
    JoinPlain(ws);
    HeadAtQuote(JoinSpaces(ws), q, t);
    SplitJoin(ws);
  }

  /** Three plain words separated by single spaces are read back as they are. */
  lemma TokensThreeWords(a: string, b: string, c: string)
    requires Plain(a) && Plain(b) && Plain(c) && c != ""
    ensures Tokens(a + " " + b + " " + c) == [a, b, c]
  {
    var ws := [a, b, c];
    assert Plain(ws[0]) && Plain(ws[1]) && Plain(ws[2]);
    TokensOfWords(ws);
    var ab := [a, b];
    assert Front(ws) == ab && Last(ws) == c;
    assert Front(ab) == [a] && Last(ab) == b;
    assert JoinSpaces(ab) == a + " " + b;
    assert JoinSpaces(ws) == a + " " + b + " " + c;
  }

  /** The example of the source's own comment. */
  lemma TokensExample()
    ensures Tokens("a b c") == ["a", "b", "c"]
  {
    TokensThreeWords("a", "b", "c");
    assert "a" + " " + "b" + " " + "c" == "a b c";
  }

  // ---------------------------------------------------------------------------
  // parseCommand

  /** Reading one more character moves the first quote only when there was none. */
  lemma {:induction false} QuoteAtSnoc(h: string, c: char)
    ensures QuoteAt(h + [c]) == if QuoteAt(h).Some? then QuoteAt(h) else if IsQuote(c) then Some(|h|) else None
  {
    if h == [] {
      assert h + [c] == [c];
    } else {
      assert (h + [c])[0] == h[0];
      assert (h + [c])[1..] == h[1..] + [c];
      QuoteAtSnoc(h[1..], c);
    }
  }

  /** parseCommand's variables: the finished words, the current word and whether string mode is on. */
  datatype ParseState = ParseState(result: seq<string>, current: string, inString: bool)

  /** The variables after reading `p`, in terms of its head and tail. */
  function State(p: string): ParseState {
    match QuoteAt(p)
    case None => ParseState(Front(Split(p)), Last(Split(p)), false)
    case Some(q) => ParseState(Front(Split(p[..q])), Last(Split(p[..q])) + p[q + 1..], true)
  }

  /** One turn of parseCommand's loop. */
  function Next(st: ParseState, c: char): ParseState {
    if st.inString then st.(current := st.current + [c])
    else if c == ' ' then ParseState(st.result + [st.current], "", false)
    else if IsQuote(c) then st.(inString := !st.inString)
    else st.(current := st.current + [c])
  }

  /** What parseCommand returns once every character has been read. */
  function Finish(st: ParseState): seq<string> {
    if st.current != "" then st.result + [st.current] else st.result
  }

  /** One turn of the loop takes the state of a prefix to that of the prefix one character longer. */
  lemma StateSnoc(p: string, c: char)
    ensures State(p + [c]) == Next(State(p), c)
  {
    QuoteAtSnoc(p, c);
    if QuoteAt(p).Some? {
      StateSnocInString(p, c);
    } else {
      StateSnocOutside(p, c);
    }
  }

  /** In string mode the character joins the current word. */
  lemma StateSnocInString(p: string, c: char)
    requires QuoteAt(p).Some? && QuoteAt(p + [c]) == QuoteAt(p)
    ensures State(p + [c]) == Next(State(p), c)
  {
    var q := QuoteAt(p).value;
    assert (p + [c])[..q] == p[..q];
    assert (p + [c])[q + 1..] == p[q + 1..] + [c];
  }

  /** Outside string mode the character ends the word, starts string mode, or joins the word. */
  lemma StateSnocOutside(p: string, c: char)
    requires QuoteAt(p).None? && QuoteAt(p + [c]) == if IsQuote(c) then Some(|p|) else None
    ensures State(p + [c]) == Next(State(p), c)
  {
    if IsQuote(c) {
      StateSnocQuote(p, c);
    } else if c == ' ' {
      StateSnocSpace(p, c);
    } else {
      StateSnocChar(p, c);
    }
  }

  /** A space outside string mode finishes the current word. */
  lemma StateSnocSpace(p: string, c: char)
    requires QuoteAt(p).None? && c == ' ' && QuoteAt(p + [c]).None?
    ensures State(p + [c]) == Next(State(p), c)
  {
    var r := Split(p);
    SplitSnoc(p, c);
    assert Split(p + [c]) == r + [""];
    assert Front(r + [""]) == r == Front(r) + [Last(r)];
  }

  /** Any other character outside string mode joins the current word. */
  lemma StateSnocChar(p: string, c: char)
    requires QuoteAt(p).None? && c != ' ' && !IsQuote(c) && QuoteAt(p + [c]).None?
    ensures State(p + [c]) == Next(State(p), c)
  {
    var r := Split(p);
    SplitSnoc(p, c);
    var r' := Front(r) + [Last(r) + [c]];
    assert Split(p + [c]) == r';
    assert Front(r') == Front(r) && Last(r') == Last(r) + [c];
  }

  /** The first quote is dropped and switches string mode on. */
  lemma StateSnocQuote(p: string, c: char)
    requires QuoteAt(p).None? && IsQuote(c) && QuoteAt(p + [c]) == Some(|p|)
    ensures State(p + [c]) == Next(State(p), c)
  {
    var p' := p + [c];
    assert p'[..|p|] == p;
    assert p'[|p| + 1..] == [];
  }

  /** Reading the whole line and finishing gives its tokens. */
  lemma FinishTokens(s: string)
    ensures Finish(State(s)) == Tokens(s)
  {
    if QuoteAt(s).None? {
      assert Head(s) == s && Tail(s) == "";
      assert FinalWord(s) == Last(Split(s));
    }
  }

  /**
   * `parseCommand`: one pass over the characters; a space outside string
   * mode ends the current word, the first quote is dropped and switches on
   * string mode, and in string mode every character is kept.
   */
  method ParseCommand(rawcmd: string) returns (result: seq<string>)
    ensures result == Tokens(rawcmd)
  {
    result := [];
    var currentString := "";
    var isStringDetected := false;
    var i := 0;
    while i < |rawcmd|
      invariant 0 <= i <= |rawcmd|
      invariant ParseState(result, currentString, isStringDetected) == State(rawcmd[..i])
    {
      var c := rawcmd[i];
      assert rawcmd[..i + 1] == rawcmd[..i] + [c];
      StateSnoc(rawcmd[..i], c);
      if isStringDetected {
        currentString := currentString + [c];
      } else if c == ' ' {
        result := result + [currentString];
        currentString := "";
      } else if IsQuote(c) {
        isStringDetected := !isStringDetected;
      } else {
        currentString := currentString + [c];
      }
      i := i + 1;
    }
    assert rawcmd[..i] == rawcmd;
    FinishTokens(rawcmd);
    if currentString != "" {
      result := result + [currentString];
    }
  }

  // ---------------------------------------------------------------------------
  // handleCommand

  /** The words that end the session. */
  predicate IsExitWord(w: string)
    ensures IsExitWord(w) <==> w in {"exit", "done", "quit"}
  {
    w == "exit" || w == "done" || w == "quit"
  }

  /** Whether the command's first word ends the session; an empty command has no first word. */
  predicate Exits(tokens: seq<string>)
    ensures tokens == [] ==> !Exits(tokens)
    ensures tokens != [] ==> (Exits(tokens) <==> tokens[0] in {"exit", "done", "quit"})
  {
    |tokens| > 0 && IsExitWord(tokens[0])
  }

  /** What `list` prints for one entry: its id and its request's url, or `undefined` without a request. */
  datatype ListLine = ListLine(id: string, url: Option<string>)

  function LineOf(e: EntryValue): (l: ListLine)
    ensures l.id == e.id && (l.url.Some? <==> e.req.Some?)
    ensures e.req.Some? ==> l.url == Some(e.req.value.url)
  {
    ListLine(e.id, if e.req.Some? then Some(e.req.value.url) else None)
  }

  predicate StartsWith(s: string, prefix: string) {
    |prefix| <= |s| && s[..|prefix|] == prefix
  }

  const ImagePrefix := "data:image/"

  /** `list` prints an entry unless its request's url is an inline image. */
  predicate Shown(e: EntryValue)
    ensures e.req.None? ==> Shown(e)
    ensures Shown(e) <==> ShownLine(LineOf(e))
  {
    e.req.None? || !StartsWith(e.req.value.url, ImagePrefix)
  }

  /** Whether a printed line is one `list` prints; it depends only on the line. */
  predicate ShownLine(l: ListLine) {
    l.url.None? || !StartsWith(l.url.value, ImagePrefix)
  }

  /**
   * The lines `list` prints for the entries of `ids`, in order. An id
   * missing from the entries makes `getReq` throw; the handler catches it
   * and the listing ends there.
   */
  function ListFrom(entries: map<string, EntryValue>, ids: seq<string>): seq<ListLine> {
    if ids == [] then []
    else if ids[0] !in entries then []
    else (if Shown(entries[ids[0]]) then [LineOf(entries[ids[0]])] else []) + ListFrom(entries, ids[1..])
  }

  /** The lines `list` prints for a store. */
  function Listing(s: StoreValue): seq<ListLine> {
    ListFrom(s.entries, s.sequence)
  }

  /** Every line `list` prints is one of a request that is not an inline image. */
  lemma {:induction false} ListingOmitsImages(entries: map<string, EntryValue>, ids: seq<string>)
    ensures forall k :: 0 <= k < |ListFrom(entries, ids)| ==> ShownLine(ListFrom(entries, ids)[k])
  {
    if ids != [] && ids[0] in entries {
      ListingOmitsImages(entries, ids[1..]);
    }
  }

  /** When every id is stored, each shown entry is printed and each printed line is a shown entry's. */
  lemma {:induction false} ListingExact(entries: map<string, EntryValue>, ids: seq<string>)
    requires forall k :: 0 <= k < |ids| ==> ids[k] in entries
    ensures forall k :: 0 <= k < |ids| && Shown(entries[ids[k]]) ==> LineOf(entries[ids[k]]) in ListFrom(entries, ids)
    ensures forall l :: l in ListFrom(entries, ids) ==>
              exists k :: 0 <= k < |ids| && Shown(entries[ids[k]]) && l == LineOf(entries[ids[k]])
    ensures |ListFrom(entries, ids)| <= |ids|
  {
    if ids != [] {
      ListingExact(entries, ids[1..]);
      assert forall k :: 1 <= k < |ids| ==> ids[k] == ids[1..][k - 1];
    }
  }

  /** An inline image is left out and an entry without a request is printed. */
  lemma ListingExample()
    ensures var img := EntryValue("1", Some(NewRequest("1", Some(ProtocolRequest("GET", "data:image/png;base64,AA", false)), None, "Image", 1)), None, None);
            var bare := EntryValue("2", None, None, None);
            Listing(StoreValue(map["1" := img, "2" := bare], ["1", "2"])) == [ListLine("2", None)]
  {
    var url := "data:image/png;base64,AA";
    assert url[..|ImagePrefix|] == ImagePrefix;
    var ids := ["1", "2"];
    assert ids[1..] == ["2"];
    assert ids[1..][1..] == [];
  }

  /**
   * `handleCommand`: whether the session should end, and the lines `list`
   * prints. The other commands only print (or call into the browser) and
   * are not modelled.
   */
  method HandleCommand(cmd: string, logger: NetworkLogger) returns (exit: bool, listed: seq<ListLine>)
    requires logger.store.Valid()
    ensures exit <==> Exits(Tokens(cmd))
    ensures listed == if |Tokens(cmd)| > 0 && Tokens(cmd)[0] == "list" then Listing(logger.store.Abstract()) else []
  {
    var parsedCmd := ParseCommand(cmd);
    var store := logger.GetStore();
    listed := [];
    if |parsedCmd| == 0 {
      return false, [];
    }
    if IsExitWord(parsedCmd[0]) {
      return true, [];
    }
    if parsedCmd[0] == "list" {
      listed := ListEntries(store);
    }
    exit := false;
  }

  lemma AppendAssoc(a: seq<ListLine>, b: seq<ListLine>, c: seq<ListLine>)
    ensures (a + b) + c == a + (b + c)
  {
  }

  /** One step of the listing: the line of the next entry, if shown, then the rest. */
  lemma ListStep(entries: map<string, EntryValue>, ids: seq<string>, k: nat)
    requires k < |ids| && ids[k] in entries
    ensures ListFrom(entries, ids[k..]) ==
            (if Shown(entries[ids[k]]) then [LineOf(entries[ids[k]])] else []) + ListFrom(entries, ids[k + 1..])
  {
    assert ids[k..][1..] == ids[k + 1..];
  }

  /** The body of the `list` loop: what it prints for one entry. */
  function EntryLines(entry: ReqResEntry): (shown: seq<ListLine>)
    reads entry, entry.req
    ensures shown == if Shown(entry.Value()) then [LineOf(entry.Value())] else []
  {
    var req := entry.GetReq();
    if req == null then [ListLine(entry.GetId(), None)]
    else if !StartsWith(req.GetUrl(), ImagePrefix) then [ListLine(entry.GetId(), Some(req.GetUrl()))]
    else []
  }

  /** The `list` loop over `getSequencedRequests()`. */
  method ListEntries(store: RequestStore) returns (listed: seq<ListLine>)
    requires store.Valid()
    ensures listed == Listing(store.Abstract())
  {
    var entries := store.GetSequencedRequests();
    ghost var s := store.Abstract();
    ghost var ids := store.sequence;
    assert s.sequence == ids;
    listed := [];
    var k := 0;
    while k < |entries|
      invariant 0 <= k <= |entries|
      invariant s == store.Abstract()
      invariant listed + ListFrom(s.entries, ids[k..]) == ListFrom(s.entries, ids)
    {
      var entry := entries[k];
      ghost var id := ids[k];
      assert id in store.store && entry == store.store[id];
      ValuesOfAt(store.store, id);
      var shown := EntryLines(entry);
      ListStep(s.entries, ids, k);
      AppendAssoc(listed, shown, ListFrom(s.entries, ids[k + 1..]));
      listed := listed + shown;
      k := k + 1;
    }
    assert ids[k..] == [];
    assert listed == Listing(s);
  }

  /** For a line of plain words, whether it ends the session depends only on its first word. */
  lemma ExitsFirstWord(ws: seq<string>)
    requires |ws| >= 1 && forall i :: 0 <= i < |ws| ==> Plain(ws[i])
    ensures Exits(Tokens(JoinSpaces(ws))) <==> IsExitWord(ws[0])
  {
    TokensOfWords(ws);
  }

  /** A leading space makes the first word empty, so the line does not end the session. */
  lemma NoExitLeadingSpace()
    ensures !Exits(Tokens(" exit"))
  {
    HeadWithoutQuote(" exit");
    assert " exit" == "" + " " + "exit";
    SplitAtSpace("", "exit");
    SplitWord("exit");
  }

  /** A quoted exit word keeps its closing quote, so the line does not end the session. */
  lemma NoExitQuoted()
    ensures !Exits(Tokens("\"exit\""))
    ensures Exits(Tokens("'exit"))
  {
    assert "\"exit\"" == "" + ['"'] + "exit\"";
    HeadAtQuote("", '"', "exit\"");
    assert "'exit" == "" + ['\''] + "exit";
    HeadAtQuote("", '\'', "exit");
  }
}
