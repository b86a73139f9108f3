/** Saved maps: the printer of common/seq.c, undone by the ex parser's delimiter loop and its
    two-word argument parse. */
module MapFile {
  import opened Store
  import opened MapTable

  const CH_LITERAL: char := 22 as char

  predicate Ends(c: char) {
    c == '\n' || c == '|'
  }

  // ----- the printer -------------------------------------------------------------------------

  /** A character of the first word as printed. */
  function InChar(c: char): string {
    if c == CH_LITERAL || Ends(c) || IsBlank(c) then [CH_LITERAL, c] else [c]
  }

  /** A character of the second string as printed: blanks are left alone. */
  function OutChar(c: char): string {
    if c == CH_LITERAL || Ends(c) then [CH_LITERAL, c] else [c]
  }

  function QuoteIn(s: string): string {
    if s == "" then "" else InChar(s[0]) + QuoteIn(s[1..])
  }

  function QuoteOut(s: string): string {
    if s == "" then "" else OutChar(s[0]) + QuoteOut(s[1..])
  }

  function EntryText(input: string, output: string): string {
    QuoteIn(input) + " " + QuoteOut(output) + "\n"
  }

  function OutputOf(e: Entry): string {
    if e.output.Some? then e.output.value else ""
  }

  predicate Saved(e: Entry, stype: SeqType) {
    e.stype == stype && e.userDef
  }

  function SavedText(es: seq<Entry>, prefix: string, stype: SeqType): string {
    if es == [] then ""
    else
      (if Saved(es[0], stype) then prefix + EntryText(es[0].input, OutputOf(es[0])) else "") + SavedText(es[1..], prefix, stype)
  }

  // ----- the parser ----------------------------------------------------------------------------

  /** The delimiter loop: a command, and the text after its delimiter. A ^V goes only where it
      stands before a delimiter. */
  function Delimited(t: string): (r: (string, string))
    ensures |r.1| <= |t| && (t != "" ==> |r.1| < |t|)
  {
    if t == "" then ("", "")
    else if t[0] == CH_LITERAL && |t| > 1 then
      if Ends(t[1]) then var (cmd, rest) := Delimited(t[2..]); ([t[1]] + cmd, rest)
      else var (cmd, rest) := Delimited(t[1..]); ([t[0]] + cmd, rest)
    else if Ends(t[0]) then ("", t[1..])
    else var (cmd, rest) := Delimited(t[1..]); ([t[0]] + cmd, rest)
  }

  /** The first word, and the text after the blank that ends it. */
  function Word(t: string): (string, string) {
    if t == "" then ("", "")
    else if t[0] == CH_LITERAL && |t| > 1 then var (w, rest) := Word(t[2..]); ([t[1]] + w, rest)
    else if IsBlank(t[0]) then ("", t[1..])
    else var (w, rest) := Word(t[1..]); ([t[0]] + w, rest)
  }

  function Unquoted(t: string): string {
    if t == "" then ""
    else if t[0] == CH_LITERAL && |t| > 1 then [t[1]] + Unquoted(t[2..])
    else [t[0]] + Unquoted(t[1..])
  }

  /** The 'W' argument parse: two words, or a usage error. */
  function Parsed(cmd: string): Option<(string, string)> {
    var t := SkipBlanks(cmd);
    if t == "" then None
    else
      var (w, rest) := Word(t);
      var u := SkipBlanks(rest);
      if u == "" then None else Some((w, Unquoted(u)))
  }

  /** One command of the file, without its name, and the text that follows it. */
  function Read(t: string): (Option<(string, string)>, string) {
    var (cmd, rest) := Delimited(t);
    (Parsed(cmd), rest)
  }

  // ----- one entry -------------------------------------------------------------------------------

  function HalfInChar(c: char): string {
    if c == CH_LITERAL || IsBlank(c) then [CH_LITERAL, c] else [c]
  }

  function HalfOutChar(c: char): string {
    if c == CH_LITERAL then [CH_LITERAL, c] else [c]
  }

  /** What the delimiter loop leaves of the two words: only ^V itself, and blanks of the first
      word, are still quoted. */
  function HalfIn(s: string): string {
    if s == "" then "" else HalfInChar(s[0]) + HalfIn(s[1..])
  }

  function HalfOut(s: string): string {
    if s == "" then "" else HalfOutChar(s[0]) + HalfOut(s[1..])
  }

  lemma {:induction false} Assoc(a: string, b: string, c: string)
    ensures (a + b) + c == a + (b + c)
  {
  }

  lemma {:induction false} EmptyEnds(a: string)
    ensures "" + a == a && a + "" == a
  {
  }

  lemma {:induction false} DelimitedPlain(c: char, x: string)
    requires !Ends(c) && (c != CH_LITERAL || x == "" || !Ends(x[0]))
    ensures Delimited([c] + x).0 == [c] + Delimited(x).0 && Delimited([c] + x).1 == Delimited(x).1
  {
    assert ([c] + x)[1..] == x;
  }

  lemma {:induction false} DelimitedQuoted(c: char, x: string)
    requires Ends(c)
    ensures Delimited([CH_LITERAL, c] + x).0 == [c] + Delimited(x).0 && Delimited([CH_LITERAL, c] + x).1 == Delimited(x).1
  {
    assert ([CH_LITERAL, c] + x)[2..] == x;
  }

  lemma {:induction false} DelimitedPair(c: char, x: string)
    requires !Ends(c) && (c != CH_LITERAL || x == "" || !Ends(x[0]))
    ensures Delimited([CH_LITERAL, c] + x).0 == [CH_LITERAL, c] + Delimited(x).0
    ensures Delimited([CH_LITERAL, c] + x).1 == Delimited(x).1
  {
    hide Delimited;
    DelimitedPlain(c, x);
    DelimitedPlain(CH_LITERAL, [c] + x);
    Assoc([CH_LITERAL], [c], x);
    Assoc([CH_LITERAL], [c], Delimited(x).0);
    assert [CH_LITERAL] + [c] == [CH_LITERAL, c];
  }

  lemma {:induction false} DelimitedInChar(c: char, y: string)
    requires y == "" || !Ends(y[0])
    ensures Delimited(InChar(c) + y).0 == HalfInChar(c) + Delimited(y).0 && Delimited(InChar(c) + y).1 == Delimited(y).1
  {
    hide Delimited;
    if Ends(c) { DelimitedQuoted(c, y); }
    else if c == CH_LITERAL || IsBlank(c) { DelimitedPair(c, y); }
    else { DelimitedPlain(c, y); }
  }

  lemma {:induction false} DelimitedOutChar(c: char, y: string)
    requires c != CH_LITERAL || y == "" || !Ends(y[0])
    ensures Delimited(OutChar(c) + y).0 == HalfOutChar(c) + Delimited(y).0 && Delimited(OutChar(c) + y).1 == Delimited(y).1
  {
    hide Delimited;
    if Ends(c) { DelimitedQuoted(c, y); }
    else if c == CH_LITERAL { DelimitedPair(c, y); }
    else { DelimitedPlain(c, y); }
  }

  lemma {:induction false} FirstOf(a: string, b: string)
    ensures if a == "" then a + b == b else a + b != "" && (a + b)[0] == a[0]
  {
  }

  lemma {:induction false} QuoteStarts(s: string)
    requires s != ""
    ensures QuoteIn(s) != "" && !Ends(QuoteIn(s)[0]) && QuoteOut(s) != "" && !Ends(QuoteOut(s)[0])
  {
    FirstOf(InChar(s[0]), QuoteIn(s[1..]));
    FirstOf(OutChar(s[0]), QuoteOut(s[1..]));
  }

  lemma {:induction false} HalfStarts(s: string)
    requires s != ""
    ensures HalfIn(s) != "" && !IsBlank(HalfIn(s)[0]) && HalfOut(s) != "" && HalfOut(s)[0] == s[0]
  {
    FirstOf(HalfInChar(s[0]), HalfIn(s[1..]));
    FirstOf(HalfOutChar(s[0]), HalfOut(s[1..]));
  }

  lemma {:induction false} DelimitedIn(s: string, x: string)
    requires x == "" || !Ends(x[0])
    ensures Delimited(QuoteIn(s) + x).0 == HalfIn(s) + Delimited(x).0 && Delimited(QuoteIn(s) + x).1 == Delimited(x).1
  {
    hide Delimited, InChar, HalfInChar;
    if s == "" {
      EmptyEnds(x);
      EmptyEnds(Delimited(x).0);
    } else {
      var y := QuoteIn(s[1..]) + x;
      DelimitedIn(s[1..], x);
      if s[1..] != "" { QuoteStarts(s[1..]); }
      FirstOf(QuoteIn(s[1..]), x);
      DelimitedInChar(s[0], y);
      Assoc(InChar(s[0]), QuoteIn(s[1..]), x);
      Assoc(HalfInChar(s[0]), HalfIn(s[1..]), Delimited(x).0);
    }
  }

  lemma {:induction false} DelimitedOut(s: string, x: string)
    requires s == "" || s[|s| - 1] != CH_LITERAL || x == "" || !Ends(x[0])
    ensures Delimited(QuoteOut(s) + x).0 == HalfOut(s) + Delimited(x).0 && Delimited(QuoteOut(s) + x).1 == Delimited(x).1
  {
    hide Delimited, OutChar, HalfOutChar;
    if s == "" {
      EmptyEnds(x);
      EmptyEnds(Delimited(x).0);
    } else {
      var y := QuoteOut(s[1..]) + x;
      DelimitedOut(s[1..], x);
      if s[1..] != "" { QuoteStarts(s[1..]); }
      FirstOf(QuoteOut(s[1..]), x);
      DelimitedOutChar(s[0], y);
      Assoc(OutChar(s[0]), QuoteOut(s[1..]), x);
      Assoc(HalfOutChar(s[0]), HalfOut(s[1..]), Delimited(x).0);
    }
  }

  lemma {:induction false} WordInChar(c: char, y: string)
    ensures Word(HalfInChar(c) + y).0 == [c] + Word(y).0 && Word(HalfInChar(c) + y).1 == Word(y).1
  {
    var t := HalfInChar(c) + y;
    if c == CH_LITERAL || IsBlank(c) { assert t[2..] == y; } else { assert t[1..] == y; }
  }

  lemma {:induction false} WordIn(s: string, y: string)
    ensures Word(HalfIn(s) + (" " + y)).0 == s && Word(HalfIn(s) + (" " + y)).1 == y
  {
    hide Word, HalfInChar;
    if s == "" {
      EmptyEnds(" " + y);
      WordEnds(y);
    } else {
      WordIn(s[1..], y);
      WordInChar(s[0], HalfIn(s[1..]) + (" " + y));
      Assoc(HalfInChar(s[0]), HalfIn(s[1..]), " " + y);
      assert s == [s[0]] + s[1..];
    }
  }

  lemma {:induction false} WordEnds(y: string)
    ensures Word(" " + y).0 == "" && Word(" " + y).1 == y
  {
    assert (" " + y)[1..] == y;
  }

  lemma {:induction false} UnquotedOutChar(c: char, y: string)
    ensures Unquoted(HalfOutChar(c) + y) == [c] + Unquoted(y)
  {
    var t := HalfOutChar(c) + y;
    if c == CH_LITERAL { assert t[2..] == y; } else { assert t[1..] == y; }
  }

  lemma {:induction false} UnquotedOut(s: string, z: string)
    ensures Unquoted(HalfOut(s) + z) == s + Unquoted(z)
  {
    hide Unquoted, HalfOutChar;
    if s == "" {
      EmptyEnds(z);
      EmptyEnds(Unquoted(z));
    } else {
      UnquotedOut(s[1..], z);
      UnquotedOutChar(s[0], HalfOut(s[1..]) + z);
      Assoc(HalfOutChar(s[0]), HalfOut(s[1..]), z);
      Assoc([s[0]], s[1..], Unquoted(z));
      assert s == [s[0]] + s[1..];
    }
  }

  lemma {:induction false} SkipOne(c: char, y: string)
    ensures SkipBlanks([c] + y) == if IsBlank(c) then SkipBlanks(y) else [c] + y
  {
    assert ([c] + y)[1..] == y;
  }

  lemma {:induction false} SkipOut(s: string, z: string)
    requires z == "" || !IsBlank(z[0])
    ensures SkipBlanks(HalfOut(s) + z) == HalfOut(SkipBlanks(s)) + z
  {
    if s == "" {
      EmptyEnds(z);
    } else if IsBlank(s[0]) {
      SkipOut(s[1..], z);
      Assoc([s[0]], HalfOut(s[1..]), z);
      SkipOne(s[0], HalfOut(s[1..]) + z);
    } else {
      HalfStarts(s);
      FirstOf(HalfOut(s), z);
    }
  }

  /** The argument parse of what the delimiter loop leaves, whatever z follows. */
  lemma {:induction false} ParsedHalves(input: string, output: string, z: string)
    requires input != "" && (z == "" || !IsBlank(z[0]))
    ensures Parsed(HalfIn(input) + (" " + (HalfOut(output) + z))) ==
            if HalfOut(SkipBlanks(output)) + z == "" then None else Some((input, SkipBlanks(output) + Unquoted(z)))
  {
    hide Word, HalfIn, HalfOut, Unquoted;
    var t := HalfIn(input) + (" " + (HalfOut(output) + z));
    HalfStarts(input);
    FirstOf(HalfIn(input), " " + (HalfOut(output) + z));
    assert SkipBlanks(t) == t;
    WordIn(input, HalfOut(output) + z);
    SkipOut(output, z);
    UnquotedOut(SkipBlanks(output), z);
  }

  lemma {:induction false} EntryPieces(input: string, output: string, rest: string)
    ensures EntryText(input, output) + rest == QuoteIn(input) + (" " + (QuoteOut(output) + ("\n" + rest)))
  {
    hide QuoteIn, QuoteOut;
  }

  lemma {:induction false} QuoteLast(s: string, c: char)
    ensures QuoteOut(s + [c]) == QuoteOut(s) + OutChar(c)
  {
    hide OutChar;
    if s == "" {
      assert s + [c] == [c];
      EmptyEnds(OutChar(c));
      assert QuoteOut([c]) == OutChar(c) + QuoteOut("");
    } else {
      assert (s + [c])[1..] == s[1..] + [c];
      QuoteLast(s[1..], c);
      Assoc(OutChar(s[0]), QuoteOut(s[1..]), OutChar(c));
    }
  }

  /** The delimiter loop on an entry, up to what follows its output. */
  lemma {:induction false} DelimitedEntry(input: string, output: string, x: string)
    requires output == "" || output[|output| - 1] != CH_LITERAL || x == "" || !Ends(x[0])
    ensures var t := QuoteIn(input) + (" " + (QuoteOut(output) + x));
            Delimited(t).0 == HalfIn(input) + (" " + (HalfOut(output) + Delimited(x).0))
            && Delimited(t).1 == Delimited(x).1
  {
    hide Delimited, QuoteIn, QuoteOut, HalfIn, HalfOut;
    var y := QuoteOut(output) + x;
    DelimitedIn(input, " " + y);
    DelimitedPlain(' ', y);
    DelimitedOut(output, x);
  }

  /** An entry that does not end in ^V is read back up to its own newline. */
  lemma {:induction false} ReadEntry(input: string, output: string, rest: string)
    requires input != "" && (output == "" || output[|output| - 1] != CH_LITERAL)
    ensures Read(EntryText(input, output) + rest) ==
            (if SkipBlanks(output) == "" then None else Some((input, SkipBlanks(output))), rest)
  {
    hide Delimited, Parsed, QuoteIn, QuoteOut, HalfIn, HalfOut, EntryText, SkipBlanks;
    EntryPieces(input, output, rest);
    DelimitedEntry(input, output, "\n" + rest);
    NewlineEnds(rest);
    ParsedHalves(input, output, "");
    HalfEmpty(SkipBlanks(output));
    EmptyEnds(HalfOut(SkipBlanks(output)));
    EmptyEnds(SkipBlanks(output));
  }

  lemma {:induction false} HalfEmpty(s: string)
    ensures HalfOut(s) == "" <==> s == ""
  {
    if s != "" { HalfStarts(s); }
  }

  lemma {:induction false} NewlineEnds(rest: string)
    ensures Delimited("\n" + rest) == ("", rest)
  {
    assert ("\n" + rest)[1..] == rest;
  }

  /** An entry whose output ends in ^V swallows its newline and the command after it. */
  lemma {:induction false} ReadSwallows(input: string, output: string, rest: string)
    requires input != ""
    ensures Read(EntryText(input, output + [CH_LITERAL]) + rest) ==
            (Some((input, SkipBlanks(output) + (['\n'] + Unquoted(Delimited(rest).0)))), Delimited(rest).1)
  {
    hide Delimited, Parsed, QuoteIn, QuoteOut, HalfIn, HalfOut, EntryText, SkipBlanks, Unquoted;
    var o, lits := output + [CH_LITERAL], [CH_LITERAL, CH_LITERAL];
    QuoteLast(output, CH_LITERAL);
    EntryPieces(input, o, rest);
    Assoc(QuoteOut(output), lits, "\n" + rest);
    DelimitedEntry(input, output, lits + ("\n" + rest));
    SwallowedNewline(rest);
    var z := [CH_LITERAL, '\n'] + Delimited(rest).0;
    ParsedHalves(input, output, z);
    UnquotedNewline(Delimited(rest).0);
  }

  lemma {:induction false} UnquotedNewline(x: string)
    ensures Unquoted([CH_LITERAL, '\n'] + x) == ['\n'] + Unquoted(x)
  {
    assert ([CH_LITERAL, '\n'] + x)[2..] == x;
  }

  lemma {:induction false} SwallowedNewline(rest: string)
    ensures Delimited([CH_LITERAL, CH_LITERAL] + ("\n" + rest)).0 == [CH_LITERAL, '\n'] + Delimited(rest).0
    ensures Delimited([CH_LITERAL, CH_LITERAL] + ("\n" + rest)).1 == Delimited(rest).1
  {
    hide Delimited;
    var x := [CH_LITERAL, '\n'] + rest;
    DelimitedQuoted('\n', rest);
    DelimitedPlain(CH_LITERAL, x);
    assert [CH_LITERAL, CH_LITERAL] + ("\n" + rest) == [CH_LITERAL] + x;
    assert [CH_LITERAL] + (['\n'] + Delimited(rest).0) == [CH_LITERAL, '\n'] + Delimited(rest).0;
  }

  /** The outputs that survive being saved. */
  predicate Survives(output: string) {
    output != "" && !IsBlank(output[0]) && output[|output| - 1] != CH_LITERAL
  }

  /** An entry saved and read back is itself, and leaves the rest of the file alone, exactly when
      its output is not empty, does not begin with a blank and does not end in ^V. */
  lemma {:induction false} EntryRoundTrip(input: string, output: string, rest: string)
    requires input != ""
    ensures Read(EntryText(input, output) + rest) == (Some((input, output)), rest) <==> Survives(output)
    ensures Read(EntryText(input, output) + rest).0 == Some((input, output)) <==> Survives(output)
  {
    hide Read, EntryText, Delimited, Unquoted;
    if output == "" || output[|output| - 1] != CH_LITERAL {
      ReadEntry(input, output, rest);
    } else {
      var o := output[..|output| - 1];
      assert output == o + [CH_LITERAL];
      ReadSwallows(input, o, rest);
      Swallowed(o, Unquoted(Delimited(rest).0));
    }
  }

  lemma {:induction false} Swallowed(o: string, more: string)
    ensures SkipBlanks(o) + (['\n'] + more) != o + [CH_LITERAL]
  {
    var s := SkipBlanks(o) + (['\n'] + more);
    if o != "" && IsBlank(o[0]) {
      FirstOf(SkipBlanks(o), ['\n'] + more);
      FirstOf(['\n'], more);
      FirstOf(o, [CH_LITERAL]);
      assert !IsBlank(s[0]);
    } else {
      assert s[|o|] == '\n' && (o + [CH_LITERAL])[|o|] == CH_LITERAL;
    }
  }

  // ----- one command, to the letter ---------------------------------------------------------------

  /** Characters that mean nothing to either parse, blanks aside. */
  predicate Plain(s: string) {
    forall i :: 0 <= i < |s| ==> s[i] != 22 as char && s[i] != '\n' && s[i] != '|'
  }

  predicate NoBlanks(s: string) {
    forall i :: 0 <= i < |s| ==> s[i] != ' ' && s[i] != '\t'
  }

  lemma {:induction false} DelimitedRun(s: string, x: string)
    requires Plain(s)
    ensures Delimited(s + x).0 == s + Delimited(x).0 && Delimited(s + x).1 == Delimited(x).1
  {
    hide Delimited;
    if s == "" {
      EmptyEnds(x);
      EmptyEnds(Delimited(x).0);
    } else {
      DelimitedRun(s[1..], x);
      DelimitedPlain(s[0], s[1..] + x);
      Assoc([s[0]], s[1..], x);
      Assoc([s[0]], s[1..], Delimited(x).0);
      assert s == [s[0]] + s[1..];
    }
  }

  lemma {:induction false} WordRun(w: string, sep: char, y: string)
    requires Plain(w) && NoBlanks(w) && (sep == ' ' || sep == '\t')
    ensures Word(w + ([sep] + y)).0 == w && Word(w + ([sep] + y)).1 == y
  {
    hide Word;
    var t := w + ([sep] + y);
    WordStep(t);
    if w == "" {
      assert t == [sep] + y && t[1..] == y;
    } else {
      WordRun(w[1..], sep, y);
      assert t[1..] == w[1..] + ([sep] + y) && w == [w[0]] + w[1..];
    }
  }

  lemma {:induction false} UnquotedRun(s: string)
    requires Plain(s)
    ensures Unquoted(s) == s
  {
    if s != "" {
      UnquotedRun(s[1..]);
      assert s == [s[0]] + s[1..];
    }
  }

  /** A word, one blank and a text, up to a newline or a bar, are a command; what follows is left. */
  lemma {:induction false} PlainRead(w: string, sep: char, o: string, d: char, rest: string)
    requires w != "" && Plain(w) && NoBlanks(w) && (sep == ' ' || sep == '\t')
    requires o != "" && Plain(o) && o[0] != ' ' && o[0] != '\t' && (d == '\n' || d == '|')
    ensures Read((w + ([sep] + o)) + ([d] + rest)) == (Some((w, o)), rest)
  {
    hide Delimited, Word, Unquoted;
    var cmd := w + ([sep] + o);
    DelimitedRun(cmd, [d] + rest);
    DelimitedStep([d] + rest);
    EmptyEnds(cmd);
    assert ([d] + rest)[1..] == rest;
    WordRun(w, sep, o);
    UnquotedRun(o);
    assert SkipBlanks(cmd) == cmd && SkipBlanks(o) == o;
  }

  /** A ^V takes the meaning from a newline or a bar, and goes. */
  lemma {:induction false} QuotedDelimiter(d: char, x: string)
    requires d == '\n' || d == '|'
    ensures Delimited([22 as char, d] + x).0 == [d] + Delimited(x).0
    ensures Delimited([22 as char, d] + x).1 == Delimited(x).1
  {
    DelimitedQuoted(d, x);
  }

  /** The printer puts nothing before characters that need no quoting ... */
  lemma {:induction false} PrintedPlain(w: string, o: string)
    requires Plain(w) && NoBlanks(w) && Plain(o)
    ensures EntryText(w, o) == w + " " + o + "\n"
  {
    QuotedRun(w);
    QuotedRun(o);
  }

  lemma {:induction false} QuotedRun(s: string)
    requires Plain(s)
    ensures QuoteOut(s) == s && (NoBlanks(s) ==> QuoteIn(s) == s)
  {
    if s != "" {
      QuotedRun(s[1..]);
      assert s == [s[0]] + s[1..];
    }
  }

  /** ... and a ^V before every other one. */
  lemma {:induction false} PrintedQuoted(c: char)
    ensures c == 22 as char || c == '\n' || c == '|' ==> QuoteOut([c]) == [22 as char, c]
    ensures c == 22 as char || c == '\n' || c == '|' || c == ' ' || c == '\t' ==> QuoteIn([c]) == [22 as char, c]
  {
    assert [c][1..] == "" && OutChar(c) + "" == OutChar(c) && InChar(c) + "" == InChar(c);
  }

  // ----- the whole file ------------------------------------------------------------------------------

  /** Every command of a file of commands that all begin with the prefix. */
  function ReadAll(t: string, prefix: string): seq<Option<(string, string)>>
    decreases |t|
  {
    if t == "" then []
    else if prefix <= t && |prefix| < |t| then
      var (cmd, rest) := Read(t[|prefix|..]);
      [cmd] + ReadAll(rest, prefix)
    else [None]
  }

  /** What was to be saved, in order. */
  function Pairs(es: seq<Entry>, stype: SeqType): seq<(string, string)> {
    if es == [] then []
    else (if Saved(es[0], stype) then [(es[0].input, OutputOf(es[0]))] else []) + Pairs(es[1..], stype)
  }

  function Somes(ps: seq<(string, string)>): seq<Option<(string, string)>> {
    if ps == [] then [] else [Some(ps[0])] + Somes(ps[1..])
  }

  ghost predicate AllSurvive(es: seq<Entry>, stype: SeqType) {
    forall e :: e in es && Saved(e, stype) ==> Survives(OutputOf(e))
  }

  ghost predicate AllKeyed(es: seq<Entry>, stype: SeqType) {
    forall e :: e in es && Saved(e, stype) ==> e.input != ""
  }

  /** A saved file is read back entry by entry exactly when every output in it survives. */
  lemma {:induction false} FileRoundTrip(es: seq<Entry>, prefix: string, stype: SeqType)
    requires AllKeyed(es, stype)
    ensures ReadAll(SavedText(es, prefix, stype), prefix) == Somes(Pairs(es, stype)) <==> AllSurvive(es, stype)
  {
    hide Read, EntryText, Survives, ReadAll, Somes, SavedText, Pairs;
    if es == [] {
      EmptyFile(prefix, stype);
    } else {
      var tail := es[1..];
      assert es == [es[0]] + tail;
      FileRoundTrip(tail, prefix, stype);
      SavedFirst(es, prefix, stype);
      if Saved(es[0], stype) {
        assert es[0] in es;
        var pair, text, rest := (es[0].input, OutputOf(es[0])), EntryText(es[0].input, OutputOf(es[0])), SavedText(tail, prefix, stype);
        EntryRoundTrip(pair.0, pair.1, rest);
        EntryWritten(pair.0, pair.1);
        ReadFirst(prefix, text, rest);
        SameFirst(Read(text + rest).0, Some(pair), ReadAll(Read(text + rest).1, prefix), Somes(Pairs(tail, stype)));
        SomesFirst(pair, Pairs(tail, stype));
      }
    }
  }

  lemma {:induction false} OrderedKeyed(es: seq<Entry>, stype: SeqType)
    requires Ordered(es)
    ensures AllKeyed(es, stype)
  {
  }

  lemma {:induction false} EmptyFile(prefix: string, stype: SeqType)
    ensures ReadAll(SavedText([], prefix, stype), prefix) == Somes(Pairs([], stype))
  {
  }

  lemma {:induction false} SavedFirst(es: seq<Entry>, prefix: string, stype: SeqType)
    requires es != []
    ensures Saved(es[0], stype) ==>
              && SavedText(es, prefix, stype) == (prefix + EntryText(es[0].input, OutputOf(es[0]))) + SavedText(es[1..], prefix, stype)
              && Pairs(es, stype) == [(es[0].input, OutputOf(es[0]))] + Pairs(es[1..], stype)
    ensures !Saved(es[0], stype) ==>
              SavedText(es, prefix, stype) == SavedText(es[1..], prefix, stype) && Pairs(es, stype) == Pairs(es[1..], stype)
  {
    hide EntryText;
    EmptyEnds(SavedText(es[1..], prefix, stype));
  }

  lemma {:induction false} SameFirst<T>(a: T, b: T, x: seq<T>, y: seq<T>)
    ensures [a] + x == [b] + y <==> a == b && x == y
  {
    assert ([a] + x)[0] == a && ([b] + y)[0] == b && ([a] + x)[1..] == x && ([b] + y)[1..] == y;
  }

  lemma {:induction false} EntryWritten(input: string, output: string)
    ensures EntryText(input, output) != ""
  {
    hide QuoteIn, QuoteOut;
  }

  lemma {:induction false} ReadFirst(prefix: string, text: string, rest: string)
    requires text != ""
    ensures var (cmd, more) := Read(text + rest);
            |more| < |(prefix + text) + rest| && ReadAll((prefix + text) + rest, prefix) == [cmd] + ReadAll(more, prefix)
  {
    hide Parsed;
    var t := (prefix + text) + rest;
    Assoc(prefix, text, rest);
    assert t[|prefix|..] == text + rest;
  }

  lemma {:induction false} SomesFirst(p: (string, string), ps: seq<(string, string)>)
    ensures Somes([p] + ps) == [Some(p)] + Somes(ps)
  {
    assert ([p] + ps)[1..] == ps;
  }

  // ----- a saved table, read into an empty one ---------------------------------------------------------

  /** What :map takes for the name of a function key. */
  predicate FuncKey(input: string) {
    |input| > 1 && input[0] == '#' && forall i :: 1 <= i < |input| ==> '0' <= input[i] <= '9'
  }

  function Mapping(p: (string, string), stype: SeqType): Entry {
    Entry("", p.0, if p.1 == "" then None else Some(p.1), stype, stype != Abbrev && FuncKey(p.0), true, false)
  }

  /** A number sign and digits name a function key to map, and nothing else does; abbreviations have none. */
  lemma {:induction false} FunctionKeys(d: string, input: string, output: string, stype: SeqType)
    requires d != "" && forall i :: 0 <= i < |d| ==> '0' <= d[i] <= '9'
    ensures Mapping(("#" + d, output), stype).funcMap <==> stype != Abbrev
    ensures |input| < 2 || input[0] != '#' ==> !Mapping((input, output), stype).funcMap
    ensures (exists i :: 0 < i < |input| && !('0' <= input[i] <= '9')) ==> !Mapping((input, output), stype).funcMap
  {
    var n := "#" + d;
    assert forall i :: 1 <= i < |n| ==> n[i] == d[i - 1];
  }

  /** The map commands of a file as operations on a table, the latest first. */
  function Sourced(ps: seq<(string, string)>, stype: SeqType, onto: seq<Op>): seq<Op> {
    if ps == [] then onto
    else [Set(Mapping(ps[|ps| - 1], stype), false)] + Sourced(ps[..|ps| - 1], stype, onto)
  }

  lemma {:induction false} SourcedInputs(ps: seq<(string, string)>, stype: SeqType, onto: seq<Op>)
    requires Inputs(onto) && forall p :: p in ps ==> p.0 != ""
    ensures Inputs(Sourced(ps, stype, onto))
  {
    if ps != [] {
      SourcedInputs(ps[..|ps| - 1], stype, onto);
      assert ps[|ps| - 1] in ps;
    }
  }

  ghost predicate DistinctKeys(ps: seq<(string, string)>, stype: SeqType) {
    forall i, j :: 0 <= i < j < |ps| && ps[i].0 == ps[j].0 ==> Mapping(ps[i], stype).funcMap
  }

  /** Reading distinct mappings binds each one, whatever its keys were bound to, and no other keys. */
  lemma {:induction false} SourcedSays(ps: seq<(string, string)>, stype: SeqType, onto: seq<Op>, p: (string, string))
    requires DistinctKeys(ps, stype) && !Mapping(p, stype).funcMap
    ensures p in ps ==> var v := Says(Sourced(ps, stype, onto), p.0, stype);
                        v.Some? && v.value.output == Mapping(p, stype).output
    ensures (forall q :: q in ps ==> q.0 != p.0) ==>
              Says(Sourced(ps, stype, onto), p.0, stype) == Says(onto, p.0, stype)
  {
    if ps != [] {
      hide FuncKey, Says, Sourced;
      var last, init := ps[|ps| - 1], ps[..|ps| - 1];
      assert ps == init + [last];
      SourcedSays(init, stype, onto, p);
      SourcedStep(ps, stype, onto, p.0);
      if last.0 == p.0 {
        assert forall q :: q in init ==> q.0 != p.0;
        assert p in ps ==> p == last;
      }
    }
  }

  lemma {:induction false} SourcedStep(ps: seq<(string, string)>, stype: SeqType, onto: seq<Op>, keys: string)
    requires ps != []
    ensures var last, before := ps[|ps| - 1], Says(Sourced(ps[..|ps| - 1], stype, onto), keys, stype);
            var v := Says(Sourced(ps, stype, onto), keys, stype);
            && (last.0 != keys ==> v == before)
            && (last.0 == keys && !Mapping(last, stype).funcMap ==> v.Some? && v.value.output == Mapping(last, stype).output)
  {
    hide FuncKey;
    assert Sourced(ps, stype, onto)[1..] == Sourced(ps[..|ps| - 1], stype, onto);
  }

  lemma {:induction false} PairsAre(es: seq<Entry>, stype: SeqType)
    ensures forall e :: e in es && Saved(e, stype) ==> (e.input, OutputOf(e)) in Pairs(es, stype)
    ensures forall p :: p in Pairs(es, stype) ==>
              exists e :: e in es && Saved(e, stype) && p == (e.input, OutputOf(e))
  {
    if es != [] {
      PairsAre(es[1..], stype);
      assert es == [es[0]] + es[1..];
    }
  }

  /** A user's entries are function keys exactly when their names say so. */
  ghost predicate Named(es: seq<Entry>, stype: SeqType) {
    forall e :: e in es && Saved(e, stype) ==> (e.funcMap <==> stype != Abbrev && FuncKey(e.input))
  }

  lemma {:induction false} PairsDistinct(es: seq<Entry>, stype: SeqType)
    requires Ordered(es) && Named(es, stype)
    ensures DistinctKeys(Pairs(es, stype), stype)
  {
    hide Ordered;
    if es != [] {
      var tail := es[1..];
      TailOrdered(es);
      assert Named(tail, stype);
      PairsDistinct(tail, stype);
      if Saved(es[0], stype) {
        HeadDistinct(es, stype);
        FrontDistinct((es[0].input, OutputOf(es[0])), Pairs(tail, stype), stype);
      }
    }
  }

  lemma {:induction false} HeadDistinct(es: seq<Entry>, stype: SeqType)
    requires Ordered(es) && Named(es, stype) && es != [] && Saved(es[0], stype)
    ensures forall q :: q in Pairs(es[1..], stype) && q.0 == es[0].input ==>
              Mapping((es[0].input, OutputOf(es[0])), stype).funcMap
  {
    hide Ordered;
    var tail := es[1..];
    PairsAre(tail, stype);
    assert es[0] in es;
    forall q | q in Pairs(tail, stype) && q.0 == es[0].input
      ensures Mapping((es[0].input, OutputOf(es[0])), stype).funcMap
    {
      var e :| e in tail && Saved(e, stype) && q == (e.input, OutputOf(e));
      assert e in es;
      if !e.funcMap && !es[0].funcMap { HeadDiffers(es, e); }
    }
  }

  lemma {:induction false} FrontDistinct(p: (string, string), ps: seq<(string, string)>, stype: SeqType)
    requires DistinctKeys(ps, stype)
    requires forall q :: q in ps && q.0 == p.0 ==> Mapping(p, stype).funcMap
    ensures DistinctKeys([p] + ps, stype)
  {
    var s := [p] + ps;
    assert forall k :: 1 <= k < |s| ==> s[k] == ps[k - 1] && s[k] in ps;
  }

  lemma {:induction false} TailOrdered(es: seq<Entry>)
    requires Ordered(es) && es != []
    ensures Ordered(es[1..])
  {
    hide Less;
    assert forall k :: 0 <= k < |es[1..]| ==> es[1..][k] == es[k + 1];
  }

  lemma {:induction false} HeadDiffers(es: seq<Entry>, e: Entry)
    requires Ordered(es) && es != [] && e in es[1..] && e.stype == es[0].stype && !es[0].funcMap && !e.funcMap
    ensures e.input != es[0].input
  {
    var k :| 0 <= k < |es[1..]| && es[1..][k] == e;
    assert es[k + 1] == e;
    assert Less(es[0].input, es[k + 1].input);
    DiffZero(e.input, e.input);
  }

  lemma {:induction false} UserKeyMapped(es: seq<Entry>, stype: SeqType, keys: string)
    requires Ordered(es) && AllSurvive(es, stype) && Named(es, stype)
    requires var v := Bound(es, keys, stype); v.Some? && v.value.userDef
    ensures exists p :: p in Pairs(es, stype) && p.0 == keys && !Mapping(p, stype).funcMap
              && Mapping(p, stype).output == Bound(es, keys, stype).value.output
  {
    hide Ordered, Position, Less, Pairs;
    BoundMeans(es, keys, stype);
    BoundLive(es, keys, stype);
    PairsAre(es, stype);
    var e := Bound(es, keys, stype).value;
    assert Survives(OutputOf(e));
    var p := (e.input, OutputOf(e));
    assert p in Pairs(es, stype);
  }

  lemma {:induction false} BoundLive(es: seq<Entry>, keys: string, stype: SeqType)
    ensures var v := Bound(es, keys, stype); v.Some? ==> Live(v.value, stype) && v.value.input == keys
  {
  }

  lemma {:induction false} OtherKeyUnmapped(es: seq<Entry>, stype: SeqType, keys: string)
    requires Ordered(es) && Named(es, stype)
    requires stype == Abbrev || !FuncKey(keys)
    requires var v := Bound(es, keys, stype); v.None? || !v.value.userDef
    ensures forall q :: q in Pairs(es, stype) ==> q.0 != keys
  {
    hide Ordered, Position, Less, Pairs;
    BoundMeans(es, keys, stype);
    PairsAre(es, stype);
    forall q | q in Pairs(es, stype) ensures q.0 != keys {
      var e :| e in es && Saved(e, stype) && q == (e.input, OutputOf(e));
    }
  }

  /** The calls of seq_set: by the user, where names of function keys are flagged, and by the screen,
      which overwrites nothing. */
  predicate UserSet(op: Op) {
    op.Set? && op.e.userDef && !op.e.screen && !op.noOverwrite
    && (op.e.funcMap <==> op.e.stype != Abbrev && FuncKey(op.e.input))
  }

  predicate ScreenSet(op: Op) {
    op.Set? && op.e.screen && !op.e.userDef && op.noOverwrite && !op.e.funcMap
  }

  ghost predicate Made(ops: seq<Op>) {
    forall op :: op in ops && op.Set? ==> op.e.input != "" && (UserSet(op) || ScreenSet(op))
  }

  /** The keys' entry was entered by the user, however its output was replaced since. */
  ghost predicate EnteredByUser(ops: seq<Op>, keys: string, stype: SeqType) {
    ops != [] &&
    var before := Says(ops[1..], keys, stype);
    match ops[0]
    case Set(e, _) =>
      if e.input == keys && e.stype == stype && before.None? then UserSet(ops[0])
      else EnteredByUser(ops[1..], keys, stype)
    case Unset(k, st) => !(k == keys && st == stype) && EnteredByUser(ops[1..], keys, stype)
    case TermEnd => EnteredByUser(ops[1..], keys, stype)
  }

  ghost predicate EntriesNamed(es: seq<Entry>) {
    forall e :: e in es ==>
      (e.userDef <==> !e.screen) && (e.userDef ==> (e.funcMap <==> e.stype != Abbrev && FuncKey(e.input)))
  }

  /** Over every run each entry is the user's or the screen's. */
  lemma {:induction false} RunNamed(ops: seq<Op>)
    requires Made(ops)
    ensures EntriesNamed(Run(ops))
  {
    if ops != [] {
      hide Ordered, Place, Position, FuncKey;
      var es := Run(ops[1..]);
      assert Made(ops[1..]) by { assert forall op :: op in ops[1..] ==> op in ops; }
      RunNamed(ops[1..]);
      assert ops[0] in ops;
      match ops[0]
      case Set(e, noOverwrite) =>
        var p := Position(es, e.input, e.stype);
        if p < |es| {
          ReplacedMembers(es, p, es[p].(output := Replacement(e.output)));
        } else {
          InsertedMembers(es, Place(es, e.input, e.stype), e);
        }
      case Unset(keys, stype) =>
        var p := Position(es, keys, stype);
        if p < |es| { DroppedMembers(es, p); }
      case TermEnd => WithoutScreenMembers(es);
    }
  }

  /** The user's flag says who entered the keys. */
  lemma {:induction false} UserFlag(ops: seq<Op>, keys: string, stype: SeqType)
    requires Made(ops) && (stype == Abbrev || !FuncKey(keys))
    ensures var v := Says(ops, keys, stype);
            && (EnteredByUser(ops, keys, stype) <==> v.Some? && v.value.userDef)
            && (v.Some? ==> (v.value.userDef <==> !v.value.screen))
  {
    if ops != [] {
      hide FuncKey;
      assert Made(ops[1..]) by { assert forall op :: op in ops[1..] ==> op in ops; }
      UserFlag(ops[1..], keys, stype);
      assert ops[0] in ops;
    }
  }

  /** Saving the maps of one type and reading the file into any table binds every key whose entry the
      user entered to the same output, and leaves every other key as it was there. */
  lemma {:induction false} SavedTableRestored(ops: seq<Op>, onto: seq<Op>, prefix: string, stype: SeqType, keys: string)
    requires Made(ops) && Inputs(onto) && AllSurvive(Run(ops), stype)
    requires stype == Abbrev || !FuncKey(keys)
    ensures var ps := Pairs(Run(ops), stype);
            var after := Bound(Run(Sourced(ps, stype, onto)), keys, stype);
            && ReadAll(SavedText(Run(ops), prefix, stype), prefix) == Somes(ps)
            && if EnteredByUser(ops, keys, stype)
               then Says(ops, keys, stype).Some? && after.Some? && after.value.output == Says(ops, keys, stype).value.output
               else after == Says(onto, keys, stype)
  {
    hide Ordered, Survives, Run, Bound, Pairs, Sourced, Says, ReadAll, SavedText, Somes, FuncKey, Mapping, Entered,
         EnteredByUser, UserSet, ScreenSet;
    var es, v := Run(ops), Says(ops, keys, stype);
    TableIsMap(ops);
    RunNamed(ops);
    UserFlag(ops, keys, stype);
    OrderedKeyed(es, stype);
    FileRoundTrip(es, prefix, stype);
    var ps := Pairs(es, stype);
    PairsInputs(es, stype);
    PairsDistinct(es, stype);
    SourcedInputs(ps, stype, onto);
    TableIsMap(Sourced(ps, stype, onto));
    if v.Some? && v.value.userDef {
      UserKeyMapped(es, stype, keys);
      var p :| p in ps && p.0 == keys && !Mapping(p, stype).funcMap && Mapping(p, stype).output == v.value.output;
      SourcedSays(ps, stype, onto, p);
    } else {
      OtherKeyUnmapped(es, stype, keys);
      NotFunc(keys, stype);
      SourcedSays(ps, stype, onto, (keys, ""));
    }
  }

  /** What the user has just mapped is saved, and read back into an empty table, exactly when the keys
      were not the screen's already. */
  lemma {:induction false} UserMapSavedExactly(ops: seq<Op>, e: Entry)
    requires var all := [Set(e, false)] + ops;
             Made(all) && UserSet(all[0]) && !e.funcMap && AllSurvive(Run(all), e.stype)
    ensures var all, before := [Set(e, false)] + ops, Says(ops, e.input, e.stype);
            var after := Bound(Run(Sourced(Pairs(Run(all), e.stype), e.stype, [])), e.input, e.stype);
            && Bound(Run(all), e.input, e.stype).Some?
            && (after.Some? && after.value.output == Bound(Run(all), e.input, e.stype).value.output <==>
                before.None? || !before.value.screen)
  {
    hide Ordered, Survives, Run, Bound, Pairs, Sourced, FuncKey, Mapping, Entered;
    var all := [Set(e, false)] + ops;
    assert all[1..] == ops;
    TableIsMap(all);
    assert Made(ops) by { assert forall op :: op in ops ==> op in all; }
    UserFlag(ops, e.input, e.stype);
    UserFlag(all, e.input, e.stype);
    SavedTableRestored(all, [], "", e.stype, e.input);
  }

  /** And when they were: a :map of a key that the terminal description had mapped is in force, but it is
      not saved, and it is gone when the screen ends. */
  lemma {:induction false} PremappedKeyLost(s: Entry, e: Entry, prefix: string)
    requires ScreenSet(Set(s, true)) && UserSet(Set(e, false)) && s.input == e.input != "" && s.stype == e.stype
    ensures var ops := [Set(e, false), Set(s, true)];
            && Bound(Run(ops), e.input, e.stype) == Some(s.(output := Replacement(e.output)))
            && SavedText(Run(ops), prefix, e.stype) == ""
            && Run([TermEnd] + ops) == []
  {
    hide FuncKey;
    var ops, now := [Set(e, false), Set(s, true)], s.(output := Replacement(e.output));
    assert ops[1..] == [Set(s, true)] && [Set(s, true)][1..] == [] && ([TermEnd] + ops)[1..] == ops;
    assert Run([Set(s, true)]) == [s];
    assert Run(ops) == [now];
    assert Position([now], e.input, e.stype) == 0;
    assert [now][1..] == [] && SavedText([], prefix, e.stype) == "" && WithoutScreen([]) == [];
  }

  lemma {:induction false} PairsInputs(es: seq<Entry>, stype: SeqType)
    requires Ordered(es)
    ensures forall p :: p in Pairs(es, stype) ==> p.0 != ""
  {
    PairsAre(es, stype);
  }

  lemma {:induction false} NotFunc(keys: string, stype: SeqType)
    requires stype == Abbrev || !FuncKey(keys)
    ensures !Mapping((keys, ""), stype).funcMap
  {
  }

  // ----- the code: the printer's loops ----------------------------------------------------------------

  method PutIn(fp0: string, input: string) returns (fp: string)
    ensures fp == fp0 + QuoteIn(input)
  {
    fp := fp0;
    var p := 0;
    while p < |input|
      invariant 0 <= p <= |input|
      invariant fp + QuoteIn(input[p..]) == fp0 + QuoteIn(input)
    {
      var ch := input[p];
      assert input[p..][1..] == input[p + 1..];
      Assoc(fp, InChar(ch), QuoteIn(input[p + 1..]));
      if ch == CH_LITERAL || ch == '|' || IsBlank(ch) || ch == '\n' {
        fp := fp + [CH_LITERAL, ch];
      } else {
        fp := fp + [ch];
      }
      p := p + 1;
    }
    EmptyEnds(fp);
  }

  method PutOut(fp0: string, output: string) returns (fp: string)
    ensures fp == fp0 + QuoteOut(output)
  {
    fp := fp0;
    var p := 0;
    while p < |output|
      invariant 0 <= p <= |output|
      invariant fp + QuoteOut(output[p..]) == fp0 + QuoteOut(output)
    {
      var ch := output[p];
      assert output[p..][1..] == output[p + 1..];
      Assoc(fp, OutChar(ch), QuoteOut(output[p + 1..]));
      if ch == CH_LITERAL || ch == '|' || ch == '\n' {
        fp := fp + [CH_LITERAL, ch];
      } else {
        fp := fp + [ch];
      }
      p := p + 1;
    }
    EmptyEnds(fp);
  }

  /** seq_save; a missing prefix is an empty one. */
  method SeqSave(seqq: seq<Entry>, prefix: string, stype: SeqType) returns (fp: string)
    ensures fp == SavedText(seqq, prefix, stype)
  {
    hide QuoteIn, QuoteOut;
    fp := "";
    var i := 0;
    while i < |seqq|
      invariant 0 <= i <= |seqq|
      invariant fp + SavedText(seqq[i..], prefix, stype) == SavedText(seqq, prefix, stype)
    {
      var qp := seqq[i];
      SavedStep(seqq, i, fp, prefix, stype);
      i := i + 1;
      if stype != qp.stype || !qp.userDef { continue; }
      ghost var before := fp;
      fp := fp + prefix;
      fp := PutIn(fp, qp.input);
      fp := fp + " ";
      if qp.output.Some? { fp := PutOut(fp, qp.output.value); } else { NothingPut(fp); }
      fp := fp + "\n";
      Regroup(before, prefix, QuoteIn(qp.input), QuoteOut(OutputOf(qp)));
    }
    EmptyEnds(fp);
  }

  lemma {:induction false} NothingPut(fp: string)
    ensures fp == fp + QuoteOut("")
  {
    EmptyEnds(fp);
  }

  lemma {:induction false} Regroup(fp: string, prefix: string, a: string, b: string)
    ensures (((fp + prefix) + a) + " ") + b + "\n" == fp + (prefix + (a + " " + b + "\n"))
  {
  }

  lemma {:induction false} SavedStep(es: seq<Entry>, i: nat, fp: string, prefix: string, stype: SeqType)
    requires i < |es|
    ensures fp + SavedText(es[i..], prefix, stype) ==
            (if Saved(es[i], stype) then fp + (prefix + EntryText(es[i].input, OutputOf(es[i]))) else fp)
            + SavedText(es[i + 1..], prefix, stype)
  {
    hide EntryText;
    assert es[i..][1..] == es[i + 1..];
    if Saved(es[i], stype) {
      Assoc(fp, prefix + EntryText(es[i].input, OutputOf(es[i])), SavedText(es[i + 1..], prefix, stype));
    } else {
      EmptyEnds(SavedText(es[i + 1..], prefix, stype));
    }
  }

  // ----- the code: the parser's loops, which compact the text in place ----------------------------------

  /** The text from slot from up to end is still s. */
  ghost predicate Holds(buf: array<char>, from: nat, s: string)
    reads buf
  {
    from + |s| <= buf.Length && buf[from..from + |s|] == s
  }

  lemma {:induction false} Grown(before: string, c: char, a: string)
    ensures (before + [c]) + a == before + ([c] + a)
  {
  }

  lemma {:induction false} DelimitedStep(r: string)
    requires r != ""
    ensures if r[0] == CH_LITERAL && |r| > 1 && Ends(r[1]) then
              Delimited(r).0 == [r[1]] + Delimited(r[2..]).0 && Delimited(r).1 == Delimited(r[2..]).1
            else if Ends(r[0]) then Delimited(r).0 == "" && Delimited(r).1 == r[1..]
            else Delimited(r).0 == [r[0]] + Delimited(r[1..]).0 && Delimited(r).1 == Delimited(r[1..]).1
  {
  }

  lemma {:induction false} DelimitedEmpty()
    ensures Delimited("").0 == "" && Delimited("").1 == ""
  {
  }

  lemma {:induction false} HoldsFirst(buf: array<char>, from: nat, s: string)
    requires Holds(buf, from, s)
    ensures from + |s| <= buf.Length
    ensures forall i :: 0 <= i < |s| ==> buf[from + i] == s[i]
  {
  }

  /** Nothing outside from lo up to hi is written. */
  twostate predicate Within(buf: array<char>, lo: nat, hi: nat)
    reads buf
  {
    forall i :: 0 <= i < buf.Length && !(lo <= i < hi) ==> buf[i] == old(buf[i])
  }

  /** *p++ = ch, at or before the place being read. */
  method Keep(buf: array<char>, start: nat, ghost out: string, ch: char, from: nat, ghost rest: string, p: nat)
    requires Holds(buf, start, out) && Holds(buf, from, rest) && p == start + |out| && p < from
    modifies buf
    ensures Holds(buf, start, out + [ch]) && Holds(buf, from, rest) && Within(buf, p, p + 1)
  {
    assert p < buf.Length;
    buf[p] := ch;
    assert buf[start..p] == out;
  }

  lemma {:induction false} HoldsBehind(buf: array<char>, from: nat, s: string, k: nat)
    requires Holds(buf, from, s) && k <= |s|
    ensures Holds(buf, from + k, s[k..])
  {
  }

  /** One turn of the delimiter loop: the end of the command, or a character of it and how much text
      it stands for. */
  method NextChar(buf: array<char>, cp: nat, left: nat, ghost rest: string) returns (stop: bool, ch: char, used: nat)
    requires Holds(buf, cp, rest) && |rest| == left > 0
    ensures 1 <= used <= 2 && used <= left
    ensures if stop then Delimited(rest).0 == "" && Delimited(rest).1 == rest[1..]
            else Delimited(rest).0 == [ch] + Delimited(rest[used..]).0 && Delimited(rest).1 == Delimited(rest[used..]).1
  {
    hide Delimited;
    HoldsFirst(buf, cp, rest);
    DelimitedStep(rest);
    stop, used := false, 1;
    ch := buf[cp];
    if ch == CH_LITERAL && left > 1 {
      var tmp := buf[cp + 1];
      assert tmp == rest[1];
      if tmp == '\n' || tmp == '|' { ch, used := tmp, 2; }
    } else if ch == '\n' || ch == '|' {
      stop := true;
    }
  }

  /** The delimiter loop: the command is left at the front, without the ^V's before delimiters, and the
      next command is where it was. */
  method Delimit(buf: array<char>, start: nat, length: nat) returns (clen: nat, saveCmd: nat, saveLen: nat)
    requires start + length <= buf.Length
    modifies buf
    ensures Holds(buf, start, Delimited(old(buf[start..start + length])).0)
    ensures clen == |Delimited(old(buf[start..start + length])).0|
    ensures saveLen == |Delimited(old(buf[start..start + length])).1|
    ensures saveLen > 0 ==> Holds(buf, saveCmd, Delimited(old(buf[start..start + length])).1)
    ensures start + clen <= saveCmd && (saveLen > 0 ==> saveCmd + saveLen == start + length)
    ensures clen <= length && Within(buf, start, start + length)
  {
    hide Delimited, Holds;
    ghost var t := buf[start..start + length];
    StartsHeld(buf, start, length);
    ghost var out, rest := "", t;
    EmptyEnds(Delimited(t).0);
    var p, cp, left, discard := start, start, length, 0;
    while left > 0
      invariant p + discard == cp && cp + left == start + length
      invariant Holds(buf, start, out) && |out| == p - start
      invariant Holds(buf, cp, rest) && |rest| == left
      invariant Within(buf, start, start + length)
      invariant Delimited(t).0 == out + Delimited(rest).0 && Delimited(t).1 == Delimited(rest).1
      decreases left
    {
      var stop, ch, used := NextChar(buf, cp, left, rest);
      if stop { break; }
      HoldsBehind(buf, cp, rest, used);
      Grown(out, ch, Delimited(rest[used..]).0);
      Keep(buf, start, out, ch, cp + used, rest[used..], p);
      out, rest := out + [ch], rest[used..];
      p, cp, left, discard := p + 1, cp + used, left - used, discard + used - 1;
    }
    EmptyEnds(out);
    DelimitedEmpty();
    if left > 0 { HoldsBehind(buf, cp, rest, 1); }
    saveCmd := cp + 1;
    saveLen := if left > 0 then left - 1 else 0;
    var len := saveCmd - start;
    clen := if len > 1 + discard then len - 1 - discard else 0;
  }

  lemma {:induction false} StartsHeld(buf: array<char>, start: nat, length: nat)
    requires start + length <= buf.Length
    ensures Holds(buf, start, "") && Holds(buf, start, buf[start..start + length])
  {
  }

  // ----- the code: the 'W' parse -----------------------------------------------------------------------

  method SkipBlank(buf: array<char>, from: nat, length: nat, ghost t: string) returns (cp: nat, clen: nat)
    requires Holds(buf, from, t) && |t| == length
    ensures Holds(buf, cp, SkipBlanks(t)) && clen == |SkipBlanks(t)|
    ensures from <= cp && cp + clen == from + length
  {
    hide Holds;
    cp, clen := from, length;
    ghost var rest := t;
    while clen > 0
      invariant Holds(buf, cp, rest) && |rest| == clen && SkipBlanks(rest) == SkipBlanks(t)
      invariant from <= cp && cp + clen == from + length
      decreases clen
    {
      HoldsFirst(buf, cp, rest);
      if !IsBlank(buf[cp]) { break; }
      HoldsBehind(buf, cp, rest, 1);
      rest := rest[1..];
      cp, clen := cp + 1, clen - 1;
    }
  }

  lemma {:induction false} WordStep(r: string)
    requires r != ""
    ensures if r[0] == CH_LITERAL && |r| > 1 then Word(r).0 == [r[1]] + Word(r[2..]).0 && Word(r).1 == Word(r[2..]).1
            else if IsBlank(r[0]) then Word(r).0 == "" && Word(r).1 == r[1..]
            else Word(r).0 == [r[0]] + Word(r[1..]).0 && Word(r).1 == Word(r[1..]).1
    ensures Word("").0 == "" && Word("").1 == ""
  {
  }

  /** The first word, compacted where it stands; n is its length. */
  method TakeWord(buf: array<char>, from: nat, length: nat, ghost t: string) returns (n: nat, cp: nat, clen: nat)
    requires Holds(buf, from, t) && |t| == length
    modifies buf
    ensures Holds(buf, from, Word(t).0) && n == |Word(t).0|
    ensures Holds(buf, cp, Word(t).1) && clen == |Word(t).1|
    ensures from <= cp && cp + clen == from + length && Within(buf, from, from + length)
  {
    hide Word, Holds;
    var p := from;
    cp, clen := from, length;
    ghost var w, rest := "", t;
    EmptyHeld(buf, from, t);
    EmptyEnds(Word(t).0);
    WordStep([' ']);
    while clen > 0
      invariant from <= p <= cp && Holds(buf, from, w) && |w| == p - from
      invariant Holds(buf, cp, rest) && |rest| == clen
      invariant cp + clen == from + length && Within(buf, from, from + length)
      invariant Word(t).0 == w + Word(rest).0 && Word(t).1 == Word(rest).1
      decreases clen
    {
      HoldsFirst(buf, cp, rest);
      WordStep(rest);
      var ch, used := buf[cp], 1;
      if ch == CH_LITERAL && clen > 1 {
        ch, used := buf[cp + 1], 2;
        assert ch == rest[1];
      } else if IsBlank(ch) {
        HoldsBehind(buf, cp, rest, 1);
        cp, clen := cp + 1, clen - 1;
        EmptyEnds(w);
        n := p - from;
        return;
      }
      HoldsBehind(buf, cp, rest, used);
      Grown(w, ch, Word(rest[used..]).0);
      Keep(buf, from, w, ch, cp + used, rest[used..], p);
      w, rest := w + [ch], rest[used..];
      p, cp, clen := p + 1, cp + used, clen - used;
    }
    EmptyEnds(w);
    n := p - from;
  }

  lemma {:induction false} EmptyHeld(buf: array<char>, from: nat, t: string)
    requires Holds(buf, from, t)
    ensures Holds(buf, from, "")
  {
  }

  lemma {:induction false} UnquotedStep(r: string)
    requires r != ""
    ensures if r[0] == CH_LITERAL && |r| > 1 then Unquoted(r) == [r[1]] + Unquoted(r[2..])
            else Unquoted(r) == [r[0]] + Unquoted(r[1..])
    ensures Unquoted("") == ""
  {
  }

  /** The string that follows, compacted where it stands. */
  method TakeString(buf: array<char>, from: nat, length: nat, ghost t: string) returns (n: nat)
    requires Holds(buf, from, t) && |t| == length
    modifies buf
    ensures Holds(buf, from, Unquoted(t)) && n == |Unquoted(t)|
    ensures Within(buf, from, from + length)
  {
    hide Unquoted, Holds;
    var p, cp, clen := from, from, length;
    ghost var w, rest := "", t;
    EmptyHeld(buf, from, t);
    EmptyEnds(Unquoted(t));
    UnquotedStep([' ']);
    while clen > 0
      invariant from <= p <= cp && Holds(buf, from, w) && |w| == p - from
      invariant Holds(buf, cp, rest) && |rest| == clen
      invariant cp + clen == from + length && Within(buf, from, from + length)
      invariant Unquoted(t) == w + Unquoted(rest)
      decreases clen
    {
      HoldsFirst(buf, cp, rest);
      UnquotedStep(rest);
      var ch, used := buf[cp], 1;
      if ch == CH_LITERAL && clen > 1 {
        ch, used := buf[cp + 1], 2;
        assert ch == rest[1];
      }
      HoldsBehind(buf, cp, rest, used);
      Grown(w, ch, Unquoted(rest[used..]));
      Keep(buf, from, w, ch, cp + used, rest[used..], p);
      w, rest := w + [ch], rest[used..];
      p, cp, clen := p + 1, cp + used, clen - used;
    }
    EmptyEnds(w);
    n := p - from;
  }

  /** argv_exp0: an argument is a copy of the text. */
  method Copy(buf: array<char>, from: nat, n: nat, ghost s: string) returns (arg: string)
    requires Holds(buf, from, s) && |s| == n
    ensures arg == s
  {
    arg := buf[from..from + n];
  }

  /** The 'W' case of the argument parse; the arguments are copies of the compacted text. */
  method ParseWords(buf: array<char>, from: nat, length: nat) returns (args: Option<(string, string)>)
    requires from + length <= buf.Length
    modifies buf
    ensures args == Parsed(old(buf[from..from + length]))
    ensures Within(buf, from, from + length)
  {
    hide Word, Unquoted, SkipBlanks, Holds;
    ghost var cmd := buf[from..from + length];
    StartsHeld(buf, from, length);
    var cp, clen := SkipBlank(buf, from, length, cmd);
    if clen == 0 { return None; }
    ghost var t := SkipBlanks(cmd);
    var n, next, left := TakeWord(buf, cp, clen, t);
    var word := Copy(buf, cp, n, Word(t).0);
    var s, len := SkipBlank(buf, next, left, Word(t).1);
    if len == 0 { return None; }
    var m := TakeString(buf, s, len, SkipBlanks(Word(t).1));
    var rest := Copy(buf, s, m, Unquoted(SkipBlanks(Word(t).1)));
    return Some((word, rest));
  }

  /** The argument parse with more text behind the command. */
  method ReadWords(buf: array<char>, from: nat, length: nat, next: nat, ghost rest: string)
    returns (args: Option<(string, string)>)
    requires from + length <= next && from + length <= buf.Length && (rest != "" ==> Holds(buf, next, rest))
    modifies buf
    ensures args == Parsed(old(buf[from..from + length]))
    ensures (rest != "" ==> Holds(buf, next, rest)) && Within(buf, from, from + length)
  {
    hide Parsed;
    args := ParseWords(buf, from, length);
  }

  /** One command of a saved file, through both parses; the text that follows is still there. */
  method ReadCommand(buf: array<char>, start: nat, length: nat)
    returns (args: Option<(string, string)>, next: nat, left: nat)
    requires start + length <= buf.Length
    modifies buf
    ensures args == Read(old(buf[start..start + length])).0
    ensures left == |Read(old(buf[start..start + length])).1|
    ensures left > 0 ==> next + left == start + length && Holds(buf, next, Read(old(buf[start..start + length])).1)
    ensures Within(buf, start, start + length)
  {
    hide Delimited, Parsed, Holds;
    ghost var t := buf[start..start + length];
    var clen: nat;
    clen, next, left := Delimit(buf, start, length);
    HoldsText(buf, start, Delimited(t).0);
    args := ReadWords(buf, start, clen, next, if left > 0 then Delimited(t).1 else "");
  }

  lemma {:induction false} HoldsText(buf: array<char>, from: nat, s: string)
    requires Holds(buf, from, s)
    ensures from + |s| <= buf.Length && buf[from..from + |s|] == s
  {
  }

  /** A whole saved file, command by command, in the one buffer the parses write in. */
  method ReadFile(buf: array<char>, length: nat, prefix: string) returns (cmds: seq<Option<(string, string)>>)
    requires length <= buf.Length
    modifies buf
    ensures cmds == ReadAll(old(buf[..length]), prefix)
  {
    hide Read, Holds, Within, ReadAll;
    ghost var t := buf[..length];
    NothingToRead(prefix);
    StartsHeld(buf, 0, length);
    cmds := [];
    var cp: nat, left: nat := 0, length;
    ghost var rest := t;
    assert buf[0..0 + length] == t;
    while left > 0
      invariant |rest| == left && (left > 0 ==> Holds(buf, cp, rest))
      invariant cmds + ReadAll(rest, prefix) == ReadAll(t, prefix)
      decreases left
    {
      HoldsText(buf, cp, rest);
      if |prefix| >= left || buf[cp..cp + |prefix|] != prefix {
        NotACommand(rest, prefix, buf[cp..cp + left]);
        cmds := cmds + [None];
        return;
      }
      HoldsBehind(buf, cp, rest, |prefix|);
      HoldsText(buf, cp + |prefix|, rest[|prefix|..]);
      assert prefix <= rest;
      ACommand(rest, prefix);
      var args;
      ghost var before, tail := cmds, rest[|prefix|..];
      args, cp, left := ReadCommand(buf, cp + |prefix|, left - |prefix|);
      cmds := cmds + [args];
      rest := Read(tail).1;
      assert (before + [args]) + ReadAll(rest, prefix) == before + ([args] + ReadAll(rest, prefix));
    }
  }

  lemma {:induction false} NothingToRead(prefix: string)
    ensures ReadAll("", prefix) == []
  {
  }

  lemma {:induction false} NotACommand(rest: string, prefix: string, same: string)
    requires rest != "" && rest == same && (|prefix| >= |rest| || same[..|prefix|] != prefix)
    ensures ReadAll(rest, prefix) == [None]
  {
  }

  lemma {:induction false} ACommand(rest: string, prefix: string)
    requires prefix <= rest && |prefix| < |rest|
    ensures ReadAll(rest, prefix) == [Read(rest[|prefix|..]).0] + ReadAll(Read(rest[|prefix|..]).1, prefix)
    ensures |Read(rest[|prefix|..]).1| < |rest|
  {
    hide Parsed;
  }
}
