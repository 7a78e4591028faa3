/** Whatever is parsed has been written: the parser accepts nothing but the language. */
module ShellSound {
  import opened ShellSpec
  import opened ShellForms
  import opened ShellRoundTrip

  // ----- Tokens -----

  lemma {:induction false} ItemsJoin(a: seq<Item>, b: seq<Item>)
    ensures ItemsToks(a + b) == ItemsToks(a) + ItemsToks(b) && ArgsOf(a + b) == ArgsOf(a) + ArgsOf(b)
    ensures RedsOf(a + b) == RedsOf(a) + RedsOf(b) && CountArgs(a + b) == CountArgs(a) + CountArgs(b)
  {
    hide ItemsToks, ArgsOf, RedsOf, CountArgs, ItemToks, ArgOf, RedsAt;
    if a == [] {
      NoItems();
      assert a + b == b;
    } else {
      assert (a + b)[1..] == a[1..] + b;
      ItemsFirst(a);
      ItemsFirst(a + b);
      ItemsJoin(a[1..], b);
    }
  }

  lemma ItemsCons(x: Item, items: seq<Item>)
    ensures ItemsToks([x] + items) == ItemToks(x) + ItemsToks(items)
    ensures ArgsOf([x] + items) == ArgOf(x) + ArgsOf(items) && RedsOf([x] + items) == RedsAt(x) + RedsOf(items)
    ensures CountArgs([x] + items) == |ArgOf(x)| + CountArgs(items)
  {
    ItemsFirst([x] + items);
    assert ([x] + items)[1..] == items;
  }

  lemma {:induction false} NoArgs(items: seq<Item>)
    requires forall i :: 0 <= i < |items| ==> IsInto(items[i])
    ensures ArgsOf(items) == [] && CountArgs(items) == 0
  {
    if items != [] {
      NoArgs(items[1..]);
    }
  }

  lemma {:induction false} RedsSound(acc: seq<Red<string>>, toks: seq<Tok>) returns (items: seq<Item>)
    requires TakeRedirs(acc, toks).Ok?
    ensures forall i :: 0 <= i < |items| ==> IsInto(items[i])
    ensures var r := TakeRedirs(acc, toks); toks == ItemsToks(items) + r.rest && r.value == acc + RedsOf(items)
    decreases |toks|
  {
    hide ItemsToks, RedsOf, ArgsOf;
    if !Next(toks, "<>+") {
      items := [];
      NoItems();
    } else {
      var x := Into(toks[0].c, toks[1].text);
      var more := RedsSound(acc + [RedOf(x)], toks[2..]);
      items := [x] + more;
      ItemsCons(x, more);
      assert toks == ItemToks(x) + toks[2..];
      Associate(ItemToks(x), ItemsToks(more), TakeRedirs(acc, toks).rest);
      Associate(acc, [RedOf(x)], RedsOf(more));
    }
  }

  lemma {:induction false} ArgsSound(args: seq<string>, reds: seq<Red<string>>, toks: seq<Tok>)
    returns (items: seq<Item>)
    requires TakeArgs(args, reds, toks).Ok? && |args| < MAXARGS
    ensures Proper(items) && |args| + CountArgs(items) < MAXARGS
    ensures var r := TakeArgs(args, reds, toks);
            toks == ItemsToks(items) + r.rest && r.value == Wrap(Exec(args + ArgsOf(items)), reds + RedsOf(items))
    decreases |toks|
  {
    hide Wrap, TakeRedirs, ItemsToks, ArgsOf, RedsOf, CountArgs, IsInto;
    if toks == [] || Next(toks, "|)&;") {
      items := [];
      NoItems();
      assert args + ArgsOf(items) == args && reds + RedsOf(items) == reds;
    } else {
      var w := toks[0].text;
      var r := TakeRedirs(reds, toks[1..]);
      var first := RedsSound(reds, toks[1..]);
      var rest := ArgsSound(args + [w], r.value, r.rest);
      items := [Arg(w)] + (first + rest);
      ItemsCons(Arg(w), first + rest);
      ItemsJoin(first, rest);
      NoArgs(first);
      assert toks == [Word(w)] + toks[1..];
      ArgsSoundStep(args, reds, w, first, rest, items);
      Associate(ItemsToks(first), ItemsToks(rest), TakeArgs(args, reds, toks).rest);
      Associate([Word(w)], ItemsToks(first) + ItemsToks(rest), TakeArgs(args, reds, toks).rest);
    }
  }

  lemma ArgsSoundStep(args: seq<string>, reds: seq<Red<string>>, w: string, first: seq<Item>, rest: seq<Item>,
                      items: seq<Item>)
    requires ArgsOf(items) == [w] + ArgsOf(rest) && RedsOf(items) == RedsOf(first) + RedsOf(rest)
    ensures args + ArgsOf(items) == args + [w] + ArgsOf(rest)
    ensures reds + RedsOf(items) == reds + RedsOf(first) + RedsOf(rest)
  {
    hide ArgsOf, RedsOf;
  }

  ghost predicate Came(f: Form, level: nat, toks: seq<Tok>, r: Parsed<Cmd<string>>) {
    r.Ok? && Written(f, level) && toks == Toks(f) + r.rest && r.value == Meaning(f)
  }

  lemma SimpleSound(toks: seq<Tok>) returns (f: Form)
    requires !Next(toks, "(") && ParseExec(toks).Ok?
    ensures Came(f, 3, toks, ParseExec(toks))
  {
    hide Wrap, TakeRedirs, TakeArgs, Apply, ItemsToks, ArgsOf, RedsOf, CountArgs, IsInto, ParseBlock;
    var r := TakeRedirs([], toks);
    var first := RedsSound([], toks);
    var rest := ArgsSound([], r.value, r.rest);
    var items := first + rest;
    ItemsJoin(first, rest);
    NoArgs(first);
    ApplyIsWrap([], [], items);
    NoWrap<string>(Exec([]));
    assert [] + ArgsOf(items) == [] + ArgsOf(rest);
    assert [] + RedsOf(items) == [] + RedsOf(first) + RedsOf(rest);
    f := Simple(items);
  }

  lemma BlockSound(toks: seq<Tok>, line: Form) returns (f: Form)
    requires Next(toks, "(") && ParseExec(toks).Ok? && Came(line, 0, toks[1..], ParseLine(toks[1..]))
    ensures Came(f, 3, toks, ParseExec(toks))
  {
    hide Wrap, TakeRedirs, TakeArgs, Apply, ParseLine, ItemsToks, RedsOf, ArgsOf;
    var p := ParseLine(toks[1..]);
    var items := RedsSound([], p.rest[1..]);
    f := Block(line, items);
    ApplyRedirs(Meaning(line), [], items);
    NoWrap(Meaning(line));
    assert [] + RedsOf(items) == RedsOf(items);
    assert toks == [Sym('(')] + toks[1..] && p.rest == [Sym(')')] + p.rest[1..];
  }

  lemma {:induction false} ExecSound(toks: seq<Tok>) returns (f: Form)
    requires ParseExec(toks).Ok?
    ensures Came(f, 3, toks, ParseExec(toks))
    decreases |toks|, 0
  {
    hide TakeRedirs, TakeArgs, ParseLine, Came;
    if Next(toks, "(") {
      var line := LineSound(toks[1..]);
      f := BlockSound(toks, line);
    } else {
      f := SimpleSound(toks);
    }
  }

  lemma {:induction false} PipeSound(toks: seq<Tok>) returns (f: Form)
    requires ParsePipe(toks).Ok?
    ensures Came(f, 2, toks, ParsePipe(toks))
    decreases |toks|, 1
  {
    hide ParseExec, Toks, Written;
    var g := ExecSound(toks);
    var left := ParseExec(toks);
    LowerIsWritten(g, 3, 2);
    f := g;
    if Next(left.rest, "|") {
      var right := PipeSound(left.rest[1..]);
      PairToks(g, right);
      assert left.rest == [Sym('|')] + left.rest[1..];
      f := Piped(g, right);
    }
  }

  lemma {:induction false} AmpsSound(f: Form, toks: seq<Tok>) returns (g: Form)
    requires Written(f, 1)
    ensures var (c, rest) := Amps(Meaning(f), toks);
            Written(g, 1) && Toks(f) + toks == Toks(g) + rest && Meaning(g) == c
    decreases |toks|
  {
    if Next(toks, "&") {
      g := AmpsSound(Backed(f), toks[1..]);
      assert toks == [Sym('&')] + toks[1..];
      assert Toks(f) + toks == Toks(Backed(f)) + toks[1..];
    } else {
      g := f;
    }
  }

  lemma {:induction false} LineSound(toks: seq<Tok>) returns (f: Form)
    requires ParseLine(toks).Ok?
    ensures Came(f, 0, toks, ParseLine(toks))
    decreases |toks|, 2
  {
    hide ParsePipe, Amps, Toks, Written;
    var first := PipeSound(toks);
    var p := ParsePipe(toks);
    LowerIsWritten(first, 2, 1);
    var g := AmpsSound(first, p.rest);
    LowerIsWritten(g, 1, 0);
    f := g;
    var (c, rest) := Amps(p.value, p.rest);
    if Next(rest, ";") {
      var line := LineSound(rest[1..]);
      PairToks(g, line);
      assert rest == [Sym(';')] + rest[1..];
      f := Listed(g, line);
    }
  }

  lemma PairToks(f: Form, g: Form)
    ensures Toks(Piped(f, g)) == Toks(f) + [Sym('|')] + Toks(g) && Toks(Listed(f, g)) == Toks(f) + [Sym(';')] + Toks(g)
    ensures Written(f, 3) && Written(g, 2) ==> Written(Piped(f, g), 2)
    ensures Written(f, 1) && Written(g, 0) ==> Written(Listed(f, g), 0)
  {
  }

  lemma LowerIsWritten(f: Form, level: nat, lower: nat)
    requires Written(f, level) && lower <= level
    ensures Written(f, lower)
  {
  }

  // ----- Text -----

  ghost predicate NoNul(s: string) {
    forall i :: 0 <= i < |s| ==> s[i] != '\0'
  }

  /** One more blank in front. */
  lemma SpellBlank(b: char, toks: seq<Tok>, gaps: seq<string>)
    requires Blank(b) && Apart(toks, gaps)
    ensures var g := [[b] + gaps[0]] + gaps[1..]; Apart(toks, g) && Spell(toks, g) == [b] + Spell(toks, gaps)
  {
    hide Separate;
    var g := [[b] + gaps[0]] + gaps[1..];
    assert Blanks(gaps[0]) && Blanks(g[0]);
    forall i | 0 <= i < |g| ensures Blanks(g[i]) {
      assert i > 0 ==> g[i] == gaps[i];
    }
    assert g[1..] == gaps[1..];
  }

  /** One more token in front. */
  lemma SpellTok(t: Tok, toks: seq<Tok>, gaps: seq<string>)
    requires Apart(toks, gaps) && (toks != [] && gaps[0] == "" ==> Separate(t, toks[0]))
    ensures var g := [""] + gaps; Apart([t] + toks, g) && Spell([t] + toks, g) == Show(t) + Spell(toks, gaps)
  {
    hide Separate;
    var g, ts := [""] + gaps, [t] + toks;
    forall i | 0 < i < |ts| && g[i] == "" ensures Separate(ts[i - 1], ts[i]) {
      if i == 1 {
        assert ts[1] == toks[0] && g[1] == gaps[0];
      } else {
        assert gaps[i - 1] == "";
      }
    }
    assert g[1..] == gaps && ts[1..] == toks;
  }

  /** Without a gap, the first token starts with the first character. */
  lemma StartsWith(toks: seq<Tok>, gaps: seq<string>)
    requires Apart(toks, gaps) && AllLegal(toks) && toks != [] && gaps[0] == ""
    ensures Spell(toks, gaps) != ""
    ensures toks[0].Word? ==> Plain(Spell(toks, gaps)[0])
    ensures toks[0] == Sym('>') || toks[0] == Sym('+') ==> Spell(toks, gaps)[0] == '>'
  {
    assert LegalTok(toks[0]);
    ShowStarts(toks[0]);
    if toks[0].Word? {
      CharKinds(toks[0].text[0]);
    }
  }

  /** How long the first token is, or 1 for a blank. */
  function Taken(s: string): nat
    requires s != ""
  {
    if Whitespace(s[0]) then 1
    else if s[0] == '>' && |s| > 1 && s[1] == '>' then 2
    else if Symbol(s[0]) then 1
    else WordLen(s)
  }

  function FirstTok(s: string): Tok
    requires s != ""
  {
    if s[0] == '>' && |s| > 1 && s[1] == '>' then Sym('+')
    else if Symbol(s[0]) then Sym(s[0])
    else Word(s[..WordLen(s)])
  }

  lemma WordIsLegal(s: string)
    requires WordLen(s) > 0
    ensures LegalWord(s[..WordLen(s)])
  {
    forall i | 0 <= i < WordLen(s) ensures s[i] != '\0' && !Blank(s[i]) && !Special(s[i]) {
      CharKinds(s[i]);
    }
  }

  /** The first token of s, n characters long, and what follows it. */
  ghost predicate StartsTok(s: string, t: Tok, n: nat)
  {
    && 0 < n <= |s| && Lex(s) == [t] + Lex(s[n..]) && Show(t) == s[..n] && LegalTok(t)
    && (t.Word? && n < |s| ==> !Plain(s[n])) && (t == Sym('>') && n < |s| ==> s[n] != '>')
  }

  lemma SymbolStarts(s: string)
    requires s != "" && Symbol(s[0]) && !(s[0] == '>' && |s| > 1 && s[1] == '>')
    ensures StartsTok(s, Sym(s[0]), 1)
  {
    hide Lex, Whitespace, Symbol, Blank, Special;
    CharKinds(s[0]);
    PlusIsArrow();
    NotPlus(s[0]);
    LexHead(s);
  }

  lemma ArrowStarts(s: string)
    requires |s| > 1 && s[0] == '>' && s[1] == '>'
    ensures StartsTok(s, Sym('+'), 2)
  {
    hide Lex, Whitespace, Symbol, Blank, Special;
    CharKinds(s[0]);
    PlusIsArrow();
    LexHead(s);
  }

  lemma WordStarts(s: string)
    requires s != "" && s[0] != '\0' && !Whitespace(s[0]) && !Symbol(s[0])
    ensures StartsTok(s, Word(s[..WordLen(s)]), WordLen(s))
  {
    hide Lex, LegalWord, Whitespace, Symbol, Blank, Special;
    LexHead(s);
    WordIsLegal(s);
  }

  lemma TakenIsFirst(s: string)
    requires s != "" && s[0] != '\0'
    ensures 0 < Taken(s) <= |s|
    ensures Whitespace(s[0]) ==> Taken(s) == 1 && Lex(s) == Lex(s[1..]) && Blank(s[0])
    ensures !Whitespace(s[0]) ==> StartsTok(s, FirstTok(s), Taken(s))
  {
    hide Lex, StartsTok, Blank, Special;
    CharKinds(s[0]);
    PlusIsArrow();
    if Whitespace(s[0]) {
      LexSkips(s);
    } else if s[0] == '>' && |s| > 1 && s[1] == '>' {
      ArrowStarts(s);
    } else if Symbol(s[0]) {
      SymbolStarts(s);
    } else {
      WordStarts(s);
      LexHead(s);
    }
  }

  lemma NotPlus(c: char)
    requires Special(c)
    ensures c != '+'
  {
  }

  /** Every line is its tokens with some blanks. */
  lemma {:induction false} LexIsSpelled(s: string) returns (gaps: seq<string>)
    requires NoNul(s)
    ensures AllLegal(Lex(s)) && Apart(Lex(s), gaps) && s == Spell(Lex(s), gaps)
    decreases |s|
  {
    hide Taken, FirstTok, LegalTok, Show, Plain, Separate;
    if s == "" {
      gaps := [""];
    } else {
      TakenIsFirst(s);
      var n := Taken(s);
      var rest := s[n..];
      var more := LexIsSpelled(rest);
      if Whitespace(s[0]) {
        SpellBlank(s[0], Lex(rest), more);
        gaps := [[s[0]] + more[0]] + more[1..];
        assert s == [s[0]] + rest;
      } else {
        KeepsApart(s, Lex(rest), more);
        SpellTok(FirstTok(s), Lex(rest), more);
        gaps := [""] + more;
        assert s == s[..n] + rest;
      }
    }
  }

  lemma KeepsApart(s: string, toks: seq<Tok>, gaps: seq<string>)
    requires s != "" && s[0] != '\0' && !Whitespace(s[0]) && 0 < Taken(s) <= |s|
    requires Apart(toks, gaps) && AllLegal(toks) && s[Taken(s)..] == Spell(toks, gaps)
    ensures toks != [] && gaps[0] == "" ==> Separate(FirstTok(s), toks[0])
  {
    hide Taken, FirstTok, Lex, Plain;
    TakenIsFirst(s);
    if toks != [] && gaps[0] == "" {
      StartsWith(toks, gaps);
      assert s[Taken(s)] == Spell(toks, gaps)[0];
    }
  }

  /** What the parser makes of a line has been written there. */
  lemma ParsedIsWritten(s: string, c: Cmd<string>) returns (f: Form)
    requires NoNul(s) && ParseTokens(Lex(s + "\0")) == Ok(c, [])
    ensures Writes(s, f) && Meaning(f) == c
  {
    hide Lex, ParseLine, Toks, Spell, Written, Meaning, Separate, LegalTok;
    LexTerminated(s);
    f := LineSound(Lex(s));
    var gaps := LexIsSpelled(s);
    assert Lex(s) == Toks(f) + [] == Toks(f);
  }

  /** The parser accepts exactly the lines that write a command, and the command is what they mean, whichever
      way they are read. */
  lemma ParserIsLanguage(s: string, c: Cmd<string>)
    requires NoNul(s)
    ensures ParseTokens(Lex(s + "\0")) == Ok(c, []) <==> exists f :: Writes(s, f) && Meaning(f) == c
    ensures ParseTokens(Lex(s + "\0")).Ok? <==> IsCommandLine(s)
  {
    hide Writes, Lex, Meaning;
    if ParseTokens(Lex(s + "\0")).Ok? {
      var f := ParsedIsWritten(s, ParseTokens(Lex(s + "\0")).value);
    }
    forall f | Writes(s, f) ensures ParseTokens(Lex(s + "\0")) == Ok(Meaning(f), []) {
      WrittenParses(s, f);
    }
  }
}
