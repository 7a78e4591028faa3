/** Whatever is written is parsed as what it means. */
module ShellRoundTrip {
  import opened ShellSpec
  import opened ShellForms

  /** What may follow a simple command. */
  ghost predicate Stop(rest: seq<Tok>) {
    rest == [] || Next(rest, "|)&;")
  }

  // ----- Simple commands -----

  function ArgOf(x: Item): (r: seq<string>)
    ensures |r| == if x.Arg? then 1 else 0
  {
    if x.Arg? then [x.word] else []
  }

  function ArgsOf(items: seq<Item>): (r: seq<string>)
    ensures |r| == CountArgs(items)
  {
    if items == [] then [] else ArgOf(items[0]) + ArgsOf(items[1..])
  }

  function RedOf(x: Item): Red<string>
    requires x.Into?
  {
    Red(x.sym != '<', x.file)
  }

  function RedsAt(x: Item): seq<Red<string>> {
    if x.Into? then [RedOf(x)] else []
  }

  function RedsOf(items: seq<Item>): seq<Red<string>> {
    if items == [] then [] else RedsAt(items[0]) + RedsOf(items[1..])
  }

  lemma NoItems()
    ensures ItemsToks([]) == [] && ArgsOf([]) == [] && RedsOf([]) == [] && CountArgs([]) == 0
  {
  }

  lemma Associate<T>(a: seq<T>, b: seq<T>, c: seq<T>)
    ensures a + b + c == a + (b + c)
  {
  }

  lemma ItemsFirst(items: seq<Item>)
    requires items != []
    ensures ItemsToks(items) == ItemToks(items[0]) + ItemsToks(items[1..])
    ensures ArgsOf(items) == ArgOf(items[0]) + ArgsOf(items[1..])
    ensures RedsOf(items) == RedsAt(items[0]) + RedsOf(items[1..])
    ensures CountArgs(items) == |ArgOf(items[0])| + CountArgs(items[1..])
  {
  }

  ghost predicate Proper(items: seq<Item>) {
    forall i :: 0 <= i < |items| ==> items[i].Arg? || IsInto(items[i])
  }

  lemma {:induction false} AddArgInside(args: seq<string>, reds: seq<Red<string>>, w: string)
    ensures AddArg(Wrap(Exec(args), reds), w) == Wrap(Exec(args + [w]), reds)
  {
    if reds != [] {
      AddArgInside(args, reds[..|reds| - 1], w);
    }
  }

  lemma WrapMore<W>(c: Cmd<W>, reds: seq<Red<W>>, red: Red<W>)
    ensures Wrap(c, reds + [red]) == Redir(Wrap(c, reds), red)
  {
    assert (reds + [red])[..|reds|] == reds;
  }

  /** The pieces of a simple command act as its words and its redirections do, each in their order. */
  lemma {:induction false} ApplyIsWrap(args: seq<string>, reds: seq<Red<string>>, items: seq<Item>)
    requires Proper(items)
    ensures Apply(Wrap(Exec(args), reds), items) == Wrap(Exec(args + ArgsOf(items)), reds + RedsOf(items))
    decreases |items|
  {
    hide Wrap, AddArg, ArgsOf, RedsOf, ItemsToks;
    if items == [] {
      NoItems();
      assert args + [] == args && reds + [] == reds;
    } else {
      ItemsFirst(items);
      ApplyStep(args, reds, items);
      ApplyIsWrap(args + ArgOf(items[0]), reds + RedsAt(items[0]), items[1..]);
      Associate(args, ArgOf(items[0]), ArgsOf(items[1..]));
      Associate(reds, RedsAt(items[0]), RedsOf(items[1..]));
    }
  }

  lemma ApplyStep(args: seq<string>, reds: seq<Red<string>>, items: seq<Item>)
    requires items != [] && Proper(items)
    ensures Apply(Wrap(Exec(args), reds), items)
            == Apply(Wrap(Exec(args + ArgOf(items[0])), reds + RedsAt(items[0])), items[1..])
  {
    hide Wrap, AddArg;
    if items[0].Arg? {
      AddArgInside(args, reds, items[0].word);
      assert reds + RedsAt(items[0]) == reds;
    } else {
      WrapMore(Exec(args), reds, RedOf(items[0]));
      assert args + ArgOf(items[0]) == args;
    }
  }

  lemma {:induction false} ApplyRedirs(c: Cmd<string>, reds: seq<Red<string>>, items: seq<Item>)
    requires forall i :: 0 <= i < |items| ==> IsInto(items[i])
    ensures Apply(Wrap(c, reds), items) == Wrap(c, reds + RedsOf(items))
    decreases |items|
  {
    hide Wrap, AddArg;
    if items == [] {
      assert reds + RedsOf(items) == reds;
    } else {
      var red := RedOf(items[0]);
      WrapMore(c, reds, red);
      ApplyRedirs(c, reds + [red], items[1..]);
      assert reds + RedsOf(items) == reds + [red] + RedsOf(items[1..]);
    }
  }

  /** Words and redirections are taken in any order. */
  lemma {:induction false} ItemsTaken(done: seq<string>, reds: seq<Red<string>>, items: seq<Item>, rest: seq<Tok>)
    requires Proper(items) && |done| + CountArgs(items) < MAXARGS && Stop(rest)
    ensures var r := TakeRedirs(reds, ItemsToks(items) + rest);
            r.Ok? && TakeArgs(done, r.value, r.rest)
                     == Ok(Wrap(Exec(done + ArgsOf(items)), reds + RedsOf(items)), rest)
    decreases |items|
  {
    hide Wrap, TakeRedirs, TakeArgs, ArgsOf, RedsOf, ItemsToks, CountArgs;
    if items == [] {
      NoItems();
      assert [] + rest == rest && done + [] == done && reds + [] == reds;
      ItemsStop(done, reds, rest);
    } else {
      ItemsFirst(items);
      var tail := ItemsToks(items[1..]) + rest;
      ItemsTaken(done + ArgOf(items[0]), reds + RedsAt(items[0]), items[1..], rest);
      Associate(ItemToks(items[0]), ItemsToks(items[1..]), rest);
      Associate(done, ArgOf(items[0]), ArgsOf(items[1..]));
      Associate(reds, RedsAt(items[0]), RedsOf(items[1..]));
      if items[0].Arg? {
        assert reds + RedsAt(items[0]) == reds;
        WordTaken(done, reds, items[0].word, tail);
      } else {
        assert done + ArgOf(items[0]) == done;
        RedTaken(reds, items[0], tail);
      }
    }
  }

  lemma ItemsStop(args: seq<string>, reds: seq<Red<string>>, rest: seq<Tok>)
    requires Stop(rest)
    ensures TakeRedirs(reds, rest) == Ok(reds, rest) && TakeArgs(args, reds, rest) == Ok(Wrap(Exec(args), reds), rest)
  {
  }

  lemma WordTaken(done: seq<string>, reds: seq<Red<string>>, w: string, tail: seq<Tok>)
    requires |done| + 1 < MAXARGS
    ensures var toks := [Word(w)] + tail; var r := TakeRedirs(reds, tail);
            && TakeRedirs(reds, toks) == Ok(reds, toks)
            && (r.Ok? ==> TakeArgs(done, reds, toks) == TakeArgs(done + [w], r.value, r.rest))
  {
    assert ([Word(w)] + tail)[1..] == tail;
  }

  lemma RedTaken(reds: seq<Red<string>>, x: Item, rest: seq<Tok>)
    requires IsInto(x)
    ensures TakeRedirs(reds, [Sym(x.sym), Word(x.file)] + rest) == TakeRedirs(reds + [RedOf(x)], rest)
  {
    var toks := [Sym(x.sym), Word(x.file)] + rest;
    assert toks[2..] == rest;
  }

  lemma {:induction false} RedsTaken(acc: seq<Red<string>>, items: seq<Item>, rest: seq<Tok>)
    requires !Next(rest, "<>+") && forall i :: 0 <= i < |items| ==> IsInto(items[i])
    ensures TakeRedirs(acc, ItemsToks(items) + rest) == Ok(acc + RedsOf(items), rest)
    decreases |items|
  {
    hide TakeRedirs, Next;
    var toks := ItemsToks(items) + rest;
    if items == [] {
      assert toks == rest && acc + RedsOf(items) == acc;
      NoRedirs(acc, rest);
    } else {
      var red := RedOf(items[0]);
      assert toks == [Sym(items[0].sym), Word(items[0].file)] + (ItemsToks(items[1..]) + rest);
      RedTaken(acc, items[0], ItemsToks(items[1..]) + rest);
      RedsTaken(acc + [red], items[1..], rest);
      assert acc + RedsOf(items) == acc + [red] + RedsOf(items[1..]);
    }
  }

  lemma NoRedirs(acc: seq<Red<string>>, rest: seq<Tok>)
    requires !Next(rest, "<>+")
    ensures TakeRedirs(acc, rest) == Ok(acc, rest)
  {
  }

  // ----- Commands -----

  lemma SimpleParses(items: seq<Item>, rest: seq<Tok>)
    requires Written(Simple(items), 3) && Stop(rest)
    ensures ParseExec(ItemsToks(items) + rest) == Ok(Meaning(Simple(items)), rest)
  {
    hide TakeRedirs, TakeArgs, ParseBlock, Apply, Wrap;
    var toks := ItemsToks(items) + rest;
    ItemsTaken([], [], items, rest);
    ApplyIsWrap([], [], items);
    NoWrap<string>(Exec([]));
    assert [] + ArgsOf(items) == ArgsOf(items) && [] + RedsOf(items) == RedsOf(items);
    assert !Next(toks, "(") by {
      if items != [] {
        assert toks[0] == ItemToks(items[0])[0];
      } else {
        assert toks == rest;
      }
    }
  }

  lemma NoWrap<W>(c: Cmd<W>)
    ensures Wrap(c, []) == c
  {
  }

  /** ( line ) and redirections */
  lemma BlockParses(line: Form, items: seq<Item>, rest: seq<Tok>)
    requires !Next(rest, "<>+") && forall i :: 0 <= i < |items| ==> IsInto(items[i])
    requires ParseLine(Toks(line) + ([Sym(')')] + ItemsToks(items) + rest))
             == Ok(Meaning(line), [Sym(')')] + ItemsToks(items) + rest)
    ensures ParseExec(Toks(Block(line, items)) + rest) == Ok(Meaning(Block(line, items)), rest)
  {
    hide ParseLine, ParsePipe, TakeArgs, Wrap, Apply, ItemsToks, TakeRedirs;
    var toks := Toks(Block(line, items)) + rest;
    var tail := [Sym(')')] + ItemsToks(items) + rest;
    assert toks[1..] == Toks(line) + tail;
    assert tail[1..] == ItemsToks(items) + rest;
    RedsTaken([], items, rest);
    assert [] + RedsOf(items) == RedsOf(items);
    ApplyRedirs(Meaning(line), [], items);
    NoWrap(Meaning(line));
  }

  /** What may follow a command of this level. */
  ghost predicate Follows(rest: seq<Tok>, level: nat)
    requires level <= 3
  {
    rest == [] || Next(rest, if level == 0 then ")" else if level <= 2 then ")&;" else "|)&;")
  }

  lemma CommandEnds(rest: seq<Tok>, level: nat)
    requires level <= 3 && Follows(rest, level)
    ensures Stop(rest) && !Next(rest, "<>+")
    ensures level == 0 ==> !Next(rest, "&") && !Next(rest, ";") && Follows(rest, 1)
    ensures level <= 2 ==> !Next(rest, "|") && Follows(rest, 3)
    ensures level == 1 ==> Follows(rest, 2)
  {
  }

  lemma SymbolEnds(c: char, rest: seq<Tok>)
    requires c in "|&;)"
    ensures var toks := [Sym(c)] + rest;
            && toks[1..] == rest && Next(toks, [c])
            && (c == ')' ==> Follows(toks, 0)) && (c == '&' || c == ';' ==> Follows(toks, 1)) && Follows(toks, 3)
            && (c == ';' ==> !Next(toks, "&"))
  {
  }

  lemma {:induction false} LineParses(f: Form, rest: seq<Tok>)
    requires Written(f, 0) && Follows(rest, 0)
    ensures ParseLine(Toks(f) + rest) == Ok(Meaning(f), rest)
    decreases f, 3
  {
    hide ParsePipe, ParseExec, ParseBlock, TakeArgs, TakeRedirs, Apply, ItemsToks, Next, Follows, Stop, IsInto,
         CountArgs;
    CommandEnds(rest, 0);
    if f.Listed? {
      var tail := [Sym(';')] + (Toks(f.right) + rest);
      assert Toks(f) + rest == Toks(f.left) + tail;
      SymbolEnds(';', Toks(f.right) + rest);
      BackParses(f.left, tail);
      assert Amps(Meaning(f.left), tail) == (Meaning(f.left), tail);
      LineParses(f.right, rest);
    } else {
      BackParses(f, rest);
      assert Amps(Meaning(f), rest) == (Meaning(f), rest);
    }
  }

  lemma {:induction false} BackParses(f: Form, rest: seq<Tok>)
    requires Written(f, 1) && Follows(rest, 1)
    ensures var r := ParsePipe(Toks(f) + rest); r.Ok? && Amps(r.value, r.rest) == Amps(Meaning(f), rest)
    decreases f, 2
  {
    hide ParsePipe, ParseExec, ParseBlock, ParseLine, TakeArgs, TakeRedirs, Apply, ItemsToks, Next, Follows, Stop,
         IsInto, CountArgs;
    CommandEnds(rest, 1);
    if f.Backed? {
      var tail := [Sym('&')] + rest;
      assert Toks(f) + rest == Toks(f.form) + tail;
      SymbolEnds('&', rest);
      BackParses(f.form, tail);
    } else {
      PipeParses(f, rest);
    }
  }

  lemma {:induction false} PipeParses(f: Form, rest: seq<Tok>)
    requires Written(f, 2) && Follows(rest, 2)
    ensures ParsePipe(Toks(f) + rest) == Ok(Meaning(f), rest)
    decreases f, 1
  {
    hide ParseExec, ParseBlock, ParseLine, TakeArgs, TakeRedirs, Apply, ItemsToks, Amps, Next, Follows, Stop, IsInto,
         CountArgs;
    CommandEnds(rest, 2);
    if f.Piped? {
      var tail := [Sym('|')] + (Toks(f.right) + rest);
      assert Toks(f) + rest == Toks(f.left) + tail;
      SymbolEnds('|', Toks(f.right) + rest);
      ExecParses(f.left, tail);
      PipeParses(f.right, rest);
    } else {
      ExecParses(f, rest);
    }
  }

  lemma {:induction false} ExecParses(f: Form, rest: seq<Tok>)
    requires Written(f, 3) && Follows(rest, 3)
    ensures ParseExec(Toks(f) + rest) == Ok(Meaning(f), rest)
    decreases f, 0
  {
    hide ParsePipe, ParseExec, ParseBlock, ParseLine, TakeArgs, TakeRedirs, Amps, Apply, ItemsToks, Next, IsInto,
         CountArgs, Follows, Stop;
    CommandEnds(rest, 3);
    match f
    case Simple(items) => SimpleParses(items, rest);
    case Block(line, items) =>
      var tail := [Sym(')')] + ItemsToks(items) + rest;
      assert tail == [Sym(')')] + (ItemsToks(items) + rest);
      SymbolEnds(')', ItemsToks(items) + rest);
      LineParses(line, tail);
      BlockParses(line, items, rest);
  }

  // ----- Tokens as text -----

  lemma CharKinds(c: char)
    ensures Whitespace(c) <==> Blank(c)
    ensures Symbol(c) <==> Special(c)
    ensures Plain(c) <==> c != '\0' && !Blank(c) && !Special(c)
    ensures !(Blank(c) && Special(c))
  {
  }

  lemma {:induction false} LexBlanks(gap: string, rest: string)
    requires Blanks(gap)
    ensures Lex(gap + rest) == Lex(rest)
  {
    hide Lex;
    if gap == "" {
      assert gap + rest == rest;
    } else {
      CharKinds(gap[0]);
      LexSkips(gap + rest);
      assert (gap + rest)[1..] == gap[1..] + rest;
      LexBlanks(gap[1..], rest);
    }
  }

  lemma {:induction false} WordEnds(w: string, rest: string)
    requires (forall i :: 0 <= i < |w| ==> Plain(w[i])) && (rest == "" || !Plain(rest[0]))
    ensures WordLen(w + rest) == |w|
  {
    var s := w + rest;
    if w == "" {
      assert s == rest;
    } else {
      assert s[1..] == w[1..] + rest;
      WordEnds(w[1..], rest);
    }
  }

  lemma LexSymbol(c: char, rest: string)
    requires (Special(c) || c == '+') && (c == '>' ==> rest == "" || rest[0] != '>')
    ensures Lex(Show(Sym(c)) + rest) == [Sym(c)] + Lex(rest)
  {
    hide WordLen, Lex, Blank, Special, Whitespace, Symbol;
    var s := Show(Sym(c)) + rest;
    CharKinds(s[0]);
    PlusIsArrow();
    LexHead(s);
    assert s[|Show(Sym(c))|..] == rest;
  }

  lemma PlusIsArrow()
    ensures Special('>') && !Blank('>') && !Special('+') && !Special('\0')
  {
  }

  lemma LexWord(w: string, rest: string)
    requires LegalWord(w) && (rest == "" || !Plain(rest[0]))
    ensures Lex(w + rest) == [Word(w)] + Lex(rest)
  {
    hide WordLen, Lex, Whitespace, Symbol, Blank, Special;
    var s := w + rest;
    forall i | 0 <= i < |w| ensures Plain(w[i]) {
      CharKinds(w[i]);
    }
    CharKinds(s[0]);
    assert s[0] == w[0];
    LexHead(s);
    WordEnds(w, rest);
    assert s[|w|..] == rest && s[..|w|] == w;
  }

  lemma ShowStarts(t: Tok)
    requires LegalTok(t)
    ensures Show(t) != ""
    ensures t.Sym? ==> !Plain(Show(t)[0]) && (Show(t)[0] == '>' <==> t == Sym('>') || t == Sym('+'))
    ensures t.Word? ==> Show(t)[0] != '>'
  {
  }

  /** What follows the first token leaves it as it is. */
  lemma SpellStarts(t: Tok, toks: seq<Tok>, gaps: seq<string>)
    requires AllLegal([t] + toks) && |gaps| == |toks| + 1 && Apart([t] + toks, [""] + gaps)
    ensures var s := Spell(toks, gaps);
            && (t.Word? ==> s == "" || !Plain(s[0]))
            && (t == Sym('>') ==> s == "" || s[0] != '>')
  {
    var s, ts, gs := Spell(toks, gaps), [t] + toks, [""] + gaps;
    assert gs[1] == gaps[0];
    assert Blanks(gaps[0]);
    if gaps[0] != "" {
      assert s[0] == gaps[0][0];
      CharKinds(s[0]);
    } else if toks != [] {
      assert Separate(ts[0], ts[1]) && ts[1] == toks[0];
      assert LegalTok(ts[1]);
      ShowStarts(toks[0]);
      assert s[0] == Show(toks[0])[0];
    }
  }

  lemma ApartTail(toks: seq<Tok>, gaps: seq<string>)
    requires toks != [] && AllLegal(toks) && Apart(toks, gaps)
    ensures AllLegal(toks[1..]) && Apart(toks[1..], gaps[1..]) && Blanks(gaps[0])
    ensures toks == [toks[0]] + toks[1..] && Apart([toks[0]] + toks[1..], [""] + gaps[1..])
  {
    hide LegalTok, Separate;
    var gs := [""] + gaps[1..];
    forall i | 0 < i < |toks| && gs[i] == "" ensures Separate(toks[i - 1], toks[i]) {
      assert gs[i] == gaps[i];
    }
    forall i | 0 < i < |toks[1..]| && gaps[1..][i] == "" ensures Separate(toks[1..][i - 1], toks[1..][i]) {
      assert gaps[i + 1] == "";
    }
  }

  /** The lexer finds the tokens however they are spaced. */
  lemma {:induction false} LexSpell(toks: seq<Tok>, gaps: seq<string>)
    requires AllLegal(toks) && Apart(toks, gaps)
    ensures Lex(Spell(toks, gaps)) == toks
    decreases |toks|
  {
    hide Lex, LegalWord, Blanks, Plain, Special, Separate;
    if toks == [] {
      NoToks(gaps);
    } else {
      ApartTail(toks, gaps);
      var t, rest := toks[0], Spell(toks[1..], gaps[1..]);
      LexSpell(toks[1..], gaps[1..]);
      assert Spell(toks, gaps) == gaps[0] + (Show(t) + rest);
      LexBlanks(gaps[0], Show(t) + rest);
      SpellStarts(t, toks[1..], gaps[1..]);
      assert LegalTok(t);
      match t
      case Sym(c) => LexSymbol(c, rest);
      case Word(w) => LexWord(w, rest);
    }
  }

  lemma NoToks(gaps: seq<string>)
    requires Apart([], gaps)
    ensures Lex(gaps[0]) == []
  {
    LexBlanks(gaps[0], "");
    assert gaps[0] + "" == gaps[0];
  }

  lemma {:induction false} WordLenTerminated(s: string)
    ensures WordLen(s + "\0") == WordLen(s)
  {
    if s != "" {
      assert (s + "\0")[1..] == s[1..] + "\0";
      WordLenTerminated(s[1..]);
    }
  }

  /** The terminating NUL is not part of the input. */
  lemma {:induction false} LexTerminated(s: string)
    ensures Lex(s + "\0") == Lex(s)
    decreases |s|
  {
    hide WordLen;
    var t := s + "\0";
    if s != "" && s[0] != '\0' {
      var n := if Whitespace(s[0]) then 1
               else if s[0] == '>' && |s| > 1 && s[1] == '>' then 2
               else if Symbol(s[0]) then 1
               else WordLen(s);
      WordLenTerminated(s);
      assert 0 < n <= |s| by { WordNotEmpty(s); }
      assert t[..n] == s[..n];
      assert t[n..] == s[n..] + "\0";
      LexTerminated(s[n..]);
    }
  }

  lemma WordNotEmpty(s: string)
    requires s != "" && s[0] != '\0'
    ensures !Whitespace(s[0]) && !Symbol(s[0]) ==> WordLen(s) > 0
  {
  }

  /** Every way to write a command, as a C string, is parsed as what it means. */
  lemma WrittenParses(s: string, f: Form)
    requires Writes(s, f)
    ensures ParseTokens(Lex(s + "\0")) == Ok(Meaning(f), [])
  {
    hide Lex, Spell, Toks, Written, ParseLine, AllLegal, Meaning, Blanks, Separate;
    var gaps: seq<string> :| Apart(Toks(f), gaps) && s == Spell(Toks(f), gaps);
    LexSpell(Toks(f), gaps);
    LexTerminated(s);
    LineParses(f, []);
    assert Toks(f) + [] == Toks(f);
  }

  // ----- The printer -----

  lemma {:induction false} ApplyMore(c: Cmd<string>, items: seq<Item>, x: Item)
    requires IsInto(x)
    ensures Apply(c, items + [x]) == Redir(Apply(c, items), Red(x.sym != '<', x.file))
    decreases |items|
  {
    if items == [] {
      assert items + [x] == [x] && [x][1..] == [];
    } else {
      assert (items + [x])[1..] == items[1..] + [x];
      match items[0]
      case Arg(w) => ApplyMore(AddArg(c, w), items[1..], x);
      case Into(sym, file) => ApplyMore(Redir(c, Red(sym == '>' || sym == '+', file)), items[1..], x);
    }
  }

  lemma {:induction false} ItemsMore(items: seq<Item>, x: Item)
    ensures ItemsToks(items + [x]) == ItemsToks(items) + ItemToks(x)
    ensures CountArgs(items + [x]) == CountArgs(items) + if x.Arg? then 1 else 0
  {
    if items == [] {
      assert items + [x] == [x] && [x][1..] == [];
      assert ItemsToks([x]) == ItemToks(x) + [] == ItemToks(x);
    } else {
      assert (items + [x])[1..] == items[1..] + [x];
      ItemsMore(items[1..], x);
    }
  }

  lemma {:induction false} ArgItemsMean(args: seq<string>)
    requires forall i :: 0 <= i < |args| ==> LegalWord(args[i])
    ensures CountArgs(ArgItems(args)) == |args| && AllLegal(ItemsToks(ArgItems(args)))
    ensures forall c: seq<string> :: Apply(Exec(c), ArgItems(args)) == Exec(c + args)
  {
    hide LegalWord;
    if args == [] {
      assert forall c: seq<string> :: c + args == c;
    } else {
      ArgItemsMean(args[1..]);
      assert ArgItems(args)[1..] == ArgItems(args[1..]);
      forall c: seq<string> ensures Apply(Exec(c), ArgItems(args)) == Exec(c + args) {
        assert c + [args[0]] + args[1..] == c + args;
      }
    }
  }

  /** What the printer writes may be written, and means the command. */
  ghost predicate Prints(f: Form, c: Cmd<string>, level: nat) {
    Written(f, level) && Meaning(f) == c && AllLegal(Toks(f))
  }

  lemma {:induction false} PlainlyPrints(c: Cmd<string>, level: nat)
    requires Legal(c) && level <= 3
    ensures Prints(Plainly(c, level), c, level)
    decreases c, 1
  {
    hide Prints, Legal;
    BarePrints(c);
    if level <= Level(c) {
      LowerLevel(Bare(c), c, level);
    } else {
      LowerLevel(Bare(c), c, 0);
      BlockPrints(Bare(c), c, level);
    }
  }

  lemma LowerLevel(f: Form, c: Cmd<string>, level: nat)
    requires level <= Level(c) && Prints(f, c, Level(c))
    ensures Prints(f, c, level)
  {
  }

  lemma BlockPrints(f: Form, c: Cmd<string>, level: nat)
    requires Prints(f, c, 0) && level <= 3
    ensures Prints(Block(f, []), c, level)
  {
    hide LegalWord;
    assert Toks(Block(f, [])) == [Sym('(')] + Toks(f) + [Sym(')')];
  }

  lemma RedirPrints(f: Form, c: Cmd<string>, red: Red<string>)
    requires Prints(f, c, 3) && LegalWord(red.file)
    ensures f.Simple? ==> Prints(Simple(f.items + [RedItem(red)]), Redir(c, red), 3)
    ensures f.Block? ==> Prints(Block(f.line, f.items + [RedItem(red)]), Redir(c, red), 3)
    ensures f.Simple? || f.Block?
  {
    hide LegalWord, Apply;
    var x := RedItem(red);
    if f.Simple? {
      ItemsMore(f.items, x);
      ApplyMore(Exec([]), f.items, x);
    } else if f.Block? {
      ItemsMore(f.items, x);
      ApplyMore(Meaning(f.line), f.items, x);
      assert Toks(Block(f.line, f.items + [x])) == Toks(f) + ItemToks(x);
    }
  }

  lemma {:induction false} BarePrints(c: Cmd<string>)
    requires Legal(c)
    ensures Prints(Bare(c), c, Level(c))
    decreases c, 0
  {
    hide LegalWord, Plainly, Apply, ItemsToks, CountArgs;
    match c
    case Exec(args) =>
      ArgItemsMean(args);
      assert [] + args == args;
    case Redir(x, red) =>
      PlainlyPrints(x, 3);
      RedirPrints(Plainly(x, 3), x, red);
    case Pipe(l, r) =>
      PlainlyPrints(l, 3);
      PlainlyPrints(r, 2);
    case List(l, r) =>
      PlainlyPrints(l, 1);
      PlainlyPrints(r, 0);
    case Back(x) =>
      PlainlyPrints(x, 1);
  }

  /** One blank behind every token. */
  function Spaces(n: nat): (r: seq<string>)
    ensures |r| == n + 1 && r[0] == "" && forall i :: 0 < i <= n ==> r[i] == " "
  {
    [""] + seq(n, _ => " ")
  }

  function Printed(c: Cmd<string>): string {
    var toks := Toks(Plainly(c, 0));
    Spell(toks, Spaces(|toks|))
  }

  /** Parsing the printed form of a command gives the command back. */
  lemma PrintedParses(c: Cmd<string>)
    requires Legal(c)
    ensures Writes(Printed(c), Plainly(c, 0)) && Meaning(Plainly(c, 0)) == c
    ensures ParseTokens(Lex(Printed(c) + "\0")) == Ok(c, [])
  {
    hide Lex, Spell, Toks, Written, Meaning, Plainly, ParseTokens, AllLegal, Separate;
    PlainlyPrints(c, 0);
    var f := Plainly(c, 0);
    assert Apart(Toks(f), Spaces(|Toks(f)|));
    WrittenParses(Printed(c), f);
  }

  /** What is written is a C string. */
  lemma {:induction false} SpellHasNoNul(toks: seq<Tok>, gaps: seq<string>)
    requires AllLegal(toks) && Apart(toks, gaps)
    ensures forall i :: 0 <= i < |Spell(toks, gaps)| ==> Spell(toks, gaps)[i] != '\0'
    decreases |toks|
  {
    hide Separate, Special;
    assert Blanks(gaps[0]);
    if toks != [] {
      assert LegalTok(toks[0]);
      ApartTail(toks, gaps);
      PlusIsArrow();
      SpellHasNoNul(toks[1..], gaps[1..]);
    }
  }
}
