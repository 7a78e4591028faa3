/** The shell's parser on its input buffer (sh.c). */
module Shell {
  import opened ShellSpec
  import opened ShellForms
  import opened ShellRoundTrip
  import opened ShellSound

  /** A string in the buffer: pointers to its first character and past its last. */
  datatype Span = Span(q: nat, eq: nat)

  datatype Result<T> = Got(value: T) | Panic(error: Error)

  /** A whole word of the buffer b. */
  ghost predicate IsWord(b: string, s: Span)
  {
    s.q < s.eq < |b| && (forall i :: s.q <= i < s.eq ==> Plain(b[i])) && !Plain(b[s.eq])
  }

  ghost function Slice(b: string, s: Span): string
  {
    if s.q <= s.eq <= |b| then b[s.q..s.eq] else ""
  }

  ghost function TextArgs(b: string, args: seq<Span>): (r: seq<string>)
    ensures |r| == |args| && forall i :: 0 <= i < |r| ==> r[i] == Slice(b, args[i])
  {
    seq(|args|, i requires 0 <= i < |args| => Slice(b, args[i]))
  }

  ghost function TextRed(b: string, red: Red<Span>): Red<string> {
    Red(red.out, Slice(b, red.file))
  }

  ghost function TextReds(b: string, reds: seq<Red<Span>>): (r: seq<Red<string>>)
    ensures |r| == |reds| && forall i :: 0 <= i < |r| ==> r[i] == TextRed(b, reds[i])
  {
    seq(|reds|, i requires 0 <= i < |reds| => TextRed(b, reds[i]))
  }

  ghost function Text(b: string, c: Cmd<Span>): Cmd<string>
  {
    match c
    case Exec(args) => Exec(TextArgs(b, args))
    case Redir(x, red) => Redir(Text(b, x), TextRed(b, red))
    case Pipe(l, r) => Pipe(Text(b, l), Text(b, r))
    case List(l, r) => List(Text(b, l), Text(b, r))
    case Back(x) => Back(Text(b, x))
  }

  /** Every string of c is a whole word of b. */
  ghost predicate WordsOf(b: string, c: Cmd<Span>)
  {
    match c
    case Exec(args) => forall i :: 0 <= i < |args| ==> IsWord(b, args[i])
    case Redir(x, red) => WordsOf(b, x) && IsWord(b, red.file)
    case Pipe(l, r) => WordsOf(b, l) && WordsOf(b, r)
    case List(l, r) => WordsOf(b, l) && WordsOf(b, r)
    case Back(x) => WordsOf(b, x)
  }

  ghost predicate RedWords(b: string, reds: seq<Red<Span>>)
  {
    forall i :: 0 <= i < |reds| ==> IsWord(b, reds[i].file)
  }

  lemma {:induction false} WrapText(b: string, c: Cmd<Span>, reds: seq<Red<Span>>)
    requires WordsOf(b, c) && RedWords(b, reds)
    ensures WordsOf(b, Wrap(c, reds)) && Text(b, Wrap(c, reds)) == Wrap(Text(b, c), TextReds(b, reds))
    decreases |reds|
  {
    hide IsWord, Slice;
    var texts := TextReds(b, reds);
    if reds == [] {
      assert texts == [];
    } else {
      WrapText(b, c, reds[..|reds| - 1]);
      assert texts[..|texts| - 1] == TextReds(b, reds[..|reds| - 1]);
    }
  }

  class Parser {
    /** The input line with its terminating NUL. */
    const buf: array<char>
    var ps: nat

    ghost predicate Valid()
      reads this, buf
    {
      && 0 < buf.Length && ps < buf.Length && buf[buf.Length - 1] == '\0'
      && forall i :: 0 <= i < buf.Length - 1 ==> buf[i] != '\0'
    }

    ghost function Toks(): seq<Tok>
      requires ps < buf.Length
      reads this, buf
    {
      Lex(buf[ps..])
    }

    method SkipBlanks()
      requires Valid()
      modifies this`ps
      ensures Valid() && old(ps) <= ps && Toks() == old(Toks()) && !Whitespace(buf[ps])
    {
      hide Lex;
      var es := buf.Length - 1;
      while ps < es && Whitespace(buf[ps])
        invariant old(ps) <= ps <= es && Toks() == old(Toks())
      {
        LexSkips(buf[ps..]);
        assert buf[ps..][1..] == buf[ps + 1..];
        ps := ps + 1;
      }
    }

    /** What gettoken returns for the tokens it finds: '\0' at the end, 'a' for a word, and otherwise
        the symbol, with + for >>. */
    ghost predicate Took(toks: seq<Tok>, tok: char, s: Span)
      requires ps < buf.Length
      reads this, buf
    {
      if toks == [] then tok == '\0' && Toks() == []
      else
        && Toks() == toks[1..]
        && match toks[0]
           case Sym(c) => tok == c && c != 'a' && c != '\0'
           case Word(t) => tok == 'a' && IsWord(buf[..], s) && Slice(buf[..], s) == t
    }

    /** gettoken's switch, when the blanks have been skipped. */
    method TakeToken() returns (tok: char, s: Span)
      requires Valid() && !Whitespace(buf[ps])
      modifies this`ps
      ensures Valid() && Took(old(Toks()), tok, s)
    {
      hide Lex, WordLen, Symbol, Whitespace, Plain, IsWord, Slice;
      var q := ps;
      LexHead(buf[ps..]);
      tok := buf[ps];
      if tok == '\0' {
      } else if tok == '>' && buf[ps + 1] == '>' {
        tok := '+';
        assert buf[ps..][2..] == buf[ps + 2..];
        ps := ps + 2;
      } else if Symbol(tok) {
        SymbolIsNoWord(tok);
        assert buf[ps..][1..] == buf[ps + 1..];
        ps := ps + 1;
      } else {
        tok := 'a';
        TakeWord();
      }
      s := Span(q, ps);
    }

    method GetToken() returns (tok: char, s: Span)
      requires Valid()
      modifies this`ps
      ensures Valid() && Took(old(Toks()), tok, s)
    {
      hide Lex, Whitespace, IsWord, Slice;
      SkipBlanks();
      tok, s := TakeToken();
      SkipBlanks();
    }

    /** The loop over the characters of a word. */
    method TakeWord()
      requires Valid()
      modifies this`ps
      ensures Valid()
      ensures var s, n := buf[old(ps)..], WordLen(buf[old(ps)..]);
              && ps == old(ps) + n && Slice(buf[..], Span(old(ps), ps)) == s[..n] && buf[ps..] == s[n..]
              && (n > 0 ==> IsWord(buf[..], Span(old(ps), ps)))
    {
      ghost var s := buf[ps..];
      var es := buf.Length - 1;
      while ps < es && !Whitespace(buf[ps]) && !Symbol(buf[ps])
        invariant old(ps) <= ps <= es && ps - old(ps) <= WordLen(s)
        invariant forall i :: old(ps) <= i < ps ==> Plain(buf[i])
      {
        assert s[ps - old(ps)] == buf[ps];
        ps := ps + 1;
      }
      assert s[ps - old(ps)] == buf[ps];
    }

    method Peek(cs: string) returns (b: bool)
      requires Valid() && forall i :: 0 <= i < |cs| ==> Symbol(cs[i])
      modifies this`ps
      ensures Valid() && Toks() == old(Toks()) && (b <==> Next(Toks(), if '>' in cs then cs + "+" else cs))
    {
      hide Lex;
      SkipBlanks();
      LexHead(buf[ps..]);
      b := buf[ps] != '\0' && buf[ps] in cs;
    }

    /** What a parser made of the tokens agrees with what the grammar says. */
    ghost predicate Agrees(p: Parsed<Cmd<string>>, r: Result<Cmd<Span>>)
      requires ps < buf.Length
      reads this, buf
    {
      match p
      case Err(e) => r == Panic(e)
      case Ok(c, rest) => r.Got? && WordsOf(buf[..], r.value) && Text(buf[..], r.value) == c && Toks() == rest
    }

    method ParseRedirs(reds: seq<Red<Span>>) returns (r: Result<seq<Red<Span>>>)
      requires Valid() && RedWords(buf[..], reds)
      modifies this`ps
      ensures Valid()
      ensures match TakeRedirs(TextReds(buf[..], reds), old(Toks()))
              case Err(e) => r == Panic(e)
              case Ok(v, rest) =>
                r.Got? && RedWords(buf[..], r.value) && TextReds(buf[..], r.value) == v && Toks() == rest
    {
      hide Lex, IsWord, Slice;
      ghost var b := buf[..];
      ghost var p := TakeRedirs(TextReds(b, reds), Toks());
      var all := reds;
      var more := Peek("<>");
      assert "<>" + "+" == "<>+";
      while more
        invariant Valid() && RedWords(b, all) && buf[..] == b
        invariant p == TakeRedirs(TextReds(b, all), Toks()) && (more <==> Next(Toks(), "<>+"))
        decreases |Toks()|
      {
        var tok, s := GetToken();
        var kind, file := GetToken();
        if kind != 'a' {
          return Panic(MissingFile);
        }
        var red := Red(tok != '<', file);
        assert TextReds(b, all + [red]) == TextReds(b, all) + [TextRed(b, red)];
        all := all + [red];
        more := Peek("<>");
      }
      return Got(all);
    }

    method ParseLine() returns (r: Result<Cmd<Span>>)
      requires Valid()
      modifies this`ps
      ensures Valid() && Agrees(ShellSpec.ParseLine(old(Toks())), r)
      decreases |Toks()|, 2
    {
      hide Lex, WordsOf, ShellSpec.ParsePipe, Next;
      var first := ParsePipe();
      if first.Panic? {
        return first;
      }
      var cmd := first.value;
      ghost var b := buf[..];
      ghost var p := Amps(Text(b, cmd), Toks());
      assert '>' !in "&" && '>' !in ";";
      var more := Peek("&");
      while more
        invariant Valid() && buf[..] == b && WordsOf(b, cmd) && |Toks()| <= |old(Toks())|
        invariant p == Amps(Text(b, cmd), Toks()) && (more <==> Next(Toks(), "&"))
        decreases |Toks()|
      {
        NextIsThere(Toks(), "&");
        var tok, s := GetToken();
        BackText(b, cmd);
        cmd := Back(cmd);
        more := Peek("&");
      }
      var list := Peek(";");
      if list {
        NextIsThere(Toks(), ";");
        var tok, s := GetToken();
        var line := ParseLine();
        if line.Panic? {
          return line;
        }
        PairText(b, cmd, line.value);
        return Got(List(cmd, line.value));
      }
      return Got(cmd);
    }

    method ParsePipe() returns (r: Result<Cmd<Span>>)
      requires Valid()
      modifies this`ps
      ensures Valid() && Agrees(ShellSpec.ParsePipe(old(Toks())), r)
      decreases |Toks()|, 1
    {
      hide Lex, WordsOf, ShellSpec.ParseExec, Next;
      var left := ParseExec();
      if left.Panic? {
        return left;
      }
      assert '>' !in "|";
      var more := Peek("|");
      if more {
        NextIsThere(Toks(), "|");
        var tok, s := GetToken();
        var right := ParsePipe();
        if right.Panic? {
          return right;
        }
        PairText(buf[..], left.value, right.value);
        return Got(Pipe(left.value, right.value));
      }
      return left;
    }

    method ParseBlock() returns (r: Result<Cmd<Span>>)
      requires Valid() && Next(Toks(), "(")
      modifies this`ps
      ensures Valid() && Agrees(ShellSpec.ParseBlock(old(Toks())), r)
      decreases |Toks()| - 1, 3
    {
      hide Lex, WordsOf, ShellSpec.ParseLine, TakeRedirs, IsWord, Slice, Text, Wrap;
      var tok, s := GetToken();
      var line := ParseLine();
      if line.Panic? {
        return line;
      }
      assert '>' !in ")";
      var closed := Peek(")");
      if !closed {
        return Panic(MissingParen);
      }
      tok, s := GetToken();
      assert TextReds(buf[..], []) == [];
      var reds := ParseRedirs([]);
      if reds.Panic? {
        return Panic(reds.error);
      }
      WrapText(buf[..], line.value, reds.value);
      return Got(Wrap(line.value, reds.value));
    }

    method ParseExec() returns (r: Result<Cmd<Span>>)
      requires Valid()
      modifies this`ps
      ensures Valid() && Agrees(ShellSpec.ParseExec(old(Toks())), r)
      decreases |Toks()|, 0
    {
      hide Lex, ShellSpec.ParseBlock, TakeRedirs, IsWord, Slice, Wrap;
      assert '>' !in "(" && '>' !in "|)&;";
      var block := Peek("(");
      if block {
        r := ParseBlock();
        return;
      }
      ghost var b := buf[..];
      assert TextReds(b, []) == [];
      var got := ParseRedirs([]);
      if got.Panic? {
        return Panic(got.error);
      }
      r := ParseArgs(got.value);
    }

    /** The loop of parseexec, after the first redirections. */
    method ParseArgs(first: seq<Red<Span>>) returns (r: Result<Cmd<Span>>)
      requires Valid() && RedWords(buf[..], first)
      modifies this`ps
      ensures Valid() && Agrees(TakeArgs([], TextReds(buf[..], first), old(Toks())), r)
    {
      hide Lex, TakeRedirs, IsWord, Slice, Wrap;
      ghost var b := buf[..];
      ghost var p := TakeArgs([], TextReds(b, first), Toks());
      var argv := new Span[MAXARGS](_ => Span(0, 0));
      var argc, reds := 0, first;
      assert TextArgs(b, argv[..0]) == [];
      var stop := Peek("|)&;");
      while !stop
        invariant Valid() && buf[..] == b && 0 <= argc < MAXARGS && argv.Length == MAXARGS && RedWords(b, reds)
        invariant forall i :: 0 <= i < argc ==> IsWord(b, argv[i])
        invariant p == TakeArgs(TextArgs(b, argv[..argc]), TextReds(b, reds), Toks())
                  && (stop <==> Next(Toks(), "|)&;"))
        decreases |Toks()|
      {
        var tok, s := GetToken();
        if tok == '\0' {
          break;
        }
        if tok != 'a' {
          return Panic(Syntax);
        }
        argv[argc] := s;
        assert TextArgs(b, argv[..argc + 1]) == TextArgs(b, argv[..argc]) + [Slice(b, s)];
        argc := argc + 1;
        if argc >= MAXARGS {
          return Panic(TooManyArgs);
        }
        var got := ParseRedirs(reds);
        if got.Panic? {
          return Panic(got.error);
        }
        reds := got.value;
        stop := Peek("|)&;");
      }
      WrapText(b, Exec(argv[..argc]), reds);
      return Got(Wrap(Exec(argv[..argc]), reds));
    }

    constructor (line: array<char>)
      requires 0 < line.Length && line[line.Length - 1] == '\0'
               && forall i :: 0 <= i < line.Length - 1 ==> line[i] != '\0'
      ensures Valid() && buf == line && ps == 0
    {
      buf, ps := line, 0;
    }

    /** parsecmd accepts a line exactly if it writes a command, and then the strings of the result, read as
        C strings from their first characters, make up what the line means. */
    method ParseCmd() returns (r: Result<Cmd<Span>>)
      requires Valid() && ps == 0
      modifies this`ps, buf
      ensures match ParseTokens(Lex(old(buf[..])))
              case Err(e) => r == Panic(e)
              case Ok(c, _) => r.Got? && ReadBack(buf[..], r.value) == c
      ensures r.Got? <==> IsCommandLine(old(buf[..buf.Length - 1]))
      ensures forall f :: Writes(old(buf[..buf.Length - 1]), f) ==>
                r.Got? && ReadBack(buf[..], r.value) == Meaning(f)
    {
      hide IsCommandLine, Writes, Lex, ShellSpec.ParseTokens;
      LineIsLanguage(buf[..], buf[..buf.Length - 1]);
      r := ParseBuffer();
    }

    method ParseBuffer() returns (r: Result<Cmd<Span>>)
      requires Valid() && ps == 0
      modifies this`ps, buf
      ensures match ParseTokens(Lex(old(buf[..])))
              case Err(e) => r == Panic(e)
              case Ok(c, _) => r.Got? && ReadBack(buf[..], r.value) == c
    {
      hide Lex, ShellSpec.ParseLine;
      ghost var b := buf[..];
      assert buf[0..] == b;
      var line := ParseLine();
      if line.Panic? {
        return line;
      }
      SkipBlanks();
      AtEnd(buf[ps..]);
      if ps != buf.Length - 1 {
        return Panic(Leftovers);
      }
      EndsAreOutside(b, line.value);
      NulTerminate(buf, line.value);
      ReadsBack(b, buf[..], line.value, EndsOf(line.value));
      return line;
    }
  }

  lemma LineIsLanguage(b: string, line: string)
    requires b == line + "\0" && NoNul(line)
    ensures ParseTokens(Lex(b)).Ok? <==> IsCommandLine(line)
    ensures forall f :: Writes(line, f) ==> ParseTokens(Lex(b)) == Ok(Meaning(f), [])
  {
    hide Writes, Lex, Meaning, ShellSpec.ParseTokens;
    ParserIsLanguage(line, Exec([]));
    forall f | Writes(line, f) ensures ParseTokens(Lex(b)) == Ok(Meaning(f), []) {
      WrittenParses(line, f);
    }
  }

  lemma SymbolIsNoWord(c: char)
    requires Symbol(c)
    ensures c != 'a' && c != '\0'
  {
  }

  lemma NextIsThere(toks: seq<Tok>, cs: string)
    requires Next(toks, cs)
    ensures toks != [] && toks[0].Sym?
  {
  }

  lemma BackText(b: string, c: Cmd<Span>)
    requires WordsOf(b, c)
    ensures WordsOf(b, Back(c)) && Text(b, Back(c)) == Back(Text(b, c))
  {
  }

  lemma PairText(b: string, l: Cmd<Span>, r: Cmd<Span>)
    requires WordsOf(b, l) && WordsOf(b, r)
    ensures WordsOf(b, Pipe(l, r)) && Text(b, Pipe(l, r)) == Pipe(Text(b, l), Text(b, r))
    ensures WordsOf(b, List(l, r)) && Text(b, List(l, r)) == List(Text(b, l), Text(b, r))
  {
  }

  lemma AtEnd(s: string)
    requires s != "" && !Whitespace(s[0])
    ensures Lex(s) == [] <==> s[0] == '\0'
  {
    hide WordLen;
    LexHead(s);
  }

  // ----- NUL termination -----

  ghost function EndsOf(c: Cmd<Span>): set<nat>
  {
    match c
    case Exec(args) => set i | 0 <= i < |args| :: args[i].eq
    case Redir(x, red) => EndsOf(x) + {red.file.eq}
    case Pipe(l, r) => EndsOf(l) + EndsOf(r)
    case List(l, r) => EndsOf(l) + EndsOf(r)
    case Back(x) => EndsOf(x)
  }

  /** nulterminate */
  method NulTerminate(buf: array<char>, c: Cmd<Span>)
    requires forall e :: e in EndsOf(c) ==> e < buf.Length
    modifies buf
    ensures forall i :: 0 <= i < buf.Length ==> buf[i] == if i in EndsOf(c) then '\0' else old(buf[i])
    decreases c
  {
    match c
    case Exec(args) =>
      for k := 0 to |args|
        invariant forall i :: 0 <= i < buf.Length ==>
                    buf[i] == if exists j :: 0 <= j < k && args[j].eq == i then '\0' else old(buf[i])
      {
        assert args[k].eq in EndsOf(c);
        buf[args[k].eq] := '\0';
      }
    case Redir(x, red) =>
      assert EndsOf(c) == EndsOf(x) + {red.file.eq};
      NulTerminate(buf, x);
      buf[red.file.eq] := '\0';
    case Pipe(l, r) =>
      assert EndsOf(c) == EndsOf(l) + EndsOf(r);
      NulTerminate(buf, l);
      NulTerminate(buf, r);
    case List(l, r) =>
      assert EndsOf(c) == EndsOf(l) + EndsOf(r);
      NulTerminate(buf, l);
      NulTerminate(buf, r);
    case Back(x) =>
      assert EndsOf(c) == EndsOf(x);
      NulTerminate(buf, x);
  }

  /** The C string that starts at q. */
  function CString(b: string, q: nat): string
    decreases |b| - q
  {
    if q < |b| && b[q] != '\0' then [b[q]] + CString(b, q + 1) else ""
  }

  function CStrings(b: string, args: seq<Span>): (r: seq<string>)
    ensures |r| == |args| && forall i :: 0 <= i < |r| ==> r[i] == CString(b, args[i].q)
  {
    seq(|args|, i requires 0 <= i < |args| => CString(b, args[i].q))
  }

  /** The command as runcmd sees it. */
  function ReadBack(b: string, c: Cmd<Span>): Cmd<string>
  {
    match c
    case Exec(args) => Exec(CStrings(b, args))
    case Redir(x, red) => Redir(ReadBack(b, x), Red(red.out, CString(b, red.file.q)))
    case Pipe(l, r) => Pipe(ReadBack(b, l), ReadBack(b, r))
    case List(l, r) => List(ReadBack(b, l), ReadBack(b, r))
    case Back(x) => Back(ReadBack(b, x))
  }

  /** r is b with NULs at some places that are not inside a word. */
  ghost predicate Cut(b: string, r: string, ends: set<nat>)
  {
    && |r| == |b| && (forall e :: e in ends ==> e < |b| && !Plain(b[e]))
    && forall i :: 0 <= i < |b| ==> r[i] == if i in ends then '\0' else b[i]
  }

  lemma {:induction false} WordReads(b: string, r: string, ends: set<nat>, q: nat, eq: nat)
    requires Cut(b, r, ends) && q <= eq < |b| && eq in ends && forall i :: q <= i < eq ==> Plain(b[i])
    ensures CString(r, q) == b[q..eq]
    decreases eq - q
  {
    if q < eq {
      WordReads(b, r, ends, q + 1, eq);
    }
  }

  lemma {:induction false} ReadsBack(b: string, r: string, c: Cmd<Span>, ends: set<nat>)
    requires WordsOf(b, c) && Cut(b, r, ends) && EndsOf(c) <= ends
    ensures ReadBack(r, c) == Text(b, c)
    decreases c
  {
    hide CString, Cut, Plain;
    match c
    case Exec(args) =>
      forall i | 0 <= i < |args| ensures CString(r, args[i].q) == Slice(b, args[i]) {
        assert args[i].eq in EndsOf(c);
        WordReads(b, r, ends, args[i].q, args[i].eq);
      }
      assert CStrings(r, args) == TextArgs(b, args);
    case Redir(x, red) =>
      ReadsBack(b, r, x, ends);
      WordReads(b, r, ends, red.file.q, red.file.eq);
    case Pipe(x, y) =>
      ReadsBack(b, r, x, ends);
      ReadsBack(b, r, y, ends);
    case List(x, y) =>
      ReadsBack(b, r, x, ends);
      ReadsBack(b, r, y, ends);
    case Back(x) =>
      ReadsBack(b, r, x, ends);
  }

  lemma {:induction false} EndsAreOutside(b: string, c: Cmd<Span>)
    requires WordsOf(b, c)
    ensures forall e :: e in EndsOf(c) ==> e < |b| && !Plain(b[e])
    decreases c
  {
    hide Plain;
    match c
    case Exec(args) =>
    case Redir(x, red) =>
      EndsAreOutside(b, x);
    case Pipe(x, y) =>
      EndsAreOutside(b, x);
      EndsAreOutside(b, y);
    case List(x, y) =>
      EndsAreOutside(b, x);
      EndsAreOutside(b, y);
    case Back(x) =>
      EndsAreOutside(b, x);
  }

  /** A line that writes a command, put into a buffer with its NUL and parsed there, gives what it means, as
      runcmd reads it from that buffer. */
  method ParseWritten(text: string, ghost f: Form) returns (line: array<char>, t: Cmd<Span>)
    requires Writes(text, f)
    ensures ReadBack(line[..], t) == Meaning(f)
  {
    hide Writes, Lex, ParseTokens, Meaning;
    WritesNoNul(text, f);
    var s := text + "\0";
    line := new char[|s|](i requires 0 <= i < |s| => s[i]);
    assert line[..] == s && line[..line.Length - 1] == text;
    var parser := new Parser(line);
    var r := parser.ParseCmd();
    t := r.value;
  }

  lemma WritesNoNul(s: string, f: Form)
    requires Writes(s, f)
    ensures NoNul(s)
  {
    hide Spell, Toks, Written, AllLegal, Blanks, Separate;
    var gaps: seq<string> :| Apart(Toks(f), gaps) && s == Spell(Toks(f), gaps);
    SpellHasNoNul(Toks(f), gaps);
  }

  /** A command printed into a buffer, with its NUL, and parsed there comes back. */
  method ParsePrinted(c: Cmd<string>) returns (line: array<char>, t: Cmd<Span>)
    requires Legal(c)
    ensures ReadBack(line[..], t) == c
  {
    hide Writes, Lex, Legal, ParseTokens, Printed, Meaning, Plainly;
    PrintedParses(c);
    line, t := ParseWritten(Printed(c), Plainly(c, 0));
  }
}
