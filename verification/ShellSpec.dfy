/** The shell's parser (sh.c) on values: commands, tokens, and what each of its functions makes of them. */
module ShellSpec {
  const MAXARGS: nat := 10

  predicate Whitespace(c: char) { c in " \t\r\n\U{0B}" }

  predicate Symbol(c: char) { c in "<|>&;()" }

  predicate Plain(c: char) { c != '\0' && !Whitespace(c) && !Symbol(c) }

  // ----- Commands -----

  /** < or >; both forms of > open the file in the same mode. */
  datatype Red<W> = Red(out: bool, file: W)

  datatype Cmd<W> =
    | Exec(args: seq<W>)
    | Redir(cmd: Cmd<W>, red: Red<W>)
    | Pipe(left: Cmd<W>, right: Cmd<W>)
    | List(left: Cmd<W>, right: Cmd<W>)
    | Back(cmd: Cmd<W>)

  /** cmd with redirections around it, the first one innermost. */
  function Wrap<W>(cmd: Cmd<W>, reds: seq<Red<W>>): Cmd<W>
  {
    if reds == [] then cmd else Redir(Wrap(cmd, reds[..|reds| - 1]), reds[|reds| - 1])
  }

  // ----- Tokens -----

  datatype Tok = Sym(c: char) | Word(text: string)

  /** How many characters from the start of s belong to one word. */
  function WordLen(s: string): (n: nat)
    ensures n <= |s| && (forall i :: 0 <= i < n ==> Plain(s[i])) && (n < |s| ==> !Plain(s[n]))
  {
    if s == "" || !Plain(s[0]) then 0 else 1 + WordLen(s[1..])
  }

  /** The tokens of s, as successive calls of gettoken return them. A NUL ends the input. */
  function Lex(s: string): seq<Tok>
    decreases |s|
  {
    if s == "" || s[0] == '\0' then []
    else if Whitespace(s[0]) then Lex(s[1..])
    else if s[0] == '>' && |s| > 1 && s[1] == '>' then [Sym('+')] + Lex(s[2..])
    else if Symbol(s[0]) then [Sym(s[0])] + Lex(s[1..])
    else [Word(s[..WordLen(s)])] + Lex(s[WordLen(s)..])
  }

  lemma LexSkips(s: string)
    requires s != "" && Whitespace(s[0])
    ensures Lex(s) == Lex(s[1..])
  {
  }

  /** The first token, when there are no blanks before it. */
  lemma LexHead(s: string)
    requires s != "" && !Whitespace(s[0])
    ensures s[0] == '\0' ==> Lex(s) == []
    ensures s[0] == '>' && |s| > 1 && s[1] == '>' ==> Lex(s) == [Sym('+')] + Lex(s[2..])
    ensures Symbol(s[0]) && !(s[0] == '>' && |s| > 1 && s[1] == '>') ==> Lex(s) == [Sym(s[0])] + Lex(s[1..])
    ensures s[0] != '\0' && !Symbol(s[0]) ==> Lex(s) == [Word(s[..WordLen(s)])] + Lex(s[WordLen(s)..]) && WordLen(s) > 0
  {
  }

  // ----- The grammar, on tokens -----

  datatype Error = MissingFile | MissingParen | Syntax | TooManyArgs | Leftovers

  datatype Parsed<T> = Ok(value: T, rest: seq<Tok>) | Err(error: Error)

  predicate Next(toks: seq<Tok>, cs: string) {
    toks != [] && toks[0].Sym? && toks[0].c in cs
  }

  function TakeRedirs(reds: seq<Red<string>>, toks: seq<Tok>): (r: Parsed<seq<Red<string>>>)
    ensures r.Ok? ==> |r.rest| <= |toks| && !Next(r.rest, "<>+")
    decreases |toks|
  {
    if !Next(toks, "<>+") then Ok(reds, toks)
    else if |toks| < 2 || toks[1].Sym? then Err(MissingFile)
    else TakeRedirs(reds + [Red(toks[0].c != '<', toks[1].text)], toks[2..])
  }

  /** Words and redirections in any order, up to a token that ends a simple command. */
  function TakeArgs(args: seq<string>, reds: seq<Red<string>>, toks: seq<Tok>): (r: Parsed<Cmd<string>>)
    ensures r.Ok? ==> |r.rest| <= |toks|
    decreases |toks|
  {
    if toks == [] || Next(toks, "|)&;") then Ok(Wrap(Exec(args), reds), toks)
    else if toks[0].Sym? then Err(Syntax)
    else if |args| + 1 >= MAXARGS then Err(TooManyArgs)
    else
      var r := TakeRedirs(reds, toks[1..]);
      if r.Err? then Err(r.error) else TakeArgs(args + [toks[0].text], r.value, r.rest)
  }

  function ParseExec(toks: seq<Tok>): (r: Parsed<Cmd<string>>)
    ensures r.Ok? ==> |r.rest| <= |toks|
    decreases |toks|, 0
  {
    if Next(toks, "(") then ParseBlock(toks)
    else
      var r := TakeRedirs([], toks);
      if r.Err? then Err(r.error) else TakeArgs([], r.value, r.rest)
  }

  function ParseBlock(toks: seq<Tok>): (r: Parsed<Cmd<string>>)
    requires Next(toks, "(")
    ensures r.Ok? ==> |r.rest| <= |toks|
    decreases |toks| - 1, 3
  {
    var line := ParseLine(toks[1..]);
    if line.Err? then line
    else if !Next(line.rest, ")") then Err(MissingParen)
    else
      var r := TakeRedirs([], line.rest[1..]);
      if r.Err? then Err(r.error) else Ok(Wrap(line.value, r.value), r.rest)
  }

  function ParsePipe(toks: seq<Tok>): (r: Parsed<Cmd<string>>)
    ensures r.Ok? ==> |r.rest| <= |toks|
    decreases |toks|, 1
  {
    var left := ParseExec(toks);
    if left.Err? || !Next(left.rest, "|") then left
    else
      var right := ParsePipe(left.rest[1..]);
      if right.Err? then right else Ok(Pipe(left.value, right.value), right.rest)
  }

  function Amps(cmd: Cmd<string>, toks: seq<Tok>): (r: (Cmd<string>, seq<Tok>))
    ensures |r.1| <= |toks|
    decreases |toks|
  {
    if Next(toks, "&") then Amps(Back(cmd), toks[1..]) else (cmd, toks)
  }

  function ParseLine(toks: seq<Tok>): (r: Parsed<Cmd<string>>)
    ensures r.Ok? ==> |r.rest| <= |toks|
    decreases |toks|, 2
  {
    var first := ParsePipe(toks);
    if first.Err? then first
    else
      var (cmd, rest) := Amps(first.value, first.rest);
      if !Next(rest, ";") then Ok(cmd, rest)
      else
        var line := ParseLine(rest[1..]);
        if line.Err? then line else Ok(List(cmd, line.value), line.rest)
  }

  function ParseTokens(toks: seq<Tok>): Parsed<Cmd<string>>
  {
    var r := ParseLine(toks);
    if r.Ok? && r.rest != [] then Err(Leftovers) else r
  }
}
