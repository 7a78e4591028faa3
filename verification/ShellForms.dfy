/** The shell's command language, as a way to write commands: what may be written, what it looks like and what
    it means. Nothing here refers to the parser. */
module ShellForms {
  import opened ShellSpec

  // ----- What may be written -----

  /** A piece of a simple command: a word, or a redirection and the symbol it is written with, + for >>. */
  datatype Item = Arg(word: string) | Into(sym: char, file: string)

  datatype Form =
    | Simple(items: seq<Item>)
    | Block(line: Form, items: seq<Item>)
    | Piped(left: Form, right: Form)
    | Listed(left: Form, right: Form)
    | Backed(form: Form)

  predicate IsInto(x: Item) {
    x.Into? && (x.sym == '<' || x.sym == '>' || x.sym == '+')
  }

  function CountArgs(items: seq<Item>): nat {
    if items == [] then 0 else (if items[0].Arg? then 1 else 0) + CountArgs(items[1..])
  }

  /** What may stand where a line (0), a command with its &s (1), a pipeline (2) or a command (3) is expected.
      Words and redirections of a simple command come in any order. */
  predicate Written(f: Form, level: nat)
  {
    match f
    case Simple(items) =>
      (forall i :: 0 <= i < |items| ==> items[i].Arg? || IsInto(items[i])) && CountArgs(items) < 10
    case Block(line, items) => Written(line, 0) && forall i :: 0 <= i < |items| ==> IsInto(items[i])
    case Piped(l, r) => level <= 2 && Written(l, 3) && Written(r, 2)
    case Backed(x) => level <= 1 && Written(x, 1)
    case Listed(l, r) => level == 0 && Written(l, 1) && Written(r, 0)
  }

  // ----- What it looks like -----

  function ItemToks(x: Item): seq<Tok> {
    match x
    case Arg(w) => [Word(w)]
    case Into(c, file) => [Sym(c), Word(file)]
  }

  function ItemsToks(items: seq<Item>): seq<Tok> {
    if items == [] then [] else ItemToks(items[0]) + ItemsToks(items[1..])
  }

  function Toks(f: Form): seq<Tok>
  {
    match f
    case Simple(items) => ItemsToks(items)
    case Block(line, items) => [Sym('(')] + Toks(line) + [Sym(')')] + ItemsToks(items)
    case Piped(l, r) => Toks(l) + [Sym('|')] + Toks(r)
    case Listed(l, r) => Toks(l) + [Sym(';')] + Toks(r)
    case Backed(x) => Toks(x) + [Sym('&')]
  }

  predicate Blank(c: char) {
    c == ' ' || c == '\t' || c == '\r' || c == '\n' || c == '\U{0B}'
  }

  predicate Blanks(s: string) {
    forall i :: 0 <= i < |s| ==> Blank(s[i])
  }

  predicate Special(c: char) {
    c == '<' || c == '|' || c == '>' || c == '&' || c == ';' || c == '(' || c == ')'
  }

  /** What can be a word in a C string. */
  predicate LegalWord(w: string) {
    w != "" && forall i :: 0 <= i < |w| ==> w[i] != '\0' && !Blank(w[i]) && !Special(w[i])
  }

  predicate LegalTok(t: Tok) {
    match t
    case Sym(c) => Special(c) || c == '+'
    case Word(w) => LegalWord(w)
  }

  predicate AllLegal(toks: seq<Tok>) {
    forall i :: 0 <= i < |toks| ==> LegalTok(toks[i])
  }

  function Show(t: Tok): string {
    match t
    case Sym(c) => if c == '+' then ">>" else [c]
    case Word(w) => w
  }

  /** Tokens with gaps before, between and behind them. */
  function Spell(toks: seq<Tok>, gaps: seq<string>): string
    requires |gaps| == |toks| + 1
  {
    if toks == [] then gaps[0] else gaps[0] + Show(toks[0]) + Spell(toks[1..], gaps[1..])
  }

  /** Two tokens that can do without a gap. */
  predicate Separate(t: Tok, u: Tok) {
    !(t.Word? && u.Word?) && !(t == Sym('>') && (u == Sym('>') || u == Sym('+')))
  }

  predicate Apart(toks: seq<Tok>, gaps: seq<string>)
  {
    && |gaps| == |toks| + 1 && (forall i :: 0 <= i < |gaps| ==> Blanks(gaps[i]))
    && forall i :: 0 < i < |toks| && gaps[i] == "" ==> Separate(toks[i - 1], toks[i])
  }

  /** The line s is a way to write f. */
  ghost predicate Writes(s: string, f: Form)
  {
    && Written(f, 0) && AllLegal(Toks(f))
    && exists gaps: seq<string> :: Apart(Toks(f), gaps) && s == Spell(Toks(f), gaps)
  }

  ghost predicate IsCommandLine(s: string) {
    exists f :: Writes(s, f)
  }

  // ----- What it means -----

  /** One more argument for a simple command, inside its redirections. */
  function AddArg(c: Cmd<string>, w: string): Cmd<string> {
    match c
    case Exec(args) => Exec(args + [w])
    case Redir(x, red) => Redir(AddArg(x, w), red)
    case _ => c
  }

  /** The pieces act on the command from left to right; a redirection goes around what there is, and > and
      >> both write. */
  function Apply(c: Cmd<string>, items: seq<Item>): Cmd<string>
    decreases |items|
  {
    if items == [] then c
    else
      match items[0]
      case Arg(w) => Apply(AddArg(c, w), items[1..])
      case Into(sym, file) => Apply(Redir(c, Red(sym == '>' || sym == '+', file)), items[1..])
  }

  function Meaning(f: Form): Cmd<string>
  {
    match f
    case Simple(items) => Apply(Exec([]), items)
    case Block(line, items) => Apply(Meaning(line), items)
    case Piped(l, r) => Pipe(Meaning(l), Meaning(r))
    case Listed(l, r) => List(Meaning(l), Meaning(r))
    case Backed(x) => Back(Meaning(x))
  }

  // ----- A printer -----

  /** Words the lexer returns whole, and no more arguments than argv holds. */
  predicate Legal(c: Cmd<string>)
  {
    match c
    case Exec(args) => |args| < MAXARGS && forall i :: 0 <= i < |args| ==> LegalWord(args[i])
    case Redir(cmd, red) => Legal(cmd) && LegalWord(red.file)
    case Pipe(l, r) => Legal(l) && Legal(r)
    case List(l, r) => Legal(l) && Legal(r)
    case Back(cmd) => Legal(cmd)
  }

  /** Which of parseline, its & loop, parsepipe and parseexec makes this kind of command. */
  function Level<W>(c: Cmd<W>): nat {
    match c
    case List(_, _) => 0
    case Back(_) => 1
    case Pipe(_, _) => 2
    case _ => 3
  }

  function ArgItems(args: seq<string>): (r: seq<Item>)
    ensures |r| == |args| && forall i :: 0 <= i < |r| ==> r[i] == Arg(args[i])
  {
    seq(|args|, i requires 0 <= i < |args| => Arg(args[i]))
  }

  function RedItem(red: Red<string>): Item {
    Into(if red.out then '>' else '<', red.file)
  }

  /** c with parentheses only where they are needed. */
  function Plainly(c: Cmd<string>, level: nat): Form
    decreases c, 1
  {
    if level <= Level(c) then Bare(c) else Block(Bare(c), [])
  }

  function Bare(c: Cmd<string>): Form
    decreases c, 0
  {
    match c
    case Exec(args) => Simple(ArgItems(args))
    case Redir(x, red) =>
      var f := Plainly(x, 3);
      (match f
       case Simple(items) => Simple(items + [RedItem(red)])
       case Block(line, items) => Block(line, items + [RedItem(red)])
       case _ => f)
    case Pipe(l, r) => Piped(Plainly(l, 3), Plainly(r, 2))
    case List(l, r) => Listed(Plainly(l, 1), Plainly(r, 0))
    case Back(x) => Backed(Plainly(x, 1))
  }
}
