/** grep's matcher (grep.c) against the language of its patterns. */
module Grep {
  /** The characters of a C string, without the terminating NUL. */
  type CString = s: string | forall i :: 0 <= i < |s| ==> s[i] != '\0'

  /** *(s + i), for i up to and including the terminator. */
  function At(s: CString, i: nat): char
    requires i <= |s|
  {
    if i < |s| then s[i] else '\0'
  }

  // ----- What a pattern means -----

  datatype Item = One(c: char) | Star(c: char) | End

  predicate Fits(c: char, d: char) {
    c == '.' || c == d
  }

  /** Item it can stand for text[i..j]. */
  ghost predicate Stands(it: Item, text: CString, i: nat, j: nat)
  {
    && i <= j <= |text|
    && match it
       case One(c) => j == i + 1 && Fits(c, text[i])
       case Star(c) => forall k :: i <= k < j ==> Fits(c, text[k])
       case End => i == j == |text|
  }

  /** A pattern after any ^: a star binds to the character before it, whatever that is; a $ is
      special only as the last character. */
  function Items(re: CString): seq<Item>
  {
    if re == "" then []
    else if |re| > 1 && re[1] == '*' then [Star(re[0])] + Items(re[2..])
    else if re == "$" then [End]
    else [One(re[0])] + Items(re[1..])
  }

  /** cuts divides text[from..to] into one piece for each item. */
  ghost predicate Divides(cuts: seq<nat>, items: seq<Item>, text: CString, from: nat, to: nat)
  {
    && |cuts| == |items| + 1 && cuts[0] == from && cuts[|items|] == to <= |text|
    && forall k :: 0 <= k < |items| ==> Stands(items[k], text, cuts[k], cuts[k + 1])
  }

  /** text[from..to] is in the language of the items. */
  ghost predicate InLanguage(items: seq<Item>, text: CString, from: nat, to: nat)
  {
    exists cuts :: Divides(cuts, items, text, from, to)
  }

  /** Some piece of text that starts at from is in the language. */
  ghost predicate Begins(items: seq<Item>, text: CString, from: nat)
  {
    exists to :: InLanguage(items, text, from, to)
  }

  /** What grep promises: some substring is in the pattern's language; with ^, one at the start. */
  ghost predicate Selected(re: CString, text: CString)
  {
    if At(re, 0) == '^' then Begins(Items(re[1..]), text, 0)
    else exists from :: 0 <= from <= |text| && Begins(Items(re), text, from)
  }

  lemma BeginsEmpty(text: CString, from: nat)
    requires from <= |text|
    ensures Begins([], text, from)
  {
    assert Divides([from], [], text, from, from);
    assert InLanguage([], text, from, from);
  }

  lemma BeginsSplit(it: Item, rest: seq<Item>, text: CString, from: nat) returns (j: nat)
    requires Begins([it] + rest, text, from)
    ensures Stands(it, text, from, j) && Begins(rest, text, j)
  {
    var items := [it] + rest;
    var to :| InLanguage(items, text, from, to);
    var cuts :| Divides(cuts, items, text, from, to);
    j := cuts[1];
    assert Stands(items[0], text, cuts[0], cuts[1]);
    forall k | 0 <= k < |rest| ensures Stands(rest[k], text, cuts[1..][k], cuts[1..][k + 1]) {
      assert Stands(items[k + 1], text, cuts[k + 1], cuts[k + 2]);
    }
    assert Divides(cuts[1..], rest, text, j, to);
    assert InLanguage(rest, text, j, to);
  }

  lemma BeginsJoin(it: Item, rest: seq<Item>, text: CString, from: nat, j: nat)
    requires Stands(it, text, from, j) && Begins(rest, text, j)
    ensures Begins([it] + rest, text, from)
  {
    var items := [it] + rest;
    var to :| InLanguage(rest, text, j, to);
    var cuts :| Divides(cuts, rest, text, j, to);
    var longer := [from] + cuts;
    forall k | 0 <= k < |items| ensures Stands(items[k], text, longer[k], longer[k + 1]) {
      assert k > 0 ==> Stands(rest[k - 1], text, cuts[k - 1], cuts[k]);
    }
    assert Divides(longer, items, text, from, to);
    assert InLanguage(items, text, from, to);
  }

  // ----- Patterns as text -----

  function Shown(items: seq<Item>): string
  {
    if items == [] then ""
    else
      (match items[0]
       case One(c) => [c]
       case Star(c) => [c, '*']
       case End => "$") + Shown(items[1..])
  }

  /** Nothing of a pattern is lost. */
  lemma {:induction false} ItemsAreAll(re: CString)
    ensures Shown(Items(re)) == re
    decreases |re|
  {
    if re == "" {
    } else if |re| > 1 && re[1] == '*' {
      ItemsAreAll(re[2..]);
    } else if re == "$" {
    } else {
      ItemsAreAll(re[1..]);
    }
  }

  /** Items that can be written after one another: none in front of a literal star, and a literal dollar or an
      end only where it means that. */
  predicate Writable(items: seq<Item>)
  {
    items == [] ||
    (&& (match items[0]
         case One(c) =>
           && c != '\0' && (c == '$' ==> |items| > 1)
           && (|items| > 1 ==> items[1].End? || items[1].c != '*')
         case Star(c) => c != '\0'
         case End => |items| == 1)
     && Writable(items[1..]))
  }

  /** What is written is read: a character and a star, a dollar at the end, and characters. */
  lemma {:induction false} ItemsOfShown(items: seq<Item>)
    requires Writable(items)
    ensures (forall i :: 0 <= i < |Shown(items)| ==> Shown(items)[i] != '\0') && Items(Shown(items)) == items
    ensures |items| > 0 ==> Shown(items) != "" && Shown(items)[0] == if items[0].End? then '$' else items[0].c
    decreases |items|
  {
    if items != [] {
      ItemsOfShown(items[1..]);
      var re, rest := Shown(items), Shown(items[1..]);
      match items[0]
      case One(c) => assert re[1..] == rest;
      case Star(c) => assert re[2..] == rest;
      case End => assert items == [End];
    }
  }

  // ----- The matcher -----

  /** matchhere: re at the beginning of text + i */
  method MatchHere(re: CString, text: CString, i: nat) returns (r: bool)
    requires i <= |text|
    ensures r <==> Begins(Items(re), text, i)
    decreases |re|, 0
  {
    hide Begins, Stands;
    if At(re, 0) == '\0' {
      BeginsEmpty(text, i);
      return true;
    }
    if At(re, 1) == '*' {
      r := MatchStar(re[0], re[2..], text, i);
      return;
    }
    if At(re, 0) == '$' && At(re, 1) == '\0' {
      EndBegins(text, i);
      return At(text, i) == '\0';
    }
    OneBegins(re[0], Items(re[1..]), text, i);
    if At(text, i) != '\0' && (re[0] == '.' || re[0] == At(text, i)) {
      r := MatchHere(re[1..], text, i + 1);
      return;
    }
    return false;
  }

  /** matchstar: c*re at the beginning of text + i */
  method MatchStar(c: char, re: CString, text: CString, i: nat) returns (r: bool)
    requires i <= |text|
    ensures r <==> Begins([Star(c)] + Items(re), text, i)
    decreases |re|, 1
  {
    hide Begins;
    var j := i;
    while true
      invariant i <= j <= |text| && Stands(Star(c), text, i, j)
      invariant forall k :: i <= k < j ==> !Begins(Items(re), text, k)
      decreases |text| - j
    {
      var here := MatchHere(re, text, j);
      if here {
        BeginsJoin(Star(c), Items(re), text, i, j);
        return true;
      }
      if !(At(text, j) != '\0' && (At(text, j) == c || c == '.')) {
        StarEnds(c, Items(re), text, i, j);
        return false;
      }
      j := j + 1;
    }
    return false;
  }

  method Match(re: CString, text: CString) returns (r: bool)
    ensures r <==> Selected(re, text)
  {
    hide Begins;
    if At(re, 0) == '^' {
      r := MatchHere(re[1..], text, 0);
      return;
    }
    var i := 0;
    while true
      invariant 0 <= i <= |text|
      invariant forall k :: 0 <= k < i ==> !Begins(Items(re), text, k)
      decreases |text| - i
    {
      r := MatchHere(re, text, i);
      if r {
        return true;
      }
      if At(text, i) == '\0' {
        break;
      }
      i := i + 1;
    }
    return false;
  }

  lemma EndBegins(text: CString, i: nat)
    requires i <= |text|
    ensures Begins([End], text, i) <==> i == |text|
  {
    if Begins([End], text, i) {
      assert [End] + [] == [End];
      var j := BeginsSplit(End, [], text, i);
    }
    if i == |text| {
      BeginsEmpty(text, i);
      BeginsJoin(End, [], text, i, i);
      assert [End] + [] == [End];
    }
  }

  lemma OneBegins(c: char, rest: seq<Item>, text: CString, i: nat)
    requires i <= |text|
    ensures Begins([One(c)] + rest, text, i) <==> i < |text| && Fits(c, text[i]) && Begins(rest, text, i + 1)
  {
    if Begins([One(c)] + rest, text, i) {
      var j := BeginsSplit(One(c), rest, text, i);
    }
    if i < |text| && Fits(c, text[i]) && Begins(rest, text, i + 1) {
      BeginsJoin(One(c), rest, text, i, i + 1);
    }
  }

  /** No longer run of c is possible, and after none of the shorter ones does the rest match. */
  lemma StarEnds(c: char, rest: seq<Item>, text: CString, i: nat, j: nat)
    requires Stands(Star(c), text, i, j) && (j < |text| ==> !Fits(c, text[j]))
    requires forall k :: i <= k <= j ==> !Begins(rest, text, k)
    ensures !Begins([Star(c)] + rest, text, i)
  {
    if Begins([Star(c)] + rest, text, i) {
      var k := BeginsSplit(Star(c), rest, text, i);
    }
  }
}
