/** `parse_command` of prj1/seashell.c: what it makes of a line. */
module CommandParser {
  import opened Wrappers

  /** Characters of a C string; the terminator is not among them. */
  type Text = seq<int>

  const SPACE := 32
  const TAB := 9
  const QUOTE := 34
  const APOSTROPHE := 39
  const AMPERSAND := 38
  const QUESTION := 63
  const PIPE := 124
  const LESS := 60
  const GREATER := 62

  /** Size of the buffer each token is copied to, terminator included. */
  const TOKEN_BUFFER := 1024

  datatype Command = Command(
    name: Text, background: bool, autoComplete: bool, args: seq<Text>,
    input: Option<Text>, output: Option<Text>, append: Option<Text>, next: Option<Command>)

  predicate Blank(c: int) {
    c == SPACE || c == TAB
  }

  function TrimLeft(s: Text): Text {
    if s != [] && Blank(s[0]) then TrimLeft(s[1..]) else s
  }

  function TrimRight(s: Text): Text {
    if s != [] && Blank(s[|s| - 1]) then TrimRight(s[..|s| - 1]) else s
  }

  /** The length of the part before the first blank. */
  function WordLength(s: Text): (n: nat)
    ensures n <= |s| && (n < |s| ==> Blank(s[n])) && forall i :: 0 <= i < n ==> !Blank(s[i])
  {
    if s == [] || Blank(s[0]) then 0 else 1 + WordLength(s[1..])
  }

  /** `strtok` at blanks: the next token, and the text behind its separator. */
  function NextToken(s: Text): (r: Option<(Text, Text)>)
    ensures r.Some? ==> |r.value.1| < |s| && r.value.0 != []
  {
    if s == [] then None
    else if Blank(s[0]) then NextToken(s[1..])
    else
      var n := WordLength(s);
      Some((s[..n], if n < |s| then s[n + 1..] else []))
  }

  /** A token that is neither `|` nor `&`. */
  function AddToken(cmd: Command, tok: Text): Command
    requires tok != []
  {
    if tok[0] == LESS then cmd.(input := Some(tok[1..]))
    else if tok[0] == GREATER then
      if |tok| > 1 && tok[1] == GREATER then cmd.(append := Some(tok[2..]))
      else cmd.(output := Some(tok[1..]))
    else cmd.(args := cmd.args + [Unquote(tok)])
  }

  function Unquote(tok: Text): Text {
    if |tok| > 2 && tok[0] == tok[|tok| - 1] && (tok[0] == QUOTE || tok[0] == APOSTROPHE)
    then tok[1..|tok| - 1] else tok
  }

  /** The rest of a line, after the name.  None stands for what C leaves undefined: a token
      that does not fit its buffer, or a `|` with nothing behind it. */
  function ParseRest(s: Text, cmd: Command): Option<Command>
    decreases |s|, 0
  {
    match NextToken(s)
    case None => Some(cmd)
    case Some((tok, rest)) =>
      if |tok| >= TOKEN_BUFFER then None
      else if tok == [PIPE] then
        match Parse(rest)
        case None => None
        case Some(c) => Some(cmd.(next := Some(c)))
      else if tok == [AMPERSAND] then ParseRest(rest, cmd)
      else ParseRest(rest, AddToken(cmd, tok))
  }

  predicate EndsWith(s: Text, c: int) {
    s != [] && s[|s| - 1] == c
  }

  function Fresh(name: Text, background: bool, autoComplete: bool): Command {
    Command(name, background, autoComplete, [], None, None, None, None)
  }

  /** A whole line.  None when it has no first token: the code measures a null pointer. */
  function Parse(s: Text): Option<Command>
    decreases |s|, 1
  {
    TrimShortens(s);
    var t := TrimRight(TrimLeft(s));
    match NextToken(t)
    case None => None
    case Some((name, rest)) => ParseRest(rest, Fresh(name, EndsWith(t, AMPERSAND), EndsWith(t, QUESTION)))
  }

  lemma {:induction false} TrimLeftShortens(s: Text)
    ensures |TrimLeft(s)| <= |s|
  {
    if s != [] && Blank(s[0]) { TrimLeftShortens(s[1..]); }
  }

  lemma {:induction false} TrimRightShortens(s: Text)
    ensures |TrimRight(s)| <= |s|
    decreases |s|
  {
    if s != [] && Blank(s[|s| - 1]) { TrimRightShortens(s[..|s| - 1]); }
  }

  lemma TrimShortens(s: Text)
    ensures |TrimRight(TrimLeft(s))| <= |s|
  {
    TrimLeftShortens(s);
    TrimRightShortens(TrimLeft(s));
  }

  predicate NoBlank(s: Text) {
    forall i :: 0 <= i < |s| ==> !Blank(s[i])
  }
}
