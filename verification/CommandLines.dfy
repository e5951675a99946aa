/** What holds of every command line that can be parsed. */
module CommandLines {
  import opened Wrappers
  import opened CommandParser

  predicate TidyFile(file: Option<Text>) {
    file.Some? ==> NoBlank(file.value)
  }

  /** No name and no argument in the chain is empty, and no text in it has a blank. */
  predicate Tidy(cmd: Command) {
    && cmd.name != [] && NoBlank(cmd.name)
    && (forall i :: 0 <= i < |cmd.args| ==> cmd.args[i] != [] && NoBlank(cmd.args[i]))
    && TidyFile(cmd.input) && TidyFile(cmd.output) && TidyFile(cmd.append)
    && (cmd.next.Some? ==> Tidy(cmd.next.value))
  }

  /** A token has no blank, and the rest is the end of the text. */
  lemma {:induction false} TokenIsWord(s: Text)
    requires NextToken(s).Some?
    ensures var (tok, rest) := NextToken(s).value; NoBlank(tok) && rest == s[|s| - |rest|..]
    decreases |s|
  {
    if Blank(s[0]) {
      TokenIsWord(s[1..]);
      var rest := NextToken(s).value.1;
      assert s[1..][|s| - 1 - |rest|..] == s[|s| - |rest|..];
    }
  }

  lemma AddKeepsTidy(cmd: Command, tok: Text)
    requires Tidy(cmd) && tok != [] && NoBlank(tok)
    ensures Tidy(AddToken(cmd, tok))
  {
    assert NoBlank(Unquote(tok)) && NoBlank(tok[1..]);
    assert |tok| > 1 ==> NoBlank(tok[2..]);
    var cmd' := AddToken(cmd, tok);
    assert cmd'.name == cmd.name && cmd'.next == cmd.next;
    assert forall i :: 0 <= i < |cmd.args| ==> cmd'.args[i] == cmd.args[i];
  }

  lemma {:induction false} RestIsTidy(s: Text, cmd: Command)
    requires Tidy(cmd)
    ensures var r := ParseRest(s, cmd); r.Some? ==> Tidy(r.value)
    decreases |s|, 0
  {
    match NextToken(s)
    case None =>
    case Some((tok, rest)) =>
      TokenIsWord(s);
      if |tok| < TOKEN_BUFFER {
        if tok == [PIPE] {
          ParsedIsTidy(rest);
        } else if tok == [AMPERSAND] {
          RestIsTidy(rest, cmd);
        } else {
          AddKeepsTidy(cmd, tok);
          RestIsTidy(rest, AddToken(cmd, tok));
        }
      }
  }

  /** Quotes or not, no text in a result has a blank. */
  lemma {:induction false} ParsedIsTidy(s: Text)
    ensures Parse(s).Some? ==> Tidy(Parse(s).value)
    decreases |s|, 1
  {
    TrimShortens(s);
    var t := TrimRight(TrimLeft(s));
    match NextToken(t)
    case None =>
    case Some((name, rest)) =>
      TokenIsWord(t);
      RestIsTidy(rest, Fresh(name, EndsWith(t, AMPERSAND), EndsWith(t, QUESTION)));
  }

  // ---- Flags --------------------------------------------------------------------------------------

  /** The last character that is not a blank is `c`. */
  predicate Closes(s: Text, c: int) {
    EndsWith(TrimRight(s), c)
  }

  /** Every command of the chain has these flags. */
  predicate AllFlags(cmd: Command, background: bool, autoComplete: bool) {
    && cmd.background == background && cmd.autoComplete == autoComplete
    && (cmd.next.Some? ==> AllFlags(cmd.next.value, background, autoComplete))
  }

  /** An end that is not all blanks closes the text. */
  lemma {:induction false} EndCloses(s: Text, k: nat)
    requires k <= |s| && TrimRight(s[k..]) != []
    ensures TrimRight(s) != [] && TrimRight(s)[|TrimRight(s)| - 1] == TrimRight(s[k..])[|TrimRight(s[k..])| - 1]
    decreases |s|
  {
    var t := s[k..];
    assert t != [] && t[|t| - 1] == s[|s| - 1];
    if Blank(s[|s| - 1]) {
      assert s[..|s| - 1][k..] == t[..|t| - 1];
      EndCloses(s[..|s| - 1], k);
    }
  }

  /** Trimming on the left leaves the end as it is. */
  lemma {:induction false} TrimLeftIsEnd(s: Text)
    ensures |TrimLeft(s)| <= |s| && TrimLeft(s) == s[|s| - |TrimLeft(s)|..]
    decreases |s|
  {
    if s != [] && Blank(s[0]) {
      TrimLeftIsEnd(s[1..]);
      assert s[1..][|s| - 1 - |TrimLeft(s)|..] == s[|s| - |TrimLeft(s)|..];
    }
  }

  lemma TrimKeepsClose(s: Text, c: int)
    requires TrimRight(TrimLeft(s)) != []
    ensures TrimRight(s) != [] && (Closes(s, c) <==> EndsWith(TrimRight(TrimLeft(s)), c))
  {
    TrimLeftIsEnd(s);
    EndCloses(s, |s| - |TrimLeft(s)|);
  }

  lemma {:induction false} TrimmedTwice(s: Text)
    ensures TrimRight(TrimRight(s)) == TrimRight(s)
    decreases |s|
  {
    if s != [] && Blank(s[|s| - 1]) {
      TrimmedTwice(s[..|s| - 1]);
    }
  }

  lemma RestCloses(s: Text, c: int)
    requires NextToken(s).Some? && TrimRight(NextToken(s).value.1) != []
    ensures Closes(NextToken(s).value.1, c) <==> Closes(s, c)
  {
    TokenIsWord(s);
    EndCloses(s, |s| - |NextToken(s).value.1|);
  }

  /** The line closes as the flags say, unless only blanks are left. */
  predicate FlagsFit(s: Text, background: bool, autoComplete: bool) {
    TrimRight(s) != [] ==> background == Closes(s, AMPERSAND) && autoComplete == Closes(s, QUESTION)
  }

  lemma {:induction false} RestHasFlags(s: Text, cmd: Command, background: bool, autoComplete: bool)
    requires AllFlags(cmd, background, autoComplete) && FlagsFit(s, background, autoComplete)
    ensures var r := ParseRest(s, cmd); r.Some? ==> AllFlags(r.value, background, autoComplete)
    decreases |s|, 0
  {
    match NextToken(s)
    case None =>
    case Some((tok, rest)) =>
      RestFlagsFit(s, background, autoComplete);
      if |tok| < TOKEN_BUFFER {
        if tok == [PIPE] {
          EveryStageHasFlags(rest);
          if TrimRight(rest) == [] {
            NothingToParse(rest);
          }
        } else if tok == [AMPERSAND] {
          RestHasFlags(rest, cmd, background, autoComplete);
        } else {
          RestHasFlags(rest, AddToken(cmd, tok), background, autoComplete);
        }
      }
  }

  lemma RestFlagsFit(s: Text, background: bool, autoComplete: bool)
    requires NextToken(s).Some? && FlagsFit(s, background, autoComplete)
    ensures FlagsFit(NextToken(s).value.1, background, autoComplete)
  {
    var rest := NextToken(s).value.1;
    if TrimRight(rest) != [] {
      RestCloses(s, AMPERSAND);
      RestCloses(s, QUESTION);
      TokenIsWord(s);
      EndCloses(s, |s| - |rest|);
    }
  }

  lemma NothingToParse(s: Text)
    requires TrimRight(s) == []
    ensures Parse(s).None?
  {
    if TrimRight(TrimLeft(s)) != [] {
      TrimKeepsClose(s, SPACE);
    }
  }

  /** On every line that is parsed: all stages are in the background if the line ends in `&`,
      blanks aside, and none if it does not; likewise for `?` and completion. */
  lemma {:induction false} EveryStageHasFlags(s: Text)
    ensures Parse(s).Some? ==> AllFlags(Parse(s).value, Closes(s, AMPERSAND), Closes(s, QUESTION))
    decreases |s|, 1
  {
    TrimShortens(s);
    var t := TrimRight(TrimLeft(s));
    match NextToken(t)
    case None =>
    case Some((name, rest)) =>
      TrimKeepsClose(s, AMPERSAND);
      TrimKeepsClose(s, QUESTION);
      TrimmedTwice(TrimLeft(s));
      RestFlagsFit(t, Closes(s, AMPERSAND), Closes(s, QUESTION));
      RestHasFlags(rest, Fresh(name, EndsWith(t, AMPERSAND), EndsWith(t, QUESTION)),
                   Closes(s, AMPERSAND), Closes(s, QUESTION));
  }

  /** A trailing `&` sends every stage to the background. */
  lemma AmpersandMarksEveryStage(s: Text)
    requires Closes(s, AMPERSAND) && Parse(s).Some?
    ensures AllFlags(Parse(s).value, true, false)
  {
    EveryStageHasFlags(s);
  }
}
