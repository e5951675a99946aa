/** Command lines as lists of words.  What a line means depends on its words alone, however
    they are laid out, and each kind of word means one thing. */
module CommandWords {
  import opened Wrappers
  import opened CommandParser

  // ---- Layout ---------------------------------------------------------------------------------------

  /** Spaces and tabs only. */
  predicate IsGap(g: Text) {
    forall i :: 0 <= i < |g| ==> g[i] == 32 || g[i] == 9
  }

  /** At least one character, and no space or tab. */
  predicate IsWord(w: Text) {
    w != [] && forall i :: 0 <= i < |w| ==> w[i] != 32 && w[i] != 9
  }

  predicate AllWords(words: seq<Text>) {
    forall i :: 0 <= i < |words| ==> IsWord(words[i])
  }

  /** A gap in front of each word and behind the last; between two words it is not empty. */
  predicate Spaced(words: seq<Text>, gaps: seq<Text>) {
    && |gaps| == |words| + 1 && AllWords(words)
    && (forall i :: 0 <= i < |gaps| ==> IsGap(gaps[i]))
    && (forall i :: 0 < i < |words| ==> gaps[i] != [])
  }

  function Lay(words: seq<Text>, gaps: seq<Text>): Text
    requires |gaps| == |words| + 1
  {
    if words == [] then gaps[0] else gaps[0] + (words[0] + Lay(words[1..], gaps[1..]))
  }

  // ---- The reference --------------------------------------------------------------------------------

  /** The words behind a name. */
  function ReadWords(words: seq<Text>, cmd: Command): Option<Command>
    requires AllWords(words)
    decreases |words|, 0
  {
    if words == [] then Some(cmd)
    else if |words[0]| >= TOKEN_BUFFER then None
    else if words[0] == [PIPE] then
      match ReadLine(words[1..])
      case None => None
      case Some(c) => Some(cmd.(next := Some(c)))
    else if words[0] == [AMPERSAND] then ReadWords(words[1..], cmd)
    else ReadWords(words[1..], AddToken(cmd, words[0]))
  }

  /** The words of a line. */
  function ReadLine(words: seq<Text>): Option<Command>
    requires AllWords(words)
    decreases |words|, 1
  {
    if words == [] then None else
      var last := words[|words| - 1];
      ReadWords(words[1..], Fresh(words[0], EndsWith(last, AMPERSAND), EndsWith(last, QUESTION)))
  }

  // ---- The parser follows it ------------------------------------------------------------------------

  lemma {:induction false} GapBeforeToken(g: Text, s: Text)
    requires IsGap(g)
    ensures NextToken(g + s) == NextToken(s)
    decreases |g|
  {
    if g == [] {
      assert g + s == s;
    } else {
      assert (g + s)[1..] == g[1..] + s;
      GapBeforeToken(g[1..], s);
    }
  }

  lemma {:induction false} WordLengthIs(w: Text, more: Text)
    requires (forall i :: 0 <= i < |w| ==> w[i] != 32 && w[i] != 9) && (more != [] ==> more[0] == 32 || more[0] == 9)
    ensures WordLength(w + more) == |w|
    decreases |w|
  {
    if w == [] {
      assert w + more == more;
    } else {
      assert (w + more)[1..] == w[1..] + more;
      WordLengthIs(w[1..], more);
    }
  }

  lemma TokenIs(w: Text, more: Text)
    requires IsWord(w) && (more != [] ==> more[0] == 32 || more[0] == 9)
    ensures NextToken(w + more) == Some((w, if more == [] then [] else more[1..]))
  {
    var s := w + more;
    assert s[0] == w[0];
    WordLengthIs(w, more);
    assert s[..|w|] == w;
    assert more != [] ==> s[|w| + 1..] == more[1..];
  }

  /** The gaps behind the first word, without the separator that `strtok` consumes. */
  function GapsBehind(gaps: seq<Text>): seq<Text>
    requires |gaps| >= 2
  {
    gaps[1..][0 := if gaps[1] == [] then [] else gaps[1][1..]]
  }

  lemma LayBegins(words: seq<Text>, gaps: seq<Text>)
    requires Spaced(words, gaps) && words != []
    ensures var more := Lay(words[1..], gaps[1..]);
      && (more != [] ==> more[0] == 32 || more[0] == 9)
      && (if more == [] then [] else more[1..]) == Lay(words[1..], GapsBehind(gaps))
      && Spaced(words[1..], gaps[1..]) && Spaced(words[1..], GapsBehind(gaps))
  {
    var rest, g := words[1..], gaps[1..];
    assert g[0] == gaps[1] && GapsBehind(gaps)[1..] == g[1..];
    if rest != [] {
      var tail := rest[0] + Lay(rest[1..], g[1..]);
      assert gaps[1] != [];
      assert (gaps[1] + tail)[1..] == gaps[1][1..] + tail;
    }
  }

  lemma LayToken(words: seq<Text>, gaps: seq<Text>)
    requires Spaced(words, gaps) && words != []
    ensures Spaced(words[1..], GapsBehind(gaps))
    ensures NextToken(Lay(words, gaps)) == Some((words[0], Lay(words[1..], GapsBehind(gaps))))
  {
    var more := Lay(words[1..], gaps[1..]);
    LayBegins(words, gaps);
    hide NextToken;
    GapBeforeToken(gaps[0], words[0] + more);
    TokenIs(words[0], more);
  }

  lemma LayNothing(words: seq<Text>, gaps: seq<Text>)
    requires Spaced(words, gaps) && words == []
    ensures NextToken(Lay(words, gaps)) == None
  {
    GapBeforeToken(gaps[0], []);
    assert gaps[0] + [] == gaps[0];
  }

  lemma {:induction false} RestIsReadWords(words: seq<Text>, gaps: seq<Text>, cmd: Command)
    requires Spaced(words, gaps)
    ensures ParseRest(Lay(words, gaps), cmd) == ReadWords(words, cmd)
    decreases |words|, 0
  {
    assert |gaps| == |words| + 1;
    hide Lay, Spaced, NextToken, GapsBehind, Parse, ReadLine, AddToken;
    if words == [] {
      LayNothing(words, gaps);
    } else {
      LayToken(words, gaps);
      var rest, g := words[1..], GapsBehind(gaps);
      if |words[0]| < TOKEN_BUFFER {
        if words[0] == [PIPE] {
          ParseIsReadLine(rest, g);
        } else if words[0] == [AMPERSAND] {
          RestIsReadWords(rest, g, cmd);
        } else {
          RestIsReadWords(rest, g, AddToken(cmd, words[0]));
        }
      }
    }
  }

  // ---- Trimming -------------------------------------------------------------------------------------

  lemma {:induction false} TrimLeftGap(g: Text, s: Text)
    requires IsGap(g)
    ensures TrimLeft(g + s) == TrimLeft(s)
    decreases |g|
  {
    if g == [] {
      assert g + s == s;
    } else {
      assert (g + s)[1..] == g[1..] + s;
      TrimLeftGap(g[1..], s);
    }
  }

  lemma {:induction false} TrimRightGap(s: Text, g: Text)
    requires IsGap(g)
    ensures TrimRight(s + g) == TrimRight(s)
    decreases |g|
  {
    if g == [] {
      assert s + g == s;
    } else {
      var n := |g| - 1;
      assert (s + g)[..|s + g| - 1] == s + g[..n];
      TrimRightGap(s, g[..n]);
    }
  }

  /** The same line with nothing behind its last word. */
  lemma {:induction false} LayEnds(words: seq<Text>, gaps: seq<Text>)
    requires Spaced(words, gaps) && words != []
    ensures var n := |words|;
      var t, last := Lay(words, gaps[n := []]), words[n - 1];
      && Spaced(words, gaps[n := []]) && Lay(words, gaps) == t + gaps[n]
      && t != [] && t[|t| - 1] == last[|last| - 1]
    decreases |words|
  {
    var n := |words|;
    var rest, g := words[1..], gaps[1..];
    assert gaps[n := []][1..] == g[n - 1 := []];
    if n == 1 {
      assert gaps[n := []][0] == gaps[0] && gaps[n := []][1] == [];
      assert gaps[0] + (words[0] + gaps[1]) == (gaps[0] + (words[0] + [])) + gaps[1];
      assert words[0] + [] == words[0];
    } else {
      LayEnds(rest, g);
      var t := Lay(rest, g[n - 1 := []]);
      assert gaps[0] + (words[0] + (t + gaps[n])) == (gaps[0] + (words[0] + t)) + gaps[n];
    }
  }

  lemma TrimLeftLay(words: seq<Text>, gaps: seq<Text>)
    requires Spaced(words, gaps) && words != []
    ensures Spaced(words, gaps[0 := []]) && TrimLeft(Lay(words, gaps)) == Lay(words, gaps[0 := []])
  {
    var bare := gaps[0 := []];
    var s := words[0] + Lay(words[1..], gaps[1..]);
    assert bare[1..] == gaps[1..] && [] + s == s;
    TrimLeftGap(gaps[0], s);
    assert TrimLeft(s) == s;
  }

  lemma TrimRightSolid(t: Text, w: Text)
    requires t != [] && IsWord(w) && t[|t| - 1] == w[|w| - 1]
    ensures TrimRight(t) == t
  {
  }

  lemma TrimLay(words: seq<Text>, gaps: seq<Text>)
    requires Spaced(words, gaps) && words != []
    ensures var n := |words|;
      var t := Lay(words, gaps[n := []][0 := []]);
      && Spaced(words, gaps[n := []][0 := []]) && TrimRight(TrimLeft(Lay(words, gaps))) == t
      && t != [] && t[|t| - 1] == words[n - 1][|words[n - 1]| - 1]
  {
    var n := |words|;
    var bare := gaps[0 := []];
    assert bare[n := []] == gaps[n := []][0 := []];
    assert IsWord(words[n - 1]) && IsGap(gaps[n]) && bare[n] == gaps[n];
    hide Lay, Spaced, IsGap, IsWord, TrimLeft, TrimRight;
    TrimLeftLay(words, gaps);
    LayEnds(words, bare);
    var t := Lay(words, bare[n := []]);
    TrimRightGap(t, bare[n]);
    TrimRightSolid(t, words[n - 1]);
  }

  lemma {:induction false} ParseIsReadLine(words: seq<Text>, gaps: seq<Text>)
    requires Spaced(words, gaps)
    ensures Parse(Lay(words, gaps)) == ReadLine(words)
    decreases |words|, 1
  {
    if words == [] {
      GapHasNothing(gaps[0]);
    } else {
      var n := |words|;
      var bare := gaps[n := []][0 := []];
      var t := Lay(words, bare);
      hide Lay, Spaced, NextToken, TrimLeft, TrimRight, ParseRest, ReadWords;
      TrimLay(words, gaps);
      LayToken(words, bare);
      RestIsReadWords(words[1..], GapsBehind(bare), Fresh(words[0], EndsWith(t, AMPERSAND), EndsWith(t, QUESTION)));
    }
  }

  lemma GapHasNothing(g: Text)
    requires IsGap(g)
    ensures Parse(g) == None
  {
    TrimLeftGap(g, []);
    assert g + [] == g;
  }

  /** Layout makes no difference: two lines of the same words are read alike, whatever spaces
      and tabs are around the words. */
  lemma LayoutDoesNotMatter(words: seq<Text>, gaps: seq<Text>, others: seq<Text>)
    requires Spaced(words, gaps) && Spaced(words, others)
    ensures Parse(Lay(words, gaps)) == Parse(Lay(words, others))
  {
    ParseIsReadLine(words, gaps);
    ParseIsReadLine(words, others);
  }

  /** Every line is words with gaps around them. */
  lemma {:induction false} EveryLineIsLaid(s: Text) returns (words: seq<Text>, gaps: seq<Text>)
    ensures Spaced(words, gaps) && Lay(words, gaps) == s
  {
    if s == [] {
      words, gaps := [], [[]];
    } else {
      words, gaps := EveryLineIsLaid(s[1..]);
      assert s == [s[0]] + s[1..];
      if s[0] == 32 || s[0] == 9 {
        gaps := LongerGap(words, gaps, s[0]);
      } else if words != [] && gaps[0] == [] {
        words := LongerWord(words, gaps, s[0]);
      } else {
        words, gaps := NewWord(words, gaps, s[0]);
      }
    }
  }

  lemma LongerGap(words: seq<Text>, gaps: seq<Text>, c: int) returns (gaps': seq<Text>)
    requires Spaced(words, gaps) && (c == 32 || c == 9)
    ensures Spaced(words, gaps') && Lay(words, gaps') == [c] + Lay(words, gaps)
  {
    gaps' := gaps[0 := [c] + gaps[0]];
    assert gaps'[1..] == gaps[1..];
    if words != [] {
      var rest := words[0] + Lay(words[1..], gaps[1..]);
      assert ([c] + gaps[0]) + rest == [c] + (gaps[0] + rest);
    }
  }

  lemma LongerWord(words: seq<Text>, gaps: seq<Text>, c: int) returns (words': seq<Text>)
    requires Spaced(words, gaps) && words != [] && gaps[0] == [] && c != 32 && c != 9
    ensures Spaced(words', gaps) && Lay(words', gaps) == [c] + Lay(words, gaps)
  {
    words' := words[0 := [c] + words[0]];
    var rest := Lay(words[1..], gaps[1..]);
    assert words'[1..] == words[1..];
    assert [] + (([c] + words[0]) + rest) == [c] + ([] + (words[0] + rest));
  }

  lemma NewWord(words: seq<Text>, gaps: seq<Text>, c: int) returns (words': seq<Text>, gaps': seq<Text>)
    requires Spaced(words, gaps) && (words != [] ==> gaps[0] != []) && c != 32 && c != 9
    ensures Spaced(words', gaps') && Lay(words', gaps') == [c] + Lay(words, gaps)
  {
    words', gaps' := [[c]] + words, [[]] + gaps;
    assert words'[1..] == words && gaps'[1..] == gaps;
  }

  // ---- What the words mean ------------------------------------------------------------------------------

  /** `w` is `x` in quotes or apostrophes. */
  predicate Wraps(w: Text, x: Text) {
    x != [] && (w == [34] + x + [34] || w == [39] + x + [39])
  }

  /** What an argument is: the text inside its quotes if it has any, the word itself if not. */
  lemma ArgumentOf(w: Text)
    ensures forall x :: Wraps(w, x) ==> Unquote(w) == x
    ensures (forall x :: !Wraps(w, x)) ==> Unquote(w) == w
  {
    forall x | Wraps(w, x)
      ensures Unquote(w) == x
    {
      assert w[1..|w| - 1] == x;
    }
    if |w| > 2 && w[0] == w[|w| - 1] && (w[0] == 34 || w[0] == 39) {
      var x := w[1..|w| - 1];
      assert w == [w[0]] + x + [w[0]];
      assert Wraps(w, x);
    }
  }

  /** Words that are an argument: they do not start with `<` or `>`, and are not `&`. */
  predicate IsArgument(w: Text) {
    w != [] && w[0] != 60 && w[0] != 62 && w != [38]
  }

  predicate IsInput(w: Text) {
    w != [] && w[0] == 60
  }

  predicate IsAppend(w: Text) {
    |w| > 1 && w[0] == 62 && w[1] == 62
  }

  predicate IsOutput(w: Text) {
    w != [] && w[0] == 62 && !IsAppend(w)
  }

  /** The arguments among the words, in order, without their quotes. */
  function ArgumentsIn(words: seq<Text>): seq<Text> {
    if words == [] then []
    else (if IsArgument(words[0]) then [Unquote(words[0])] else []) + ArgumentsIn(words[1..])
  }

  /** The last word of a kind, without the sign in front; `before` if there is none. */
  function LastOf(words: seq<Text>, kind: Text -> bool, sign: nat, before: Option<Text>): Option<Text> {
    if words == [] then before
    else
      var w := words[|words| - 1];
      if kind(w) && sign <= |w| then Some(w[sign..]) else LastOf(words[..|words| - 1], kind, sign, before)
  }

  /** A command without a pipe, in any order of its words: the arguments are collected, and of
      several files of a kind the last is taken. */
  lemma {:induction false} WordsMean(words: seq<Text>, cmd: Command)
    requires AllWords(words) && forall i :: 0 <= i < |words| ==> words[i] != [124] && |words[i]| <= 1023
    ensures ReadWords(words, cmd) == Some(cmd.(
      args := cmd.args + ArgumentsIn(words),
      input := LastOf(words, IsInput, 1, cmd.input),
      output := LastOf(words, IsOutput, 1, cmd.output),
      append := LastOf(words, IsAppend, 2, cmd.append)))
    decreases |words|
  {
    if words == [] {
      assert cmd.args + [] == cmd.args;
    } else {
      var w, rest := words[0], words[1..];
      var cmd' := if w == [AMPERSAND] then cmd else AddToken(cmd, w);
      WordsMean(rest, cmd');
      LastOfNext(words, IsInput, 1, cmd.input);
      LastOfNext(words, IsOutput, 1, cmd.output);
      LastOfNext(words, IsAppend, 2, cmd.append);
      assert cmd.args + [Unquote(w)] + ArgumentsIn(rest) == cmd.args + ([Unquote(w)] + ArgumentsIn(rest));
      assert cmd.args + ([] + ArgumentsIn(rest)) == cmd.args + ArgumentsIn(rest);
      hide Unquote, LastOf;
    }
  }

  lemma {:induction false} LastOfNext(words: seq<Text>, kind: Text -> bool, sign: nat, before: Option<Text>)
    requires words != []
    ensures var w := words[0];
      LastOf(words, kind, sign, before)
      == LastOf(words[1..], kind, sign, if kind(w) && sign <= |w| then Some(w[sign..]) else before)
    decreases |words|
  {
    var n := |words| - 1;
    if n == 0 {
      assert words[..0] == [] && words[1..] == [];
    } else {
      assert words[1..][n - 1] == words[n] && words[1..][..n - 1] == words[..n][1..];
      LastOfNext(words[..n], kind, sign, before);
    }
  }

  /** What stands before a `|` belongs to the command there, what stands behind it to the next. */
  lemma {:induction false} PipeSplits(words: seq<Text>, more: seq<Text>, cmd: Command)
    requires AllWords(words) && AllWords(more)
    requires forall i :: 0 <= i < |words| ==> words[i] != [124] && |words[i]| <= 1023
    ensures ReadWords(words, cmd).Some? && AllWords(words + [[124]] + more)
    ensures ReadWords(words + [[124]] + more, cmd) ==
      match ReadLine(more)
      case None => None
      case Some(c) => Some(ReadWords(words, cmd).value.(next := Some(c)))
    decreases |words|
  {
    var all := words + [[124]] + more;
    if words == [] {
      assert all[0] == [PIPE] && all[1..] == more;
    } else {
      var w, rest := words[0], words[1..];
      assert all[0] == w && all[1..] == rest + [[124]] + more;
      PipeSplits(rest, more, if w == [AMPERSAND] then cmd else AddToken(cmd, w));
    }
  }

  /** A word of 1024 characters or more, before any pipe, has no outcome. */
  lemma {:induction false} LongWordFails(words: seq<Text>, w: Text, more: seq<Text>, cmd: Command)
    requires AllWords(words) && IsWord(w) && AllWords(more) && |w| >= 1024
    requires forall i :: 0 <= i < |words| ==> words[i] != [124]
    ensures AllWords(words + [w] + more) && ReadWords(words + [w] + more, cmd) == None
    decreases |words|
  {
    var all := words + [w] + more;
    if words == [] {
      assert all[0] == w;
    } else {
      assert all[0] == words[0] && all[1..] == words[1..] + [w] + more;
      LongWordFails(words[1..], w, more, if words[0] == [AMPERSAND] then cmd else AddToken(cmd, words[0]));
    }
  }

  lemma {:induction false} NameStays(words: seq<Text>, cmd: Command)
    requires AllWords(words) && ReadWords(words, cmd).Some?
    ensures var c := ReadWords(words, cmd).value;
      c.name == cmd.name && c.background == cmd.background && c.autoComplete == cmd.autoComplete
    decreases |words|
  {
    if words != [] && words[0] != [PIPE] {
      NameStays(words[1..], if words[0] == [AMPERSAND] then cmd else AddToken(cmd, words[0]));
    }
  }

  /** The first word is the name; the last character of the line says where the command runs
      and whether it is to be completed. */
  lemma FirstAndLast(words: seq<Text>)
    requires AllWords(words) && ReadLine(words).Some?
    ensures var c, last := ReadLine(words).value, words[|words| - 1];
      && c.name == words[0]
      && (c.background <==> last[|last| - 1] == 38) && (c.autoComplete <==> last[|last| - 1] == 63)
  {
    var last := words[|words| - 1];
    NameStays(words[1..], Fresh(words[0], EndsWith(last, AMPERSAND), EndsWith(last, QUESTION)));
  }
}
