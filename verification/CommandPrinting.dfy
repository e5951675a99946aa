/** Pipelines printed as command lines: what the parser makes of them, and which of them it
    reads back. */
module CommandPrinting {
  import opened Wrappers
  import opened CommandParser
  import opened CommandLines
  import opened CommandWords

  // ---- Printing -----------------------------------------------------------------------------------

  /** An argument, and how it is typed. */
  datatype Arg = Bare(text: Text) | Quoted(text: Text) | Apostrophed(text: Text)

  /** One command of a pipeline. */
  datatype Stage = Stage(name: Text, args: seq<Arg>, input: Option<Text>, output: Option<Text>, append: Option<Text>)

  function ArgWord(a: Arg): Text {
    match a
    case Bare(text) => text
    case Quoted(text) => [QUOTE] + text + [QUOTE]
    case Apostrophed(text) => [APOSTROPHE] + text + [APOSTROPHE]
  }

  function ArgWords(args: seq<Arg>): seq<Text> {
    if args == [] then [] else [ArgWord(args[0])] + ArgWords(args[1..])
  }

  function FileWords(sign: Text, file: Option<Text>): seq<Text> {
    match file
    case None => []
    case Some(f) => [sign + f]
  }

  function Files(st: Stage): seq<Text> {
    FileWords([LESS], st.input) + FileWords([GREATER], st.output) + FileWords([GREATER, GREATER], st.append)
  }

  /** The words of a stage behind its name. */
  function Body(st: Stage): seq<Text> {
    ArgWords(st.args) + Files(st)
  }

  /** Stages with `|` between them, and `&` at the end or not. */
  function Words(stages: seq<Stage>, ampersand: bool): (words: seq<Text>)
    requires stages != []
    ensures words != [] && words[0] == stages[0].name
  {
    [stages[0].name] + (Body(stages[0]) +
      if |stages| > 1 then [[PIPE]] + Words(stages[1..], ampersand)
      else if ampersand then [[AMPERSAND]] else [])
  }

  /** Words with one space between them. */
  function Join(words: seq<Text>): Text {
    if words == [] then []
    else words[0] + if |words| == 1 then [] else [SPACE] + Join(words[1..])
  }

  function Print(stages: seq<Stage>, ampersand: bool): Text
    requires stages != []
  {
    Join(Words(stages, ampersand))
  }

  function Texts(args: seq<Arg>): (texts: seq<Text>)
    ensures |texts| == |args|
  {
    if args == [] then [] else [args[0].text] + Texts(args[1..])
  }

  /** The commands that the line stands for. */
  function Build(stages: seq<Stage>, background: bool, autoComplete: bool): Command
    requires stages != []
  {
    var st := stages[0];
    Command(st.name, background, autoComplete, Texts(st.args), st.input, st.output, st.append,
            if |stages| == 1 then None else Some(Build(stages[1..], background, autoComplete)))
  }

  // ---- What can be read back ----------------------------------------------------------------------

  predicate FileUnbroken(file: Option<Text>) {
    file.Some? ==> NoBlank(file.value)
  }

  /** The words of the stage come out as they were put in: there is no blank in its name, its
      arguments and its file names, and neither its name nor a bare argument is empty. */
  predicate Unbroken(st: Stage) {
    && st.name != [] && NoBlank(st.name)
    && (forall i :: 0 <= i < |st.args| ==> NoBlank(st.args[i].text) && (st.args[i].Bare? ==> st.args[i].text != []))
    && FileUnbroken(st.input) && FileUnbroken(st.output) && FileUnbroken(st.append)
  }

  /** The argument is taken for one: if it is bare, it does not start with `<` or `>`, and is
      neither `|` nor `&`. */
  predicate Arrives(a: Arg) {
    a.Bare? ==> a.text != [] && a.text[0] != LESS && a.text[0] != GREATER && a.text != [PIPE] && a.text != [AMPERSAND]
  }

  predicate AllArrive(args: seq<Arg>) {
    forall i :: 0 <= i < |args| ==> Arrives(args[i])
  }

  /** Each word behind the name fits its buffer, quotes and signs included. */
  predicate TokensFit(st: Stage) {
    forall i :: 0 <= i < |Body(st)| ==> |Body(st)[i]| < TOKEN_BUFFER
  }

  /** In quotes or apostrophes, with something between them. */
  predicate Wrapped(w: Text) {
    |w| > 2 && w[0] == w[|w| - 1] && (w[0] == QUOTE || w[0] == APOSTROPHE)
  }

  /** The argument loses what was typed around it, and nothing else: it is not empty, and if it
      is bare it is not wrapped. */
  predicate ArgReadsBack(a: Arg) {
    a.text != [] && (a.Bare? ==> !Wrapped(a.text))
  }

  predicate StartsGreater(file: Option<Text>) {
    file.Some? && file.value != [] && file.value[0] == GREATER
  }

  predicate ReadsBack(st: Stage) {
    (forall i :: 0 <= i < |st.args| ==> ArgReadsBack(st.args[i])) && !StartsGreater(st.output)
  }

  /** Nothing about the stage is lost in printing. */
  predicate Printable(st: Stage) {
    Unbroken(st) && AllArrive(st.args) && TokensFit(st) && ReadsBack(st)
  }

  // ---- What is heard ------------------------------------------------------------------------------

  /** Quotes with nothing between them stay; a bare argument that is wrapped loses its wrapping. */
  function HeardArg(a: Arg): Text {
    if a.text == [] then ArgWord(a)
    else if a.Bare? && Wrapped(a.text) then a.text[1..|a.text| - 1]
    else a.text
  }

  function HeardArgs(args: seq<Arg>): (heard: seq<Text>)
    ensures |heard| == |args|
  {
    if args == [] then [] else [HeardArg(args[0])] + HeardArgs(args[1..])
  }

  /** The stage as it is understood: an output file that starts with `>` is taken for a file
      to append to. */
  function Heard(st: Stage, background: bool, autoComplete: bool): Command {
    Command(st.name, background, autoComplete, HeardArgs(st.args), st.input,
            if StartsGreater(st.output) then None else st.output,
            if st.append.Some? then st.append
            else if StartsGreater(st.output) then Some(st.output.value[1..]) else None,
            None)
  }

  function HeardAll(stages: seq<Stage>, background: bool, autoComplete: bool): Command
    requires stages != []
  {
    Heard(stages[0], background, autoComplete).(
      next := if |stages| == 1 then None else Some(HeardAll(stages[1..], background, autoComplete)))
  }

  predicate Typed(args: seq<Arg>) {
    forall i :: 0 <= i < |args| && args[i].Bare? ==> args[i].text != []
  }

  lemma {:induction false} HeardArgsSame(args: seq<Arg>)
    requires Typed(args)
    ensures HeardArgs(args) == Texts(args) <==> forall i :: 0 <= i < |args| ==> ArgReadsBack(args[i])
    decreases |args|
  {
    if args != [] {
      HeardArgsSame(args[1..]);
      assert HeardArgs(args)[1..] == HeardArgs(args[1..]) && Texts(args)[1..] == Texts(args[1..]);
      assert HeardArgs(args)[0] == HeardArg(args[0]) && Texts(args)[0] == args[0].text;
      HeardArgSame(args[0]);
      assert args == [args[0]] + args[1..];
    }
  }

  lemma HeardArgSame(a: Arg)
    requires a.Bare? ==> a.text != []
    ensures HeardArg(a) == a.text <==> ArgReadsBack(a)
  {
    assert |HeardArg(a)| == |a.text| <==> ArgReadsBack(a);
  }

  lemma HeardSame(st: Stage, background: bool, autoComplete: bool)
    requires Typed(st.args)
    ensures Heard(st, background, autoComplete) == Build([st], background, autoComplete) <==> ReadsBack(st)
  {
    HeardArgsSame(st.args);
  }

  lemma {:induction false} HeardAllSame(stages: seq<Stage>, background: bool, autoComplete: bool)
    requires stages != [] && forall i :: 0 <= i < |stages| ==> Typed(stages[i].args)
    ensures HeardAll(stages, background, autoComplete) == Build(stages, background, autoComplete)
            <==> forall i :: 0 <= i < |stages| ==> ReadsBack(stages[i])
    decreases |stages|
  {
    HeardSame(stages[0], background, autoComplete);
    assert stages == [stages[0]] + stages[1..];
    if |stages| > 1 {
      HeardAllSame(stages[1..], background, autoComplete);
    }
    hide ReadsBack, StartsGreater, HeardArgs, Texts;
  }

  // ---- The words of a stage -------------------------------------------------------------------------

  lemma {:induction false} ArgumentsAppend(a: seq<Text>, b: seq<Text>)
    ensures ArgumentsIn(a + b) == ArgumentsIn(a) + ArgumentsIn(b)
    decreases |a|
  {
    if a == [] {
      assert a + b == b;
    } else {
      assert (a + b)[1..] == a[1..] + b;
      ArgumentsAppend(a[1..], b);
    }
  }

  lemma {:induction false} ArgumentsBound(words: seq<Text>)
    ensures |ArgumentsIn(words)| <= |words|
    ensures |ArgumentsIn(words)| == |words| <==> forall i :: 0 <= i < |words| ==> IsArgument(words[i])
    decreases |words|
  {
    if words != [] {
      ArgumentsBound(words[1..]);
      assert words == [words[0]] + words[1..];
    }
  }

  lemma FilesAreNoArguments(st: Stage)
    ensures ArgumentsIn(Files(st)) == []
    ensures forall i :: 0 <= i < |Files(st)| ==> Files(st)[i] != [PIPE]
  {
    FileIsNoArgument([LESS], st.input);
    FileIsNoArgument([GREATER], st.output);
    FileIsNoArgument([GREATER, GREATER], st.append);
    var a, b, c := FileWords([LESS], st.input), FileWords([GREATER], st.output), FileWords([GREATER, GREATER], st.append);
    ArgumentsAppend(a, b);
    ArgumentsAppend(a + b, c);
  }

  lemma FileIsNoArgument(sign: Text, file: Option<Text>)
    requires sign != [] && (sign[0] == LESS || sign[0] == GREATER)
    ensures ArgumentsIn(FileWords(sign, file)) == []
    ensures forall i :: 0 <= i < |FileWords(sign, file)| ==> FileWords(sign, file)[i] != [PIPE]
  {
    if file.Some? {
      assert (sign + file.value)[0] == sign[0];
      assert FileWords(sign, file)[1..] == [];
    }
  }

  lemma {:induction false} ArgWordsAre(args: seq<Arg>)
    ensures |ArgWords(args)| == |args| && forall i :: 0 <= i < |args| ==> ArgWords(args)[i] == ArgWord(args[i])
    decreases |args|
  {
    if args != [] {
      ArgWordsAre(args[1..]);
    }
  }

  /** An argument arrives if its word is an argument, and is heard without its wrapping. */
  lemma ArgIsHeard(a: Arg)
    requires ArgWord(a) != []
    ensures Arrives(a) <==> IsArgument(ArgWord(a)) && ArgWord(a) != [PIPE]
    ensures Arrives(a) ==> Unquote(ArgWord(a)) == HeardArg(a)
  {
    var w := ArgWord(a);
    ArgumentOf(w);
    if a.text != [] && !a.Bare? {
      assert Wraps(w, a.text);
    } else if a.Bare? && Wrapped(a.text) {
      var x := w[1..|w| - 1];
      assert w == [w[0]] + x + [w[0]];
      assert Wraps(w, x);
    }
  }

  lemma {:induction false} ArgsAreHeard(args: seq<Arg>)
    requires forall i :: 0 <= i < |args| ==> ArgWord(args[i]) != []
    requires AllArrive(args)
    ensures ArgumentsIn(ArgWords(args)) == HeardArgs(args)
    decreases |args|
  {
    if args != [] {
      ArgIsHeard(args[0]);
      ArgsAreHeard(args[1..]);
      assert ArgWords(args)[1..] == ArgWords(args[1..]);
    }
  }

  // ---- Its files ------------------------------------------------------------------------------------

  lemma {:induction false} LastOfAppend(a: seq<Text>, b: seq<Text>, kind: Text -> bool, sign: nat, before: Option<Text>)
    ensures LastOf(a + b, kind, sign, before) == LastOf(b, kind, sign, LastOf(a, kind, sign, before))
    decreases |b|
  {
    if b == [] {
      assert a + b == a;
    } else {
      var n := |b| - 1;
      assert (a + b)[..|a + b| - 1] == a + b[..n];
      LastOfAppend(a, b[..n], kind, sign, before);
    }
  }

  lemma {:induction false} LastOfNone(words: seq<Text>, kind: Text -> bool, sign: nat, before: Option<Text>)
    requires forall i :: 0 <= i < |words| ==> !kind(words[i])
    ensures LastOf(words, kind, sign, before) == before
    decreases |words|
  {
    if words != [] {
      LastOfNone(words[..|words| - 1], kind, sign, before);
    }
  }

  lemma LastOfFile(sign: Text, file: Option<Text>, kind: Text -> bool, n: nat, before: Option<Text>)
    requires n <= |sign|
    ensures LastOf(FileWords(sign, file), kind, n, before)
         == if file.Some? && kind(sign + file.value) then Some((sign + file.value)[n..]) else before
  {
    if file.Some? {
      assert FileWords(sign, file)[..0] == [];
    }
  }

  lemma LastOfFiles(st: Stage, kind: Text -> bool, n: nat)
    requires n <= 1 || (kind == IsAppend && n == 2)
    ensures var i, o, p := FileWords([LESS], st.input), FileWords([GREATER], st.output), FileWords([GREATER, GREATER], st.append);
      LastOf(Files(st), kind, n, None) == LastOf(p, kind, n, LastOf(o, kind, n, LastOf(i, kind, n, None)))
  {
    var i, o, p := FileWords([LESS], st.input), FileWords([GREATER], st.output), FileWords([GREATER, GREATER], st.append);
    LastOfAppend(i, o, kind, n, None);
    LastOfAppend(i + o, p, kind, n, None);
  }

  lemma FilesAreHeard(st: Stage)
    ensures var h, files := Heard(st, false, false), Files(st);
      && LastOf(files, IsInput, 1, None) == h.input
      && LastOf(files, IsOutput, 1, None) == h.output
      && LastOf(files, IsAppend, 2, None) == h.append
  {
    LastOfFiles(st, IsInput, 1);
    LastOfFiles(st, IsOutput, 1);
    LastOfFiles(st, IsAppend, 2);
    FileKinds([LESS], st.input);
    FileKinds([GREATER], st.output);
    FileKinds([GREATER, GREATER], st.append);
    hide LastOf, Files, FileWords;
  }

  function AppendOf(sign: Text, file: Option<Text>, before: Option<Text>): Option<Text> {
    if file.Some? && sign == [GREATER, GREATER] then file
    else if sign == [GREATER] && StartsGreater(file) then Some(file.value[1..])
    else before
  }

  /** What each file word counts as. */
  lemma FileKinds(sign: Text, file: Option<Text>)
    requires sign == [LESS] || sign == [GREATER] || sign == [GREATER, GREATER]
    ensures forall b :: LastOf(FileWords(sign, file), IsInput, 1, b) == if file.Some? && sign == [LESS] then file else b
    ensures forall b :: LastOf(FileWords(sign, file), IsOutput, 1, b)
                     == if file.Some? && sign == [GREATER] && !StartsGreater(file) then file else b
    ensures forall b :: LastOf(FileWords(sign, file), IsAppend, 2, b) == AppendOf(sign, file, b)
  {
    if file.Some? {
      var w := sign + file.value;
      assert w[|sign|..] == file.value;
      assert StartsGreater(file) && sign == [GREATER] ==> w[2..] == file.value[1..];
      assert FileWords(sign, file)[..0] == [];
    }
  }

  // ---- A stage and what follows it --------------------------------------------------------------------

  predicate AllUnbroken(stages: seq<Stage>) {
    forall i :: 0 <= i < |stages| ==> Unbroken(stages[i])
  }

  lemma NoBlankIsWord(w: Text)
    requires w != [] && NoBlank(w)
    ensures IsWord(w)
  {
  }

  lemma BodyIsWords(st: Stage)
    requires Unbroken(st)
    ensures IsWord(st.name) && AllWords(Body(st)) && Typed(st.args)
    ensures forall i :: 0 <= i < |st.args| ==> ArgWord(st.args[i]) != []
  {
    ArgWordsAre(st.args);
    NoBlankIsWord(st.name);
    forall i | 0 <= i < |st.args|
      ensures IsWord(ArgWord(st.args[i]))
    {
      NoBlankIsWord(ArgWord(st.args[i]));
    }
    assert AllWords(ArgWords(st.args));
    assert AllWords(FileWords([LESS], st.input)) && AllWords(FileWords([GREATER], st.output));
    assert AllWords(FileWords([GREATER, GREATER], st.append));
    hide IsWord;
  }

  lemma {:induction false} WordsAreWords(stages: seq<Stage>, ampersand: bool)
    requires AllUnbroken(stages) && stages != []
    ensures AllWords(Words(stages, ampersand))
    decreases |stages|
  {
    BodyIsWords(stages[0]);
    assert IsWord([PIPE]) && IsWord([AMPERSAND]);
    if |stages| > 1 {
      WordsAreWords(stages[1..], ampersand);
    }
    hide IsWord, Body, Unbroken;
  }

  /** A stage of which every argument arrives. */
  lemma BodyIsHeard(st: Stage, background: bool, autoComplete: bool)
    requires Unbroken(st) && AllArrive(st.args) && TokensFit(st)
    ensures AllWords(Body(st)) && forall i :: 0 <= i < |Body(st)| ==> Body(st)[i] != [124]
    ensures ReadWords(Body(st), Fresh(st.name, background, autoComplete)) == Some(Heard(st, background, autoComplete))
  {
    var args, files := ArgWords(st.args), Files(st);
    BodyIsWords(st);
    ArgWordsAre(st.args);
    forall i | 0 <= i < |args|
      ensures IsArgument(args[i]) && args[i] != [PIPE]
    {
      ArgIsHeard(st.args[i]);
    }
    FilesAreNoArguments(st);
    ArgsAreHeard(st.args);
    ArgumentsAppend(args, files);
    assert HeardArgs(st.args) + [] == HeardArgs(st.args) && [] + HeardArgs(st.args) == HeardArgs(st.args);
    ArgsAreNoFiles(args);
    LastOfAppend(args, files, IsInput, 1, None);
    LastOfAppend(args, files, IsOutput, 1, None);
    LastOfAppend(args, files, IsAppend, 2, None);
    FilesAreHeard(st);
    hide ReadWords, ArgumentsIn, LastOf, ArgWords, Files, IsArgument, HeardArgs, AllArrive;
    WordsMean(Body(st), Fresh(st.name, background, autoComplete));
  }

  lemma ArgsAreNoFiles(words: seq<Text>)
    requires forall i :: 0 <= i < |words| ==> IsArgument(words[i])
    ensures LastOf(words, IsInput, 1, None) == LastOf(words, IsOutput, 1, None) == LastOf(words, IsAppend, 2, None) == None
  {
    LastOfNone(words, IsInput, 1, None);
    LastOfNone(words, IsOutput, 1, None);
    LastOfNone(words, IsAppend, 2, None);
  }

  /** The words of a stage fit, or some word of it does not. */
  lemma LongBody(st: Stage) returns (i: nat)
    requires !TokensFit(st)
    ensures i < |Body(st)| && |Body(st)[i]| >= 1024
  {
    i :| 0 <= i < |Body(st)| && |Body(st)[i]| >= TOKEN_BUFFER;
  }

  lemma Around(s: seq<Text>, i: nat, more: seq<Text>)
    requires i < |s|
    ensures s + more == s[..i] + [s[i]] + (s[i + 1..] + more)
  {
  }

  /** A stage, and then the end, `&`, or the next stages. */
  lemma StageThen(st: Stage, more: seq<Text>, background: bool, autoComplete: bool)
    requires Unbroken(st) && AllArrive(st.args) && AllWords(more)
    ensures AllWords(Body(st) + more)
    ensures var cmd := Fresh(st.name, background, autoComplete);
      && (!TokensFit(st) ==> ReadWords(Body(st) + more, cmd) == None)
      && (TokensFit(st) && more == [] ==> ReadWords(Body(st) + more, cmd) == Some(Heard(st, background, autoComplete)))
      && (TokensFit(st) && more == [[AMPERSAND]] ==> ReadWords(Body(st) + more, cmd) == Some(Heard(st, background, autoComplete)))
  {
    var body, cmd := Body(st), Fresh(st.name, background, autoComplete);
    BodyIsWords(st);
    BodyHasNoPipe(st);
    if TokensFit(st) {
      BodyIsHeard(st, background, autoComplete);
      if more == [] {
        assert body + more == body;
      } else if more == [[AMPERSAND]] {
        hide Body, Heard, Fresh;
        AmpersandLast(body, cmd);
      }
    } else {
      var i := LongBody(st);
      Around(body, i, more);
      hide ReadWords, Body;
      LongWordFails(body[..i], body[i], body[i + 1..] + more, cmd);
    }
  }

  lemma BodyHasNoPipe(st: Stage)
    requires Unbroken(st) && AllArrive(st.args)
    ensures forall i :: 0 <= i < |Body(st)| ==> Body(st)[i] != [124]
  {
    BodyIsWords(st);
    ArgWordsAre(st.args);
    FilesAreNoArguments(st);
    forall i | 0 <= i < |st.args|
      ensures ArgWords(st.args)[i] != [PIPE]
    {
      ArgIsHeard(st.args[i]);
    }
  }

  lemma {:induction false} AmpersandLast(words: seq<Text>, cmd: Command)
    requires AllWords(words) && ReadWords(words, cmd).Some?
    requires forall i :: 0 <= i < |words| ==> words[i] != [124] && |words[i]| <= 1023
    ensures AllWords(words + [[AMPERSAND]]) && ReadWords(words + [[AMPERSAND]], cmd) == ReadWords(words, cmd)
    decreases |words|
  {
    var all := words + [[AMPERSAND]];
    if words == [] {
      assert all[0] == [AMPERSAND] && all[1..] == [];
    } else {
      assert all[0] == words[0] && all[1..] == words[1..] + [[AMPERSAND]];
      AmpersandLast(words[1..], if words[0] == [AMPERSAND] then cmd else AddToken(cmd, words[0]));
    }
  }

  // ---- Pipelines ----------------------------------------------------------------------------------------

  predicate AllFit(stages: seq<Stage>) {
    forall i :: 0 <= i < |stages| ==> TokensFit(stages[i])
  }

  predicate AllAllArrive(stages: seq<Stage>) {
    forall i :: 0 <= i < |stages| ==> AllArrive(stages[i].args)
  }

  /** The last word of the line asks for the flags. */
  function Flag(stages: seq<Stage>, ampersand: bool, c: int): bool
    requires stages != []
  {
    var words := Words(stages, ampersand);
    EndsWith(words[|words| - 1], c)
  }

  lemma FlagOfRest(stages: seq<Stage>, ampersand: bool, c: int)
    requires |stages| > 1
    ensures Flag(stages, ampersand, c) == Flag(stages[1..], ampersand, c)
  {
    var rest := Words(stages[1..], ampersand);
    var words := Words(stages, ampersand);
    assert words == [stages[0].name] + (Body(stages[0]) + ([[PIPE]] + rest));
    assert words[|words| - 1] == rest[|rest| - 1];
  }

  /** What the words of a line are read as: the chain of the stages as they are understood;
      nothing if a word does not fit. */
  lemma {:induction false} WordsAreHeard(stages: seq<Stage>, ampersand: bool)
    requires stages != [] && AllUnbroken(stages) && AllAllArrive(stages)
    ensures AllWords(Words(stages, ampersand))
    ensures ReadLine(Words(stages, ampersand))
         == if AllFit(stages) then Some(HeardAll(stages, Flag(stages, ampersand, AMPERSAND), Flag(stages, ampersand, QUESTION)))
            else None
    decreases |stages|
  {
    var st, b, a := stages[0], Flag(stages, ampersand, AMPERSAND), Flag(stages, ampersand, QUESTION);
    var words := Words(stages, ampersand);
    WordsAreWords(stages, ampersand);
    assert AllFit(stages) <==> TokensFit(st) && AllFit(stages[1..]) by {
      assert stages == [st] + stages[1..];
    }
    hide Heard, HeardArgs, StartsGreater;
    if |stages| == 1 {
      var more: seq<Text> := if ampersand then [[AMPERSAND]] else [];
      assert words[1..] == Body(st) + more;
      assert AllWords(more) by {
        assert IsWord([AMPERSAND]);
      }
      assert AllFit([]);
      hide Body, TokensFit, Unbroken, AllFit, ReadWords;
      StageThen(st, more, b, a);
    } else {
      var rest := Words(stages[1..], ampersand);
      assert words[1..] == Body(st) + ([[PIPE]] + rest);
      WordsAreHeard(stages[1..], ampersand);
      FlagOfRest(stages, ampersand, AMPERSAND);
      FlagOfRest(stages, ampersand, QUESTION);
      hide Body, TokensFit, Unbroken, AllFit, ReadWords, Heard, Flag;
      StagePiped(st, rest, b, a);
    }
  }

  lemma StagePiped(st: Stage, rest: seq<Text>, background: bool, autoComplete: bool)
    requires Unbroken(st) && AllArrive(st.args) && AllWords(rest)
    ensures AllWords(Body(st) + ([[PIPE]] + rest))
    ensures ReadWords(Body(st) + ([[PIPE]] + rest), Fresh(st.name, background, autoComplete)) ==
      if TokensFit(st) && ReadLine(rest).Some? then Some(Heard(st, background, autoComplete).(next := ReadLine(rest))) else None
  {
    var more, cmd := [[PIPE]] + rest, Fresh(st.name, background, autoComplete);
    assert AllWords(more) by {
      assert IsWord([PIPE]);
    }
    StageThen(st, more, background, autoComplete);
    if TokensFit(st) {
      BodyIsHeard(st, background, autoComplete);
      assert Body(st) + [[124]] + rest == Body(st) + more;
      hide ReadWords, Body, Heard;
      PipeSplits(Body(st), rest, cmd);
    }
  }

  // ---- The line ------------------------------------------------------------------------------------------

  /** One space between words. */
  function SingleGaps(n: nat): seq<Text> {
    seq(n + 1, i => if 0 < i < n then [SPACE] else [])
  }

  lemma SingleGapsAre(n: nat)
    requires n > 0
    ensures var gaps := SingleGaps(n);
      gaps[0] == [] && (n > 1 ==> gaps[1] == [SPACE] && gaps[1..][0 := []] == SingleGaps(n - 1))
  {
  }

  lemma SingleGapsSpace(words: seq<Text>)
    requires AllWords(words) && words != []
    ensures Spaced(words, SingleGaps(|words|))
  {
  }

  lemma {:induction false} JoinIsLay(words: seq<Text>)
    requires AllWords(words) && words != []
    ensures Spaced(words, SingleGaps(|words|)) && Join(words) == Lay(words, SingleGaps(|words|))
    decreases |words|
  {
    var n, gaps, rest := |words|, SingleGaps(|words|), words[1..];
    SingleGapsSpace(words);
    SingleGapsAre(n);
    assert AllWords(rest);
    assert Lay(words, gaps) == gaps[0] + (words[0] + Lay(rest, gaps[1..]));
    if n > 1 {
      assert Join(words) == words[0] + ([SPACE] + Join(rest));
      hide Join, Lay, AllWords, SingleGaps, Spaced;
      JoinIsLay(rest);
      LayWithGap(rest, gaps[1..]);
      NothingInFront(words[0] + ([SPACE] + Join(rest)));
    } else {
      assert gaps[1] == [];
    }
  }

  lemma NothingInFront(s: Text)
    ensures [] + s == s
  {
  }

  lemma LayWithGap(words: seq<Text>, gaps: seq<Text>)
    requires |gaps| == |words| + 1 && words != []
    ensures Lay(words, gaps) == gaps[0] + Lay(words, gaps[0 := []])
  {
    assert gaps[0 := []][1..] == gaps[1..];
    var t := words[0] + Lay(words[1..], gaps[1..]);
    assert [] + t == t;
  }

  lemma {:induction false} JoinEnds(words: seq<Text>)
    requires AllWords(words) && words != []
    ensures var s, last := Join(words), words[|words| - 1]; s != [] && s[|s| - 1] == last[|last| - 1]
    decreases |words|
  {
    if |words| > 1 {
      JoinEnds(words[1..]);
    } else {
      assert words[0] + [] == words[0];
    }
  }

  lemma LineIsRead(words: seq<Text>)
    requires AllWords(words) && words != []
    ensures Parse(Join(words)) == ReadLine(words)
  {
    hide *;
    JoinIsLay(words);
    ParseIsReadLine(words, SingleGaps(|words|));
  }

  lemma LineEnds(words: seq<Text>, c: int)
    requires AllWords(words) && words != []
    ensures EndsWith(Join(words), c) == EndsWith(words[|words| - 1], c)
  {
    assert IsWord(words[|words| - 1]);
    JoinEnds(words);
    hide Join;
  }

  /** A printed line is read as its words. */
  lemma PrintIsRead(stages: seq<Stage>, ampersand: bool)
    requires AllUnbroken(stages) && stages != []
    ensures AllWords(Words(stages, ampersand))
    ensures Parse(Print(stages, ampersand)) == ReadLine(Words(stages, ampersand))
    ensures Flag(stages, ampersand, AMPERSAND) == EndsWith(Print(stages, ampersand), AMPERSAND)
    ensures Flag(stages, ampersand, QUESTION) == EndsWith(Print(stages, ampersand), QUESTION)
  {
    var words := Words(stages, ampersand);
    hide Join, Parse, ReadLine, Words, AllWords, EndsWith, AllUnbroken;
    WordsAreWords(stages, ampersand);
    LineIsRead(words);
    LineEnds(words, AMPERSAND);
    LineEnds(words, QUESTION);
  }

  /** What a printed line is parsed to, if all its words are what they were meant to be: the
      chain of the stages as they are understood, each with the flags that the end of the line
      asks for; nothing if a word does not fit. */
  lemma ParsePrinted(stages: seq<Stage>, ampersand: bool)
    requires AllUnbroken(stages) && stages != [] && AllAllArrive(stages)
    ensures var s := Print(stages, ampersand);
      Parse(s) == if AllFit(stages) then Some(HeardAll(stages, EndsWith(s, AMPERSAND), EndsWith(s, QUESTION)))
                  else None
  {
    hide Print, Parse, Flag, ReadLine, HeardAll, AllUnbroken, AllAllArrive, AllFit;
    PrintIsRead(stages, ampersand);
    WordsAreHeard(stages, ampersand);
  }

  // ---- When it comes back --------------------------------------------------------------------------------

  /** The end of the words of a stage. */
  predicate EndsStage(more: seq<Text>) {
    more == [] || more == [[AMPERSAND]] || more[0] == [PIPE]
  }

  /** Behind words without a pipe, the end of the stage adds no argument. */
  lemma BeforePipe(words: seq<Text>, more: seq<Text>, cmd: Command)
    requires AllWords(words) && AllWords(more) && EndsStage(more)
    requires forall i :: 0 <= i < |words| ==> words[i] != [124]
    ensures AllWords(words + more)
    ensures var r := ReadWords(words + more, cmd); r.Some? ==> r.value.args == cmd.args + ArgumentsIn(words)
  {
    if i :| 0 <= i < |words| && |words[i]| > 1023 {
      Around(words, i, more);
      LongWordFails(words[..i], words[i], words[i + 1..] + more, cmd);
    } else {
      WordsMean(words, cmd);
      hide ReadWords, ArgumentsIn, LastOf;
      if more == [] {
        assert words + more == words;
      } else if more[0] == [PIPE] {
        assert words + [[124]] + more[1..] == words + more;
        PipeSplits(words, more[1..], cmd);
      } else {
        AmpersandLast(words, cmd);
      }
    }
  }

  lemma LostToPipe(st: Stage, more: seq<Text>, cmd: Command, i: nat)
    requires AllWords(Body(st)) && AllWords(more) && cmd.args == []
    requires i < |ArgWords(st.args)| && ArgWords(st.args)[i] == [PIPE]
    requires forall j :: 0 <= j < i ==> ArgWords(st.args)[j] != [PIPE]
    ensures AllWords(Body(st) + more)
    ensures var r := ReadWords(Body(st) + more, cmd); r.Some? ==> |r.value.args| <= i
  {
    var args, body := ArgWords(st.args), Body(st);
    var before, behind := body[..i], body[i..] + more;
    assert body[..i] == args[..i] && body[i] == args[i];
    assert body + more == before + behind && behind[0] == [PIPE];
    hide ReadWords, ArgumentsIn, Body, ArgWords;
    ArgumentsBound(before);
    BeforePipe(before, behind, cmd);
    assert [] + ArgumentsIn(before) == ArgumentsIn(before);
  }

  lemma LostOtherwise(st: Stage, more: seq<Text>, cmd: Command, k: nat)
    requires AllWords(Body(st)) && AllWords(more) && EndsStage(more) && cmd.args == []
    requires [PIPE] !in ArgWords(st.args) && k < |ArgWords(st.args)| && !IsArgument(ArgWords(st.args)[k])
    ensures AllWords(Body(st) + more)
    ensures var r := ReadWords(Body(st) + more, cmd); r.Some? ==> |r.value.args| < |ArgWords(st.args)|
  {
    var args, files, body := ArgWords(st.args), Files(st), Body(st);
    FilesAreNoArguments(st);
    ArgumentsAppend(args, files);
    ArgumentsBound(args);
    assert ArgumentsIn(args) + [] == ArgumentsIn(args);
    assert forall i :: 0 <= i < |body| ==> body[i] != [124];
    hide ReadWords, ArgumentsIn, Body, Files, ArgWords, IsArgument;
    BeforePipe(body, more, cmd);
    assert [] + ArgumentsIn(body) == ArgumentsIn(body);
  }

  /** An argument that does not arrive is missed. */
  lemma ArgsLost(st: Stage, more: seq<Text>, cmd: Command)
    requires Unbroken(st) && AllWords(more) && EndsStage(more) && !AllArrive(st.args) && cmd.args == []
    ensures AllWords(Body(st) + more)
    ensures var r := ReadWords(Body(st) + more, cmd); r.Some? ==> |r.value.args| < |st.args|
  {
    BodyIsWords(st);
    ArgWordsAre(st.args);
    var k :| 0 <= k < |st.args| && !Arrives(st.args[k]);
    ArgIsHeard(st.args[k]);
    hide Body, ReadWords, ArgWords, IsArgument, Arrives, Unbroken;
    if [PIPE] in ArgWords(st.args) {
      var i := FirstPipe(ArgWords(st.args));
      LostToPipe(st, more, cmd, i);
    } else {
      LostOtherwise(st, more, cmd, k);
    }
  }

  lemma {:induction false} FirstPipe(words: seq<Text>) returns (i: nat)
    requires [PIPE] in words
    ensures i < |words| && words[i] == [PIPE] && forall j :: 0 <= j < i ==> words[j] != [PIPE]
    decreases |words|
  {
    if words[0] == [PIPE] {
      i := 0;
    } else {
      i := FirstPipe(words[1..]);
      i := i + 1;
    }
  }

  function Behind(stages: seq<Stage>, ampersand: bool): seq<Text>
    requires stages != []
  {
    if |stages| > 1 then [[PIPE]] + Words(stages[1..], ampersand)
    else if ampersand then [[AMPERSAND]] else []
  }

  lemma LineIsStage(stages: seq<Stage>, ampersand: bool)
    requires stages != [] && AllUnbroken(stages)
    ensures AllWords(Words(stages, ampersand)) && AllWords(Behind(stages, ampersand)) && EndsStage(Behind(stages, ampersand))
    ensures AllWords(Body(stages[0]) + Behind(stages, ampersand))
    ensures ReadLine(Words(stages, ampersand)) == ReadWords(Body(stages[0]) + Behind(stages, ampersand),
      Fresh(stages[0].name, Flag(stages, ampersand, AMPERSAND), Flag(stages, ampersand, QUESTION)))
  {
    var words, more := Words(stages, ampersand), Behind(stages, ampersand);
    WordsAreWords(stages, ampersand);
    assert words[1..] == Body(stages[0]) + more;
    assert forall i :: 0 <= i < |more| ==> more[i] == words[1 + |Body(stages[0])| + i];
    hide IsWord, ReadWords, Body;
  }

  /** What comes back has arrived. */
  lemma {:induction false} BackHasArrived(stages: seq<Stage>, ampersand: bool, background: bool, autoComplete: bool)
    requires stages != [] && AllUnbroken(stages) && AllWords(Words(stages, ampersand))
    requires ReadLine(Words(stages, ampersand)) == Some(Build(stages, background, autoComplete))
    ensures AllAllArrive(stages)
    decreases |stages|
  {
    var st, more := stages[0], Behind(stages, ampersand);
    var b, a := Flag(stages, ampersand, AMPERSAND), Flag(stages, ampersand, QUESTION);
    assert stages == [st] + stages[1..];
    assert |Build(stages, background, autoComplete).args| == |st.args|;
    hide Body, ReadWords, ReadLine, Unbroken, Flag, AllArrive, EndsStage, IsWord;
    LineIsStage(stages, ampersand);
    if !AllArrive(st.args) {
      ArgsLost(st, more, Fresh(st.name, b, a));
    }
    if |stages| > 1 {
      var rest := stages[1..];
      LineIsStage(rest, ampersand);
      StagePiped(st, Words(rest, ampersand), b, a);
      BackHasArrived(rest, ampersand, background, autoComplete);
    }
  }

  /** What is parsed is unbroken, so what was printed must have been. */
  lemma {:induction false} TidyIsUnbroken(stages: seq<Stage>, background: bool, autoComplete: bool)
    requires stages != [] && Tidy(Build(stages, background, autoComplete))
    ensures AllUnbroken(stages) && forall i :: 0 <= i < |stages| ==> Typed(stages[i].args)
    decreases |stages|
  {
    TextsAre(stages[0].args);
    assert Unbroken(stages[0]);
    assert stages == [stages[0]] + stages[1..];
    if |stages| > 1 {
      TidyIsUnbroken(stages[1..], background, autoComplete);
    }
  }

  lemma {:induction false} TextsAre(args: seq<Arg>)
    ensures forall i :: 0 <= i < |args| ==> Texts(args)[i] == args[i].text
    decreases |args|
  {
    if args != [] {
      TextsAre(args[1..]);
    }
  }

  /** Parsing undoes printing, for all pipelines and all ways to type their arguments: the chain
      of commands comes back with its names, arguments and redirections if and only if
      - all names are non-empty, and no text has a blank;
      - every bare argument is taken for one: it starts with neither `<` nor `>`, is not `|` or
        `&`, and is not wrapped in quotes or apostrophes;
      - every word fits its buffer, no argument is empty, and no output file starts with `>`. */
  lemma ParseUndoesPrint(stages: seq<Stage>, ampersand: bool)
    requires stages != []
    ensures var s := Print(stages, ampersand);
      Parse(s) == Some(Build(stages, EndsWith(s, AMPERSAND), EndsWith(s, QUESTION)))
      <==> forall i :: 0 <= i < |stages| ==> Printable(stages[i])
  {
    var s := Print(stages, ampersand);
    var background, autoComplete := EndsWith(s, AMPERSAND), EndsWith(s, QUESTION);
    ParsedIsTidy(s);
    hide Print, Parse, EndsWith, Tidy, Unbroken, AllArrive, TokensFit, ReadsBack, Build, HeardAll, Words, ReadLine, Typed;
    if Parse(s) == Some(Build(stages, background, autoComplete)) {
      TidyIsUnbroken(stages, background, autoComplete);
      PrintIsRead(stages, ampersand);
      BackHasArrived(stages, ampersand, background, autoComplete);
      ParsePrinted(stages, ampersand);
      HeardAllSame(stages, background, autoComplete);
    } else if forall i :: 0 <= i < |stages| ==> Printable(stages[i]) {
      forall i | 0 <= i < |stages|
        ensures Typed(stages[i].args)
      {
        BodyIsWords(stages[i]);
      }
      ParsePrinted(stages, ampersand);
      HeardAllSame(stages, background, autoComplete);
    }
  }

  // ---- Lines as typed ------------------------------------------------------------------------------------

  /** `ls -la`. */
  lemma PlainArgument()
    ensures Parse([108, 115, 32, 45, 108, 97]) == Some(Fresh([108, 115], false, false).(args := [[45, 108, 97]]))
  {
    var words, gaps := [[108, 115], [45, 108, 97]], [[], [32], []];
    TwoWords(words[0], words[1]);
    assert [108, 115] + ([32] + [45, 108, 97]) == [108, 115, 32, 45, 108, 97];
    assert IsArgument(words[1]);
    OneArgument(words[0], words[1]);
  }

  lemma TwoWords(a: Text, b: Text)
    requires IsWord(a) && IsWord(b)
    ensures AllWords([a, b]) && Parse(a + ([32] + b)) == ReadLine([a, b])
  {
    var words := [a, b];
    assert Join(words[1..]) == b + [] == b;
    assert Join(words) == a + ([32] + b);
    JoinIsLay(words);
    hide Join, Lay, Spaced, Parse, ReadLine;
    ParseIsReadLine(words, SingleGaps(2));
  }

  lemma OneArgument(a: Text, b: Text)
    requires IsWord(a) && IsWord(b) && IsArgument(b) && b != [124] && |b| <= 1023
    ensures ReadLine([a, b]) == Some(Fresh(a, EndsWith(b, AMPERSAND), EndsWith(b, QUESTION)).(args := [Unquote(b)]))
  {
    assert [a, b][1..] == [b] && [b][1..] == [];
    var cmd := Fresh(a, EndsWith(b, AMPERSAND), EndsWith(b, QUESTION));
    assert [] + [Unquote(b)] == [Unquote(b)];
    assert ReadWords([b], cmd) == ReadWords([], AddToken(cmd, b));
  }

  /** The input that quotes are for: `echo "a b"` is taken apart at the blank, because the line
      is cut into tokens before anybody looks at quotes. */
  lemma QuotedBlankIsSplit()
    ensures Parse([101, 99, 104, 111, 32, 34, 97, 32, 98, 34])
         == Some(Fresh([101, 99, 104, 111], false, false).(args := [[34, 97], [98, 34]]))
  {
    var name, first, second := [101, 99, 104, 111], [34, 97], [98, 34];
    var words := [name, first, second];
    assert Join([second]) == second + [] == second;
    assert [first, second][1..] == [second] && words[1..] == [first, second];
    assert Join([first, second]) == first + ([32] + second) == [34, 97, 32, 98, 34];
    assert Join(words) == name + ([32] + [34, 97, 32, 98, 34]);
    assert name + ([32] + [34, 97, 32, 98, 34]) == [101, 99, 104, 111, 32, 34, 97, 32, 98, 34];
    JoinIsLay(words);
    ReadTwoArguments(name, first, second);
    assert Unquote(first) == first && Unquote(second) == second;
    hide Join, Lay, Spaced, Parse, ReadLine;
    ParseIsReadLine(words, SingleGaps(3));
  }

  lemma ReadTwoArguments(a: Text, b: Text, c: Text)
    requires IsWord(a) && IsWord(b) && IsArgument(b) && b != [124] && |b| <= 1023
    requires IsWord(c) && IsArgument(c) && c != [124] && |c| <= 1023
    ensures ReadLine([a, b, c])
         == Some(Fresh(a, EndsWith(c, AMPERSAND), EndsWith(c, QUESTION)).(args := [Unquote(b), Unquote(c)]))
  {
    assert [a, b, c][1..] == [b, c] && [b, c][1..] == [c] && [c][1..] == [];
    var cmd := Fresh(a, EndsWith(c, AMPERSAND), EndsWith(c, QUESTION));
    assert [] + [Unquote(b)] == [Unquote(b)] && [Unquote(b)] + [Unquote(c)] == [Unquote(b), Unquote(c)];
    assert ReadWords([b, c], cmd) == ReadWords([c], AddToken(cmd, b));
    assert ReadWords([c], AddToken(cmd, b)) == ReadWords([], AddToken(AddToken(cmd, b), c));
  }
}
