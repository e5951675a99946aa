/** The file of prj1/config.h character by character: how `:` (58) and newline (10) divide it,
    whatever stands between them. */
module ConfigFormat {
  import opened Wrappers
  import opened ConfigModel
  import opened ConfigText

  /** A run of colons. */
  function Colons(k: nat): (s: Text)
    ensures |s| == k && forall i :: 0 <= i < k ==> s[i] == 58
  {
    seq(k, _ => 58)
  }

  /** What stands between colons. */
  predicate IsField(s: Text) {
    s != [] && 58 !in s
  }

  /** The end of the line, or a colon with anything behind it. */
  predicate Ends(rest: Text) {
    rest == [] || rest[0] == 58
  }

  lemma {:induction false} TokenSkips(k: nat, s: Text)
    ensures Token(Colons(k) + s, COLON) == Token(s, COLON)
    decreases k
  {
    if k == 0 {
      assert Colons(0) + s == s;
    } else {
      assert (Colons(k) + s)[1..] == Colons(k - 1) + s;
      TokenSkips(k - 1, s);
    }
  }

  lemma TokenAtOnce(t: Text, rest: Text)
    requires IsField(t) && Ends(rest)
    ensures Token(t + rest, COLON) == Some((t, if rest == [] then [] else rest[1..]))
  {
    if rest == [] {
      TokenFirst(t, COLON, []);
      assert t + rest == t;
    } else {
      TokenFirst(t, COLON, rest[1..]);
      assert t + rest == t + [COLON] + rest[1..];
    }
  }

  lemma TokenTakes(k: nat, t: Text, rest: Text)
    requires IsField(t) && Ends(rest)
    ensures Token(Colons(k) + t + rest, COLON) == Some((t, if rest == [] then [] else rest[1..]))
  {
    TokenSkips(k, t + rest);
    TokenAtOnce(t, rest);
    hide *;
    assert Colons(k) + t + rest == Colons(k) + (t + rest);
  }

  lemma TokenNone(k: nat)
    ensures Token(Colons(k), COLON) == None
  {
    TokenSkips(k, []);
    assert Colons(k) + [] == Colons(k);
  }

  lemma OneColonLess(k: nat, s: Text)
    requires k >= 1
    ensures (Colons(k) + s)[1..] == Colons(k - 1) + s && Ends(Colons(k) + s)
    ensures Colons(k)[1..] == Colons(k - 1) && Ends(Colons(k))
  {
  }

  /** The three fields of a line: the first three texts between colons.  Any number of colons
      stands for one, some may stand in front, and what follows the third is ignored. */
  lemma FieldsAre(a: nat, t: Text, b: nat, n: Text, c: nat, v: Text, rest: Text)
    requires b >= 1 && c >= 1 && IsField(t) && IsField(n) && IsField(v) && Ends(rest)
    ensures Fields(Colons(a) + t + (Colons(b) + n + (Colons(c) + v + rest))) == Some((t, Args(n, v)))
  {
    hide Token, Ends, IsField;
    var third := Colons(c) + v + rest;
    assert third == Colons(c) + (v + rest);
    OneColonLess(c, v + rest);
    assert third[1..] == Colons(c - 1) + v + rest;
    var second := Colons(b) + n + third;
    assert second == Colons(b) + (n + third);
    OneColonLess(b, n + third);
    assert second[1..] == Colons(b - 1) + n + third;
    TokenTakes(a, t, second);
    TokenTakes(b - 1, n, third);
    TokenTakes(c - 1, v, rest);
  }

  /** With fewer than three of them there is no element. */
  lemma FieldsAreNot(a: nat, t: Text, b: nat, n: Text, c: nat)
    requires IsField(t) && IsField(n)
    ensures Fields(Colons(a)) == None
    ensures Fields(Colons(a) + t + Colons(b)) == None
    ensures b >= 1 ==> Fields(Colons(a) + t + (Colons(b) + n + Colons(c))) == None
  {
    hide Token, IsField;
    TokenNone(a);
    AfterFirst(a, t, b);
    if b >= 1 {
      AfterSecond(a, t, b, n, c);
    }
  }

  lemma ColonsEnd(k: nat)
    ensures Ends(Colons(k)) && (if Colons(k) == [] then [] else Colons(k)[1..]) == Colons(if k == 0 then 0 else k - 1)
  {
  }

  lemma AfterFirst(a: nat, t: Text, b: nat)
    requires IsField(t)
    ensures Fields(Colons(a) + t + Colons(b)) == None
  {
    hide Token, IsField, Ends;
    ColonsEnd(b);
    TokenTakes(a, t, Colons(b));
    TokenNone(if b == 0 then 0 else b - 1);
  }

  lemma AfterSecond(a: nat, t: Text, b: nat, n: Text, c: nat)
    requires IsField(t) && IsField(n) && b >= 1
    ensures Fields(Colons(a) + t + (Colons(b) + n + Colons(c))) == None
  {
    hide Token, IsField, Ends;
    var second := Colons(b) + n + Colons(c);
    assert second == Colons(b) + (n + Colons(c));
    OneColonLess(b, n + Colons(c));
    assert second[1..] == Colons(b - 1) + n + Colons(c);
    TokenTakes(a, t, second);
    ColonsEnd(c);
    TokenTakes(b - 1, n, Colons(c));
    TokenNone(if c == 0 then 0 else c - 1);
  }

  // ---- Lines -----------------------------------------------------------------------------------------

  /** What loading does, line by line: nothing for an empty file or line; an add for a line with
      its three fields, with or without a newline behind it; and failure for any other. */
  lemma LoadReads(l: seq<Elm>, line: Text, rest: Text)
    requires line != [] && 10 !in line
    ensures Load(l, []) == Some(l)
    ensures Load(l, [10] + rest) == Load(l, rest)
    ensures var fields := Fields(line);
      if fields.None? then Load(l, line) == None && Load(l, line + [10] + rest) == None
      else
        && Load(l, line) == Some(Add(l, fields.value.0, fields.value.1))
        && Load(l, line + [10] + rest) == Load(Add(l, fields.value.0, fields.value.1), rest)
  {
    hide Fields, Add;
    assert ([10] + rest)[1..] == rest && Before([10] + rest, NEWLINE) == 0;
    BeforeFirst(line, NEWLINE, rest);
    var text := line + [10] + rest;
    assert text[..|line|] == line && text[|line| + 1..] == rest && line[..|line|] == line;
  }

  /** A saved list is one line for each element, in order. */
  lemma {:induction false} SaveWrites(l: seq<Elm>, e: Elm)
    ensures SaveText([]) == []
    ensures SaveText(l + [e]) == SaveText(l) + (e.typ + [58] + e.args.name + [58] + e.args.value + [10])
    decreases |l|
  {
    if l == [] {
      assert (l + [e])[1..] == [] && l + [e] == [e];
    } else {
      assert (l + [e])[1..] == l[1..] + [e] && (l + [e])[0] == l[0];
      SaveWrites(l[1..], e);
    }
  }
}
