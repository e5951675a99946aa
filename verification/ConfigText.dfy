/** The file format of prj1/config.h: one line `type:name:value` for each element, and what
    reading such a file back does. */
module ConfigText {
  import opened Wrappers
  import opened ConfigModel

  const COLON: Char := 58
  const NEWLINE: Char := 10

  function ElmText(e: Elm): Text {
    e.typ + [COLON] + e.args.name + [COLON] + e.args.value + [NEWLINE]
  }

  /** `save_config`. */
  function SaveText(l: seq<Elm>): Text {
    if l == [] then [] else ElmText(l[0]) + SaveText(l[1..])
  }

  /** The length of the part before the first `c`, the whole length without one. */
  function Before(s: Text, c: Char): (n: nat)
    ensures n <= |s| && c !in s[..n] && (n < |s| ==> s[n] == c)
  {
    if s == [] || s[0] == c then 0 else
      var n := Before(s[1..], c);
      assert s[..n + 1] == [s[0]] + s[1..][..n];
      n + 1
  }

  /** `strtok` for one separator: the token and what is left for the next call; None when
      only separators are left. */
  function Token(s: Text, c: Char): (r: Option<(Text, Text)>)
    ensures r.Some? ==> |r.value.1| < |s|
  {
    if s == [] then None
    else if s[0] == c then Token(s[1..], c)
    else
      var n := Before(s, c);
      Some((s[..n], if n < |s| then s[n + 1..] else []))
  }

  /** The three fields of a line without its newline.  With fewer tokens the code passes a
      null pointer to `strlen`: None. */
  function Fields(line: Text): Option<(Text, Args)> {
    match Token(line, COLON)
    case None => None
    case Some((typ, rest)) =>
      match Token(rest, COLON)
      case None => None
      case Some((name, rest')) =>
        match Token(rest', COLON)
        case None => None
        case Some((value, _)) => Some((typ, Args(name, value)))
  }

  /** `load_config` into a list, line by line; empty lines are skipped.  None when a line
      makes it fail. */
  function Load(l: seq<Elm>, text: Text): Option<seq<Elm>>
    decreases |text|
  {
    if text == [] then Some(l) else
      var n := Before(text, NEWLINE);
      var rest := if n < |text| then text[n + 1..] else [];
      if n == 0 then Load(l, rest) else
        match Fields(text[..n])
        case None => None
        case Some((typ, args)) => Load(Add(l, typ, args), rest)
  }

  // ---- Reading back -------------------------------------------------------------------------------

  predicate Field(s: Text) {
    s != [] && COLON !in s && NEWLINE !in s
  }

  /** Fields that survive the format. */
  predicate Plain(l: seq<Elm>) {
    forall i :: 0 <= i < |l| ==> Field(l[i].typ) && Field(l[i].args.name) && Field(l[i].args.value)
  }

  /** The stored hash is the key of the element's own type and name. */
  predicate Fresh(e: Elm) {
    e.hash == Key(e.typ, e.args.name)
  }

  predicate AllFresh(l: seq<Elm>) {
    forall i :: 0 <= i < |l| ==> Fresh(l[i])
  }

  lemma {:induction false} BeforeFirst(a: Text, c: Char, b: Text)
    requires c !in a
    ensures Before(a + [c] + b, c) == |a|
    ensures Before(a, c) == |a|
    decreases |a|
  {
    if a != [] {
      BeforeFirst(a[1..], c, b);
      assert (a + [c] + b)[1..] == a[1..] + [c] + b;
    }
  }

  lemma TokenFirst(a: Text, c: Char, b: Text)
    requires a != [] && c !in a
    ensures Token(a + [c] + b, c) == Some((a, b))
    ensures Token(a, c) == Some((a, []))
  {
    BeforeFirst(a, c, b);
    var s := a + [c] + b;
    assert s[0] == a[0] && s[..|a|] == a && s[|a| + 1..] == b;
    assert a[..|a|] == a;
  }

  /** A saved line gives back its three fields. */
  lemma FieldsReadBack(e: Elm)
    requires Plain([e])
    ensures Fields(e.typ + [COLON] + e.args.name + [COLON] + e.args.value) == Some((e.typ, e.args))
  {
    assert Field([e][0].typ);
    var typ, name, value := e.typ, e.args.name, e.args.value;
    assert typ + [COLON] + name + [COLON] + value == typ + [COLON] + (name + [COLON] + value);
    TokenFirst(typ, COLON, name + [COLON] + value);
    TokenFirst(name, COLON, value);
    TokenFirst(value, COLON, []);
  }

  /** All elements added one by one. */
  function AddAll(l: seq<Elm>, more: seq<Elm>): seq<Elm>
    decreases |more|
  {
    if more == [] then l else AddAll(Add(l, more[0].typ, more[0].args), more[1..])
  }

  /** Loading a saved list adds its elements in order, whatever is in the list already. */
  lemma {:induction false} LoadOfSave(l: seq<Elm>, saved: seq<Elm>)
    requires Plain(saved)
    ensures Load(l, SaveText(saved)) == Some(AddAll(l, saved))
    decreases |saved|
  {
    if saved != [] {
      var e := saved[0];
      var line := e.typ + [COLON] + e.args.name + [COLON] + e.args.value;
      var text := SaveText(saved);
      assert text == line + [NEWLINE] + SaveText(saved[1..]);
      BeforeFirst(line, NEWLINE, SaveText(saved[1..]));
      assert text[..|line|] == line && text[|line| + 1..] == SaveText(saved[1..]);
      FieldsReadBack(e);
      LoadOfSave(Add(l, e.typ, e.args), saved[1..]);
    }
  }

  lemma {:induction false} AddAllLength(l: seq<Elm>, more: seq<Elm>)
    ensures |l| <= |AddAll(l, more)| <= |l| + |more|
    decreases |more|
  {
    if more != [] {
      AddAllLength(Add(l, more[0].typ, more[0].args), more[1..]);
    }
  }

  /** Fresh elements with new hashes are appended as they are. */
  lemma {:induction false} AddAllAppends(l: seq<Elm>, more: seq<Elm>)
    requires DistinctHashes(l + more) && AllFresh(more)
    ensures AddAll(l, more) == l + more
    decreases |more|
  {
    if more == [] {
      assert l + more == l;
    } else {
      var e := more[0];
      assert (l + more)[|l|] == e && Fresh(e);
      forall j | 0 <= j < |l|
        ensures l[j].hash != e.hash
      {
        assert (l + more)[j] == l[j];
      }
      assert Add(l, e.typ, e.args) == l + [e];
      assert l + [e] + more[1..] == l + more;
      AddAllAppends(l + [e], more[1..]);
    }
  }

  /** If nothing is lost on the way, every element was appended, so it was fresh. */
  lemma {:induction false} FullLengthIsFresh(l: seq<Elm>, more: seq<Elm>)
    requires AddAll(l, more) == l + more
    ensures AllFresh(more)
    decreases |more|
  {
    hide Key, Position;
    if more != [] {
      var e := more[0];
      var l' := Add(l, e.typ, e.args);
      AddAllLength(l', more[1..]);
      AddAllPrefix(l', more[1..], |l|);
      assert l'[|l|].hash == Key(e.typ, e.args.name);
      assert AddAll(l, more)[|l|] == e;
      assert l' == l + [l'[|l|]] && l'[|l|] == e;
      assert l + [e] + more[1..] == l + more;
      FullLengthIsFresh(l', more[1..]);
    }
  }

  /** Adding never changes the hash of an element that is there. */
  lemma {:induction false} AddAllPrefix(l: seq<Elm>, more: seq<Elm>, i: int)
    requires 0 <= i < |l|
    ensures i < |AddAll(l, more)| && AddAll(l, more)[i].hash == l[i].hash && AddAll(l, more)[i].typ == l[i].typ
    decreases |more|
  {
    if more != [] {
      AddAllPrefix(Add(l, more[0].typ, more[0].args), more[1..], i);
    }
  }

  lemma SaveLoadsBackIfFresh(l: seq<Elm>)
    requires Plain(l) && DistinctHashes(l) && AllFresh(l)
    ensures Load([], SaveText(l)) == Some(l)
  {
    LoadOfSave([], l);
    assert [] + l == l;
    AddAllAppends([], l);
  }

  // ---- What a file can hold -----------------------------------------------------------------------

  /** A token is not empty, and its characters come from the text, without the separator. */
  lemma {:induction false} TokenIsField(s: Text, c: Char)
    ensures var r := Token(s, c);
      r.Some? ==> r.value.0 != [] && c !in r.value.0
                  && (forall x :: x in r.value.0 ==> x in s) && (forall x :: x in r.value.1 ==> x in s)
    decreases |s|
  {
    if s != [] && s[0] == c {
      TokenIsField(s[1..], c);
    }
  }

  lemma FieldsArePlain(line: Text)
    requires NEWLINE !in line
    ensures var r := Fields(line); r.Some? ==> Field(r.value.0) && Field(r.value.1.name) && Field(r.value.1.value)
  {
    TokenIsField(line, COLON);
    var first := Token(line, COLON);
    if first.Some? {
      TokenIsField(first.value.1, COLON);
      var second := Token(first.value.1, COLON);
      if second.Some? {
        TokenIsField(second.value.1, COLON);
      }
    }
  }

  lemma AddKeepsPlain(l: seq<Elm>, typ: Text, args: Args)
    requires Plain(l) && Field(typ) && Field(args.name) && Field(args.value)
    ensures Plain(Add(l, typ, args))
  {
  }

  /** Whatever the file: what is loaded has fields that the format can hold, and distinct
      hashes. */
  lemma {:induction false} LoadKeepsPlain(l: seq<Elm>, text: Text)
    requires Plain(l) && DistinctHashes(l)
    ensures var r := Load(l, text); r.Some? ==> Plain(r.value) && DistinctHashes(r.value)
    decreases |text|
  {
    if text != [] {
      var n := Before(text, NEWLINE);
      var rest := if n < |text| then text[n + 1..] else [];
      FieldsArePlain(text[..n]);
      hide Fields, Before, Field, Add, DistinctHashes;
      var fields := Fields(text[..n]);
      if n == 0 {
        LoadKeepsPlain(l, rest);
      } else if fields.Some? {
        AddKeepsPlain(l, fields.value.0, fields.value.1);
        AddKeepsDistinct(l, fields.value.0, fields.value.1);
        LoadKeepsPlain(Add(l, fields.value.0, fields.value.1), rest);
      }
    }
  }

  // ---- The round trip -----------------------------------------------------------------------------

  /** Loading a saved list gives that list if and only if its fields are not empty and free of
      `:` and newline, its hashes are distinct, and every stored hash is the key of its
      element's type and name. */
  lemma SaveLoadsBack(l: seq<Elm>)
    ensures Load([], SaveText(l)) == Some(l) <==> Plain(l) && DistinctHashes(l) && AllFresh(l)
  {
    LoadKeepsPlain([], SaveText(l));
    if Plain(l) && DistinctHashes(l) {
      if AllFresh(l) {
        SaveLoadsBackIfFresh(l);
      } else if Load([], SaveText(l)) == Some(l) {
        LoadOfSave([], l);
        assert [] + l == l;
        FullLengthIsFresh([], l);
      }
    }
  }

  /** How a stored hash goes stale: the element that was overwritten through an exchanged
      type and name keeps its type, and is saved as something it is not stored as. */
  lemma ExchangeIsNotReadBack(t: Text, n: Text, v: Text, w: Text)
    requires Key(t, n) != Key(t, t)
    ensures var l := Add(Add([], t, Args(n, v)), n, Args(t, w));
      Load([], SaveText(l)) != Some(l)
  {
    var l := Add(Add([], t, Args(n, v)), n, Args(t, w));
    ExchangedNamesCollide(t, n, v, w);
    assert !Fresh(l[0]);
    SaveLoadsBack(l);
  }

  lemma FieldsCutShort(typ: Text, a: Text, b: Text, value: Text)
    requires Field(typ) && Field(a) && Field(b)
    ensures Fields(typ + [COLON] + (a + [COLON] + b) + [COLON] + value) == Some((typ, Args(a, b)))
  {
    hide Token;
    var last := b + [COLON] + value;
    TokenFirst(typ, COLON, a + [COLON] + last);
    TokenFirst(a, COLON, last);
    TokenFirst(b, COLON, value);
    assert typ + [COLON] + (a + [COLON] + b) + [COLON] + value == typ + [COLON] + (a + [COLON] + last);
  }

  /** A name with `:` in it: the element is added and saved, and read back with the name cut
      short and the rest of it as the value. */
  lemma ColonIsNotReadBack(typ: Text, a: Text, b: Text, value: Text)
    requires Field(typ) && Field(a) && Field(b) && NEWLINE !in value
    ensures var l := Add([], typ, Args(a + [COLON] + b, value));
      && DistinctHashes(l) && AllFresh(l) && Load([], SaveText(l)) != Some(l)
      && Load([], SaveText(l)) == Some([Elm(typ, Args(a, b), Key(typ, a))])
  {
    var name := a + [COLON] + b;
    var e := Elm(typ, Args(name, value), Key(typ, name));
    var line := typ + [COLON] + name + [COLON] + value;
    assert NEWLINE !in line && ElmText(e) == line + [NEWLINE];
    assert name != a;
    assert Add([], typ, Args(name, value)) == [e] && AllFresh([e]) && DistinctHashes([e]);
    assert Add([], typ, Args(a, b)) == [Elm(typ, Args(a, b), Key(typ, a))];
    FieldsCutShort(typ, a, b, value);
    hide *;
    OneLine([], e, line, typ, Args(a, b));
  }

  /** A file of one line. */
  lemma OneLine(l: seq<Elm>, e: Elm, line: Text, typ: Text, args: Args)
    requires line != [] && NEWLINE !in line && ElmText(e) == line + [NEWLINE] && Fields(line) == Some((typ, args))
    ensures Load(l, SaveText([e])) == Some(Add(l, typ, args))
  {
    var text := SaveText([e]);
    assert text == line + [NEWLINE] + [];
    BeforeFirst(line, NEWLINE, []);
    assert text[..|line|] == line && text[|line| + 1..] == [];
    assert Load(Add(l, typ, args), []) == Some(Add(l, typ, args));
  }

  /** An add leaves the list fresh unless it overwrote an element of another type. */
  lemma AddKeepsFresh(l: seq<Elm>, typ: Text, args: Args)
    requires AllFresh(l) && DistinctHashes(l)
    requires forall i :: 0 <= i < |l| && l[i].hash == Key(typ, args.name) ==> l[i].typ == typ
    ensures AllFresh(Add(l, typ, args)) && DistinctHashes(Add(l, typ, args))
  {
    AddKeepsDistinct(l, typ, args);
  }

  lemma RemoveKeepsFresh(l: seq<Elm>, typ: Text, name: Text)
    requires AllFresh(l) && DistinctHashes(l)
    ensures AllFresh(Remove(l, typ, name)) && DistinctHashes(Remove(l, typ, name))
  {
    if Position(l, Key(typ, name)) != -1 {
      RemoveShifts(l, typ, name, Position(l, Key(typ, name)));
    }
  }
}
