/** Loading a file into a list that has elements already, as the shell does before every
    prompt: when the list stays as it is. */
module ConfigReload {
  import opened Wrappers
  import opened ConfigModel
  import opened ConfigText

  /** What the lines of a file say, in order; None when a line has fewer than three fields. */
  function Lines(text: Text): Option<seq<Elm>>
    decreases |text|
  {
    if text == [] then Some([]) else
      var n := Before(text, NEWLINE);
      var rest := if n < |text| then text[n + 1..] else [];
      if n == 0 then Lines(rest) else
        match Fields(text[..n])
        case None => None
        case Some((typ, args)) =>
          match Lines(rest)
          case None => None
          case Some(more) => Some([Elm(typ, args, Key(typ, args.name))] + more)
  }

  /** Loading is adding what the lines say. */
  lemma {:induction false} LoadIsAddAll(l: seq<Elm>, text: Text)
    ensures Load(l, text) ==
      match Lines(text)
      case None => None
      case Some(more) => Some(AddAll(l, more))
    decreases |text|
  {
    hide Fields, Before, Key;
    if text != [] {
      var n := Before(text, NEWLINE);
      var rest := if n < |text| then text[n + 1..] else [];
      var fields := Fields(text[..n]);
      if n == 0 {
        LoadIsAddAll(l, rest);
      } else if fields.Some? {
        var (typ, args) := fields.value;
        LoadIsAddAll(Add(l, typ, args), rest);
        if Lines(rest).Some? {
          var e := Elm(typ, args, Key(typ, args.name));
          assert ([e] + Lines(rest).value)[1..] == Lines(rest).value;
        }
      }
    }
  }

  function KeyOf(e: Elm): int {
    Key(e.typ, e.args.name)
  }

  /** Every line of the list's file finds an element to write to. */
  predicate AllStored(l: seq<Elm>, more: seq<Elm>) {
    forall i :: 0 <= i < |more| ==> Position(l, KeyOf(more[i])) != -1
  }

  /** No later element has the same key. */
  predicate LastOfKey(l: seq<Elm>, i: int)
    requires 0 <= i < |l|
  {
    forall k :: i < k < |l| ==> KeyOf(l[k]) != KeyOf(l[i])
  }

  /** Where several lines write to one element, the last of them decides, and it writes
      what is there. */
  predicate Settles(l: seq<Elm>, more: seq<Elm>) {
    && AllStored(l, more)
    && forall i :: 0 <= i < |more| && LastOfKey(more, i) ==> l[Position(l, KeyOf(more[i]))].args == more[i].args
  }

  lemma {:induction false} MissingKeyGrows(l: seq<Elm>, more: seq<Elm>)
    requires !AllStored(l, more)
    ensures |AddAll(l, more)| > |l|
    decreases |more|
  {
    var e := more[0];
    var l' := Add(l, e.typ, e.args);
    AddAllLength(l', more[1..]);
    if Position(l, KeyOf(e)) != -1 {
      SameHashes(l, l');
      assert forall i :: 1 <= i < |more| ==> more[i] == more[1..][i - 1];
      MissingKeyGrows(l', more[1..]);
    }
  }

  lemma SameHashes(l: seq<Elm>, l': seq<Elm>)
    requires |l| == |l'| && forall j :: 0 <= j < |l| ==> l[j].hash == l'[j].hash
    ensures forall h :: Position(l, h) == Position(l', h)
  {
    forall h
      ensures Position(l, h) == Position(l', h)
    {
      var i, j := Position(l, h), Position(l', h);
      assert i >= 0 ==> l'[i].hash == h;
      assert j >= 0 ==> l[j].hash == h;
    }
  }

  /** Added to elements that are all there, the last line for a hash decides. */
  lemma {:induction false} LastLineDecides(l: seq<Elm>, more: seq<Elm>, j: int)
    requires AllStored(l, more) && DistinctHashes(l) && 0 <= j < |l|
    ensures var r := AddAll(l, more);
      && |r| == |l| && r[j].typ == l[j].typ && r[j].hash == l[j].hash
      && (forall i :: 0 <= i < |more| && LastOfKey(more, i) && KeyOf(more[i]) == l[j].hash ==> r[j].args == more[i].args)
      && ((forall i :: 0 <= i < |more| ==> KeyOf(more[i]) != l[j].hash) ==> r[j] == l[j])
    decreases |more|
  {
    hide Key;
    if more != [] {
      var e, rest := more[0], more[1..];
      var p, l' := Position(l, KeyOf(e)), Add(l, e.typ, e.args);
      SameHashes(l, l');
      LastLineDecides(l', rest, j);
      assert forall i :: 1 <= i < |more| ==> more[i] == rest[i - 1];
      forall i | 0 <= i < |more| && LastOfKey(more, i) && KeyOf(more[i]) == l[j].hash
        ensures AddAll(l', rest)[j].args == more[i].args
      {
        if i == 0 {
          PositionIs(l, j);
          assert forall k :: 0 <= k < |rest| ==> KeyOf(rest[k]) == KeyOf(more[k + 1]);
        } else {
          assert LastOfKey(rest, i - 1);
        }
      }
    }
  }

  lemma {:induction false} LastExists(l: seq<Elm>, i: int) returns (k: int)
    requires 0 <= i < |l|
    ensures i <= k < |l| && KeyOf(l[k]) == KeyOf(l[i]) && LastOfKey(l, k)
    decreases |l| - i
  {
    if LastOfKey(l, i) {
      k := i;
    } else {
      var n :| i < n < |l| && KeyOf(l[n]) == KeyOf(l[i]);
      k := LastExists(l, n);
    }
  }

  lemma SettledStaysAt(l: seq<Elm>, more: seq<Elm>, j: int)
    requires DistinctHashes(l) && Settles(l, more) && 0 <= j < |l|
    ensures |AddAll(l, more)| == |l| && AddAll(l, more)[j] == l[j]
  {
    LastLineDecides(l, more, j);
    if i :| 0 <= i < |more| && KeyOf(more[i]) == l[j].hash {
      var k := LastExists(more, i);
      PositionIs(l, j);
      assert AddAll(l, more)[j].args == more[k].args;
    }
  }

  lemma {:induction false} StoredKeysKeepLength(l: seq<Elm>, more: seq<Elm>)
    requires AllStored(l, more)
    ensures |AddAll(l, more)| == |l|
    decreases |more|
  {
    if more != [] {
      var e, rest := more[0], more[1..];
      var l' := Add(l, e.typ, e.args);
      assert Position(l, KeyOf(e)) != -1;
      SameHashes(l, l');
      assert forall i :: 0 <= i < |rest| ==> rest[i] == more[i + 1];
      StoredKeysKeepLength(l', rest);
    }
  }

  lemma SettledStays(l: seq<Elm>, more: seq<Elm>)
    requires DistinctHashes(l) && Settles(l, more)
    ensures AddAll(l, more) == l
  {
    StoredKeysKeepLength(l, more);
    hide *;
    forall j | 0 <= j < |l|
      ensures AddAll(l, more)[j] == l[j]
    {
      SettledStaysAt(l, more, j);
    }
  }

  lemma StayingSettles(l: seq<Elm>, more: seq<Elm>)
    requires DistinctHashes(l) && AddAll(l, more) == l
    ensures Settles(l, more)
  {
    if !AllStored(l, more) {
      MissingKeyGrows(l, more);
    }
    hide AddAll, Add, Key, DistinctHashes, LastOfKey;
    forall i | 0 <= i < |more| && LastOfKey(more, i)
      ensures l[Position(l, KeyOf(more[i]))].args == more[i].args
    {
      LastLineDecides(l, more, Position(l, KeyOf(more[i])));
    }
  }

  /** Loading any file into a list leaves the list as it is if and only if every line has its
      three fields, and the lines settle. */
  lemma LoadIffSettled(l: seq<Elm>, text: Text)
    requires DistinctHashes(l)
    ensures Load(l, text) == Some(l) <==> Lines(text).Some? && Settles(l, Lines(text).value)
  {
    LoadIsAddAll(l, text);
    hide *;
    if Lines(text).Some? {
      if Settles(l, Lines(text).value) {
        SettledStays(l, Lines(text).value);
      } else if AddAll(l, Lines(text).value) == l {
        StayingSettles(l, Lines(text).value);
      }
    }
  }

  /** Reloading a file into the list it was saved from, which happens before every prompt,
      leaves the list as it is if and only if what the file says settles in it. */
  lemma ReloadIffSettled(l: seq<Elm>)
    requires DistinctHashes(l)
    ensures Load(l, SaveText(l)) == Some(l) <==> Lines(SaveText(l)).Some? && Settles(l, Lines(SaveText(l)).value)
    ensures Plain(l) ==> (Load(l, SaveText(l)) == Some(l) <==> Settles(l, l))
  {
    LoadIffSettled(l, SaveText(l));
    if Plain(l) {
      LoadOfSave(l, l);
      hide *;
      if Settles(l, l) {
        SettledStays(l, l);
      } else if AddAll(l, l) == l {
        StayingSettles(l, l);
      }
    }
  }

  /** A list whose stored hashes are fresh settles. */
  lemma ReloadChangesNothing(l: seq<Elm>)
    requires Plain(l) && DistinctHashes(l) && AllFresh(l)
    ensures Load(l, SaveText(l)) == Some(l)
  {
    forall i | 0 <= i < |l|
      ensures Position(l, KeyOf(l[i])) == i
    {
      PositionIs(l, i);
    }
    ReloadIffSettled(l);
  }
}
