/** Which names the hashes of prj1/config.h tell apart, and what that means for the elements. */
module ConfigKeys {
  import opened Wrappers
  import opened ConfigModel

  /** djb2, one character at a time, and where it starts. */
  lemma HashOfNext(s: Text, c: Char)
    ensures HashOf([]) == 5381
    ensures HashOf(s + [c]) == (HashOf(s) * 33 + c) % 0x1_0000_0000_0000_0000
  {
    assert (s + [c])[..|s|] == s;
    SameResidue(Djb2(s) * 33 + c, HashOf(s) * 33 + c, 33 * (Djb2(s) / HASHES));
  }

  /** 33 has an inverse modulo 2^64. */
  const INVERSE: int := 1117984489315730401

  lemma UndoStep(x: int, y: int, c: int)
    requires 0 <= x < HASHES && 0 <= y < HASHES
    requires (x * 33 + c) % HASHES == (y * 33 + c) % HASHES
    ensures x == y
  {
    var d := (x * 33 + c) / HASHES - (y * 33 + c) / HASHES;
    assert 33 * (x - y) == HASHES * d;
    var k := INVERSE * 33 / HASHES;
    assert INVERSE * 33 == HASHES * k + 1;
    assert INVERSE * (33 * (x - y)) == INVERSE * (HASHES * d);
    assert x - y == HASHES * (INVERSE * d - k * (x - y));
  }

  /** What follows two names alike neither makes them collide nor tells them apart. */
  lemma {:induction false} SameEndTellsNothing(a: Text, b: Text, s: Text)
    ensures HashOf(a + s) == HashOf(b + s) <==> HashOf(a) == HashOf(b)
    decreases |s|
  {
    if s == [] {
      assert a + s == a && b + s == b;
    } else {
      var rest, c := s[..|s| - 1], s[|s| - 1];
      assert a + s == a + rest + [c] && b + s == b + rest + [c];
      SameEndTellsNothing(a, b, rest);
      HashOfNext(a + rest, c);
      HashOfNext(b + rest, c);
      hide HashOf;
      if HashOf(a + s) == HashOf(b + s) {
        UndoStep(HashOf(a + rest), HashOf(b + rest), c);
      }
    }
  }

  lemma SmallResidues(h: int, x: int, y: int)
    requires 0 <= x < 0x1_0000 && 0 <= y < 0x1_0000
    ensures (h + x) % HASHES == (h + y) % HASHES <==> x == y
  {
    if (h + x) % HASHES == (h + y) % HASHES {
      var d := (h + x) / HASHES - (h + y) / HASHES;
      assert x - y == HASHES * d;
    }
  }

  /** Two names that differ in one character, wherever it stands, have different hashes. */
  lemma OneCharacterTells(p: Text, c: Char, d: Char, s: Text)
    ensures HashOf(p + [c] + s) == HashOf(p + [d] + s) <==> c == d
  {
    SameEndTellsNothing(p + [c], p + [d], s);
    HashOfNext(p, c);
    HashOfNext(p, d);
    SmallResidues(HashOf(p) * 33, c, d);
  }

  /** Two that differ in two characters side by side collide exactly when what the first
      gains, 33 times, the second loses. */
  lemma TwoCharactersTell(p: Text, a: Char, b: Char, c: Char, d: Char, s: Text)
    ensures HashOf(p + [a] + [b] + s) == HashOf(p + [c] + [d] + s) <==> a * 33 + b == c * 33 + d
  {
    SameEndTellsNothing(p + [a] + [b], p + [c] + [d], s);
    TwoSteps(p, a, b);
    TwoSteps(p, c, d);
    SmallResidues(HashOf(p) * 1089, a * 33 + b, c * 33 + d);
  }

  lemma TwoSteps(p: Text, a: Char, b: Char)
    ensures HashOf(p + [a] + [b]) == (HashOf(p) * 1089 + (a * 33 + b)) % HASHES
  {
    HashOfNext(p, a);
    HashOfNext(p + [a], b);
    hide HashOf;
    var x := HashOf(p) * 33 + a;
    SameResidue(x * 33 + b, (x % HASHES) * 33 + b, 33 * (x / HASHES));
  }

  // ---- Keys ------------------------------------------------------------------------------------------

  lemma SumTells(t: int, x: int, y: int)
    requires 0 <= x < HASHES && 0 <= y < HASHES
    ensures (t + x) % HASHES == (t + y) % HASHES <==> x == y
  {
    if (t + x) % HASHES == (t + y) % HASHES {
      var d := (t + x) / HASHES - (t + y) / HASHES;
      assert x - y == HASHES * d;
    }
  }

  /** A key tells two names of a type apart, and two types of a name, as their hashes do; of
      the letters `a` and `b` it is the sum of their hashes. */
  lemma KeyTells(t: Text, u: Text, a: Text, b: Text)
    ensures Key(t, a) == Key(t, b) <==> HashOf(a) == HashOf(b)
    ensures Key(t, a) == Key(u, a) <==> HashOf(t) == HashOf(u)
  {
    SumTells(HashOf(t), HashOf(a), HashOf(b));
    SumTells(HashOf(a), HashOf(t), HashOf(u));
  }

  lemma KeyOfLetters()
    ensures Key([97], [98]) == 177670 + 177671
  {
    HashOfNext([], 97);
    HashOfNext([], 98);
    assert [] + [97] == [97] && [] + [98] == [98];
  }

  // ---- What a caller gets -------------------------------------------------------------------------------

  lemma GetIsLookup(l: seq<Elm>, typ: Text, name: Text)
    ensures Get(l, typ, name) == if Lookup(l, Key(typ, name)).None? then None else Some(Lookup(l, Key(typ, name)).value.value)
  {
  }

  /** After an add the name, and every name with its hash, has the new value; all other names
      of the type have what they had. */
  lemma GetAfterAdd(l: seq<Elm>, typ: Text, args: Args, name: Text)
    requires DistinctHashes(l)
    ensures Get(Add(l, typ, args), typ, name) == if HashOf(name) == HashOf(args.name) then Some(args.value) else Get(l, typ, name)
  {
    LookupAdd(l, typ, args, Key(typ, name));
    GetIsLookup(l, typ, name);
    GetIsLookup(Add(l, typ, args), typ, name);
    KeyTells(typ, typ, name, args.name);
  }

  /** After a removal the name, and every name with its hash, is gone; all others stay. */
  lemma GetAfterRemove(l: seq<Elm>, typ: Text, gone: Text, name: Text)
    requires DistinctHashes(l)
    ensures Get(Remove(l, typ, gone), typ, name) == if HashOf(name) == HashOf(gone) then None else Get(l, typ, name)
  {
    LookupRemove(l, typ, gone, Key(typ, name));
    GetIsLookup(l, typ, name);
    GetIsLookup(Remove(l, typ, gone), typ, name);
    KeyTells(typ, typ, name, gone);
  }

  /** Two elements of one type are kept side by side if and only if the hashes of their names
      differ; then each is answered with its own value.  Otherwise the second has taken the
      place of the first. */
  lemma TwoNames(t: Text, a: Text, v: Text, b: Text, w: Text)
    ensures var l := Add(Add([], t, Args(a, v)), t, Args(b, w));
      && Get(l, t, b) == Some(w)
      && (HashOf(a) != HashOf(b) ==>
            l == [Elm(t, Args(a, v), Key(t, a)), Elm(t, Args(b, w), Key(t, b))] && Get(l, t, a) == Some(v))
      && (HashOf(a) == HashOf(b) ==> l == [Elm(t, Args(b, w), Key(t, a))] && Get(l, t, a) == Some(w))
  {
    var one := Add([], t, Args(a, v));
    assert one == [Elm(t, Args(a, v), Key(t, a))];
    KeyTells(t, t, a, b);
    GetAfterAdd(one, t, Args(b, w), a);
    GetAfterAdd(one, t, Args(b, w), b);
    GetAfterAdd([], t, Args(a, v), a);
    hide HashOf, Key;
  }

  /** The aliases `ll` and `la` do not get in each other's way. */
  lemma ListingAliases(v: Text, w: Text)
    ensures var t, ll, la := [97, 108, 105, 97, 115], [108, 108], [108, 97];
      var l := Add(Add([], t, Args(ll, v)), t, Args(la, w));
      |l| == 2 && Get(l, t, ll) == Some(v) && Get(l, t, la) == Some(w)
  {
    var t, ll, la := [97, 108, 105, 97, 115], [108, 108], [108, 97];
    OneCharacterTells([108], 108, 97, []);
    assert [108] + [108] + [] == ll && [108] + [97] + [] == la;
    TwoNames(t, ll, v, la, w);
  }
}
