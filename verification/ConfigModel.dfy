/** The configuration store of prj1/config.h: its meaning as a list of elements and as a
    map from hashes to arguments. */
module ConfigModel {
  import opened Wrappers
  import opened Sequences

  /** A C string without its terminator; characters are unsigned. */
  type Char = c: int | 0 < c < 256 witness 1
  type Text = seq<Char>

  /** Values of `hash_t`, an unsigned 64-bit integer. */
  const HASHES: int := 0x1_0000_0000_0000_0000

  /** djb2 over unbounded integers. */
  function Djb2(s: Text): (h: nat) {
    if s == [] then 5381 else Djb2(s[..|s| - 1]) * 33 + s[|s| - 1]
  }

  /** The hash of a string: one reduction at the end. */
  function HashOf(s: Text): (h: int)
    ensures 0 <= h < HASHES
  {
    Djb2(s) % HASHES
  }

  /** `((hash << 5) + hash) + c` in 64 bits, wrapping at every step. */
  function HashStep(h: int, c: Char): int {
    ((h * 32 % HASHES + h) % HASHES + c) % HASHES
  }

  lemma SameResidue(x: int, y: int, k: int)
    requires x == y + HASHES * k
    ensures x % HASHES == y % HASHES
  {
  }

  lemma HashStepWraps(d: nat, c: Char)
    ensures HashStep(d % HASHES, c) == (d * 33 + c) % HASHES
  {
    var q, h := d / HASHES, d % HASHES;
    var e, a := h * 32 / HASHES, h * 32 % HASHES;
    var f, b := (a + h) / HASHES, (a + h) % HASHES;
    SameResidue(d * 33 + c, b + c, 33 * q + e + f);
  }

  method HashStr(str: Text) returns (hash: int)
    ensures hash == HashOf(str)
  {
    hash := 5381;
    var i := 0;
    while i < |str|
      invariant 0 <= i <= |str| && hash == HashOf(str[..i])
    {
      HashStepWraps(Djb2(str[..i]), str[i]);
      assert str[..i + 1][..i] == str[..i];
      hash := HashStep(hash, str[i]);
      i := i + 1;
    }
    assert str[..i] == str;
  }

  datatype Args = Args(name: Text, value: Text)
  datatype Elm = Elm(typ: Text, args: Args, hash: int)

  /** The key of a type and a name. */
  function Key(typ: Text, name: Text): int {
    (HashOf(typ) + HashOf(name)) % HASHES
  }

  // ---- The list -------------------------------------------------------------------------------

  predicate DistinctHashes(l: seq<Elm>) {
    forall i, j :: 0 <= i < j < |l| ==> l[i].hash != l[j].hash
  }

  /** The position of the first element with a hash, -1 when there is none. */
  function Position(l: seq<Elm>, h: int): (i: int)
    ensures -1 <= i < |l|
    ensures i >= 0 ==> l[i].hash == h && forall j :: 0 <= j < i ==> l[j].hash != h
    ensures i == -1 ==> forall j :: 0 <= j < |l| ==> l[j].hash != h
  {
    if l == [] then -1
    else if l[0].hash == h then 0
    else
      var i := Position(l[1..], h);
      assert forall j :: 1 <= j < |l| ==> l[j] == l[1..][j - 1];
      if i == -1 then -1 else i + 1
  }

  /** `add_conf_elm`: overwrite the arguments in place, or append. */
  function Add(l: seq<Elm>, typ: Text, args: Args): seq<Elm> {
    var i := Position(l, Key(typ, args.name));
    if i == -1 then l + [Elm(typ, args, Key(typ, args.name))] else l[i := l[i].(args := args)]
  }

  /** `get_conf` by name. */
  function Get(l: seq<Elm>, typ: Text, name: Text): Option<Text> {
    var i := Position(l, Key(typ, name));
    if i == -1 then None else Some(l[i].args.value)
  }

  /** `rm_config` by name. */
  function Remove(l: seq<Elm>, typ: Text, name: Text): seq<Elm> {
    var i := Position(l, Key(typ, name));
    if i == -1 then l else Cut(l, i)
  }

  // ---- The map it stands for --------------------------------------------------------------------

  function Lookup(l: seq<Elm>, h: int): Option<Args> {
    var i := Position(l, h);
    if i == -1 then None else Some(l[i].args)
  }

  /** Hash to arguments. */
  function MapOf(l: seq<Elm>): map<int, Args> {
    map h | h in (set e | e in l :: e.hash) :: l[Position(l, h)].args
  }

  lemma MapAt(l: seq<Elm>, h: int)
    ensures h in MapOf(l) <==> Lookup(l, h).Some?
    ensures h in MapOf(l) ==> MapOf(l)[h] == Lookup(l, h).value
  {
    if Position(l, h) != -1 {
      assert l[Position(l, h)] in l;
    }
  }

  lemma PositionIs(l: seq<Elm>, i: int)
    requires DistinctHashes(l) && 0 <= i < |l|
    ensures Position(l, l[i].hash) == i
  {
  }

  lemma PositionNone(l: seq<Elm>, h: int)
    requires forall j :: 0 <= j < |l| ==> l[j].hash != h
    ensures Position(l, h) == -1
  {
  }

  lemma AddKeepsDistinct(l: seq<Elm>, typ: Text, args: Args)
    requires DistinctHashes(l)
    ensures DistinctHashes(Add(l, typ, args))
  {
  }

  lemma LookupAdd(l: seq<Elm>, typ: Text, args: Args, k: int)
    requires DistinctHashes(l)
    ensures Lookup(Add(l, typ, args), k) == if k == Key(typ, args.name) then Some(args) else Lookup(l, k)
  {
    var h, l' := Key(typ, args.name), Add(l, typ, args);
    AddKeepsDistinct(l, typ, args);
    if k == h {
      PositionIs(l', if Position(l, h) == -1 then |l| else Position(l, h));
    } else if Position(l, k) != -1 {
      PositionIs(l', Position(l, k));
    } else {
      PositionNone(l', k);
    }
  }

  lemma AddRefines(l: seq<Elm>, typ: Text, args: Args)
    requires DistinctHashes(l)
    ensures DistinctHashes(Add(l, typ, args))
    ensures MapOf(Add(l, typ, args)) == MapOf(l)[Key(typ, args.name) := args]
  {
    AddKeepsDistinct(l, typ, args);
    hide *;
    var h, l' := Key(typ, args.name), Add(l, typ, args);
    forall k
      ensures k in MapOf(l') <==> k == h || k in MapOf(l)
      ensures k in MapOf(l') ==> MapOf(l')[k] == if k == h then args else MapOf(l)[k]
    {
      LookupAdd(l, typ, args, k);
      MapAt(l, k);
      MapAt(l', k);
    }
  }

  /** Where the elements of the shorter list come from. */
  lemma RemoveShifts(l: seq<Elm>, typ: Text, name: Text, p: int)
    requires DistinctHashes(l) && p == Position(l, Key(typ, name)) != -1
    ensures DistinctHashes(Remove(l, typ, name)) && |Remove(l, typ, name)| == |l| - 1
    ensures forall i :: 0 <= i < |l| - 1 ==> Remove(l, typ, name)[i] == l[if i < p then i else i + 1]
  {
  }

  /** A list without its element `i` is the list with that element's key removed. */
  lemma RemoveByPosition(l: seq<Elm>, l': seq<Elm>, i: nat, typ: Text, name: Text)
    requires DistinctHashes(l) && i < |l| && l[i].hash == Key(typ, name) && |l'| == |l| - 1
    requires forall j :: 0 <= j < |l'| ==> l'[j] == l[if j < i then j else j + 1]
    ensures l' == Remove(l, typ, name) && DistinctHashes(l') && Position(l', Key(typ, name)) == -1
  {
    PositionIs(l, i);
    RemoveShifts(l, typ, name, i);
    PositionNone(l', Key(typ, name));
  }

  lemma CutIsRemove(l: seq<Elm>, i: nat, typ: Text, name: Text)
    requires DistinctHashes(l) && i < |l| && l[i].hash == Key(typ, name)
    ensures Cut(l, i) == Remove(l, typ, name) && DistinctHashes(Cut(l, i)) && Position(Cut(l, i), Key(typ, name)) == -1
  {
    RemoveByPosition(l, Cut(l, i), i, typ, name);
  }

  lemma LookupRemove(l: seq<Elm>, typ: Text, name: Text, k: int)
    requires DistinctHashes(l)
    ensures Lookup(Remove(l, typ, name), k) == if k == Key(typ, name) then None else Lookup(l, k)
  {
    var h, l' := Key(typ, name), Remove(l, typ, name);
    var p, i := Position(l, h), Position(l, k);
    if p != -1 {
      RemoveShifts(l, typ, name, p);
      if k == h || i == -1 {
        forall j | 0 <= j < |l'|
          ensures l'[j].hash != k
        {
          assert l'[j] == l[if j < p then j else j + 1];
        }
        PositionNone(l', k);
      } else {
        PositionIs(l', if i < p then i else i - 1);
      }
    }
  }

  /** A map without one key. */
  function Drop(m: map<int, Args>, h: int): map<int, Args> {
    map k | k in m && k != h :: m[k]
  }

  lemma RemoveRefines(l: seq<Elm>, typ: Text, name: Text)
    requires DistinctHashes(l)
    ensures DistinctHashes(Remove(l, typ, name))
    ensures MapOf(Remove(l, typ, name)) == Drop(MapOf(l), Key(typ, name))
  {
    if Position(l, Key(typ, name)) != -1 {
      RemoveShifts(l, typ, name, Position(l, Key(typ, name)));
    }
    hide Remove, MapOf, Lookup, Key, DistinctHashes, Position;
    var h, l' := Key(typ, name), Remove(l, typ, name);
    forall k
      ensures k in MapOf(l') <==> k in MapOf(l) && k != h
      ensures k in MapOf(l') ==> MapOf(l')[k] == MapOf(l)[k]
    {
      LookupRemove(l, typ, name, k);
      MapAt(l, k);
      MapAt(l', k);
    }
  }

  // ---- Runs -------------------------------------------------------------------------------------

  datatype Op = AddOp(typ: Text, args: Args) | GetOp(typ: Text, name: Text) | RemoveOp(typ: Text, name: Text)

  function Apply(l: seq<Elm>, op: Op): (seq<Elm>, Option<Text>) {
    match op
    case AddOp(typ, args) => (Add(l, typ, args), None)
    case GetOp(typ, name) => (l, Get(l, typ, name))
    case RemoveOp(typ, name) => (Remove(l, typ, name), None)
  }

  function ApplyMap(m: map<int, Args>, op: Op): (map<int, Args>, Option<Text>) {
    match op
    case AddOp(typ, args) => (m[Key(typ, args.name) := args], None)
    case GetOp(typ, name) => (m, if Key(typ, name) in m then Some(m[Key(typ, name)].value) else None)
    case RemoveOp(typ, name) => (Drop(m, Key(typ, name)), None)
  }

  /** The list after a run, and all answers. */
  function Run(l: seq<Elm>, ops: seq<Op>): (seq<Elm>, seq<Option<Text>>) {
    if ops == [] then (l, []) else
      var (l', out) := Run(l, ops[..|ops| - 1]);
      var (l'', r) := Apply(l', ops[|ops| - 1]);
      (l'', out + [r])
  }

  function RunMap(m: map<int, Args>, ops: seq<Op>): (map<int, Args>, seq<Option<Text>>) {
    if ops == [] then (m, []) else
      var (m', out) := RunMap(m, ops[..|ops| - 1]);
      var (m'', r) := ApplyMap(m', ops[|ops| - 1]);
      (m'', out + [r])
  }

  /** The list refines the map: over every run of adds, look-ups and removals its hashes
      stay distinct, it holds what the map holds, and it gives the same answers. */
  lemma {:induction false} ListRefinesMap(l: seq<Elm>, ops: seq<Op>)
    requires DistinctHashes(l)
    ensures DistinctHashes(Run(l, ops).0)
    ensures MapOf(Run(l, ops).0) == RunMap(MapOf(l), ops).0
    ensures Run(l, ops).1 == RunMap(MapOf(l), ops).1
    decreases |ops|
  {
    if ops != [] {
      var before, op := ops[..|ops| - 1], ops[|ops| - 1];
      ListRefinesMap(l, before);
      var l' := Run(l, before).0;
      match op
      case AddOp(typ, args) => AddRefines(l', typ, args);
      case GetOp(typ, name) => MapAt(l', Key(typ, name));
      case RemoveOp(typ, name) => RemoveRefines(l', typ, name);
    }
  }

  /** The map has its limits: the key adds two hashes, so a type and a name can be
      exchanged.  The second element overwrites the arguments of the first. */
  lemma ExchangedNamesCollide(t: Text, n: Text, v: Text, w: Text)
    ensures Key(t, n) == Key(n, t)
    ensures Add(Add([], t, Args(n, v)), n, Args(t, w)) == [Elm(t, Args(t, w), Key(t, n))]
  {
    assert Add([], t, Args(n, v)) == [Elm(t, Args(n, v), Key(t, n))];
  }
}
