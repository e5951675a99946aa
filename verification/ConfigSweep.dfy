/** `rm_config` without a name, which is meant to take out all elements of a type. */
module ConfigSweep {
  import opened Sequences
  import opened ConfigModel

  /** What is meant to be left. */
  function OfOtherTypes(l: seq<Elm>, typ: Text): (r: seq<Elm>)
    ensures forall e :: e in r <==> e in l && e.typ != typ
  {
    if l == [] then []
    else if l[0].typ == typ then OfOtherTypes(l[1..], typ)
    else [l[0]] + OfOtherTypes(l[1..], typ)
  }

  /** What is left.  Once an element has stayed, the scan keeps the element it takes out as its
      predecessor, and then has no hold on the next one.  `first`: nothing has stayed yet.
      `gone`: the predecessor was taken out. */
  function Sweep(l: seq<Elm>, typ: Text, first: bool, gone: bool): seq<Elm> {
    if l == [] then []
    else if l[0].typ == typ && !gone then Sweep(l[1..], typ, first, !first)
    else [l[0]] + Sweep(l[1..], typ, false, false)
  }

  /** Two elements of the type stand side by side. */
  ghost predicate Side(l: seq<Elm>, typ: Text) {
    exists j :: 0 <= j < |l| - 1 && l[j].typ == typ && l[j + 1].typ == typ
  }

  /** The elements behind the first one that stays. */
  function Behind(l: seq<Elm>, typ: Text): seq<Elm> {
    if l != [] && l[0].typ == typ then Behind(l[1..], typ) else l
  }

  /** Nothing but elements of the type is ever lost. */
  lemma {:induction false} SweepKeepsOthers(l: seq<Elm>, typ: Text, first: bool, gone: bool)
    ensures OfOtherTypes(Sweep(l, typ, first, gone), typ) == OfOtherTypes(l, typ)
    ensures |Sweep(l, typ, first, gone)| >= |OfOtherTypes(l, typ)|
    decreases |l|
  {
    if l != [] {
      if l[0].typ == typ && !gone {
        SweepKeepsOthers(l[1..], typ, first, !first);
      } else {
        SweepKeepsOthers(l[1..], typ, false, false);
        var rest := Sweep(l[1..], typ, false, false);
        assert ([l[0]] + rest)[1..] == rest;
      }
    }
  }

  lemma SideSplits(l: seq<Elm>, typ: Text)
    requires l != []
    ensures Side(l, typ) <==> Side(l[1..], typ) || (|l| >= 2 && l[0].typ == typ && l[1].typ == typ)
  {
    if Side(l[1..], typ) {
      var j :| 0 <= j < |l| - 2 && l[1..][j].typ == typ && l[1..][j + 1].typ == typ;
      assert l[j + 1].typ == typ && l[j + 2].typ == typ;
    }
    if j :| 0 < j < |l| - 1 && l[j].typ == typ && l[j + 1].typ == typ {
      assert l[1..][j - 1].typ == typ && l[1..][j - 1 + 1].typ == typ;
    }
  }

  /** Behind an element that stays. */
  lemma {:induction false} SweepLaterIff(l: seq<Elm>, typ: Text, gone: bool)
    ensures Sweep(l, typ, false, gone) == OfOtherTypes(l, typ) <==>
      !Side(l, typ) && !(gone && l != [] && l[0].typ == typ)
    decreases |l|
  {
    if l != [] {
      SideSplits(l, typ);
      hide Side;
      var rest := Sweep(l[1..], typ, false, false);
      if l[0].typ != typ {
        SweepLaterIff(l[1..], typ, false);
        assert ([l[0]] + rest)[1..] == rest && ([l[0]] + OfOtherTypes(l[1..], typ))[1..] == OfOtherTypes(l[1..], typ);
      } else if gone {
        SweepKeepsOthers(l[1..], typ, false, false);
      } else {
        SweepLaterIff(l[1..], typ, true);
      }
    }
  }

  /** All elements of the type are taken out if and only if no two of them stand side by side
      behind an element of another type. */
  lemma {:induction false} SweepIff(l: seq<Elm>, typ: Text)
    ensures Sweep(l, typ, true, false) == OfOtherTypes(l, typ) <==> !Side(Behind(l, typ), typ)
    decreases |l|
  {
    if l != [] {
      if l[0].typ == typ {
        SweepIff(l[1..], typ);
      } else {
        SweepLaterIff(l, typ, false);
      }
    }
  }

  /** So it works on a list of one type, which is all that the shell stores. */
  lemma {:induction false} OneTypeIsSwept(l: seq<Elm>, typ: Text)
    requires forall j :: 0 <= j < |l| ==> l[j].typ == typ
    ensures Sweep(l, typ, true, false) == []
    decreases |l|
  {
    if l != [] {
      OneTypeIsSwept(l[1..], typ);
    }
  }

  /** The smallest list on which it does not: the last element stays. */
  lemma NextIsMissed(other: Elm, a: Elm, b: Elm)
    requires other.typ != a.typ == b.typ
    ensures Sweep([other, a, b], a.typ, true, false) == [other, b]
  {
    assert [b][1..] == [] && Sweep([b], a.typ, false, true) == [b];
    assert [a, b][1..] == [b] && Sweep([a, b], a.typ, false, false) == [b];
    assert [other, a, b][1..] == [a, b];
  }

  // ---- One round of the scan ---------------------------------------------------------------------

  /** Where element `i` is taken out. */
  lemma SweepTakesOut(l: seq<Elm>, i: nat, typ: Text)
    requires i < |l| && l[i].typ == typ
    ensures Cut(l, i)[..i] + Sweep(Cut(l, i)[i..], typ, i == 0, i != 0) == l[..i] + Sweep(l[i..], typ, i == 0, false)
  {
    assert Cut(l, i)[..i] == l[..i] && Cut(l, i)[i..] == l[i..][1..];
  }

  /** Where it stays. */
  lemma SweepKeeps(l: seq<Elm>, i: nat, typ: Text, gone: bool)
    requires i < |l| && (l[i].typ != typ || gone)
    ensures l[..i + 1] + Sweep(l[i + 1..], typ, false, false) == l[..i] + Sweep(l[i..], typ, i == 0, gone)
  {
    assert l[..i + 1] == l[..i] + [l[i]] && l[i + 1..] == l[i..][1..];
  }

  lemma CutIsDistinct(l: seq<Elm>, i: nat)
    requires DistinctHashes(l) && i < |l|
    ensures DistinctHashes(Cut(l, i))
  {
  }
}
