/** The store itself: the linked list of prj1/config.h with its file. */
module ConfigStore {
  import opened Wrappers
  import opened Sequences
  import opened ConfigModel
  import opened ConfigText
  import opened ConfigSweep

  /** `hash_conf_elm`: the hashes of the type and of the name, added in 64 bits. */
  method HashElm(typ: Text, name: Text) returns (hash: int)
    ensures hash == Key(typ, name)
  {
    var first := HashStr(typ);
    var second := HashStr(name);
    hash := (first + second) % HASHES;
  }

  class Node {
    const typ: Text
    var args: Args
    const hash: int
    var next: Node?

    /** `create_conf_elm`: the hash is taken once, here. */
    constructor (typ: Text, args: Args)
      ensures this.typ == typ && this.args == args && hash == Key(typ, args.name) && next == null
    {
      this.typ, this.args := typ, args;
      var key := HashElm(typ, args.name);
      hash, next := key, null;
    }
  }

  lemma SaveStep(text: Text, l: seq<Elm>, i: nat)
    requires i < |l|
    ensures text + ElmText(l[i]) + SaveText(l[i + 1..]) == text + SaveText(l[i..])
  {
    assert l[i..][0] == l[i] && l[i..][1..] == l[i + 1..];
    assert SaveText(l[i..]) == ElmText(l[i]) + SaveText(l[i + 1..]);
  }

  lemma AddNew(l: seq<Elm>, typ: Text, args: Args)
    requires forall j :: 0 <= j < |l| ==> l[j].hash != Key(typ, args.name)
    ensures Add(l, typ, args) == l + [Elm(typ, args, Key(typ, args.name))]
  {
    PositionNone(l, Key(typ, args.name));
  }

  lemma AddOver(l: seq<Elm>, typ: Text, args: Args, i: nat)
    requires i < |l| && l[i].hash == Key(typ, args.name) && DistinctHashes(l)
    ensures Add(l, typ, args) == l[i := l[i].(args := args)]
  {
    PositionIs(l, i);
  }

  lemma RemoveNothing(l: seq<Elm>, typ: Text, name: Text)
    requires forall j :: 0 <= j < |l| ==> l[j].hash != Key(typ, name)
    ensures Remove(l, typ, name) == l
  {
    PositionNone(l, Key(typ, name));
  }

  lemma DistinctNext(l: seq<Elm>, e: Elm)
    requires DistinctHashes(l) && forall j :: 0 <= j < |l| ==> l[j].hash != e.hash
    ensures DistinctHashes(l + [e])
  {
  }

  lemma SaveNothing()
    ensures SaveText([]) == []
  {
  }

  /** The node at position `i`, null behind the last. */
  ghost function NodeAt(ns: seq<Node>, i: nat): Node? {
    if i < |ns| then ns[i] else null
  }

  class Store {
    var head: Node?
    /** The configuration file. */
    var file: Text
    /** The nodes from `head` on. */
    ghost var nodes: seq<Node>

    /** Their contents. */
    ghost var list: seq<Elm>
    /** Every node that was ever in the list. */
    ghost var repr: set<Node>

    /** The list from `head` on consists of `ns` and has the contents `l`. */
    ghost predicate Holds(ns: seq<Node>, l: seq<Elm>)
      reads `head, `repr, repr
    {
      && |l| == |ns|
      && head == NodeAt(ns, 0)
      && (forall i :: 0 <= i < |ns| ==> ns[i] in repr && ns[i].next == NodeAt(ns, i + 1))
      && (forall i :: 0 <= i < |ns| ==> l[i] == Elm(ns[i].typ, ns[i].args, ns[i].hash))
    }

    ghost predicate Valid()
      reads this, repr
    {
      Holds(nodes, list) && DistinctHashes(list)
    }

    /** Distinct hashes make distinct nodes. */
    lemma OnlyAt(i: nat)
      requires Holds(nodes, list) && DistinctHashes(list) && i < |nodes|
      ensures forall j :: 0 <= j < |nodes| && nodes[j] == nodes[i] ==> j == i
    {
      assert forall j :: 0 <= j < |nodes| && nodes[j] == nodes[i] ==> list[j].hash == list[i].hash;
    }

    lemma Starts()
      requires Valid()
      ensures head == NodeAt(nodes, 0) && |list| == |nodes|
    {
    }

    lemma Continues(i: nat)
      requires Valid() && i < |nodes|
      ensures DistinctHashes(list)
      ensures |list| == |nodes| && nodes[i].next == NodeAt(nodes, i + 1) && nodes[i] in repr && nodes[i].hash == list[i].hash
    {
    }

    constructor ()
      ensures Valid() && list == [] && file == [] && repr == {}
    {
      head, file, nodes, list, repr := null, [], [], [], {};
    }

    /** `save_config`: rewrite the file from the list. */
    method Save()
      requires Valid()
      modifies this`file
      ensures Valid() && file == SaveText(list)
    {
      hide ElmText, SaveText;
      var text := [];
      var elm := head;
      ghost var i, l := 0, list;
      while elm != null
        invariant 0 <= i <= |nodes| && elm == NodeAt(nodes, i)
        invariant text + SaveText(l[i..]) == SaveText(l)
        decreases |nodes| - i
      {
        SaveStep(text, l, i);
        text := text + ElmText(Elm(elm.typ, elm.args, elm.hash));
        elm := elm.next;
        i := i + 1;
      }
      SaveNothing();
      assert l[i..] == [] && text + [] == text;
      file := text;
    }

    /** The walk of `add_conf_elm`: to the node with the hash, or to the last. */
    method Seek(hash: int) returns (last: Node, next: Node?, ghost i: nat)
      requires Valid() && head != null
      ensures i < |nodes| == |list| && last == nodes[i] && last.hash == list[i].hash
      ensures next == if i + 1 < |nodes| then nodes[i + 1] else null
      ensures next == null || last.hash == hash
      ensures forall j :: 0 <= j < i ==> list[j].hash != hash
    {
      Starts();
      Continues(0);
      next, last := head.next, head;
      i := 0;
      while next != null && hash != last.hash
        invariant 0 <= i < |nodes| && last == nodes[i] && next == NodeAt(nodes, i + 1)
        invariant forall j :: 0 <= j < i ==> list[j].hash != hash
        decreases |nodes| - i
      {
        last := next;
        next := next.next;
        i := i + 1;
      }
    }

    /** `add_conf_elm` up to its call of `save_config`. */
    method Insert(typ: Text, args: Args)
      requires Valid()
      modifies this, repr
      ensures Valid() && fresh(repr - old(repr))
      ensures list == Add(old(list), typ, args)
    {
      Starts();
      hide *;
      var nconf := new Node(typ, args);
      if head == null {
        First(nconf);
        AddNew([], typ, args);
        return;
      }
      var last, next, i := Seek(nconf.hash);
      Continues(i);
      if next == null && nconf.hash != last.hash {
        AddNew(list, typ, args);
        Append(last, nconf);
      } else {
        AddOver(list, typ, args, i);
        Overwrite(last, args, i);
      }
    }

    /** The node of an empty list. */
    method First(nconf: Node)
      requires Valid() && nodes == [] && nconf.next == null
      modifies this`head, this`nodes, this`list, this`repr
      ensures Valid() && list == [Elm(nconf.typ, nconf.args, nconf.hash)] && repr == old(repr) + {nconf}
    {
      head, nodes, list, repr := nconf, [nconf], [Elm(nconf.typ, nconf.args, nconf.hash)], repr + {nconf};
    }

    /** A node put behind the last one. */
    method Append(last: Node, nconf: Node)
      requires Valid() && nodes != [] && last == nodes[|nodes| - 1]
      requires nconf !in repr && nconf.next == null && forall j :: 0 <= j < |list| ==> list[j].hash != nconf.hash
      modifies this`nodes, this`list, this`repr, last`next
      ensures Valid() && nodes == old(nodes) + [nconf] && repr == old(repr) + {nconf}
      ensures list == old(list) + [Elm(nconf.typ, nconf.args, nconf.hash)]
    {
      ghost var ns, l := nodes + [nconf], list + [Elm(nconf.typ, nconf.args, nconf.hash)];
      DistinctNext(list, Elm(nconf.typ, nconf.args, nconf.hash));
      OnlyAt(|nodes| - 1);
      hide DistinctHashes;
      last.next := nconf;
      repr := repr + {nconf};
      Longer(ns, l);
      Recount(ns, l);
    }

    /** The nodes are linked up to the new one. */
    lemma Longer(ns: seq<Node>, l: seq<Elm>)
      requires |ns| == |l| == |nodes| + 1 == |list| + 1 && nodes != [] && ns[..|nodes|] == nodes && l[..|list|] == list
      requires head == nodes[0] && ns[|nodes|].next == null && nodes[|nodes| - 1].next == ns[|nodes|]
      requires ns[|nodes|] in repr && forall j :: 0 <= j < |nodes| ==> nodes[j] in repr
      requires forall j :: 0 <= j < |nodes| - 1 ==> nodes[j].next == nodes[j + 1]
      requires forall j :: 0 <= j < |list| ==> list[j] == Elm(nodes[j].typ, nodes[j].args, nodes[j].hash)
      requires l[|list|] == Elm(ns[|nodes|].typ, ns[|nodes|].args, ns[|nodes|].hash)
      ensures Holds(ns, l)
    {
      forall i | 0 <= i < |ns|
        ensures ns[i] in repr && ns[i].next == NodeAt(ns, i + 1)
      {
        assert i < |nodes| ==> ns[i] == ns[..|nodes|][i];
      }
      forall i | 0 <= i < |ns|
        ensures l[i] == Elm(ns[i].typ, ns[i].args, ns[i].hash)
      {
        assert i < |nodes| ==> ns[i] == ns[..|nodes|][i] && l[i] == l[..|list|][i];
      }
    }

    /** New arguments for the node at position `i`. */
    method Overwrite(last: Node, args: Args, ghost i: nat)
      requires Valid() && i < |nodes| && last == nodes[i]
      modifies this`list, last`args
      ensures Valid() && list == old(list)[i := old(list)[i].(args := args)]
    {
      OnlyAt(i);
      last.args := args;
      list := list[i := list[i].(args := args)];
    }

    method AddElm(typ: Text, args: Args)
      requires Valid()
      modifies this, repr
      ensures Valid() && fresh(repr - old(repr))
      ensures list == Add(old(list), typ, args) && file == SaveText(list)
    {
      Insert(typ, args);
      Save();
    }

    method GetByName(typ: Text, name: Text) returns (value: Option<Text>)
      requires Valid()
      ensures value == Get(list, typ, name)
    {
      if head == null {
        return None;
      }
      var hash := HashElm(typ, name);
      var tmp := head;
      ghost var i := 0;
      while tmp != null
        invariant 0 <= i <= |nodes| && tmp == NodeAt(nodes, i)
        invariant forall j :: 0 <= j < i ==> nodes[j].hash != hash
        decreases |nodes| - i
      {
        if tmp.hash == hash {
          return Some(tmp.args.value);
        }
        tmp := tmp.next;
        i := i + 1;
      }
      return None;
    }

    /** Taking out the first node, alone or not. */
    method DropHead(tmp: Node)
      requires Valid() && nodes != [] && tmp == head
      modifies this`head, this`nodes, this`list
      ensures Valid() && nodes == Cut(old(nodes), 0) && list == Cut(old(list), 0)
    {
      CutIsDistinct(list, 0);
      hide DistinctHashes;
      if tmp.next == null {
        head := null;
      } else {
        head := tmp.next;
      }
      nodes, list := Cut(nodes, 0), Cut(list, 0);
    }

    method UnlinkHead(tmp: Node, typ: Text, name: Text)
      requires Valid() && nodes != [] && tmp == head && tmp.hash == Key(typ, name)
      modifies this`head, this`nodes, this`list
      ensures Valid() && nodes == Cut(old(nodes), 0) && list == Remove(old(list), typ, name)
      ensures Position(list, Key(typ, name)) == -1
    {
      hide Remove, Position, DistinctHashes;
      CutIsRemove(list, 0, typ, name);
      DropHead(tmp);
    }

    /** The nodes as they are while node `i` is bypassed and still counted. */
    ghost predicate Skips(i: nat)
      reads this, repr
    {
      && 0 < i < |nodes| == |list| && head == nodes[0]
      && (forall j :: 0 <= j < |nodes| ==> nodes[j] in repr)
      && (forall j :: 0 <= j < |nodes| && j != i - 1 ==> nodes[j].next == NodeAt(nodes, j + 1))
      && nodes[i - 1].next == NodeAt(nodes, i + 1)
      && (forall j :: 0 <= j < |nodes| ==> list[j] == Elm(nodes[j].typ, nodes[j].args, nodes[j].hash))
    }

    method Bypass(prev: Node, tmp: Node, ghost i: nat, ghost gone: bool)
      requires Valid() && 0 < i < |nodes| && tmp == nodes[i] && prev in repr
      requires if gone then prev !in nodes else prev == nodes[i - 1]
      modifies prev`next
      ensures (if gone then Valid() else Skips(i)) && tmp.next == old(tmp.next)
    {
      OnlyAt(i);
      if !gone {
        OnlyAt(i - 1);
      }
      hide DistinctHashes;
      if tmp.next == null {
        prev.next := null;
      } else {
        prev.next := tmp.next;
      }
    }

    /** A list whose node `i` is bypassed is linked and mirrored without it. */
    lemma Bypassed(i: nat)
      requires Skips(i)
      ensures Holds(Cut(nodes, i), Cut(list, i))
    {
      var ns := Cut(nodes, i);
      forall j | 0 <= j < |ns|
        ensures ns[j] in repr && ns[j].next == NodeAt(ns, j + 1)
      {
        var k := if j < i then j else j + 1;
        assert ns[j] == nodes[k];
      }
    }

    ghost method Recount(ns: seq<Node>, l: seq<Elm>)
      requires Holds(ns, l) && DistinctHashes(l)
      modifies this`nodes, this`list
      ensures Valid() && nodes == ns && list == l
    {
      nodes, list := ns, l;
    }

    /** Taking out a node in the middle or the last one. */
    method UnlinkAfter(prev: Node, tmp: Node, ghost i: nat, typ: Text, name: Text)
      requires Valid() && 0 < i < |nodes| && tmp == nodes[i] && tmp.hash == Key(typ, name) && prev == nodes[i - 1]
      modifies this, repr
      ensures repr == old(repr) && head == old(head) && file == old(file)
      ensures Valid() && nodes == Cut(old(nodes), i) && list == Remove(old(list), typ, name)
      ensures Position(list, Key(typ, name)) == -1 && tmp.next == old(tmp.next)
    {
      hide *;
      Continues(i);
      CutIsRemove(list, i, typ, name);
      Continues(i - 1);
      Unlink(prev, tmp, i, false);
    }

    /** A round of the scan that finds its node, and where the scan goes on. */
    method TakeOut(prev: Node, tmp: Node, ghost i: nat, typ: Text, name: Text) returns (prev': Node, tmp': Node?)
      requires Valid() && i < |nodes| && tmp == nodes[i] && tmp.hash == Key(typ, name)
      requires prev == nodes[if i == 0 then 0 else i - 1]
      modifies this, repr
      ensures Valid() && repr == old(repr) && file == old(file)
      ensures list == Remove(old(list), typ, name) && Position(list, Key(typ, name)) == -1
      ensures |nodes| == |old(nodes)| - 1 && tmp' == NodeAt(nodes, i)
    {
      OnlyAt(i);
      hide Remove, Position, DistinctHashes;
      if tmp == prev {
        UnlinkHead(tmp, typ, name);
        if tmp.next != null {
          return head, head;
        }
      } else {
        UnlinkAfter(prev, tmp, i, typ, name);
      }
      return tmp, tmp.next;
    }

    /** Where the scan of `rm_config` stands: `l` is the list it started with. */
    ghost predicate Scanning(l: seq<Elm>, typ: Text, name: Text, prev: Node, tmp: Node?, i: nat, removed: bool)
      reads this, repr
    {
      && Valid() && i <= |nodes| && tmp == NodeAt(nodes, i)
      && (if removed then list == Remove(l, typ, name) && Position(list, Key(typ, name)) == -1
          else
            && list == l && nodes != [] && prev == nodes[if i == 0 then 0 else i - 1]
            && forall j :: 0 <= j < i ==> l[j].hash != Key(typ, name))
    }

    /** One node of the scan. */
    method Visit(prev: Node, tmp: Node, hash: int, typ: Text, name: Text, ghost l: seq<Elm>, ghost i: nat, ghost removed: bool)
      returns (prev': Node, tmp': Node?, ghost i': nat, ghost removed': bool)
      requires Scanning(l, typ, name, prev, tmp, i, removed) && hash == Key(typ, name)
      modifies this, repr
      ensures Scanning(l, typ, name, prev', tmp', i', removed')
      ensures repr == old(repr) && file == old(file) && |nodes| - i' < |old(nodes)| - i
    {
      Continues(i);
      hide Remove, DistinctHashes;
      if tmp.hash == hash {
        prev', tmp' := TakeOut(prev, tmp, i, typ, name);
        i', removed' := i, true;
      } else {
        prev', tmp' := tmp, tmp.next;
        i', removed' := i + 1, removed;
      }
    }

    /** `rm_config` with a name.  The scan goes on after the node is taken out. */
    method RemoveByName(typ: Text, name: Text)
      requires Valid()
      modifies this, repr
      ensures Valid() && repr == old(repr)
      ensures list == Remove(old(list), typ, name)
      ensures file == if old(head) == null then old(file) else SaveText(list)
    {
      Starts();
      if head == null {
        RemoveNothing(list, typ, name);
        return;
      }
      Continues(0);
      var hash := HashElm(typ, name);
      var prev: Node, tmp: Node? := head, head;
      ghost var l, i, removed := list, 0, false;
      while tmp != null
        invariant Scanning(l, typ, name, prev, tmp, i, removed) && repr == old(repr)
        decreases |nodes| - i
      {
        hide *;
        prev, tmp, i, removed := Visit(prev, tmp, hash, typ, name, l, i, removed);
      }
      if !removed {
        RemoveNothing(l, typ, name);
      }
      Save();
    }

    /** Where the scan of `rm_config` without a name stands: `gone` says that its predecessor was
        taken out. */
    ghost predicate Sweeping(l: seq<Elm>, typ: Text, prev: Node, tmp: Node?, i: nat, gone: bool)
      reads this, repr
    {
      && Valid() && i <= |nodes| && tmp == NodeAt(nodes, i)
      && list[..i] + Sweep(list[i..], typ, i == 0, gone) == Sweep(l, typ, true, false)
      && (gone ==> i > 0 && prev in repr && prev !in nodes)
      && (!gone && tmp != null ==> prev == nodes[if i == 0 then 0 else i - 1])
    }

    /** What the code does behind the first node, where the predecessor may have been taken out: a
        node outside the list has no part in it, and what is written to it is lost. */
    method Unlink(prev: Node, tmp: Node, ghost i: nat, ghost gone: bool)
      requires Valid() && 0 < i < |nodes| && tmp == nodes[i] && prev in repr
      requires if gone then prev !in nodes else prev == nodes[i - 1]
      modifies this, repr
      ensures Valid() && repr == old(repr) && head == old(head) && file == old(file)
      ensures nodes == (if gone then old(nodes) else Cut(old(nodes), i))
      ensures list == (if gone then old(list) else Cut(old(list), i)) && tmp.next == old(tmp.next)
    {
      hide *;
      Continues(i);
      CutIsDistinct(list, i);
      ghost var ns, l := Cut(nodes, i), Cut(list, i);
      Bypass(prev, tmp, i, gone);
      if !gone {
        Bypassed(i);
        Recount(ns, l);
      }
    }

    lemma SweepStarts(typ: Text)
      requires Valid() && head != null
      ensures Sweeping(list, typ, head, head, 0, false)
    {
      hide DistinctHashes, Sweep;
      assert list[..0] == [] && list[0..] == list && [] + Sweep(list, typ, true, false) == Sweep(list, typ, true, false);
    }

    lemma Swept(l: seq<Elm>, typ: Text, prev: Node, i: nat, gone: bool)
      requires Sweeping(l, typ, prev, null, i, gone)
      ensures list == Sweep(l, typ, true, false)
    {
      hide DistinctHashes;
      assert i == |list| && list[..i] == list && list[i..] == [];
      assert Sweep([], typ, i == 0, gone) == [];
    }

    /** One node of that scan: the first of the list, to be taken out. */
    method SweepHead(tmp: Node, typ: Text, ghost l: seq<Elm>) returns (prev': Node, tmp': Node?)
      requires Sweeping(l, typ, tmp, tmp, 0, false) && tmp.typ == typ
      modifies this, repr
      ensures Sweeping(l, typ, prev', tmp', 0, false)
      ensures repr == old(repr) && file == old(file) && |nodes| < |old(nodes)|
    {
      Continues(0);
      OnlyAt(0);
      SweepTakesOut(list, 0, typ);
      hide Sweep, DistinctHashes;
      DropHead(tmp);
      if tmp.next != null {
        return head, head;
      }
      return tmp, tmp.next;
    }

    /** Any other. */
    method SweepNext(prev: Node, tmp: Node, typ: Text, ghost l: seq<Elm>, ghost i: nat, ghost gone: bool)
      returns (prev': Node, tmp': Node?, ghost i': nat, ghost gone': bool)
      requires Sweeping(l, typ, prev, tmp, i, gone) && (tmp.typ == typ ==> i > 0)
      modifies this, repr
      ensures Sweeping(l, typ, prev', tmp', i', gone')
      ensures repr == old(repr) && file == old(file) && |nodes| - i' < |old(nodes)| - i
    {
      Continues(i);
      OnlyAt(i);
      if tmp.typ == typ && !gone {
        SweepTakesOut(list, i, typ);
      } else {
        SweepKeeps(list, i, typ, gone);
      }
      hide Sweep, DistinctHashes;
      gone', i' := tmp.typ == typ && !gone, if tmp.typ == typ && !gone then i else i + 1;
      if tmp.typ == typ {
        Unlink(prev, tmp, i, gone);
      }
      prev', tmp' := tmp, tmp.next;
    }

    lemma FirstIsOwnPredecessor(l: seq<Elm>, typ: Text, prev: Node, tmp: Node, i: nat, gone: bool)
      requires Sweeping(l, typ, prev, tmp, i, gone)
      ensures tmp == prev <==> i == 0
      ensures i == 0 ==> !gone
    {
      OnlyAt(i);
    }

    method SweepNode(prev: Node, tmp: Node, typ: Text, ghost l: seq<Elm>, ghost i: nat, ghost gone: bool)
      returns (prev': Node, tmp': Node?, ghost i': nat, ghost gone': bool)
      requires Sweeping(l, typ, prev, tmp, i, gone)
      modifies this, repr
      ensures Sweeping(l, typ, prev', tmp', i', gone')
      ensures repr == old(repr) && file == old(file) && |nodes| - i' < |old(nodes)| - i
    {
      FirstIsOwnPredecessor(l, typ, prev, tmp, i, gone);
      hide Sweeping;
      if tmp.typ == typ && tmp == prev {
        i', gone' := 0, false;
        prev', tmp' := SweepHead(tmp, typ, l);
      } else {
        prev', tmp', i', gone' := SweepNext(prev, tmp, typ, l, i, gone);
      }
    }

    /** `rm_config` without a name. */
    method RemoveType(typ: Text)
      requires Valid()
      modifies this, repr
      ensures Valid() && repr == old(repr)
      ensures list == Sweep(old(list), typ, true, false)
      ensures file == if old(head) == null then old(file) else SaveText(list)
    {
      Starts();
      if head == null {
        return;
      }
      SweepStarts(typ);
      hide *;
      var prev: Node, tmp: Node? := head, head;
      ghost var l := list;
      ghost var i: nat, gone := 0, false;
      while tmp != null
        invariant Sweeping(l, typ, prev, tmp, i, gone) && repr == old(repr)
        decreases |nodes| - i
      {
        prev, tmp, i, gone := SweepNode(prev, tmp, typ, l, i, gone);
      }
      Swept(l, typ, prev, i, gone);
      Save();
    }

    /** `load_config`.  Every add rewrites the file, while the reading goes on from the
        file as it was opened. */
    method LoadConfig() returns (ok: bool)
      requires Valid()
      modifies this, repr
      ensures Valid() && fresh(repr - old(repr))
      ensures ok <==> Load(old(list), old(file)).Some?
      ensures ok ==> list == Load(old(list), old(file)).value
      ensures ok ==> file == if OnlyNewlines(old(file)) then old(file) else SaveText(list)
    {
      hide *;
      var text := file;
      while text != []
        invariant Valid() && fresh(repr - old(repr))
        invariant Load(list, text) == Load(old(list), old(file))
        invariant
          || (file == SaveText(list) && !OnlyNewlines(old(file)))
          || (file == old(file) && OnlyNewlines(text) == OnlyNewlines(old(file)))
        decreases |text|
      {
        var n := Before(text, NEWLINE);
        LoadLine(list, text);
        SkipLine(text);
        var line := text[..n];
        text := if n < |text| then text[n + 1..] else [];
        if n > 0 {
          var fields := Fields(line);
          if fields.None? {
            return false;
          }
          AddElm(fields.value.0, fields.value.1);
        }
      }
      LoadNothing(list);
      return true;
    }
  }

  lemma LoadLine(l: seq<Elm>, text: Text)
    requires text != []
    ensures var n := Before(text, NEWLINE);
      var rest := if n < |text| then text[n + 1..] else [];
      Load(l, text) ==
        if n == 0 then Load(l, rest)
        else if Fields(text[..n]).None? then None
        else Load(Add(l, Fields(text[..n]).value.0, Fields(text[..n]).value.1), rest)
  {
    hide Fields, Before, Add;
  }

  predicate OnlyNewlines(text: Text) {
    forall i :: 0 <= i < |text| ==> text[i] == NEWLINE
  }

  lemma SkipLine(text: Text)
    requires text != []
    ensures Before(text, NEWLINE) > 0 ==> !OnlyNewlines(text)
    ensures Before(text, NEWLINE) == 0 ==> text[1..] == text[Before(text, NEWLINE) + 1..] && OnlyNewlines(text) == OnlyNewlines(text[1..])
  {
    assert forall i :: 1 <= i < |text| ==> text[i] == text[1..][i - 1];
    if Before(text, NEWLINE) > 0 {
      assert text[0] in text[..Before(text, NEWLINE)];
    }
  }

  lemma LoadNothing(l: seq<Elm>)
    ensures Load(l, []) == Some(l) && OnlyNewlines([])
  {
  }
}
