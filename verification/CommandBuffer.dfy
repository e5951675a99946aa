/** `parse_command` of prj1/seashell.c on its buffer: it cuts the line in place, and calls
    itself on the rest of a pipeline while `strtok` has one state for all calls. */
module CommandBuffer {
  import opened Wrappers
  import opened CommandParser

  lemma {:induction false} BlanksDropped(s: Text, n: nat)
    requires n <= |s| && forall i :: 0 <= i < n ==> Blank(s[i])
    ensures NextToken(s[n..]) == NextToken(s) && Parse(s[n..]) == Parse(s)
    decreases n
  {
    if n == 0 {
      assert s[n..] == s;
    } else {
      assert s[1..][n - 1..] == s[n..];
      BlanksDropped(s[1..], n - 1);
      assert NextToken(s) == NextToken(s[1..]);
      assert TrimLeft(s) == TrimLeft(s[1..]);
    }
  }

  lemma DropBlank(s: Text)
    requires s != [] && Blank(s[|s| - 1])
    ensures TrimRight(s) == TrimRight(s[..|s| - 1])
  {
  }

  /** A token runs to the first blank or to the end. */
  lemma TokenEnds(s: Text, n: nat)
    requires 0 < n <= |s| && (forall i :: 0 <= i < n ==> !Blank(s[i])) && (n < |s| ==> Blank(s[n]))
    ensures NextToken(s) == Some((s[..n], if n < |s| then s[n + 1..] else []))
  {
    assert WordLength(s) == n;
  }

  lemma ParseTrimmed(s: Text, t: Text)
    requires t == TrimRight(TrimLeft(s))
    ensures Parse(s) ==
      match NextToken(t)
      case None => None
      case Some((name, rest)) => ParseRest(rest, Fresh(name, EndsWith(t, AMPERSAND), EndsWith(t, QUESTION)))
  {
  }

  /** The buffer with one line of input, and the state of `strtok`. */
  class Line {
    const buf: array<int>
    /** Where `strtok` goes on. */
    var save: nat

    constructor (buf: array<int>)
      ensures this.buf == buf
    {
      this.buf := buf;
      save := 0;
    }

    /** A C string from `p`, with its terminator at `q`. */
    ghost predicate StringAt(p: nat, q: nat)
      reads buf
    {
      p <= q < buf.Length && buf[q] == 0 && forall i :: p <= i < q ==> buf[i] != 0
    }

    /** The loop over leading blanks, in `strtok` and behind a `|`. */
    method SkipBlanks(p: nat, ghost q: nat) returns (s: nat)
      requires StringAt(p, q)
      ensures p <= s <= q && !Blank(buf[s])
      ensures NextToken(buf[s..q]) == NextToken(buf[p..q]) && Parse(buf[s..q]) == Parse(buf[p..q])
    {
      s := p;
      while Blank(buf[s])
        invariant p <= s <= q && forall i :: p <= i < s ==> Blank(buf[i])
        decreases q - s
      {
        s := s + 1;
      }
      BlanksDropped(buf[p..q], s - p);
      assert buf[p..q][s - p..] == buf[s..q];
    }

    /** The loop to the end of a token. */
    method EndOfToken(t: nat, ghost q: nat) returns (u: nat)
      requires StringAt(t, q) && t < q && !Blank(buf[t])
      ensures t < u <= q && (u < q ==> Blank(buf[u])) && (u < q <==> buf[u] != 0)
      ensures forall i :: t <= i < u ==> !Blank(buf[i])
    {
      u := t;
      while buf[u] != 0 && !Blank(buf[u])
        invariant t <= u <= q && forall i :: t <= i < u ==> !Blank(buf[i])
        decreases q - u
      {
        u := u + 1;
      }
    }

    lemma TokenAt(t: nat, u: nat, q: nat)
      requires t < u <= q < buf.Length && (u < q ==> Blank(buf[u]))
      requires forall i :: t <= i < u ==> !Blank(buf[i])
      ensures NextToken(buf[t..q]) == Some((buf[t..u], if u < q then buf[u + 1..q] else []))
    {
      hide NextToken, Blank;
      var s, n := buf[t..q], u - t;
      assert forall i :: 0 <= i < n ==> s[i] == buf[t + i];
      TokenEnds(s, n);
      assert s[..n] == buf[t..u];
      if u < q {
        assert s[n + 1..] == buf[u + 1..q];
      }
    }

    /** `strtok(NULL, " \t")`: the token's position, -1 for null; `u` is its end. */
    method StrTok(ghost q: nat) returns (t: int, ghost u: nat)
      requires StringAt(save, q)
      modifies buf, `save
      ensures StringAt(save, q) && old(save) <= save
      ensures match NextToken(old(buf[save..q]))
        case None => t == -1 && save == q && buf[..] == old(buf[..])
        case Some((tok, rest)) =>
          && old(save) <= t < u <= save <= q && u == t + |tok|
          && StringAt(t, u) && buf[t..u] == tok && buf[save..q] == rest
          && (u < q ==> save == u + 1) && (u == q ==> save == q)
          && forall i :: 0 <= i < buf.Length && i != u ==> buf[i] == old(buf[i])
    {
      var s := SkipBlanks(save, q);
      u := s;
      if buf[s] == 0 {
        assert s == q && buf[s..q] == [];
        save := s;
        return -1, s;
      }
      t := s;
      s := EndOfToken(t, q);
      u := s;
      TokenAt(t, u, q);
      hide NextToken, Parse, Blank;
      ghost var rest := if u < q then buf[u + 1..q] else [];
      if buf[s] == 0 {
        save := s;
      } else {
        Cut(t, s, q);
        save := s + 1;
      }
      assert buf[save..q] == rest;
    }

    /** Put a terminator behind the token from `t` to `u`. */
    method Cut(ghost t: nat, u: nat, ghost q: nat)
      requires StringAt(t, q) && t < u < q
      modifies buf
      ensures StringAt(t, u) && StringAt(u + 1, q)
      ensures buf[t..u] == old(buf[t..u]) && buf[u + 1..q] == old(buf[u + 1..q])
      ensures forall i :: 0 <= i < buf.Length && i != u ==> buf[i] == old(buf[i])
    {
      buf[u] := 0;
    }

    /** `strcpy` out of the buffer. */
    method Copy(t: nat, ghost u: nat) returns (s: Text)
      requires StringAt(t, u)
      ensures s == buf[t..u]
    {
      s := [];
      var i := t;
      while buf[i] != 0
        invariant t <= i <= u && s == buf[t..i]
        decreases u - i
      {
        s := s + [buf[i]];
        i := i + 1;
      }
    }

    /** Trimming at both ends, the right one by moving the terminator. */
    method Trim(p: nat, ghost e: nat) returns (p': nat, len: nat)
      requires StringAt(p, e)
      modifies buf
      ensures p <= p' && p' + len <= e && StringAt(p', p' + len)
      ensures buf[p'..p' + len] == TrimRight(TrimLeft(old(buf[p..e])))
      ensures forall i :: 0 <= i < buf.Length && !(p' <= i < e) ==> buf[i] == old(buf[i])
    {
      p', len := p, 0;
      while buf[p + len] != 0
        invariant p + len <= e
        decreases e - p - len
      {
        len := len + 1;
      }
      while len > 0 && Blank(buf[p'])
        invariant p <= p' && p' + len == e
        invariant TrimLeft(buf[p'..e]) == TrimLeft(buf[p..e])
        decreases len
      {
        assert buf[p'..e][1..] == buf[p' + 1..e];
        p', len := p' + 1, len - 1;
      }
      assert TrimLeft(buf[p'..e]) == buf[p'..e];
      ghost var s := buf[p'..e];
      while len > 0 && Blank(buf[p' + len - 1])
        invariant p' + len <= e && StringAt(p', p' + len)
        invariant TrimRight(buf[p'..p' + len]) == TrimRight(s)
        invariant forall i :: 0 <= i < buf.Length && !(p' <= i < e) ==> buf[i] == old(buf[i])
        decreases len
      {
        DropBlank(buf[p'..p' + len]);
        assert buf[p'..p' + len][..len - 1] == buf[p'..p' + len - 1];
        len := len - 1;
        buf[p' + len] := 0;
      }
    }

    /** `parse_command` on the string at `p`; `e` is its end. */
    method ParseCommand(p: nat, ghost e: nat) returns (r: Option<Command>)
      requires StringAt(p, e)
      modifies buf, `save
      ensures r == Parse(old(buf[p..e]))
      ensures forall i :: 0 <= i < buf.Length && !(p <= i <= e) ==> buf[i] == old(buf[i])
      ensures r.Some? ==> p <= save <= e && buf[save] == 0
      decreases e - p, 1
    {
      var start, len := Trim(p, e);
      ghost var q := start + len;
      ghost var text := buf[start..q];
      var autoComplete := len > 0 && buf[start + len - 1] == QUESTION;
      var background := len > 0 && buf[start + len - 1] == AMPERSAND;
      save := start;
      assert autoComplete == EndsWith(text, QUESTION) && background == EndsWith(text, AMPERSAND);
      hide Parse, ParseRest, NextToken, TrimLeft, TrimRight, Blank, EndsWith;
      ParseTrimmed(old(buf[p..e]), text);
      var t, u := StrTok(q);
      if t == -1 {
        return None;
      }
      var name := Copy(t, u);
      r := ParseTokens(Fresh(name, background, autoComplete), q);
    }

    /** The branch for `|` at position `t`: restore the separator, skip blanks, parse the
        rest of the line as a command of its own, and cut the line again. */
    method ParsePiped(t: nat, ghost q: nat) returns (c: Option<Command>)
      requires t + 1 < q && save == t + 2 && StringAt(save, q) && buf[t + 1] == 0
      modifies buf, `save
      ensures c == Parse(old(buf[save..q]))
      ensures forall i :: 0 <= i < buf.Length && !(t + 1 <= i <= q) ==> buf[i] == old(buf[i])
      ensures c.Some? ==> old(save) <= save <= q && buf[save] == 0
      decreases q - save, 2
    {
      hide Parse, NextToken;
      buf[t + 1] := SPACE;
      assert buf[save..q] == old(buf[save..q]);
      assert StringAt(t + 1, q);
      var rest := SkipBlanks(t + 1, q);
      assert rest > t + 1;
      BlankInFront(t + 1, q);
      hide Blank;
      c := ParseCommand(rest, q);
      buf[t + 1] := 0;
    }

    lemma BlankInFront(p: nat, q: nat)
      requires p < q < buf.Length && Blank(buf[p])
      ensures Parse(buf[p..q]) == Parse(buf[p + 1..q])
    {
      BlanksDropped(buf[p..q], 1);
      assert buf[p..q][1..] == buf[p + 1..q];
    }

    /** The loop over the tokens behind the name. */
    method ParseTokens(first: Command, ghost end: nat) returns (r: Option<Command>)
      requires StringAt(save, end)
      modifies buf, `save
      ensures r == ParseRest(old(buf[save..end]), first)
      ensures forall i :: 0 <= i < buf.Length && !(old(save) <= i <= end) ==> buf[i] == old(buf[i])
      ensures r.Some? ==> old(save) <= save <= end && buf[save] == 0
      decreases end - save, 0
    {
      var command := first;
      ghost var q := end;
      while true
        invariant old(save) <= save <= q <= end && StringAt(save, q)
        invariant ParseRest(buf[save..q], command) == ParseRest(old(buf[save..end]), first)
        invariant forall i :: 0 <= i < buf.Length && !(old(save) <= i <= end) ==> buf[i] == old(buf[i])
        decreases q - save
      {
        var t, u := StrTok(q);
        if t == -1 {
          return Some(command);
        }
        var arg := Copy(t, u);
        if |arg| >= TOKEN_BUFFER {
          return None;
        }
        if arg == [PIPE] {
          if save == t + 1 {
            // the terminator would be overwritten and the text behind it read
            return None;
          }
          var c := ParsePiped(t, q);
          if c == None {
            return None;
          }
          command := command.(next := c);
          q := save;
        } else if arg != [AMPERSAND] {
          command := AddToken(command, arg);
        }
      }
    }
  }
}
