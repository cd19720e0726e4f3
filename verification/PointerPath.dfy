/** `cJSONUtils_FindPointerFromObjectTo`: the pointer to a node, and when it leads back there. */
module PointerPath {
  import opened Text
  import opened Json
  import opened Pointer
  import opened Patch

  /** The reference token that is written for a child. */
  function Token(j: Json, i: nat): string
    requires i < Size(j)
  {
    if j.Array? then Decimal(i) else Escape(j.members[i].key)
  }

  function PointerTo(j: Json, pos: Position): string
    requires Has(j, pos)
    decreases |pos|
  {
    if pos == [] then "" else "/" + (Token(j, pos[0]) + PointerTo(Child(j, pos[0]), pos[1..]))
  }

  /** Every object on the way has a writable key there, and no earlier key that counts as equal. */
  predicate LeadsBack(j: Json, pos: Position, cs: bool)
    requires Has(j, pos)
    decreases |pos|
  {
    pos != [] ==>
      && (j.Object? ==> Writable(j.members[pos[0]].key) && Find(j.members, j.members[pos[0]].key, cs) == pos[0])
      && LeadsBack(Child(j, pos[0]), pos[1..], cs)
  }

  /** Arrays are short enough for their indices to be `size_t` values. */
  predicate Indexable(pos: Position) {
    forall i <- pos :: i < SIZE_LIMIT
  }

  lemma WritableFirst(key: string)
    requires key != ""
    ensures Writable(key) <==> key[0] != '~' && (key[0] == '/' ==> UNWRITTEN == '~') && Writable(key[1..])
  {
    assert key[0] in key && forall c <- key :: c == key[0] || c in key[1..];
    assert forall c <- key[1..] :: c in key;
  }

  /** A key is found under its own token exactly when it is writable. */
  lemma {:induction false} NamesItself(key: string, rest: string, cs: bool)
    requires AtTokenEnd(rest)
    ensures ComparePointers(key, Escape(key) + rest, cs) <==> Writable(key)
  {
    if key == "" {
      assert Escape(key) + rest == rest;
    } else {
      var p := Escape(key) + rest;
      WritableFirst(key);
      NamesItself(key[1..], rest, cs);
      TokenStarts(key, rest);
      hide Writable, Escape;
    }
  }

  /** The token of a key, character by character. */
  lemma TokenStarts(key: string, rest: string)
    requires key != ""
    ensures var p := Escape(key) + rest;
      && p != "" && p[0] == (if key[0] == '/' then UNWRITTEN else key[0])
      && (key[0] == '/' || key[0] == '~' ==> |p| > 1 && p[1] == '1' && p[2..] == Escape(key[1..]) + rest)
      && (key[0] != '/' && key[0] != '~' ==> p[1..] == Escape(key[1..]) + rest)
  {
    var more := Escape(key[1..]);
    var head := if key[0] == '/' then [UNWRITTEN, '1'] else if key[0] == '~' then "~1" else [key[0]];
    assert Escape(key) == head + more;
    hide Escape;
    HeadAndRest(head, more, rest);
  }

  lemma HeadAndRest(head: string, more: string, rest: string)
    ensures var p := (head + more) + rest;
      |p| >= |head| && p[|head|..] == more + rest && forall k :: 0 <= k < |head| ==> p[k] == head[k]
  {
  }

  lemma WritableToken(key: string)
    requires Writable(key)
    ensures '/' !in Escape(key) && Unescape(Escape(key)) == Some(key)
  {
    EscapeNamesKey(key);
    TokenHasNoSlash(key);
  }

  lemma {:induction false} TokenHasNoSlash(key: string)
    requires '/' in key ==> UNWRITTEN == '~'
    ensures '/' !in Escape(key)
  {
    if key != "" {
      assert key[0] in key && forall c <- key[1..] :: c in key;
      TokenHasNoSlash(key[1..]);
    }
  }

  /** One step of following a pointer. */
  lemma ResolveStep(j: Json, t: string, rest: string, cs: bool)
    requires '/' !in t && IsPointer(rest)
    ensures var i := ResolveToken(j, t + rest, cs);
      Resolve(j, "/" + (t + rest), cs) ==
        if i.None? || Resolve(Child(j, i.value), rest, cs).None? then None
        else Some([i.value] + Resolve(Child(j, i.value), rest, cs).value)
  {
    var p := "/" + (t + rest);
    assert p[1..] == t + rest;
    TokenEndOf(t, rest);
  }

  /** Whatever follows, the first position is that of the child the first token names. */
  lemma ResolveStarts(j: Json, p: string, cs: bool)
    ensures var pos := Resolve(j, "/" + p, cs);
      pos.Some? ==> ResolveToken(j, p, cs).Some? && pos.value != [] && pos.value[0] == ResolveToken(j, p, cs).value
  {
    assert ("/" + p)[1..] == p;
  }

  lemma PointerToIsPointer(j: Json, pos: Position)
    requires Has(j, pos)
    ensures IsPointer(PointerTo(j, pos))
  {
  }

  /** The pointer to a node resolves to that very node, exactly when all keys on the way are writable
      and none of them is shadowed. */
  lemma {:induction false} PointerRoundTrip(j: Json, pos: Position, cs: bool)
    requires Has(j, pos) && Indexable(pos)
    ensures Resolve(j, PointerTo(j, pos), cs) == Some(pos) <==> LeadsBack(j, pos, cs)
    decreases |pos|
  {
    if pos != [] {
      hide Resolve, Escape, Decimal, ComparePointers, Writable, Find, Unescape, DecodeIndex;
      var i, below := pos[0], pos[1..];
      var t, rest := Token(j, i), PointerTo(Child(j, i), below);
      assert i in pos && forall k <- below :: k in pos;
      PointerRoundTrip(Child(j, i), below, cs);
      PointerToIsPointer(Child(j, i), below);
      if j.Array? {
        DecodeDecimal(i);
        DecodeIndexOfToken(t, rest);
        ResolveStep(j, t, rest, cs);
      } else {
        NamesItself(j.members[i].key, rest, cs);
        if Writable(j.members[i].key) {
          WritableToken(j.members[i].key);
          FirstNamedIsFind(j.members, t, rest, cs);
          ResolveStep(j, t, rest, cs);
        } else {
          assert FirstNamed(j.members, t + rest, cs) != i;
        }
        ResolveStarts(j, t + rest, cs);
      }
      assert pos == [i] + below;
    } else {
      EmptyPointer(j, cs);
    }
  }

  lemma EmptyPointer(j: Json, cs: bool)
    ensures Resolve(j, "", cs) == Some([])
  {
  }

  /** With distinct keys free of '~' and '/' every node is found again under its pointer. */
  lemma {:induction false} SafeTreesLeadBack(j: Json, pos: Position, cs: bool)
    requires Has(j, pos) && Keyed(j, cs) && PointerSafe(j)
    ensures LeadsBack(j, pos, cs)
    decreases |pos|
  {
    if pos != [] {
      SafeTreesLeadBack(Child(j, pos[0]), pos[1..], cs);
      if j.Object? {
        var i := Find(j.members, j.members[pos[0]].key, cs);
        assert i <= pos[0];
      }
    }
  }

  /** The search itself; nodes are told apart by their positions.  `at` is where `tree` is. */
  method FindPointerFromObjectTo(tree: Json, at: Position, target: Position) returns (p: Option<string>)
    ensures p == if |at| <= |target| && target[..|at|] == at && Has(tree, target[|at|..])
                 then Some(PointerTo(tree, target[|at|..])) else None
    decreases tree
  {
    if at == target {
      assert target[|at|..] == [];
      return Some("");
    }
    var i := 0;
    while i < Size(tree)
      invariant i <= Size(tree)
      invariant |at| < |target| && target[..|at|] == at ==> i <= target[|at|] || !Has(tree, target[|at|..])
    {
      var below := at + [i];
      var found := FindPointerFromObjectTo(Child(tree, i), below, target);
      ChildOnTheWay(at, i, target);
      if found.Some? {
        if tree.Array? {
          return Some("/" + (Decimal(i) + found.value));
        } else {
          return Some("/" + (Escape(tree.members[i].key) + found.value));
        }
      }
      i := i + 1;
    }
    p := None;
  }

  lemma ChildOnTheWay(at: Position, i: nat, target: Position)
    ensures var below := at + [i];
      && (|below| <= |target| && target[..|below|] == below
          <==> |at| < |target| && target[..|at|] == at && target[|at|] == i)
      && (|at| < |target| ==> target[|at|..][1..] == target[|below|..] && target[|at|..][0] == target[|at|])
  {
    var below := at + [i];
    if |below| <= |target| {
      if target[..|below|] == below {
        assert target[..|at|] == target[..|below|][..|at|] == at && target[..|below|][|at|] == i;
      }
      if target[..|at|] == at && target[|at|] == i {
        assert target[..|below|] == below;
      }
    }
  }
}
