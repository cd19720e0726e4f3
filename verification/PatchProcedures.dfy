/** The procedures of the patch engine, step by step, and the functions they compute. */
module PatchProcedures {
  import opened Text
  import opened Sequences
  import opened Json
  import opened Compare
  import opened Pointer
  import opened Patch
  import opened PatchGen
  import opened Linked
  import opened LinkedPatch
  import opened LinkedRoundTrip

  // ----- pointers

  method ComparePointersLoop(name: string, p: string, cs: bool) returns (same: bool)
    ensures same == ComparePointers(name, p, cs)
  {
    var i, j := 0, 0;
    while i < |name| && j < |p| && p[j] != '/'
      invariant 0 <= i <= |name| && 0 <= j <= |p|
      invariant ComparePointers(name, p, cs) == ComparePointers(name[i..], p[j..], cs)
      decreases |name| - i
    {
      if p[j] == '~' {
        var escape := if j + 1 < |p| then p[j + 1] else '\0';
        if (escape != '0' || name[i] != '~') && (escape != '1' || name[i] != '/') {
          return false;
        }
        j := j + 1;
      } else if (!cs && ToLower(name[i]) != ToLower(p[j])) || (cs && name[i] != p[j]) {
        return false;
      }
      i, j := i + 1, j + 1;
    }
    same := (j < |p| && p[j] != '/') == (i < |name|);
  }

  method DecodeArrayIndex(p: string) returns (index: Option<nat>)
    ensures index == DecodeIndex(p)
  {
    if |p| > 0 && p[0] == '0' && |p| > 1 && p[1] != '/' {
      return None;
    }
    var parsed: nat, position := 0, 0;
    while position < |p| && p[position] >= '0' && p[0] <= '9'
      invariant 0 <= position <= |p|
      invariant p != "" && p[0] > '9' ==> position == 0
      invariant ScanIndex(p, 0) == ScanIndex(p[position..], parsed)
      invariant position == 0 ==> parsed == 0
    {
      parsed := (10 * parsed + (p[position] as int - '0' as int)) % SIZE_LIMIT;
      position := position + 1;
    }
    assert p != "" && p[0] > '9' ==> position == 0;
    if position < |p| && p[position] != '/' {
      return None;
    }
    index := Some(parsed);
  }

  /** Decoding inside the buffer itself: the result ends where the terminator is put. */
  method DecodePointerInPlace(buffer: array<char>) returns (length: nat)
    modifies buffer
    ensures length <= buffer.Length && buffer[..length] == DecodeInPlace(old(buffer[..]), 0, 0)
  {
    var w, r := 0, 0;
    while r < buffer.Length
      invariant w <= r <= buffer.Length
      invariant DecodeInPlace(buffer[..], w, r) == DecodeInPlace(old(buffer[..]), 0, 0)
      decreases buffer.Length - r
    {
      if buffer[r] == '~' {
        if r + 1 < buffer.Length && buffer[r + 1] == '0' {
          ghost var before := buffer[..];
          buffer[w] := '~';
          assert buffer[..] == before[w := '~'];
        } else if r + 1 < buffer.Length && buffer[r + 1] == '1' {
          ghost var before := buffer[..];
          buffer[w + 1] := '/';
          assert buffer[..] == before[w + 1 := '/'];
        } else {
          return buffer.Length;
        }
        r := r + 1;
      }
      w, r := w + 1, r + 1;
    }
    length := w;
  }

  /** Writing into freshly allocated memory, whose bytes are all `UNWRITTEN`. */
  method EncodeStringAsPointer(source: string) returns (destination: array<char>)
    ensures destination[..] == Escape(source)
  {
    var length := EncodedLength(source);
    destination := new char[length](_ => UNWRITTEN);
    var d, s := 0, 0;
    while s < |source|
      invariant 0 <= s <= |source| && d <= length == destination.Length == |Escape(source)|
      invariant destination[..d] == Escape(source[..s])
      invariant forall k :: d <= k < length ==> destination[k] == UNWRITTEN
    {
      EscapeNext(source, s);
      ghost var written := destination[..d];
      if source[s] == '/' {
        destination[d + 1] := '1';
        d := d + 1;
      } else if source[s] == '~' {
        destination[d] := '~';
        destination[d + 1] := '1';
        d := d + 1;
      } else {
        destination[d] := source[s];
      }
      d := d + 1;
      assert destination[..d] == written + EscapeOne(source[s]);
      s := s + 1;
    }
    assert source[..s] == source;
    assert destination[..d] == destination[..];
  }

  ghost function EscapeOne(c: char): string {
    if c == '/' then [UNWRITTEN, '1'] else if c == '~' then "~1" else [c]
  }

  lemma {:induction false} EscapeConcat(a: string, b: string)
    ensures Escape(a + b) == Escape(a) + Escape(b)
  {
    if a == "" {
      assert a + b == b;
    } else {
      assert (a + b)[1..] == a[1..] + b;
      EscapeConcat(a[1..], b);
    }
  }

  lemma EscapeNext(source: string, s: nat)
    requires s < |source|
    ensures Escape(source[..s + 1]) == Escape(source[..s]) + EscapeOne(source[s])
    ensures |Escape(source[..s])| + |EscapeOne(source[s])| <= |Escape(source)|
  {
    assert source[..s + 1] == source[..s] + [source[s]];
    EscapeConcat(source[..s], [source[s]]);
    assert Escape([source[s]]) == EscapeOne(source[s]) + "" by { assert [source[s]][1..] == ""; }
    assert source == source[..s + 1] + source[s + 1..];
    EscapeConcat(source[..s + 1], source[s + 1..]);
  }

  method EncodedLength(source: string) returns (length: nat)
    ensures length == |Escape(source)|
  {
    length := 0;
    var s := 0;
    while s < |source|
      invariant 0 <= s <= |source| && length == |Escape(source[..s])|
    {
      EscapeNext(source, s);
      if source[s] == '~' || source[s] == '/' {
        length := length + 1;
      }
      s, length := s + 1, length + 1;
    }
    assert source[..s] == source;
  }

  /** Following a pointer from token to token. */
  method GetItemFromPointer(root: Json, pointer: string, cs: bool) returns (pos: Option<Position>)
    ensures pos == Resolve(root, pointer, cs)
  {
    var current, path, p := root, [], pointer;
    NoPrefix(Resolve(root, pointer, cs));
    while p != "" && p[0] == '/'
      invariant Has(root, path) && At(root, path) == current
      invariant Resolve(root, pointer, cs) == Prefixed(path, Resolve(current, p, cs))
      decreases |p|
    {
      var i := NextChild(current, p[1..], cs);
      if i.None? {
        return None;
      }
      AtBelow(root, path, i.value);
      var rest := p[1..][TokenEnd(p[1..])..];
      LongerPrefix(path, i.value, Resolve(Child(current, i.value), rest, cs));
      current, path, p := Child(current, i.value), path + [i.value], rest;
    }
    assert path + [] == path;
    pos := Some(path);
  }

  ghost function Prefixed(path: Position, rest: Option<Position>): Option<Position> {
    if rest.None? then None else Some(path + rest.value)
  }

  lemma NoPrefix(rest: Option<Position>)
    ensures Prefixed([], rest) == rest
  {
    if rest.Some? { assert [] + rest.value == rest.value; }
  }

  lemma LongerPrefix(path: Position, i: nat, rest: Option<Position>)
    ensures Prefixed(path + [i], rest) == Prefixed(path, Prefixed([i], rest))
  {
    if rest.Some? { assert path + [i] + rest.value == path + ([i] + rest.value); }
  }

  lemma {:induction false} AtBelow(j: Json, pos: Position, i: nat)
    requires Has(j, pos) && i < Size(At(j, pos))
    ensures Has(j, pos + [i]) && At(j, pos + [i]) == Child(At(j, pos), i)
    decreases |pos|
  {
    if pos == [] {
      assert [] + [i] == [i];
    } else {
      AtBelow(Child(j, pos[0]), pos[1..], i);
      assert (pos + [i])[1..] == pos[1..] + [i];
    }
  }

  method NextChild(current: Json, p: string, cs: bool) returns (i: Option<nat>)
    ensures i == ResolveToken(current, p, cs)
  {
    if current.Array? {
      var index := DecodeArrayIndex(p);
      i := if index.Some? && index.value < |current.items| then index else None;
    } else if current.Object? {
      var k := 0;
      while k < |current.members|
        invariant 0 <= k <= |current.members|
        invariant k <= FirstNamed(current.members, p, cs)
      {
        var same := ComparePointersLoop(current.members[k].key, p, cs);
        if same {
          return Some(k);
        }
        k := k + 1;
      }
      i := None;
    } else {
      i := None;
    }
  }

  // ----- comparing

  /** `compare_json`: the loops stop at the first difference.  The first operand is sorted on the way. */
  method CompareJsonLoop(a: Tree, b: Json, cs: bool) returns (same: bool, after: Tree)
    ensures same == CompareJson(Erase(a), b, cs) && after == Compared(a, b, cs)
    decreases Depth(Erase(a)), 0
  {
    hide ItemsCompared, MembersCompared, SortNamed, SortMembers, StaleAfterSort, CompareStrings;
    if !SameKind(Erase(a), b) {
      return false, a;
    }
    match a
    case Leaf(j) => return (j.Number? ==> j.n == b.n) && (j.String? ==> j.text == b.text), a;
    case LinkedArray(xs) =>
      var items;
      same, items := CompareItemsLoop(xs, b.items, cs);
      after := LinkedArray(items);
    case LinkedObject(ms, stale) =>
      ErasedSort(ms, cs);
      SortedDepth(EraseMembers(ms), cs);
      var members;
      same, members := CompareMembersLoop(SortNamed(ms, cs), SortMembers(b.members, cs), cs);
      after := LinkedObject(members, StaleAfterSort(ms, stale, cs));
  }

  method CompareItemsLoop(xs: seq<Tree>, ys: seq<Json>, cs: bool) returns (same: bool, after: seq<Tree>)
    ensures same <==> |xs| == |ys| && forall k :: 0 <= k < |xs| ==> CompareJson(EraseItems(xs)[k], ys[k], cs)
    ensures after == ItemsCompared(xs, ys, cs)
    decreases ItemsDepth(EraseItems(xs)), 1
  {
    hide *;
    NothingStored(xs);
    NothingStored(ys);
    var i := 0;
    after := xs;
    while i < |xs| && i < |ys|
      invariant 0 <= i <= |xs| == |after| && i <= |ys| && after[i..] == xs[i..]
      invariant forall k :: 0 <= k < i ==> CompareJson(EraseItems(xs)[k], ys[k], cs)
      invariant after[..i] + ItemsCompared(xs[i..], ys[i..], cs) == ItemsCompared(xs, ys, cs)
    {
      ErasedElement(xs, i);
      NextCompared(xs, ys, i, cs);
      var x;
      same, x := CompareJsonLoop(xs[i], ys[i], cs);
      Stored(after, xs, i, x, ItemsCompared(xs[i + 1..], ys[i + 1..], cs));
      after := after[i := x];
      if !same {
        return;
      }
      i := i + 1;
    }
    NoneCompared(xs[i..], ys[i..], cs);
    AllStored(after, xs, i);
    same := |xs| == |ys|;
  }

  /** Storing the next element of what has been done. */
  lemma Stored<T>(after: seq<T>, xs: seq<T>, i: nat, x: T, rest: seq<T>)
    requires i < |xs| == |after| && after[i..] == xs[i..]
    ensures var next := after[i := x];
      && next[i + 1..] == xs[i + 1..] && next[..i + 1] + rest == after[..i] + ([x] + rest)
      && next == after[..i] + ([x] + xs[i + 1..])
  {
    var next := after[i := x];
    assert forall k :: i < k < |xs| ==> next[k] == after[i..][k - i] == xs[i..][k - i] == xs[k];
    assert next[..i + 1] == after[..i] + [x];
    assert next == next[..i + 1] + next[i + 1..];
  }

  lemma NothingStored<T>(xs: seq<T>)
    ensures xs[0..] == xs && xs[..0] == [] && forall rest: seq<T> :: [] + rest == rest
  {
  }

  lemma AllStored<T>(after: seq<T>, xs: seq<T>, i: nat)
    requires i <= |xs| == |after| && after[i..] == xs[i..]
    ensures after[..i] + xs[i..] == after
  {
  }

  lemma ErasedElement(xs: seq<Tree>, i: nat)
    requires i < |xs|
    ensures EraseItems(xs)[i] == Erase(xs[i]) && Depth(Erase(xs[i])) <= ItemsDepth(EraseItems(xs))
  {
    assert EraseItems(xs)[i] == Erase(xs[i]);
  }

  lemma ErasedMember(xs: seq<Named>, i: nat)
    requires i < |xs|
    ensures EraseMembers(xs)[i] == Member(xs[i].key, Erase(xs[i].value))
    ensures Depth(Erase(xs[i].value)) <= MembersDepth(EraseMembers(xs))
  {
    assert EraseMembers(xs)[i].value == Erase(xs[i].value);
  }

  lemma NextCompared(xs: seq<Tree>, ys: seq<Json>, i: nat, cs: bool)
    requires i < |xs| && i < |ys|
    ensures ItemsCompared(xs[i..], ys[i..], cs)
         == [Compared(xs[i], ys[i], cs)]
            + (if CompareJson(Erase(xs[i]), ys[i], cs) then ItemsCompared(xs[i + 1..], ys[i + 1..], cs) else xs[i + 1..])
  {
    hide Compared, CompareJson, Erase;
    assert xs[i..][1..] == xs[i + 1..] && ys[i..][1..] == ys[i + 1..];
  }

  lemma NoneCompared(xs: seq<Tree>, ys: seq<Json>, cs: bool)
    requires xs == [] || ys == []
    ensures ItemsCompared(xs, ys, cs) == xs
  {
  }

  ghost predicate EqualUpTo(xs: seq<Member>, ys: seq<Member>, n: nat, cs: bool)
    requires n <= |xs|
  {
    n <= |ys| && forall k :: 0 <= k < n ==>
      CompareStrings(xs[k].key, ys[k].key, cs) == 0 && CompareJson(xs[k].value, ys[k].value, cs)
  }

  lemma NoneEqualYet(xs: seq<Member>, ys: seq<Member>, cs: bool)
    ensures EqualUpTo(xs, ys, 0, cs)
  {
  }

  lemma NextEqual(xs: seq<Member>, ys: seq<Member>, i: nat, cs: bool)
    requires i < |xs| && i < |ys| && EqualUpTo(xs, ys, i, cs)
    ensures var next := CompareStrings(xs[i].key, ys[i].key, cs) == 0 && CompareJson(xs[i].value, ys[i].value, cs);
      && (EqualUpTo(xs, ys, i + 1, cs) <==> next) && (EqualUpTo(xs, ys, |xs|, cs) ==> next)
  {
    hide CompareStrings, CompareJson;
  }

  /** The loop over two sorted member lists. */
  method CompareMembersLoop(xs: seq<Named>, ys: seq<Member>, cs: bool) returns (same: bool, after: seq<Named>)
    ensures same <==> |xs| == |ys| && EqualUpTo(EraseMembers(xs), ys, |xs|, cs)
    ensures after == MembersCompared(xs, ys, cs)
    decreases MembersDepth(EraseMembers(xs)), 1
  {
    hide *;
    NoneEqualYet(EraseMembers(xs), ys, cs);
    NothingStored(xs);
    NothingStored(ys);
    var i := 0;
    after := xs;
    while i < |xs| && i < |ys|
      invariant 0 <= i <= |xs| == |after| && i <= |ys| && after[i..] == xs[i..]
      invariant EqualUpTo(EraseMembers(xs), ys, i, cs)
      invariant after[..i] + MembersCompared(xs[i..], ys[i..], cs) == MembersCompared(xs, ys, cs)
    {
      ErasedMember(xs, i);
      NextEqual(EraseMembers(xs), ys, i, cs);
      NextMemberCompared(xs, ys, i, cs);
      if CompareStrings(xs[i].key, ys[i].key, cs) != 0 {
        AllStored(after, xs, i);
        return false, after;
      }
      var x;
      same, x := CompareJsonLoop(xs[i].value, ys[i].value, cs);
      Stored(after, xs, i, Named(xs[i].key, x), MembersCompared(xs[i + 1..], ys[i + 1..], cs));
      after := after[i := Named(xs[i].key, x)];
      if !same {
        return;
      }
      i := i + 1;
    }
    NoMemberCompared(xs[i..], ys[i..], cs);
    AllStored(after, xs, i);
    same := |xs| == |ys|;
  }

  lemma NextMemberCompared(xs: seq<Named>, ys: seq<Member>, i: nat, cs: bool)
    requires i < |xs| && i < |ys|
    ensures MembersCompared(xs[i..], ys[i..], cs)
         == if CompareStrings(xs[i].key, ys[i].key, cs) != 0 then xs[i..]
            else [Named(xs[i].key, Compared(xs[i].value, ys[i].value, cs))]
                 + (if CompareJson(Erase(xs[i].value), ys[i].value, cs)
                    then MembersCompared(xs[i + 1..], ys[i + 1..], cs) else xs[i + 1..])
  {
    hide Compared, CompareJson, Erase, CompareStrings;
    assert xs[i..][1..] == xs[i + 1..] && ys[i..][1..] == ys[i + 1..];
  }

  lemma NoMemberCompared(xs: seq<Named>, ys: seq<Member>, cs: bool)
    requires xs == [] || ys == []
    ensures MembersCompared(xs, ys, cs) == xs
  {
  }

  /** `cJSON_Compare`: two rounds of lookups. */
  method EqualLoop(a: Json, b: Json, cs: bool) returns (same: bool)
    ensures same == Equal(a, b, cs)
    decreases Depth(a) + Depth(b), 1
  {
    if !SameKind(a, b) || a.Invalid? {
      return false;
    }
    match a
    case Number(n) => return n == b.n;
    case String(s) => return s == b.text;
    case Array(xs) =>
      var i := 0;
      while i < |xs| && i < |b.items|
        invariant 0 <= i <= |xs| && i <= |b.items|
        invariant forall k :: 0 <= k < i ==> Equal(xs[k], b.items[k], cs)
      {
        same := EqualLoop(xs[i], b.items[i], cs);
        if !same {
          return;
        }
        i := i + 1;
      }
      return |xs| == |b.items|;
    case Object(ms) =>
      same := IncludesLoop(ms, b.members, cs);
      if same {
        same := IncludesLoop(b.members, ms, cs);
      }
    case _ => return true;
  }

  method IncludesLoop(ms: seq<Member>, ns: seq<Member>, cs: bool) returns (same: bool)
    ensures same == Includes(ms, ns, cs)
    decreases MembersDepth(ms) + MembersDepth(ns) + 1, 0
  {
    hide Equal, Find, Fold, Depth, MembersDepth;
    var i := 0;
    while i < |ms|
      invariant 0 <= i <= |ms|
      invariant forall k :: 0 <= k < i ==>
                  var j := Find(ns, ms[k].key, cs);
                  j < |ns| && Equal(ms[k].value, ns[j].value, cs)
    {
      var j := Find(ns, ms[i].key, cs);
      if j == |ns| {
        return false;
      }
      same := EqualLoop(ms[i].value, ns[j].value, cs);
      if !same {
        return;
      }
      i := i + 1;
    }
    same := true;
  }

  // ----- applying

  /** A document that patches change in place, links included. */
  class Document {
    var root: Tree
    /** A node has been unlinked through a stale link.  The document is not followed any further. */
    var misled: bool

    constructor (root: Tree)
      ensures this.root == root && !misled
    {
      this.root, misled := root, false;
    }

    function End(status: int): Ending
      reads this
    {
      if misled then Misled else Ended(status, root)
    }

    method Detach(path: string, cs: bool) returns (item: Option<Tree>)
      requires !misled
      modifies this
      ensures match DetachLinked(old(root), path, cs)
              case NothingThere => !misled && item.None? && root == old(root)
              case StaleLink => misled
              case TakenOut(taken, rest) => !misled && item == Some(taken) && root == rest
    {
      item := None;
      var slash := LastSlash(path);
      if slash < 0 {
        return;
      }
      var pos := GetItemFromPointer(Erase(root), path[..slash], cs);
      if pos.None? {
        return;
      }
      ErasedNode(root, pos.value, root);
      var parent := NodeAt(root, pos.value);
      var i := ChildToDetach(Erase(parent), DecodeInPlace(path[slash + 1..], 0, 0));
      if i.None? {
        return;
      }
      var rest := DropChild(parent, i.value);
      if rest.None? {
        misled := true;
        return;
      }
      item := Some(ChildOf(parent, i.value));
      root := PutNode(root, pos.value, rest.value);
    }

    method Add(path: string, value: Tree, cs: bool) returns (status: int)
      requires !misled
      modifies this
      ensures End(status) == AddLinked(old(root), path, value, cs)
    {
      var slash := LastSlash(path);
      if slash < 0 {
        return 9;
      }
      var pos := GetItemFromPointer(Erase(root), path[..slash], cs);
      if pos.None? {
        return 9;
      }
      status := AddUnder(pos.value, DecodeInPlace(path[slash + 1..], 0, 0), value, cs);
    }

    method AddUnder(pos: Position, child: string, value: Tree, cs: bool) returns (status: int)
      requires !misled && Has(Erase(root), pos)
      modifies this
      ensures End(status) == AddUnderNode(old(root), pos, child, value, cs)
    {
      status := 0;
      match NodeAt(root, pos)
      case LinkedArray(items) =>
        if child == "-" {
          root := PutNode(root, pos, LinkedArray(items + [value]));
        } else {
          var index := DecodeArrayIndex(child);
          if index.None? {
            return 11;
          }
          if index.value > |items| {
            return 10;
          }
          root := PutNode(root, pos, LinkedArray(InsertAt(items, index.value, value)));
        }
      case LinkedObject(ms, stale) =>
        var bigger := SetNamed(ms, stale, child, value, cs);
        if bigger.None? {
          misled := true;
        } else {
          root := PutNode(root, pos, bigger.value);
        }
      case Leaf(_) => status := 9;
    }

    method Apply(patch: Json, cs: bool) returns (status: int)
      requires !misled
      modifies this
      ensures End(status) == ApplyLinked(old(root), patch, cs)
    {
      var path, opcode := GetObjectItem(patch, "path", cs), DecodeOperation(patch, cs);
      var value, from := GetObjectItem(patch, "value", cs), GetObjectItem(patch, "from", cs);
      assert ReadPatch(patch, cs) == Fields(opcode, path, value, from);
      status := ApplyFields(Fields(opcode, path, value, from), cs);
    }

    method ApplyFields(f: Fields, cs: bool) returns (status: int)
      requires !misled
      modifies this
      ensures End(status) == ExecuteLinked(old(root), f, cs)
    {
      hide RemoveLinked, ReplaceLinked, AddCopy, MoveLinked, CopyLinked, TestLinked, Fresh;
      if f.path.None? || !f.path.value.String? {
        return 2;
      }
      var path, opcode, value := f.path.value.text, f.opcode, f.value;
      if opcode == INVALID {
        return 3;
      }
      if opcode == TEST {
        status := TestAt(path, value, cs);
        return;
      }
      if path == "" {
        if opcode == REMOVE {
          root := Leaf(Invalid);
          return 0;
        }
        if opcode == REPLACE || opcode == ADD {
          if value.None? {
            return 7;
          }
          root := Fresh(value.value);
          return 0;
        }
      }
      status := Edit(opcode, path, value, f.from, cs);
    }

    /** Operations below the root, and moves and copies anywhere. */
    method Edit(opcode: Opcode, path: string, value: Option<Json>, from: Option<Json>, cs: bool) returns (status: int)
      requires !misled && opcode != INVALID && opcode != TEST
      modifies this
      ensures End(status) ==
        match opcode
        case REMOVE => RemoveLinked(old(root), path, cs)
        case REPLACE => ReplaceLinked(old(root), path, value, cs)
        case MOVE => MoveLinked(old(root), path, from, cs)
        case COPY => CopyLinked(old(root), path, from, cs)
        case _ => AddCopy(old(root), path, value, cs)
    {
      hide DetachLinked, AddLinked, MoveLinked, CopyLinked, Fresh;
      if opcode == REMOVE || opcode == REPLACE {
        var old_item := Detach(path, cs);
        if misled {
          return 0;
        }
        if old_item.None? {
          return 13;
        }
        if opcode == REMOVE {
          return 0;
        }
      }
      if opcode == MOVE || opcode == COPY {
        status := Bring(opcode, path, from, cs);
        return;
      }
      if value.None? {
        return 7;
      }
      status := Add(path, Fresh(value.value), cs);
    }

    /** `compare_json` sorts the node where it stands. */
    method TestAt(path: string, value: Option<Json>, cs: bool) returns (status: int)
      requires !misled
      modifies this
      ensures End(status) == TestLinked(old(root), path, value, cs)
    {
      hide CompareJson, Compared;
      var pos := GetItemFromPointer(Erase(root), path, cs);
      if pos.None? || value.None? {
        return 1;
      }
      var same, node := CompareJsonLoop(NodeAt(root, pos.value), value.value, cs);
      root := PutNode(root, pos.value, node);
      status := if same then 0 else 1;
    }

    method Bring(opcode: Opcode, path: string, from: Option<Json>, cs: bool) returns (status: int)
      requires !misled && (opcode == MOVE || opcode == COPY)
      modifies this
      ensures End(status) ==
              if opcode == MOVE then MoveLinked(old(root), path, from, cs) else CopyLinked(old(root), path, from, cs)
    {
      hide DetachLinked, AddLinked, Resolve, Has, NodeAt, Fresh, Erase;
      if from.None? {
        return 4;
      }
      if !from.value.String? {
        return 5;
      }
      var value;
      if opcode == MOVE {
        value := Detach(from.value.text, cs);
        if misled {
          return 0;
        }
      } else {
        var pos := GetItemFromPointer(Erase(root), from.value.text, cs);
        value := if pos.None? then None else Some(Fresh(Erase(NodeAt(root, pos.value))));
      }
      if value.None? {
        return 5;
      }
      status := Add(path, value.value, cs);
    }

    method ApplyEach(patches: Json, cs: bool) returns (status: int)
      requires !misled
      modifies this
      ensures End(status) == ApplyPatchesLinked(old(root), patches, cs)
    {
      hide ApplyLinked;
      if !patches.Array? {
        return 1;
      }
      var i := 0;
      while i < |patches.items|
        invariant 0 <= i <= |patches.items| && !misled
        invariant ApplyAllLinked(old(root), patches.items, cs) == ApplyAllLinked(root, patches.items[i..], cs)
      {
        assert patches.items[i..][1..] == patches.items[i + 1..];
        status := Apply(patches.items[i], cs);
        if misled || status != 0 {
          return;
        }
        i := i + 1;
      }
      status := 0;
    }
  }

  // ----- generating

  /** The array that `compose_patch` appends to. */
  class PatchList {
    var patches: seq<Json>

    constructor ()
      ensures patches == []
    {
      patches := [];
    }

    method Append(op: string, path: string, suffix: Option<string>, value: Option<Json>)
      modifies this
      ensures patches == old(patches) + [Compose(op, path, suffix, value)]
    {
      patches := patches + [Compose(op, path, suffix, value)];
    }

    /** `create_patches`; `after` is what it leaves of its first argument. */
    method Create(path: string, from: Tree, goal: Json, cs: bool) returns (after: Tree)
      modifies this
      ensures patches == old(patches) + CreatePatches(path, Erase(from), goal, cs) && after == Created(from, goal, cs)
      decreases Depth(Erase(from)), 2
    {
      after := from;
      if !SameKind(Erase(from), goal) {
        Append("replace", path, None, Some(goal));
        return;
      }
      match from
      case Leaf(j) =>
        if (j.Number? && j.n != goal.n) || (j.String? && j.text != goal.text) {
          Append("replace", path, None, Some(goal));
        }
      case LinkedArray(xs) =>
        var items := CreateForArrays(path, xs, goal.items, cs);
        after := LinkedArray(items);
      case LinkedObject(ms, stale) =>
        var members := CreateForObjects(path, ms, goal.members, cs);
        after := LinkedObject(members, StaleAfterSort(ms, stale, cs));
    }

    method CreateForArrays(path: string, xs: seq<Tree>, ys: seq<Json>, cs: bool) returns (after: seq<Tree>)
      modifies this
      ensures patches == old(patches) + CreatePatches(path, Array(EraseItems(xs)), Array(ys), cs)
      ensures after == ItemsCreated(xs, ys, cs)
      decreases ItemsDepth(EraseItems(xs)) + 1, 1
    {
      var index;
      index, after := AppendCommon(path, xs, ys, cs);
      AppendSurplus(path, index, |xs|);
      AppendMissing(path, ys, index);
      hide CommonPatches, ItemsCreated, ItemsDepth, Compose;
      assert |ys| >= |xs| ==> SurplusPatches(path, index, |xs|) == SurplusPatches(path, |ys|, |xs|) == [];
      assert |xs| >= |ys| ==> MissingPatches(path, ys, index) == MissingPatches(path, ys, |xs|) == [];
    }

    /** The loop over surplus elements: `index` stays where it is. */
    method AppendSurplus(path: string, index: nat, end: nat)
      modifies this
      ensures patches == old(patches) + SurplusPatches(path, index, end)
    {
      var k := index;
      ghost var before := patches;
      while k < end
        invariant index <= k && (k <= end || k == index)
        invariant patches == before + SurplusPatches(path, index, k)
      {
        Append("remove", path, Some(Decimal(index)), None);
        k := k + 1;
      }
    }

    /** Patches for the elements both arrays have; returns how many those are. */
    method AppendCommon(path: string, xs: seq<Tree>, ys: seq<Json>, cs: bool) returns (index: nat, after: seq<Tree>)
      modifies this
      ensures index == if |xs| < |ys| then |xs| else |ys|
      ensures patches == old(patches) + CommonPatches(path, EraseItems(xs), ys, 0, cs)
      ensures after == ItemsCreated(xs, ys, cs)
      decreases ItemsDepth(EraseItems(xs)) + 1, 0
    {
      hide CreatePatches, CommonPatches, Decimal, Depth, ItemsDepth, Erase, Created, ItemsCreated;
      index, after := 0, xs;
      ghost var es := EraseItems(xs);
      ghost var whole := patches + CommonPatches(path, es, ys, 0, cs);
      NothingStored(xs);
      NothingStored(ys);
      while index < |xs| && index < |ys|
        invariant 0 <= index <= |xs| == |after| && index <= |ys| && after[index..] == xs[index..]
        invariant patches + CommonPatches(path, es, ys, index, cs) == whole
        invariant after[..index] + ItemsCreated(xs[index..], ys[index..], cs) == ItemsCreated(xs, ys, cs)
      {
        ErasedElement(xs, index);
        CommonSplits(path, es, ys, index, cs, patches);
        NextCreated(xs, ys, index, cs);
        var x := Create(path + "/" + Decimal(index), xs[index], ys[index], cs);
        Stored(after, xs, index, x, ItemsCreated(xs[index + 1..], ys[index + 1..], cs));
        after := after[index := x];
        index := index + 1;
      }
      NoMoreCommon(path, es, ys, index, cs);
      NoneCreated(xs[index..], ys[index..], cs);
      AllStored(after, xs, index);
    }

    method AppendMissing(path: string, ys: seq<Json>, start: nat)
      modifies this
      ensures patches == old(patches) + MissingPatches(path, ys, start)
    {
      hide Compose;
      ghost var whole := patches + MissingPatches(path, ys, start);
      var k := start;
      while k < |ys|
        invariant start <= k
        invariant patches + MissingPatches(path, ys, k) == whole
      {
        ghost var before, rest := patches, MissingPatches(path, ys, k + 1);
        ghost var head := [Compose("add", path, Some("-"), Some(ys[k]))];
        assert before + (head + rest) == before + head + rest;
        Append("add", path, Some("-"), Some(ys[k]));
        k := k + 1;
      }
    }

    method CreateForObjects(path: string, ms: seq<Named>, ns: seq<Member>, cs: bool) returns (after: seq<Named>)
      modifies this
      ensures patches == old(patches) + CreatePatches(path, Object(EraseMembers(ms)), Object(ns), cs)
      ensures after == MembersCreated(SortNamed(ms, cs), SortMembers(ns, cs), cs)
      decreases MembersDepth(EraseMembers(ms)) + 1, 1
    {
      ErasedSort(ms, cs);
      SortedDepth(EraseMembers(ms), cs);
      var fs, ts := SortNamed(ms, cs), SortMembers(ns, cs);
      hide JoinHead, RestOfFrom, RestOfTo, HeadCreated, MembersCreated, JoinOrder, SortNamed, SortMembers, Erase;
      ghost var whole := patches + JoinPatches(path, EraseMembers(fs), ts, cs);
      ghost var walked := MembersCreated(fs, ts, cs);
      after := [];
      while fs != [] || ts != []
        invariant MembersDepth(EraseMembers(fs)) <= MembersDepth(EraseMembers(ms))
        invariant patches + JoinPatches(path, EraseMembers(fs), ts, cs) == whole
        invariant after + MembersCreated(fs, ts, cs) == walked
        decreases |fs| + |ts|
      {
        JoinSplits(path, EraseMembers(fs), ts, cs, patches);
        RestIsNoDeeper(EraseMembers(fs), ts, cs);
        WalkSplits(fs, ts, cs, after);
        var diff := JoinOrder(EraseMembers(fs), ts, cs);
        var head := AppendJoinHead(path, fs, ts, cs);
        after := after + head;
        fs, ts := if diff <= 0 then fs[1..] else fs, if diff >= 0 then ts[1..] else ts;
      }
      NothingJoined(path, cs);
      assert after + [] == after && patches + [] == patches;
    }

    /** One step of the walk; `head` is what it leaves behind. */
    method AppendJoinHead(path: string, fs: seq<Named>, ts: seq<Member>, cs: bool) returns (head: seq<Named>)
      requires fs != [] || ts != []
      modifies this
      ensures patches == old(patches) + JoinHead(path, EraseMembers(fs), ts, cs) && head == HeadCreated(fs, ts, cs)
      decreases MembersDepth(EraseMembers(fs)) + 1, 0
    {
      var diff := JoinOrder(EraseMembers(fs), ts, cs);
      if diff == 0 {
        MembersParts(fs);
        var value := Create(path + "/" + Escape(fs[0].key), fs[0].value, ts[0].value, cs);
        head := [Named(fs[0].key, value)];
      } else if diff < 0 {
        Append("remove", path, Some(fs[0].key), None);
        head := [fs[0]];
      } else {
        Append("add", path, Some(ts[0].key), Some(ts[0].value));
        head := [];
      }
    }
  }

  ghost function HeadCreated(fs: seq<Named>, ts: seq<Member>, cs: bool): seq<Named>
    requires fs != [] || ts != []
  {
    var diff := JoinOrder(EraseMembers(fs), ts, cs);
    if diff == 0 then [Named(fs[0].key, Created(fs[0].value, ts[0].value, cs))] else if diff < 0 then [fs[0]] else []
  }

  lemma WalkSplits(fs: seq<Named>, ts: seq<Member>, cs: bool, before: seq<Named>)
    requires fs != [] || ts != []
    ensures var diff := JoinOrder(EraseMembers(fs), ts, cs);
      && RestOfFrom(EraseMembers(fs), ts, cs) == EraseMembers(if diff <= 0 then fs[1..] else fs)
      && RestOfTo(EraseMembers(fs), ts, cs) == (if diff >= 0 then ts[1..] else ts)
      && before + MembersCreated(fs, ts, cs)
         == (before + HeadCreated(fs, ts, cs))
            + MembersCreated(if diff <= 0 then fs[1..] else fs, if diff >= 0 then ts[1..] else ts, cs)
  {
    hide *;
    RestsOfWalk(fs, ts, cs);
    HeadThenRest(fs, ts, cs);
    var diff := JoinOrder(EraseMembers(fs), ts, cs);
    var rest := MembersCreated(if diff <= 0 then fs[1..] else fs, if diff >= 0 then ts[1..] else ts, cs);
    assert before + (HeadCreated(fs, ts, cs) + rest) == before + HeadCreated(fs, ts, cs) + rest;
  }

  lemma RestsOfWalk(fs: seq<Named>, ts: seq<Member>, cs: bool)
    requires fs != [] || ts != []
    ensures var diff := JoinOrder(EraseMembers(fs), ts, cs);
      && RestOfFrom(EraseMembers(fs), ts, cs) == EraseMembers(if diff <= 0 then fs[1..] else fs)
      && RestOfTo(EraseMembers(fs), ts, cs) == (if diff >= 0 then ts[1..] else ts)
  {
    hide JoinOrder, Erase;
    if fs != [] { assert EraseMembers(fs)[1..] == EraseMembers(fs[1..]); }
  }

  lemma OrderOfNamed(fs: seq<Named>, ts: seq<Member>, cs: bool)
    requires fs != [] || ts != []
    ensures JoinOrder(EraseMembers(fs), ts, cs)
         == if fs == [] then 1 else if ts == [] then -1 else CompareStrings(fs[0].key, ts[0].key, cs)
  {
    hide CompareStrings, Erase;
  }

  lemma HeadThenRest(fs: seq<Named>, ts: seq<Member>, cs: bool)
    requires fs != [] || ts != []
    ensures var diff := JoinOrder(EraseMembers(fs), ts, cs);
      MembersCreated(fs, ts, cs)
      == HeadCreated(fs, ts, cs)
         + MembersCreated(if diff <= 0 then fs[1..] else fs, if diff >= 0 then ts[1..] else ts, cs)
  {
    OrderOfNamed(fs, ts, cs);
    hide CompareStrings, Created, Erase, JoinOrder, EraseMembers;
    if fs != [] { assert fs == [fs[0]] + fs[1..]; }
  }

  lemma NothingJoined(path: string, cs: bool)
    ensures JoinPatches(path, EraseMembers([]), [], cs) == [] && MembersCreated([], [], cs) == []
  {
  }

  lemma NextCreated(xs: seq<Tree>, ys: seq<Json>, i: nat, cs: bool)
    requires i < |xs| && i < |ys|
    ensures ItemsCreated(xs[i..], ys[i..], cs) == [Created(xs[i], ys[i], cs)] + ItemsCreated(xs[i + 1..], ys[i + 1..], cs)
  {
    hide Created;
    assert xs[i..][1..] == xs[i + 1..] && ys[i..][1..] == ys[i + 1..];
  }

  lemma NoneCreated(xs: seq<Tree>, ys: seq<Json>, cs: bool)
    requires xs == [] || ys == []
    ensures ItemsCreated(xs, ys, cs) == xs
  {
  }

  lemma CommonSplits(path: string, xs: seq<Json>, ys: seq<Json>, i: nat, cs: bool, before: seq<Json>)
    requires i < |xs| && i < |ys|
    ensures before + CommonPatches(path, xs, ys, i, cs)
         == (before + CreatePatches(path + "/" + Decimal(i), xs[i], ys[i], cs)) + CommonPatches(path, xs, ys, i + 1, cs)
  {
    hide CreatePatches;
    var head, rest := CreatePatches(path + "/" + Decimal(i), xs[i], ys[i], cs), CommonPatches(path, xs, ys, i + 1, cs);
    assert CommonPatches(path, xs, ys, i, cs) == head + rest;
    hide CommonPatches;
    assert before + (head + rest) == before + head + rest;
  }

  lemma NoMoreCommon(path: string, xs: seq<Json>, ys: seq<Json>, i: nat, cs: bool)
    requires i == |xs| || i == |ys|
    ensures CommonPatches(path, xs, ys, i, cs) == []
  {
  }

  /** The patches for the first keys, and those for the rest. */
  lemma JoinSplits(path: string, fs: seq<Member>, ts: seq<Member>, cs: bool, before: seq<Json>)
    requires fs != [] || ts != []
    ensures before + JoinPatches(path, fs, ts, cs)
         == (before + JoinHead(path, fs, ts, cs))
            + JoinPatches(path, RestOfFrom(fs, ts, cs), RestOfTo(fs, ts, cs), cs)
  {
    hide JoinHead, RestOfFrom, RestOfTo;
    var head := JoinHead(path, fs, ts, cs);
    var rest := JoinPatches(path, RestOfFrom(fs, ts, cs), RestOfTo(fs, ts, cs), cs);
    assert before + (head + rest) == before + head + rest;
  }

  lemma RestIsNoDeeper(fs: seq<Member>, ts: seq<Member>, cs: bool)
    requires fs != [] || ts != []
    ensures MembersDepth(RestOfFrom(fs, ts, cs)) <= MembersDepth(fs)
    ensures |RestOfFrom(fs, ts, cs)| + |RestOfTo(fs, ts, cs)| < |fs| + |ts|
  {
  }
}
