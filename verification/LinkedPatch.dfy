/** `apply_patch` on documents with links: where in-place sorting gets in the way of later edits. */
module LinkedPatch {
  import opened Text
  import opened Sequences
  import opened Json
  import opened Compare
  import opened Pointer
  import opened Patch
  import opened Linked

  /** What `detach_path` comes to; it may have to unlink a node through a stale link. */
  datatype Detachment =
    | NothingThere
    | StaleLink
    | TakenOut(item: Tree, rest: Tree)

  /** How a patch ends: with a status, or by writing through a stale link. */
  datatype Ending = Misled | Ended(status: int, doc: Tree)

  function DetachLinked(t: Tree, path: string, cs: bool): Detachment {
    var slash := LastSlash(path);
    if slash < 0 then NothingThere
    else DetachNode(t, path[..slash], DecodeInPlace(path[slash + 1..], 0, 0), cs)
  }

  function DetachNode(t: Tree, parentPointer: string, child: string, cs: bool): Detachment {
    var pos := Resolve(Erase(t), parentPointer, cs);
    if pos.None? then NothingThere
    else
      ErasedNode(t, pos.value, t);
      DetachFrom(t, pos.value, ChildToDetach(At(Erase(t), pos.value), child))
  }

  function DetachFrom(t: Tree, pos: Position, i: Option<nat>): Detachment
    requires Has(Erase(t), pos) && (i.Some? ==> i.value < Size(Erase(NodeAt(t, pos))))
  {
    if i.None? then NothingThere
    else
      var rest := DropChild(NodeAt(t, pos), i.value);
      if rest.None? then StaleLink else TakenOut(ChildOf(NodeAt(t, pos), i.value), PutNode(t, pos, rest.value))
  }

  function AddLinked(t: Tree, path: string, value: Tree, cs: bool): Ending {
    var slash := LastSlash(path);
    if slash < 0 then Ended(9, t)
    else AddNode(t, path[..slash], DecodeInPlace(path[slash + 1..], 0, 0), value, cs)
  }

  function AddNode(t: Tree, parentPointer: string, child: string, value: Tree, cs: bool): Ending {
    var pos := Resolve(Erase(t), parentPointer, cs);
    if pos.None? then Ended(9, t) else AddUnderNode(t, pos.value, child, value, cs)
  }

  function AddUnderNode(t: Tree, pos: Position, child: string, value: Tree, cs: bool): Ending
    requires Has(Erase(t), pos)
  {
    match NodeAt(t, pos)
    case LinkedArray(items) =>
      if child == "-" then Ended(0, PutNode(t, pos, LinkedArray(items + [value])))
      else
        var i := DecodeIndex(child);
        if i.None? then Ended(11, t)
        else if i.value > |items| then Ended(10, t)
        else Ended(0, PutNode(t, pos, LinkedArray(InsertAt(items, i.value, value))))
    case LinkedObject(ms, stale) =>
      var bigger := SetNamed(ms, stale, child, value, cs);
      if bigger.None? then Misled else Ended(0, PutNode(t, pos, bigger.value))
    case Leaf(_) => Ended(9, t)
  }

  function ApplyLinked(t: Tree, patch: Json, cs: bool): Ending {
    ExecuteLinked(t, ReadPatch(patch, cs), cs)
  }

  function ExecuteLinked(t: Tree, f: Fields, cs: bool): Ending {
    if f.path.None? || !f.path.value.String? then Ended(2, t)
    else
      var path := f.path.value.text;
      match f.opcode
      case INVALID => Ended(3, t)
      case TEST => TestLinked(t, path, f.value, cs)
      case REMOVE => if path == "" then Ended(0, Leaf(Invalid)) else RemoveLinked(t, path, cs)
      case REPLACE => if path == "" then RootLinked(t, f.value) else ReplaceLinked(t, path, f.value, cs)
      case ADD => if path == "" then RootLinked(t, f.value) else AddCopy(t, path, f.value, cs)
      case MOVE => MoveLinked(t, path, f.from, cs)
      case COPY => CopyLinked(t, path, f.from, cs)
  }

  function TestLinked(t: Tree, path: string, value: Option<Json>, cs: bool): Ending {
    var pos := Resolve(Erase(t), path, cs);
    if pos.None? || value.None? then Ended(1, t)
    else
      Ended(if CompareJson(Erase(NodeAt(t, pos.value)), value.value, cs) then 0 else 1,
            PutNode(t, pos.value, Compared(NodeAt(t, pos.value), value.value, cs)))
  }

  function RootLinked(t: Tree, value: Option<Json>): Ending {
    if value.None? then Ended(7, t) else Ended(0, Fresh(value.value))
  }

  function RemoveLinked(t: Tree, path: string, cs: bool): Ending {
    match DetachLinked(t, path, cs)
    case NothingThere => Ended(13, t)
    case StaleLink => Misled
    case TakenOut(_, rest) => Ended(0, rest)
  }

  function ReplaceLinked(t: Tree, path: string, value: Option<Json>, cs: bool): Ending {
    match DetachLinked(t, path, cs)
    case NothingThere => Ended(13, t)
    case StaleLink => Misled
    case TakenOut(_, rest) => AddCopy(rest, path, value, cs)
  }

  function AddCopy(t: Tree, path: string, value: Option<Json>, cs: bool): Ending {
    if value.None? then Ended(7, t) else AddLinked(t, path, Fresh(value.value), cs)
  }

  function MoveLinked(t: Tree, path: string, from: Option<Json>, cs: bool): Ending {
    if from.None? then Ended(4, t)
    else if !from.value.String? then Ended(5, t)
    else AddTaken(t, DetachLinked(t, from.value.text, cs), path, cs)
  }

  function AddTaken(t: Tree, d: Detachment, path: string, cs: bool): Ending {
    match d
    case NothingThere => Ended(5, t)
    case StaleLink => Misled
    case TakenOut(item, rest) => AddLinked(rest, path, item, cs)
  }

  function CopyLinked(t: Tree, path: string, from: Option<Json>, cs: bool): Ending {
    if from.None? then Ended(4, t)
    else if !from.value.String? then Ended(5, t)
    else
      var pos := Resolve(Erase(t), from.value.text, cs);
      if pos.None? then Ended(5, t) else AddLinked(t, path, Fresh(Erase(NodeAt(t, pos.value))), cs)
  }

  function ApplyAllLinked(t: Tree, patches: seq<Json>, cs: bool): Ending
    decreases |patches|
  {
    if patches == [] then Ended(0, t)
    else
      var first := ApplyLinked(t, patches[0], cs);
      if first.Misled? || first.status != 0 then first else ApplyAllLinked(first.doc, patches[1..], cs)
  }

  function ApplyPatchesLinked(t: Tree, patches: Json, cs: bool): Ending {
    if patches.Array? then ApplyAllLinked(t, patches.items, cs) else Ended(1, t)
  }

  // ----- as long as no stale link is met, links make no difference

  /** The document on which the library works agrees with the one without links. */
  predicate SameEnding(e: Ending, o: Outcome) {
    e.Ended? ==> e.status == o.status && Erase(e.doc) == o.doc
  }

  /** The same for `detach_path`. */
  predicate SameDetachment(t: Tree, d: Detachment, r: Option<Detached>) {
    && match d {
       case NothingThere => r.None?
       case StaleLink => r.Some?
       case TakenOut(item, rest) => r == Some(Detached(Erase(item), Erase(rest)))
       }
    && (WellLinked(t) ==> !d.StaleLink? && (d.TakenOut? ==> WellLinked(d.item) && WellLinked(d.rest)))
  }

  /** What a well linked document is kept at. */
  predicate StaysLinked(t: Tree, e: Ending) {
    WellLinked(t) ==> e.Ended? && WellLinked(e.doc)
  }

  lemma DetachErased(t: Tree, path: string, cs: bool)
    ensures SameDetachment(t, DetachLinked(t, path, cs), DetachPath(Erase(t), path, cs))
  {
    DetachUnfolds(t, path, cs);
    NothingDetachedAlike(t);
    hide *;
    if LastSlash(path) >= 0 {
      DetachedBelow(Erase(t), path, cs);
      DetachNodeErased(t, path[..LastSlash(path)], DecodeInPlace(path[LastSlash(path) + 1..], 0, 0), cs);
    }
  }

  lemma DetachUnfolds(t: Tree, path: string, cs: bool)
    ensures var i := LastSlash(path);
      if i < 0 then DetachLinked(t, path, cs) == NothingThere && DetachPath(Erase(t), path, cs) == None
      else DetachLinked(t, path, cs) == DetachNode(t, path[..i], DecodeInPlace(path[i + 1..], 0, 0), cs)
  {
    hide LastSlash, DecodeInPlace, DetachNode;
  }

  lemma NothingDetachedAlike(t: Tree)
    ensures SameDetachment(t, NothingThere, None)
  {
  }

  lemma DetachNodeErased(t: Tree, parentPointer: string, child: string, cs: bool)
    ensures SameDetachment(t, DetachNode(t, parentPointer, child, cs), DetachChild(Erase(t), parentPointer, child, cs))
  {
    hide Erase, WellLinked, Resolve, ChildToDetach, DetachFrom, Size, WithoutChild, PutAt, At, Has, NodeAt;
    var pos := Resolve(Erase(t), parentPointer, cs);
    if pos.Some? {
      ErasedNode(t, pos.value, t);
      var i := ChildToDetach(At(Erase(t), pos.value), child);
      NothingToDetach(t, pos.value);
      if i.Some? { DetachErasedAt(t, pos.value, i.value); }
    }
  }

  lemma NothingToDetach(t: Tree, pos: Position)
    requires Has(Erase(t), pos)
    ensures DetachFrom(t, pos, None) == NothingThere
  {
  }

  lemma DetachErasedAt(t: Tree, pos: Position, i: nat)
    requires Has(Erase(t), pos) && i < Size(Erase(NodeAt(t, pos)))
    ensures var parent, d := At(Erase(t), pos), DetachFrom(t, pos, Some(i));
      && i < Size(parent) && !d.NothingThere?
      && (d.TakenOut? ==>
            Erase(d.item) == Child(parent, i) && Erase(d.rest) == PutAt(Erase(t), pos, WithoutChild(parent, i)))
      && (WellLinked(t) ==> d.TakenOut? && WellLinked(d.item) && WellLinked(d.rest))
  {
    hide Erase, WellLinked, DropChild, Size, Child, WithoutChild, PutAt, PutNode, At, Has;
    var node := NodeAt(t, pos);
    ErasedNode(t, pos, node);
    ErasedDrop(node, i);
    ErasedChild(node, i, node);
    var rest := DropChild(node, i);
    if rest.Some? { ErasedNode(t, pos, rest.value); }
  }

  lemma AddErased(t: Tree, path: string, value: Tree, cs: bool)
    ensures SameEnding(AddLinked(t, path, value, cs), AddAtPath(Erase(t), path, Erase(value), cs))
    ensures WellLinked(value) ==> StaysLinked(t, AddLinked(t, path, value, cs))
  {
    AddUnfolds(t, path, value, cs);
    NothingAddedAlike(t);
    hide *;
    if LastSlash(path) >= 0 {
      AddedBelow(Erase(t), path, Erase(value), cs);
      AddNodeErased(t, path[..LastSlash(path)], DecodeInPlace(path[LastSlash(path) + 1..], 0, 0), value, cs);
    }
  }

  lemma AddUnfolds(t: Tree, path: string, value: Tree, cs: bool)
    ensures var i := LastSlash(path);
      if i < 0 then AddLinked(t, path, value, cs) == Ended(9, t)
                    && AddAtPath(Erase(t), path, Erase(value), cs) == Outcome(9, Erase(t))
      else AddLinked(t, path, value, cs) == AddNode(t, path[..i], DecodeInPlace(path[i + 1..], 0, 0), value, cs)
  {
    hide LastSlash, DecodeInPlace, AddNode;
  }

  lemma NothingAddedAlike(t: Tree)
    ensures SameEnding(Ended(9, t), Outcome(9, Erase(t))) && StaysLinked(t, Ended(9, t))
  {
  }

  lemma AddNodeErased(t: Tree, parentPointer: string, child: string, value: Tree, cs: bool)
    ensures SameEnding(AddNode(t, parentPointer, child, value, cs),
                       AddChild(Erase(t), parentPointer, child, Erase(value), cs))
    ensures WellLinked(value) ==> StaysLinked(t, AddNode(t, parentPointer, child, value, cs))
  {
    hide Erase, WellLinked, Resolve, AddUnderNode, AddUnderParent, Has;
    var pos := Resolve(Erase(t), parentPointer, cs);
    if pos.Some? { AddErasedAt(t, pos.value, child, value, cs); }
  }

  lemma AddErasedAt(t: Tree, pos: Position, child: string, value: Tree, cs: bool)
    requires Has(Erase(t), pos)
    ensures SameEnding(AddUnderNode(t, pos, child, value, cs), AddUnderParent(Erase(t), pos, child, Erase(value), cs))
    ensures WellLinked(value) ==> StaysLinked(t, AddUnderNode(t, pos, child, value, cs))
  {
    hide PutAt, PutNode, At, Has, NodeAt, SetNamed, SetMember, DecodeIndex;
    var node := NodeAt(t, pos);
    ErasedNode(t, pos, node);
    match node
    case LinkedArray(items) =>
      GrownErased(items, |items|, value);
      var i := DecodeIndex(child);
      assert InsertAt(items, |items|, value) == items + [value];
      assert InsertAt(EraseItems(items), |items|, Erase(value)) == EraseItems(items) + [Erase(value)];
      ErasedNode(t, pos, LinkedArray(items + [value]));
      if i.Some? && i.value <= |items| {
        GrownErased(items, i.value, value);
        ErasedNode(t, pos, LinkedArray(InsertAt(items, i.value, value)));
      }
    case LinkedObject(ms, stale) =>
      ErasedSet(ms, stale, child, value, cs);
      var bigger := SetNamed(ms, stale, child, value, cs);
      if bigger.Some? { ErasedNode(t, pos, bigger.value); }
    case Leaf(_) =>
  }

  lemma GrownErased(items: seq<Tree>, i: nat, value: Tree)
    requires i <= |items|
    ensures EraseItems(InsertAt(items, i, value)) == InsertAt(EraseItems(items), i, Erase(value))
    ensures WellLinked(LinkedArray(items)) && WellLinked(value) ==> WellLinked(LinkedArray(InsertAt(items, i, value)))
  {
    var grown := InsertAt(items, i, value);
    assert forall k :: 0 <= k < |grown| ==> grown[k] == if k < i then items[k] else if k == i then value else items[k - 1];
  }

  lemma TestErased(t: Tree, path: string, value: Option<Json>, cs: bool)
    ensures TestLinked(t, path, value, cs).Ended?
    ensures SameEnding(TestLinked(t, path, value, cs), ExecuteTest(Erase(t), path, value, cs))
  {
    hide Erase, Resolve, CompareJson, Compared, AfterCompare, PutAt, PutNode, At, Has, NodeAt;
    var pos := Resolve(Erase(t), path, cs);
    if pos.Some? && value.Some? {
      var node := NodeAt(t, pos.value);
      ErasedNode(t, pos.value, Compared(node, value.value, cs));
      ErasedCompared(node, value.value, cs);
    }
  }

  /** Every operation: unless it is misled by a stale link, it does on the linked document what the functions
      without links say.  On a well linked document it is never misled, and only a test can leave one that is
      not well linked. */
  lemma {:induction false} ExecuteErased(t: Tree, f: Fields, cs: bool)
    ensures SameEnding(ExecuteLinked(t, f, cs), Execute(Erase(t), f, cs))
    ensures WellLinked(t) ==> ExecuteLinked(t, f, cs).Ended?
    ensures f.opcode != TEST ==> StaysLinked(t, ExecuteLinked(t, f, cs))
  {
    hide Erase, WellLinked, Fresh, RemoveLinked, ExecuteRemove, AddCopy, ExecuteAdd, RootLinked, ReplaceRoot, TestLinked,
      ExecuteTest, CopyLinked, ExecuteCopy, MoveLinked, ExecuteMove, ReplaceLinked, ExecuteReplace;
    if f.path.Some? && f.path.value.String? {
      var path := f.path.value.text;
      LeafErased(Invalid);
      RootErased(t, f.value);
      match f.opcode
      case INVALID =>
      case TEST => TestErased(t, path, f.value, cs);
      case REMOVE => RemoveErased(t, path, cs);
      case REPLACE => ReplaceErased(t, path, f.value, cs);
      case ADD => CopyAdded(t, path, f.value, cs);
      case MOVE => MoveErased(t, path, f.from, cs);
      case COPY => CopyErased(t, path, f.from, cs);
    }
  }

  /** The same for whole lists of patches. */
  lemma {:induction false} AllErased(t: Tree, patches: seq<Json>, cs: bool)
    ensures SameEnding(ApplyAllLinked(t, patches, cs), ApplyAll(Erase(t), patches, cs))
    decreases |patches|
  {
    hide Erase, ExecuteLinked, Execute, ReadPatch;
    if patches != [] {
      ExecuteErased(t, ReadPatch(patches[0], cs), cs);
      var first := ApplyLinked(t, patches[0], cs);
      if first.Ended? { AllErased(first.doc, patches[1..], cs); }
    }
  }

  lemma LeafErased(j: Scalar)
    ensures Erase(Leaf(j)) == j && WellLinked(Leaf(j))
  {
  }

  lemma RootErased(t: Tree, value: Option<Json>)
    ensures SameEnding(RootLinked(t, value), ReplaceRoot(Erase(t), value)) && StaysLinked(t, RootLinked(t, value))
  {
    hide Erase, WellLinked, Fresh;
    if value.Some? { FreshIsWellLinked(value.value); }
  }

  lemma RemoveErased(t: Tree, path: string, cs: bool)
    ensures SameEnding(RemoveLinked(t, path, cs), ExecuteRemove(Erase(t), path, cs))
    ensures StaysLinked(t, RemoveLinked(t, path, cs))
  {
    hide Erase, WellLinked, DetachLinked, DetachPath;
    DetachErased(t, path, cs);
  }

  lemma CopyAdded(t: Tree, path: string, value: Option<Json>, cs: bool)
    ensures SameEnding(AddCopy(t, path, value, cs), ExecuteAdd(Erase(t), path, value, cs))
    ensures StaysLinked(t, AddCopy(t, path, value, cs))
  {
    hide Erase, WellLinked, Fresh, AddLinked, AddAtPath;
    if value.Some? {
      FreshIsWellLinked(value.value);
      AddErased(t, path, Fresh(value.value), cs);
    }
  }

  lemma ReplaceErased(t: Tree, path: string, value: Option<Json>, cs: bool)
    ensures SameEnding(ReplaceLinked(t, path, value, cs), ExecuteReplace(Erase(t), path, value, cs))
    ensures StaysLinked(t, ReplaceLinked(t, path, value, cs))
  {
    hide Erase, WellLinked, DetachLinked, AddCopy, DetachPath, ExecuteAdd;
    DetachErased(t, path, cs);
    var d := DetachLinked(t, path, cs);
    if d.TakenOut? { CopyAdded(d.rest, path, value, cs); }
  }

  lemma MoveErased(t: Tree, path: string, from: Option<Json>, cs: bool)
    ensures SameEnding(MoveLinked(t, path, from, cs), ExecuteMove(Erase(t), path, from, cs))
    ensures StaysLinked(t, MoveLinked(t, path, from, cs))
  {
    hide Erase, WellLinked, DetachLinked, AddLinked, DetachPath, AddAtPath;
    if from.Some? && from.value.String? {
      DetachErased(t, from.value.text, cs);
      var d := DetachLinked(t, from.value.text, cs);
      if d.TakenOut? { AddErased(d.rest, path, d.item, cs); }
    }
  }

  lemma CopyErased(t: Tree, path: string, from: Option<Json>, cs: bool)
    ensures SameEnding(CopyLinked(t, path, from, cs), ExecuteCopy(Erase(t), path, from, cs))
    ensures StaysLinked(t, CopyLinked(t, path, from, cs))
  {
    hide Erase, WellLinked, Fresh, Resolve, AddLinked, AddAtPath, At, NodeAt, Has;
    if from.Some? && from.value.String? {
      var pos := Resolve(Erase(t), from.value.text, cs);
      if pos.Some? {
        ErasedNode(t, pos.value, t);
        FreshIsWellLinked(Erase(NodeAt(t, pos.value)));
        AddErased(t, path, Fresh(Erase(NodeAt(t, pos.value))), cs);
      }
    }
  }
}
