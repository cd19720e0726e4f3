/** `apply_patch` against RFC 6902. */
module PatchRfc {
  import opened Text
  import opened Sequences
  import opened Json
  import opened Compare
  import opened Pointer
  import opened PointerIndex
  import opened DataPath
  import opened Patch

  ghost predicate HasValue(f: Fields, cs: bool) {
    f.value.Some? && Keyed(f.value.value, cs)
  }

  predicate HasText(field: Option<Json>) {
    field.Some? && field.value.String?
  }

  predicate HasPointer(field: Option<Json>) {
    HasText(field) && IsPointer(field.value.text)
  }

  /** An operation with all its members.  What is removed from an object stands out among its keys, because
      the library removes without regard to case. */
  ghost predicate WellFormed(v: Value, f: Fields, cs: bool) {
    && HasPointer(f.path)
    && var path := Split(f.path.value.text);
       match f.opcode
       case INVALID => false
       case REMOVE => path != [] && StandsOut(v, path, cs)
       case ADD => HasValue(f, cs)
       case REPLACE => HasValue(f, cs) && StandsOut(v, path, cs)
       case TEST => HasValue(f, cs)
       case MOVE => path != [] && HasPointer(f.from) && StandsOut(v, Split(f.from.value.text), cs)
       case COPY => path != [] && HasPointer(f.from)
  }

  // ----- the operation that the library takes a patch for

  /** A removal followed by an addition, both where the library takes the paths to lead. */
  function TakenMove(v: Value, from: seq<string>, path: seq<string>, cs: bool): Option<Value> {
    if from == [] then None else TakenAdd(RfcRemove(v, TakenPath(v, from, cs), cs), path, cs)
  }

  function TakenAdd(r: Option<(Value, Value)>, path: seq<string>, cs: bool): Option<Value> {
    if r.None? then None else RfcAdd(r.value.1, TakenPath(r.value.1, path, cs), r.value.0, cs)
  }

  /** What RFC 6902 makes of the data, for paths as the library takes them. */
  ghost function TakenResult(v: Value, f: Fields, cs: bool): Option<Value>
    requires WellFormed(v, f, cs)
  {
    var path := Split(f.path.value.text);
    match f.opcode
    case ADD => RfcAdd(v, TakenPath(v, path, cs), Meaning(f.value.value, cs), cs)
    case REMOVE => AfterRemoval(RfcRemove(v, TakenPath(v, path, cs), cs))
    case REPLACE => RfcReplace(v, TakenPath(v, path, cs), Meaning(f.value.value, cs), cs)
    case MOVE => TakenMove(v, Split(f.from.value.text), path, cs)
    case COPY => AddFound(v, Nav(v, Split(f.from.value.text), cs), TakenPath(v, path, cs), cs)
    case TEST => RfcApply(v, Test(path, Meaning(f.value.value, cs)), cs)
  }

  function AfterRemoval(r: Option<(Value, Value)>): Option<Value> {
    if r.None? then None else Some(r.value.1)
  }

  /** The library misreads no array index on the way. */
  ghost predicate IndicesRight(doc: Json, f: Fields, cs: bool) {
    && HasPointer(f.path)
    && var path := f.path.value.text;
       match f.opcode
       case TEST => Straight(doc, path, cs)
       case MOVE => HasPointer(f.from) && MovesStraight(doc, f.from.value.text, path, cs)
       case COPY => HasPointer(f.from) && Straight(doc, f.from.value.text, cs) && TargetStraight(doc, path, cs)
       case _ => TargetStraight(doc, path, cs)
  }

  ghost predicate MovesStraight(doc: Json, from: string, path: string, cs: bool)
    requires IsPointer(from) && IsPointer(path)
  {
    && TargetStraight(doc, from, cs)
    && var d := DetachPath(doc, from, cs);
       (d.Some? ==> TargetStraight(d.value.rest, path, cs))
  }

  /** What the library does is what is expected. */
  ghost predicate Right(result: Outcome, straight: bool, expected: Option<Value>, cs: bool) {
    result.status == 0 && straight ==> expected == Some(Meaning(result.doc, cs)) && Keyed(result.doc, cs)
  }

  /** What is expected is what the library does, if it goes straight, and otherwise an error. */
  ghost predicate Conforms(result: Outcome, straight: bool, expected: Option<Value>, cs: bool) {
    Right(result, straight, expected, cs) && (result.status == 0 && straight <==> expected.Some?)
  }

  /** Byte order is asked for only where it comes out right. */
  ghost predicate ComparesRight(v: Value, f: Fields, cs: bool) {
    cs && f.opcode == TEST && HasPointer(f.path) && HasValue(f, cs) ==>
      var found := Nav(v, Split(f.path.value.text), cs);
      (found.Some? ==> OrdersAgree(found.value) && OrdersAgree(Meaning(f.value.value, cs)))
  }

  /** Every operation of the library is one of RFC 6902: on whatever pointers, escapes and keys, it has the
      effect that section 4 gives to the operation at the location that the library takes its path for, or
      is in error with it.  Only a test may fail although the values are equal, where sorting by bytes goes
      wrong; it never succeeds when they are not. */
  lemma {:induction false} ApplyPatchIsTaken(doc: Json, patch: Json, cs: bool)
    requires Keyed(doc, cs) && WellFormed(Meaning(doc, cs), ReadPatch(patch, cs), cs)
    ensures var f, v := ReadPatch(patch, cs), Meaning(doc, cs);
            var result, straight := ApplyPatch(doc, patch, cs), IndicesRight(doc, f, cs);
            && Right(result, straight, TakenResult(v, f, cs), cs)
            && (ComparesRight(v, f, cs) ==> Conforms(result, straight, TakenResult(v, f, cs), cs))
  {
    ExecuteIsTaken(doc, ReadPatch(patch, cs), cs);
    hide Keyed, Meaning, IndicesRight, Execute, TakenResult, WellFormed, Right, Conforms, ComparesRight;
  }

  lemma {:induction false} ExecuteIsTaken(doc: Json, f: Fields, cs: bool)
    requires Keyed(doc, cs) && WellFormed(Meaning(doc, cs), f, cs)
    ensures var result, straight := Execute(doc, f, cs), IndicesRight(doc, f, cs);
      && Right(result, straight, TakenResult(Meaning(doc, cs), f, cs), cs)
      && (ComparesRight(Meaning(doc, cs), f, cs) ==>
            Conforms(result, straight, TakenResult(Meaning(doc, cs), f, cs), cs))
  {
    assert HasPointer(f.path);
    EmptySplit(f.path.value.text);
    hide Keyed, Meaning, Split, Right, Execute, TakenResult, IndicesRight, ComparesRight;
    if f.opcode == TEST {
      ExecuteTestIsTaken(doc, f, cs);
    } else if f.path.value.text == "" {
      ExecuteAtRootIsTaken(doc, f, cs);
    } else {
      match f.opcode
      case ADD => ExecuteAddIsTaken(doc, f, cs);
      case REMOVE => ExecuteRemoveIsTaken(doc, f, cs);
      case REPLACE => ExecuteReplaceIsTaken(doc, f, cs);
      case MOVE => ExecuteMoveIsTaken(doc, f, cs);
      case COPY => ExecuteCopyIsTaken(doc, f, cs);
    }
  }

  lemma EmptySplit(path: string)
    requires IsPointer(path)
    ensures Split(path) == [] <==> path == ""
  {
  }

  lemma ExecuteAtRootIsTaken(doc: Json, f: Fields, cs: bool)
    requires Keyed(doc, cs) && WellFormed(Meaning(doc, cs), f, cs) && f.path.value.text == "" && f.opcode != TEST
    ensures Conforms(Execute(doc, f, cs), IndicesRight(doc, f, cs),
                     TakenResult(Meaning(doc, cs), f, cs), cs)
  {
    assert Split("") == [];
    hide Keyed, Meaning;
  }

  lemma ExecuteAddIsTaken(doc: Json, f: Fields, cs: bool)
    requires Keyed(doc, cs) && WellFormed(Meaning(doc, cs), f, cs) && f.path.value.text != "" && f.opcode == ADD
    ensures Conforms(Execute(doc, f, cs), IndicesRight(doc, f, cs),
                     TakenResult(Meaning(doc, cs), f, cs), cs)
  {
    AddAtPathIsAdd(doc, f.path.value.text, f.value.value, cs);
    hide Keyed, Meaning, Split, AddAtPath, TargetStraight, RfcAdd, TakenPath;
  }

  lemma ExecuteRemoveIsTaken(doc: Json, f: Fields, cs: bool)
    requires Keyed(doc, cs) && WellFormed(Meaning(doc, cs), f, cs) && f.path.value.text != "" && f.opcode == REMOVE
    ensures Conforms(Execute(doc, f, cs), IndicesRight(doc, f, cs),
                     TakenResult(Meaning(doc, cs), f, cs), cs)
  {
    hide Keyed, Meaning, Split, ExecuteRemove, TargetStraight, RfcRemove, TakenPath, StandsOut, Conforms, AfterRemoval;
    RemoveIsTaken(doc, f.path.value.text, cs);
  }

  lemma ExecuteReplaceIsTaken(doc: Json, f: Fields, cs: bool)
    requires Keyed(doc, cs) && WellFormed(Meaning(doc, cs), f, cs) && f.path.value.text != "" && f.opcode == REPLACE
    ensures Conforms(Execute(doc, f, cs), IndicesRight(doc, f, cs),
                     TakenResult(Meaning(doc, cs), f, cs), cs)
  {
    hide Keyed, Meaning, Split, ExecuteReplace, Conforms, TargetStraight, StandsOut, RfcReplace, TakenPath;
    ReplaceIsTaken(doc, f.path.value.text, f.value.value, cs);
  }

  lemma ExecuteMoveIsTaken(doc: Json, f: Fields, cs: bool)
    requires Keyed(doc, cs) && WellFormed(Meaning(doc, cs), f, cs) && f.path.value.text != "" && f.opcode == MOVE
    ensures Conforms(Execute(doc, f, cs), IndicesRight(doc, f, cs),
                     TakenResult(Meaning(doc, cs), f, cs), cs)
  {
    hide Keyed, Meaning, Split, TakenMove, ExecuteMove, Conforms, MovesStraight, StandsOut;
    MoveIsTaken(doc, f.path.value.text, f.from.value.text, cs);
  }

  lemma ExecuteCopyIsTaken(doc: Json, f: Fields, cs: bool)
    requires Keyed(doc, cs) && WellFormed(Meaning(doc, cs), f, cs) && f.path.value.text != "" && f.opcode == COPY
    ensures Conforms(Execute(doc, f, cs), IndicesRight(doc, f, cs),
                     TakenResult(Meaning(doc, cs), f, cs), cs)
  {
    hide Keyed, Meaning, Split, AddFound, ExecuteCopy, Conforms, Straight, TargetStraight, TakenPath, Nav;
    CopyIsTaken(doc, f.path.value.text, f.from.value.text, cs);
  }

  lemma ExecuteTestIsTaken(doc: Json, f: Fields, cs: bool)
    requires Keyed(doc, cs) && WellFormed(Meaning(doc, cs), f, cs) && f.opcode == TEST
    ensures var result, straight := Execute(doc, f, cs), IndicesRight(doc, f, cs);
      && Right(result, straight, TakenResult(Meaning(doc, cs), f, cs), cs)
      && (ComparesRight(Meaning(doc, cs), f, cs) ==>
            Conforms(result, straight, TakenResult(Meaning(doc, cs), f, cs), cs))
  {
    TestUnfolds(doc, f, cs);
    hide Keyed, Meaning, Split, ExecuteTest, Right, Conforms, Straight, OrdersAgree, Nav, Execute, TakenResult, IndicesRight;
    TestIsRfc(doc, f.path.value.text, f.value.value, cs);
  }

  lemma TestUnfolds(doc: Json, f: Fields, cs: bool)
    requires WellFormed(Meaning(doc, cs), f, cs) && f.opcode == TEST
    ensures var path, value := f.path.value.text, f.value.value;
      && Execute(doc, f, cs) == ExecuteTest(doc, path, Some(value), cs)
      && IndicesRight(doc, f, cs) == Straight(doc, path, cs)
      && TakenResult(Meaning(doc, cs), f, cs) == RfcApply(Meaning(doc, cs), Test(Split(path), Meaning(value, cs)), cs)
  {
    hide Meaning, Split, ExecuteTest, Straight, RfcApply, Keyed;
  }

  // ----- the operations one by one

  lemma DetachIsTaken(doc: Json, path: string, cs: bool)
    requires Keyed(doc, cs) && IsPointer(path) && path != "" && StandsOut(Meaning(doc, cs), Split(path), cs)
    ensures var d, v := DetachPath(doc, path, cs), Meaning(doc, cs);
      && RfcRemove(v, TakenPath(v, Split(path), cs), cs)
         == (if d.Some? && TargetStraight(doc, path, cs) then Some((Meaning(d.value.item, cs), Meaning(d.value.rest, cs)))
             else None)
      && (d.Some? && TargetStraight(doc, path, cs) ==> Keyed(d.value.item, cs) && Keyed(d.value.rest, cs))
  {
    DetachIsRemove(doc, path, cs);
    FoundIsTaken(doc, path, cs);
    hide *;
  }

  lemma RemoveIsTaken(doc: Json, path: string, cs: bool)
    requires Keyed(doc, cs) && IsPointer(path) && path != "" && StandsOut(Meaning(doc, cs), Split(path), cs)
    ensures var v := Meaning(doc, cs);
      Conforms(ExecuteRemove(doc, path, cs), TargetStraight(doc, path, cs),
               AfterRemoval(RfcRemove(v, TakenPath(v, Split(path), cs), cs)), cs)
  {
    hide Keyed, Meaning, Split, DetachPath, TargetStraight, RfcRemove, TakenPath, StandsOut, IsPointer;
    DetachIsTaken(doc, path, cs);
  }

  lemma ReplaceIsTaken(doc: Json, path: string, value: Json, cs: bool)
    requires Keyed(doc, cs) && Keyed(value, cs) && IsPointer(path) && path != ""
    requires StandsOut(Meaning(doc, cs), Split(path), cs)
    ensures Conforms(ExecuteReplace(doc, path, Some(value), cs), TargetStraight(doc, path, cs),
                     RfcReplace(Meaning(doc, cs), TakenPath(Meaning(doc, cs), Split(path), cs), Meaning(value, cs), cs), cs)
  {
    hide Keyed, Meaning, Split, RfcRemove, RfcAdd, RfcReplace, DetachPath, AddAtPath, TargetStraight, StandsOut,
      TakenPath, Nav, Put;
    var v, w := Meaning(doc, cs), Meaning(value, cs);
    EmptySplit(path);
    DetachIsTaken(doc, path, cs);
    var taken := TakenPath(v, Split(path), cs);
    TakenIsPath(v, Split(path), cs);
    ReplaceIsRemoveThenAdd(v, taken, w, cs);
    var d := DetachPath(doc, path, cs);
    if d.Some? && TargetStraight(doc, path, cs) {
      StillTaken(v, Split(path), cs);
      AddAtPathIsAdd(d.value.rest, path, value, cs);
    }
  }

  lemma TakenIsPath(v: Value, path: seq<string>, cs: bool)
    requires path != []
    ensures TakenPath(v, path, cs) != []
  {
  }

  /** After a removal the path is taken for the same location. */
  lemma StillTaken(v: Value, path: seq<string>, cs: bool)
    requires path != [] && RfcRemove(v, TakenPath(v, path, cs), cs).Some?
    ensures var rest := RfcRemove(v, TakenPath(v, path, cs), cs).value.1;
      TakenPath(rest, path, cs) == TakenPath(v, path, cs)
  {
    var p, t := path[..|path| - 1], path[|path| - 1];
    assert path == p + [t];
    TakenBelow(v, p, t, cs);
    var u := if Nav(v, p, cs).None? then t else Taken(Nav(v, p, cs).value, t);
    RemoveBelow(v, p, u, cs);
    var left := Without(Nav(v, p, cs).value, u, cs);
    PutLaws(v, p, left, left, cs);
    TakenBelow(Put(v, p, left, cs), p, t, cs);
  }

  lemma MoveIsTaken(doc: Json, path: string, from: string, cs: bool)
    requires Keyed(doc, cs) && IsPointer(path) && path != "" && IsPointer(from)
    requires StandsOut(Meaning(doc, cs), Split(from), cs)
    ensures Conforms(ExecuteMove(doc, path, Some(String(from)), cs), MovesStraight(doc, from, path, cs),
                     TakenMove(Meaning(doc, cs), Split(from), Split(path), cs), cs)
  {
    hide Keyed, Meaning, Split, RfcRemove, RfcAdd, DetachPath, AddAtPath, TargetStraight, StandsOut, TakenPath;
    EmptySplit(from);
    if from == "" {
      NothingDetached(doc, cs);
    } else {
      DetachIsTaken(doc, from, cs);
      var d := DetachPath(doc, from, cs);
      if d.Some? && TargetStraight(doc, from, cs) {
        AddAtPathIsAdd(d.value.rest, path, d.value.item, cs);
      }
    }
  }

  lemma NothingDetached(doc: Json, cs: bool)
    ensures DetachPath(doc, "", cs) == None
  {
    assert LastSlash("") == -1;
  }

  lemma CopyIsTaken(doc: Json, path: string, from: string, cs: bool)
    requires Keyed(doc, cs) && IsPointer(path) && path != "" && IsPointer(from)
    ensures var v := Meaning(doc, cs);
      Conforms(ExecuteCopy(doc, path, Some(String(from)), cs),
               Straight(doc, from, cs) && TargetStraight(doc, path, cs),
               AddFound(v, Nav(v, Split(from), cs), TakenPath(v, Split(path), cs), cs), cs)
  {
    hide Keyed, Meaning, Split, RfcAdd, Nav, Resolve, Straight, AddAtPath, TargetStraight, TakenPath, Has, At, IsPointer;
    ResolveIsNav(doc, from, cs);
    var pos := Resolve(doc, from, cs);
    if pos.Some? {
      ResolvedIsKeyed(doc, pos.value, cs);
      AddAtPathIsAdd(doc, path, At(doc, pos.value), cs);
    }
  }

  lemma TestIsRfc(doc: Json, path: string, value: Json, cs: bool)
    requires Keyed(doc, cs) && Keyed(value, cs) && IsPointer(path)
    ensures var result, v := ExecuteTest(doc, path, Some(value), cs), Meaning(doc, cs);
      var expected, found := RfcApply(v, Test(Split(path), Meaning(value, cs)), cs), Nav(v, Split(path), cs);
      && Right(result, Straight(doc, path, cs), expected, cs)
      && ((cs && found.Some? ==> OrdersAgree(found.value) && OrdersAgree(Meaning(value, cs))) ==>
            Conforms(result, Straight(doc, path, cs), expected, cs))
  {
    hide Resolve, Split, Keyed, Meaning, CompareJson, At, Nav, ExecuteTest, RfcApply, Has, Straight, OrdersAgree, Sortable,
      IsPointer;
    TestOfRfc(Meaning(doc, cs), Split(path), Meaning(value, cs), cs);
    StatusOfTest(doc, path, value, cs);
    TestKeepsMeaning(doc, path, Some(value), cs);
    ResolveIsNav(doc, path, cs);
    var pos := Resolve(doc, path, cs);
    if pos.Some? && Straight(doc, path, cs) {
      ResolvedIsKeyed(doc, pos.value, cs);
      ComparedRight(At(doc, pos.value), value, cs);
    }
  }

  lemma ComparedRight(found: Json, value: Json, cs: bool)
    requires Keyed(found, cs) && Keyed(value, cs)
    ensures CompareJson(found, value, cs) ==> Meaning(found, cs) == Meaning(value, cs)
    ensures (cs ==> OrdersAgree(Meaning(found, cs)) && OrdersAgree(Meaning(value, cs))) ==>
              (CompareJson(found, value, cs) <==> Meaning(found, cs) == Meaning(value, cs))
  {
    hide *;
    if CompareJson(found, value, cs) { EqualFoundIsEqual(found, value, cs); }
    if cs ==> OrdersAgree(Meaning(found, cs)) && OrdersAgree(Meaning(value, cs)) {
      OrdersAgreeIsSortable(found, cs);
      OrdersAgreeIsSortable(value, cs);
      CompareJsonIsEqualMeaning(found, value, cs);
    }
  }

  lemma TestOfRfc(v: Value, path: seq<string>, w: Value, cs: bool)
    ensures RfcApply(v, Test(path, w), cs) == if Nav(v, path, cs) == Some(w) then Some(v) else None
  {
  }

  lemma StatusOfTest(doc: Json, path: string, value: Json, cs: bool)
    ensures var pos := Resolve(doc, path, cs);
      ExecuteTest(doc, path, Some(value), cs).status
        == if pos.Some? && CompareJson(At(doc, pos.value), value, cs) then 0 else 1
  {
  }

  // ----- the operation of RFC 6902

  /** The last token of every path that names a member is decoded right. */
  ghost predicate TokensRight(v: Value, f: Fields, cs: bool) {
    && HasPointer(f.path)
    && var path := Split(f.path.value.text);
       match f.opcode
       case TEST => true
       case MOVE => HasPointer(f.from) && MoveDecodes(v, Split(f.from.value.text), path, cs)
       case _ => Decodes(v, path, cs)
  }

  ghost predicate MoveDecodes(v: Value, from: seq<string>, path: seq<string>, cs: bool) {
    && Decodes(v, from, cs)
    && var r := RfcRemove(v, from, cs);
       (r.Some? ==> Decodes(r.value.1, path, cs))
  }

  ghost function OperationOf(v: Value, f: Fields, cs: bool): Operation
    requires WellFormed(v, f, cs)
  {
    var path := Split(f.path.value.text);
    match f.opcode
    case ADD => Add(path, Meaning(f.value.value, cs))
    case REMOVE => Remove(path)
    case REPLACE => Replace(path, Meaning(f.value.value, cs))
    case MOVE => Move(Split(f.from.value.text), path)
    case COPY => Copy(Split(f.from.value.text), path)
    case TEST => Test(path, Meaning(f.value.value, cs))
  }

  /** What the RFC makes of the data. */
  ghost function RfcResult(v: Value, f: Fields, cs: bool): Option<Value>
    requires WellFormed(v, f, cs)
  {
    RfcApply(v, OperationOf(v, f, cs), cs)
  }

  /** Nothing is moved below itself. */
  ghost predicate MovesOut(f: Fields) {
    f.opcode == MOVE && HasPointer(f.path) && HasPointer(f.from) ==>
      !ProperPrefix(Split(f.from.value.text), Split(f.path.value.text))
  }

  /** The library stays on the path of the RFC. */
  ghost predicate GoesStraight(doc: Json, f: Fields, cs: bool) {
    IndicesRight(doc, f, cs) && MovesOut(f)
  }

  /** Section 4 of RFC 6902, for every operation: the library is right exactly when it reports an error, as
      the RFC then does, or goes straight, and then its document is the one the RFC asks for.  (Removing the
      root leaves an invalid item, which is no JSON document any more.)  Where keys are not sorted right, a
      test may fail although it should not; but it never succeeds wrongly. */
  lemma {:induction false} ApplyPatchIsRfc(doc: Json, patch: Json, cs: bool)
    requires Keyed(doc, cs) && WellFormed(Meaning(doc, cs), ReadPatch(patch, cs), cs)
    requires TokensRight(Meaning(doc, cs), ReadPatch(patch, cs), cs)
    ensures var f, v := ReadPatch(patch, cs), Meaning(doc, cs);
            var result, expected := ApplyPatch(doc, patch, cs), RfcResult(v, f, cs);
            var straight := GoesStraight(doc, f, cs);
            && Right(result, straight, expected, cs)
            && (ComparesRight(v, f, cs) ==>
                  && Conforms(result, straight, expected, cs)
                  && ((result.status == 0 <==> expected.Some?) <==> (result.status == 0 ==> straight)))
  {
    ApplyPatchIsTaken(doc, patch, cs);
    TakenIsRfc(Meaning(doc, cs), ReadPatch(patch, cs), cs);
    hide Keyed, Meaning, IndicesRight, ApplyPatch, TakenResult, RfcResult, WellFormed, TokensRight, ComparesRight,
      ReadPatch, MovesOut;
  }

  /** The two operations differ for moves of a value below itself only. */
  lemma TakenIsRfc(v: Value, f: Fields, cs: bool)
    requires WellFormed(v, f, cs) && TokensRight(v, f, cs)
    ensures RfcResult(v, f, cs) == if MovesOut(f) then TakenResult(v, f, cs) else None
  {
    var path := Split(f.path.value.text);
    match f.opcode
    case ADD => TakenAddIsRfc(v, path, f.value.value, cs);
    case REMOVE => TakenRemoveIsRfc(v, path, cs);
    case REPLACE => TakenReplaceIsRfc(v, path, f.value.value, cs);
    case MOVE => TakenMoveIsRfc(v, Split(f.from.value.text), path, cs);
    case COPY => TakenCopyIsRfc(v, Split(f.from.value.text), path, cs);
    case TEST =>
  }

  lemma TakenAddIsRfc(v: Value, path: seq<string>, value: Json, cs: bool)
    requires Decodes(v, path, cs) && forall t <- path :: '/' !in t
    ensures RfcApply(v, Add(path, Meaning(value, cs)), cs) == RfcAdd(v, TakenPath(v, path, cs), Meaning(value, cs), cs)
  {
    TakenRight(v, path, Meaning(value, cs), cs);
    hide Meaning, RfcAdd, TakenPath;
  }

  lemma TakenRemoveIsRfc(v: Value, path: seq<string>, cs: bool)
    requires Decodes(v, path, cs) && forall t <- path :: '/' !in t
    ensures RfcApply(v, Remove(path), cs) == AfterRemoval(RfcRemove(v, TakenPath(v, path, cs), cs))
  {
    TakenRight(v, path, VNull, cs);
    hide RfcRemove, TakenPath;
  }

  lemma TakenReplaceIsRfc(v: Value, path: seq<string>, value: Json, cs: bool)
    requires Decodes(v, path, cs) && forall t <- path :: '/' !in t
    ensures RfcApply(v, Replace(path, Meaning(value, cs)), cs)
         == RfcReplace(v, TakenPath(v, path, cs), Meaning(value, cs), cs)
  {
    TakenRight(v, path, Meaning(value, cs), cs);
    EmptyIsTaken(v, cs);
    hide Meaning, RfcReplace, TakenPath;
  }

  lemma TakenCopyIsRfc(v: Value, from: seq<string>, path: seq<string>, cs: bool)
    requires Decodes(v, path, cs) && forall t <- path :: '/' !in t
    ensures RfcApply(v, Copy(from, path), cs) == AddFound(v, Nav(v, from, cs), TakenPath(v, path, cs), cs)
  {
    var found := Nav(v, from, cs);
    hide *;
    TakenRight(v, path, if found.Some? then found.value else VNull, cs);
    CopyIsAddition(v, from, path, cs);
    FoundIsAdded(v, found, path, cs);
    FoundIsAdded(v, found, TakenPath(v, path, cs), cs);
  }

  lemma CopyIsAddition(v: Value, from: seq<string>, path: seq<string>, cs: bool)
    ensures RfcApply(v, Copy(from, path), cs) == AddFound(v, Nav(v, from, cs), path, cs)
  {
    hide Nav, AddFound;
  }

  lemma FoundIsAdded(v: Value, w: Option<Value>, path: seq<string>, cs: bool)
    ensures AddFound(v, w, path, cs) == if w.None? then None else RfcAdd(v, path, w.value, cs)
  {
    hide RfcAdd;
  }

  lemma EmptyIsTaken(v: Value, cs: bool)
    ensures TakenPath(v, [], cs) == []
  {
  }

  lemma TakenMoveIsRfc(v: Value, from: seq<string>, path: seq<string>, cs: bool)
    requires MoveDecodes(v, from, path, cs)
    requires (forall t <- from :: '/' !in t) && forall t <- path :: '/' !in t
    ensures RfcApply(v, Move(from, path), cs)
         == if ProperPrefix(from, path) then None else TakenMove(v, from, path, cs)
  {
    hide RfcAdd, RfcRemove, TakenPath, Decodes, ProperPrefix;
    TakenRight(v, from, VNull, cs);
    var r := RfcRemove(v, from, cs);
    if r.Some? { TakenRight(r.value.1, path, r.value.0, cs); }
  }

  // ----- where the library parts from RFC 6902

  /** An index that the RFC does not know is carried out: removing at "/" takes the first element. */
  lemma EmptyIndexIsRemoved(x: Json, cs: bool)
    ensures Execute(Array([x]), Fields(REMOVE, Some(String("/")), None, None), cs) == Outcome(0, Array([]))
    ensures RfcApply(Meaning(Array([x]), cs), Remove(Split("/")), cs) == None
  {
    var j := Array([x]);
    assert LastSlash("/") == 0 && "/"[..0] == "" && "/"[0 + 1..] == "";
    assert Resolve(j, "", cs) == Some([]) && DecodeInPlace("", 0, 0) == "";
    assert ChildToDetach(j, "") == Some(0) && RemoveAt([x], 0) == [];
    assert "/"[1..] == "" && FirstToken("/") == ("", "");
    SplitFirst("/");
    assert Split("/") == [""];
    assert [""][..0] == [] && Step(Meaning(j, cs), "", cs) == None;
  }

  /** A move below its own place is an error, but the library carries it out exactly when its two steps are
      possible one after the other: the removal, and an addition in the element that takes the removed
      one's place. */
  lemma MoveIntoItself(doc: Json, path: string, from: string, more: seq<string>, cs: bool)
    requires Keyed(doc, cs) && IsPointer(path) && IsPointer(from) && from != "" && more != []
    requires Split(path) == Split(from) + more && StandsOut(Meaning(doc, cs), Split(from), cs)
    requires MoveDecodes(Meaning(doc, cs), Split(from), Split(path), cs) && MovesStraight(doc, from, path, cs)
    ensures RfcMove(Meaning(doc, cs), Split(from), Split(path), cs) == None
    ensures ExecuteMove(doc, path, Some(String(from)), cs).status == 0 <==>
      RfcRemove(Meaning(doc, cs), Split(from), cs).Some? && NextTakesOver(Meaning(doc, cs), Split(from), more, cs)
  {
    EmptySplit(from);
    EmptySplit(path);
    assert Split(path)[..|Split(from)|] == Split(from);
    var v := Meaning(doc, cs);
    MoveIsTaken(doc, path, from, cs);
    hide Keyed, Meaning, RfcRemove, RfcAdd, StandsOut, Decodes, NextTakesOver, TakenPath, ExecuteMove, MovesStraight;
    TakenRight(v, Split(from), VNull, cs);
    var r := RfcRemove(v, Split(from), cs);
    if r.Some? {
      TakenRight(r.value.1, Split(path), r.value.0, cs);
      MovedBelowItself(v, Split(from), more, cs);
    }
  }

  /** For example, on `["x", {}]` the first element goes into the object. */
  lemma MoveIntoItselfHappens(cs: bool)
    ensures var doc := Array([String("x"), Object([])]);
      && ExecuteMove(doc, "/0/a", Some(String("/0")), cs) == Outcome(0, Array([Object([Member("a", String("x"))])]))
      && RfcMove(Meaning(doc, cs), Split("/0"), Split("/0/a"), cs) == None
  {
    var doc, rest := Array([String("x"), Object([])]), Array([Object([])]);
    DetachFirst(doc, cs);
    AddInFirst(rest, cs);
    PathsNest();
    hide DetachPath, AddAtPath, Split, Meaning;
  }

  lemma PathsNest()
    ensures ProperPrefix(Split("/0"), Split("/0/a"))
  {
    SplitAppend("", "0");
    SplitAppend("/0", "a");
    assert "" + "/" + "0" == "/0" && "/0" + "/" + "a" == "/0/a";
    hide Split;
    assert (Split("/0") + ["a"])[..|Split("/0")|] == Split("/0");
  }

  lemma DetachFirst(doc: Json, cs: bool)
    requires doc.Array? && |doc.items| == 2
    ensures DetachPath(doc, "/0", cs) == Some(Detached(doc.items[0], Array([doc.items[1]])))
  {
    assert "/0"[..1] == "/" && LastSlash("/0") == 0 && "/0"[..0] == "" && "/0"[0 + 1..] == "0";
    PlainIsDecodedInPlace("0", 0);
    assert "0"[1..] == "" && DecodeIndex("0") == Some(0);
    assert Resolve(doc, "", cs) == Some([]);
    assert RemoveAt(doc.items, 0) == [doc.items[1]];
  }

  lemma AddInFirst(rest: Json, cs: bool)
    requires rest == Array([Object([])])
    ensures AddAtPath(rest, "/0/a", String("x"), cs) == Outcome(0, Array([Object([Member("a", String("x"))])]))
  {
    var path := "/0/a";
    assert path[..3] == "/0/" && LastSlash(path) == 2 && path[..2] == "/0" && path[2 + 1..] == "a";
    PlainIsDecodedInPlace("a", 0);
    ResolvesToFirst(rest, cs);
    assert At(rest, [0]) == Object([]) && SetMember([], "a", String("x"), cs) == [Member("a", String("x"))];
    assert [Object([])][0 := Object([Member("a", String("x"))])] == [Object([Member("a", String("x"))])];
  }

  lemma ResolvesToFirst(j: Json, cs: bool)
    requires j.Array? && |j.items| == 1
    ensures Resolve(j, "/0", cs) == Some([0])
  {
    assert "/0"[1..] == "0" && "0"[1..] == "" && DecodeIndex("0") == Some(0);
    assert TokenEnd("0") == 1 && "0"[1..] == "" && Resolve(j.items[0], "", cs) == Some([]);
    assert [0] + [] == [0];
  }

  /** Moving or copying to the root never succeeds. */
  lemma NothingMovesToTheRoot(doc: Json, f: Fields, cs: bool)
    requires (f.opcode == MOVE || f.opcode == COPY) && f.path == Some(String(""))
    ensures Execute(doc, f, cs).status != 0
  {
    hide DetachPath, Resolve, AddDetached, AddResolved, Has;
    if HasText(f.from) {
      var from := f.from.value.text;
      AddedWithoutSlash(doc, DetachPath(doc, from, cs), cs);
      CopiedWithoutSlash(doc, Resolve(doc, from, cs), cs);
    }
  }

  lemma AddedWithoutSlash(doc: Json, detached: Option<Detached>, cs: bool)
    ensures AddDetached(doc, detached, "", cs).status != 0
  {
    assert LastSlash("") == -1;
  }

  lemma CopiedWithoutSlash(doc: Json, pos: Option<Position>, cs: bool)
    requires pos.Some? ==> Has(doc, pos.value)
    ensures AddResolved(doc, pos, "", cs).status != 0
  {
    assert LastSlash("") == -1;
  }
}
