/** A patch as RFC 6902 reads it: by the names of its members and of its operation. */
module PatchNames {
  import opened Text
  import opened Json
  import opened Compare
  import opened Pointer
  import opened PointerIndex
  import opened DataPath
  import opened Patch
  import opened PatchRfc

  /** The operation of section 4 of RFC 6902 that a name stands for, if it is the name of one. */
  function NamedOperation(op: string, path: seq<string>, from: seq<string>, value: Value): Option<Operation> {
    match op
    case "add" => Some(Add(path, value))
    case "remove" => Some(Remove(path))
    case "replace" => Some(Replace(path, value))
    case "move" => Some(Move(from, path))
    case "copy" => Some(Copy(from, path))
    case "test" => Some(Test(path, value))
    case _ => None
  }

  /** What the operations need of their locations: tokens that are decoded right, keys that stand out where one is
      removed, and a location below the root where the library knows nothing else. */
  ghost predicate LocationsFit(v: Value, o: Operation, cs: bool) {
    match o
    case Add(path, _) => Decodes(v, path, cs)
    case Remove(path) => path != [] && Decodes(v, path, cs) && StandsOut(v, path, cs)
    case Replace(path, _) => Decodes(v, path, cs) && StandsOut(v, path, cs)
    case Move(from, path) => path != [] && MoveDecodes(v, from, path, cs) && StandsOut(v, from, cs)
    case Copy(_, path) => path != [] && Decodes(v, path, cs)
    case Test(_, _) => true
  }

  /** The library misreads no index on the way, and nothing is moved below itself. */
  ghost predicate NamedStraight(doc: Json, o: Operation, path: string, from: string, cs: bool)
    requires IsPointer(path) && IsPointer(from)
  {
    match o
    case Test(_, _) => Straight(doc, path, cs)
    case Move(_, _) => MovesStraight(doc, from, path, cs) && !ProperPrefix(Split(from), Split(path))
    case Copy(_, _) => Straight(doc, from, cs) && TargetStraight(doc, path, cs)
    case _ => TargetStraight(doc, path, cs)
  }

  /** The members of a patch. */
  ghost predicate HasMembers(m: map<string, Value>, op: string, path: string, from: string) {
    && "op" in m && m["op"] == VString(op) && "path" in m && m["path"] == VString(path)
    && "from" in m && m["from"] == VString(from) && "value" in m
  }

  // ----- how the members are read

  lemma MemberIsRead(ms: seq<Member>, name: string, cs: bool)
    requires NoUpper(name) && KeyedMembers(ms, cs)
    ensures var m, item := MembersMeaning(ms, cs), GetObjectItem(Object(ms), name, cs);
      && (name in m <==> item.Some?)
      && (item.Some? ==> m[name] == Meaning(item.value, cs) && Keyed(item.value, cs))
  {
    hide Meaning, MembersMeaning, Keyed, Fold;
    FoldIsIdentity(name, cs);
    MeaningAtKey(ms, name, cs);
  }

  lemma OnlyStringsMeanStrings(j: Json, s: string, cs: bool)
    ensures Meaning(j, cs) == VString(s) <==> j == String(s)
  {
  }

  function CodeFor(op: string): Opcode {
    match op
    case "add" => ADD
    case "remove" => REMOVE
    case "replace" => REPLACE
    case "move" => MOVE
    case "copy" => COPY
    case "test" => TEST
    case _ => INVALID
  }

  /** Each of the six names has its own operation code, and no other string has one. */
  lemma CodeOfName(patch: Json, op: string, cs: bool)
    requires GetObjectItem(patch, "op", cs) == Some(String(op))
    ensures DecodeOperation(patch, cs) == CodeFor(op)
  {
    hide GetObjectItem;
  }

  lemma CodesOfNames()
    ensures CodeFor("add") == ADD && CodeFor("remove") == REMOVE && CodeFor("replace") == REPLACE
    ensures CodeFor("move") == MOVE && CodeFor("copy") == COPY && CodeFor("test") == TEST
  {
  }

  lemma CodeOfOperation(op: string, path: seq<string>, from: seq<string>, w: Value)
    ensures match NamedOperation(op, path, from, w)
            case None => CodeFor(op) == INVALID
            case Some(Add(p, x)) => CodeFor(op) == ADD && p == path && x == w
            case Some(Remove(p)) => CodeFor(op) == REMOVE && p == path
            case Some(Replace(p, x)) => CodeFor(op) == REPLACE && p == path && x == w
            case Some(Move(q, p)) => CodeFor(op) == MOVE && p == path && q == from
            case Some(Copy(q, p)) => CodeFor(op) == COPY && p == path && q == from
            case Some(Test(p, x)) => CodeFor(op) == TEST && p == path && x == w
  {
  }

  lemma ReadsAs(patch: Json, op: string, cs: bool)
    requires GetObjectItem(patch, "op", cs) == Some(String(op))
    ensures ReadPatch(patch, cs) == Fields(CodeFor(op), GetObjectItem(patch, "path", cs),
                                           GetObjectItem(patch, "value", cs), GetObjectItem(patch, "from", cs))
  {
    hide DecodeOperation, GetObjectItem, CodeFor;
    CodeOfName(patch, op, cs);
  }

  ghost predicate MembersRead(patch: Json, op: string, path: string, from: string, w: Value, cs: bool) {
    && GetObjectItem(patch, "op", cs) == Some(String(op)) && GetObjectItem(patch, "path", cs) == Some(String(path))
    && GetObjectItem(patch, "from", cs) == Some(String(from))
    && var value := GetObjectItem(patch, "value", cs);
       value.Some? && Meaning(value.value, cs) == w && Keyed(value.value, cs)
  }

  lemma MembersAreRead(patch: Json, op: string, path: string, from: string, cs: bool)
    requires patch.Object? && Keyed(patch, cs) && HasMembers(MembersMeaning(patch.members, cs), op, path, from)
    ensures MembersRead(patch, op, path, from, MembersMeaning(patch.members, cs)["value"], cs)
  {
    hide *;
    KeyedObject(patch, cs);
    NamesAreLower();
    MemberIsRead(patch.members, "op", cs);
    MemberIsRead(patch.members, "path", cs);
    MemberIsRead(patch.members, "from", cs);
    MemberIsRead(patch.members, "value", cs);
    MembersArePresent(MembersMeaning(patch.members, cs), op, path, from);
    OnlyStringsMeanStrings(GetObjectItem(patch, "op", cs).value, op, cs);
    OnlyStringsMeanStrings(GetObjectItem(patch, "path", cs).value, path, cs);
    OnlyStringsMeanStrings(GetObjectItem(patch, "from", cs).value, from, cs);
    assert patch == Object(patch.members);
    MembersReadIs(patch, op, path, from, MembersMeaning(patch.members, cs)["value"], cs);
  }

  lemma NamesAreLower()
    ensures NoUpper("op") && NoUpper("path") && NoUpper("from") && NoUpper("value")
  {
  }

  lemma MembersArePresent(m: map<string, Value>, op: string, path: string, from: string)
    requires HasMembers(m, op, path, from)
    ensures "op" in m && m["op"] == VString(op) && "path" in m && m["path"] == VString(path)
    ensures "from" in m && m["from"] == VString(from) && "value" in m
  {
  }

  lemma MembersReadIs(patch: Json, op: string, path: string, from: string, w: Value, cs: bool)
    requires GetObjectItem(patch, "op", cs) == Some(String(op)) && GetObjectItem(patch, "path", cs) == Some(String(path))
    requires GetObjectItem(patch, "from", cs) == Some(String(from))
    requires var value := GetObjectItem(patch, "value", cs);
      value.Some? && Meaning(value.value, cs) == w && Keyed(value.value, cs)
    ensures MembersRead(patch, op, path, from, w, cs)
  {
    hide GetObjectItem, Meaning, Keyed;
  }

  // ----- the operation is the one that is named

  /** The fields that stand for an operation. */
  ghost predicate StandsFor(f: Fields, o: Operation, path: string, from: string, cs: bool)
    requires IsPointer(path) && IsPointer(from)
  {
    && f.path == Some(String(path)) && f.from == Some(String(from)) && HasValue(f, cs)
    && match o
       case Add(p, w) => f.opcode == ADD && p == Split(path) && w == Meaning(f.value.value, cs)
       case Remove(p) => f.opcode == REMOVE && p == Split(path)
       case Replace(p, w) => f.opcode == REPLACE && p == Split(path) && w == Meaning(f.value.value, cs)
       case Move(q, p) => f.opcode == MOVE && p == Split(path) && q == Split(from)
       case Copy(q, p) => f.opcode == COPY && p == Split(path) && q == Split(from)
       case Test(p, w) => f.opcode == TEST && p == Split(path) && w == Meaning(f.value.value, cs)
  }

  lemma NameStands(patch: Json, op: string, path: string, from: string, w: Value, cs: bool)
    requires MembersRead(patch, op, path, from, w, cs) && IsPointer(path) && IsPointer(from)
    requires NamedOperation(op, Split(path), Split(from), w).Some?
    ensures StandsFor(ReadPatch(patch, cs), NamedOperation(op, Split(path), Split(from), w).value, path, from, cs)
  {
    hide ReadPatch, CodeFor, NamedOperation, GetObjectItem, Meaning, Keyed, Split, IsPointer;
    ReadsAs(patch, op, cs);
    CodeOfOperation(op, Split(path), Split(from), w);
  }

  lemma FieldsFit(v: Value, f: Fields, o: Operation, path: string, from: string, cs: bool)
    requires IsPointer(path) && IsPointer(from) && StandsFor(f, o, path, from, cs) && LocationsFit(v, o, cs)
    ensures WellFormed(v, f, cs) && TokensRight(v, f, cs) && OperationOf(v, f, cs) == o
  {
    hide Meaning, Keyed, Split, StandsOut, Decodes, MoveDecodes, IsPointer;
  }

  lemma GoesAsNamed(doc: Json, f: Fields, o: Operation, path: string, from: string, cs: bool)
    requires IsPointer(path) && IsPointer(from) && StandsFor(f, o, path, from, cs)
    ensures GoesStraight(doc, f, cs) == NamedStraight(doc, o, path, from, cs)
  {
    hide Meaning, Keyed, Split, MovesStraight, Straight, TargetStraight, ProperPrefix, IsPointer;
  }

  /** Sorting by the flag comes out right for what a test compares. */
  ghost predicate TestSorts(v: Value, o: Operation, cs: bool) {
    cs && o.Test? && Nav(v, o.path, cs).Some? ==> OrdersAgree(Nav(v, o.path, cs).value) && OrdersAgree(o.value)
  }

  /** A patch with all members does what RFC 6902 makes of the operation that its "op" names, with the values of its
      "path", "from" and "value"; any other name has status 3 and changes nothing. */
  lemma PatchIsNamed(doc: Json, patch: Json, op: string, path: string, from: string, cs: bool)
    requires Keyed(doc, cs) && patch.Object? && Keyed(patch, cs)
    requires HasMembers(MembersMeaning(patch.members, cs), op, path, from) && IsPointer(path) && IsPointer(from)
    ensures var v, w := Meaning(doc, cs), MembersMeaning(patch.members, cs)["value"];
      var o, result := NamedOperation(op, Split(path), Split(from), w), ApplyPatch(doc, patch, cs);
      && (o.None? ==> result == Outcome(3, doc))
      && (o.Some? && LocationsFit(v, o.value, cs) ==>
            var expected, straight := RfcApply(v, o.value, cs), NamedStraight(doc, o.value, path, from, cs);
            && Right(result, straight, expected, cs)
            && (TestSorts(v, o.value, cs) ==> Conforms(result, straight, expected, cs)))
  {
    MembersArePresent(MembersMeaning(patch.members, cs), op, path, from);
    hide *;
    var w := MembersMeaning(patch.members, cs)["value"];
    MembersAreRead(patch, op, path, from, cs);
    var o := NamedOperation(op, Split(path), Split(from), w);
    if o.None? {
      UnknownName(doc, patch, op, path, from, w, cs);
    } else if LocationsFit(Meaning(doc, cs), o.value, cs) {
      NameStands(patch, op, path, from, w, cs);
      FieldsFit(Meaning(doc, cs), ReadPatch(patch, cs), o.value, path, from, cs);
      GoesAsNamed(doc, ReadPatch(patch, cs), o.value, path, from, cs);
      ApplyPatchIsRfc(doc, patch, cs);
      ResultIsApply(Meaning(doc, cs), ReadPatch(patch, cs), cs);
      TestIsCompared(Meaning(doc, cs), ReadPatch(patch, cs), o.value, path, from, cs);
    }
  }

  lemma ResultIsApply(v: Value, f: Fields, cs: bool)
    requires WellFormed(v, f, cs)
    ensures RfcResult(v, f, cs) == RfcApply(v, OperationOf(v, f, cs), cs)
  {
    hide WellFormed, RfcApply, OperationOf;
  }

  lemma TestIsCompared(v: Value, f: Fields, o: Operation, path: string, from: string, cs: bool)
    requires IsPointer(path) && IsPointer(from) && StandsFor(f, o, path, from, cs)
    ensures TestSorts(v, o, cs) ==> ComparesRight(v, f, cs)
  {
    hide Meaning, Keyed, Split, Nav, OrdersAgree;
  }

  lemma UnknownName(doc: Json, patch: Json, op: string, path: string, from: string, w: Value, cs: bool)
    requires MembersRead(patch, op, path, from, w, cs) && IsPointer(path) && IsPointer(from)
    requires NamedOperation(op, Split(path), Split(from), w).None?
    ensures ApplyPatch(doc, patch, cs) == Outcome(3, doc)
  {
    hide ReadPatch, CodeFor, NamedOperation, GetObjectItem, Meaning, Keyed, Split;
    ReadsAs(patch, op, cs);
    CodeOfOperation(op, Split(path), Split(from), w);
  }

  // ----- status codes

  /** A patch without a path, or with one that is no string, is refused first; then one whose operation has no
      name. */
  lemma NothingNamed(doc: Json, patch: Json, cs: bool)
    requires patch.Object? && Keyed(patch, cs)
    ensures var m, result := MembersMeaning(patch.members, cs), ApplyPatch(doc, patch, cs);
      && (!("path" in m && m["path"].VString?) ==> result == Outcome(2, doc))
      && ("path" in m && m["path"].VString? && !("op" in m && m["op"].VString?) ==> result == Outcome(3, doc))
  {
    KeyedObject(patch, cs);
    NamesAreLower();
    hide *;
    assert patch == Object(patch.members);
    MemberIsRead(patch.members, "op", cs);
    MemberIsRead(patch.members, "path", cs);
    WithoutName(doc, patch, cs);
    StringKind(GetObjectItem(patch, "op", cs), cs);
    StringKind(GetObjectItem(patch, "path", cs), cs);
  }

  lemma WithoutName(doc: Json, patch: Json, cs: bool)
    ensures var op, path := GetObjectItem(patch, "op", cs), GetObjectItem(patch, "path", cs);
      && (!(path.Some? && path.value.String?) ==> ApplyPatch(doc, patch, cs) == Outcome(2, doc))
      && (path.Some? && path.value.String? && !(op.Some? && op.value.String?) ==>
            ApplyPatch(doc, patch, cs) == Outcome(3, doc))
  {
    hide GetObjectItem;
  }

  lemma StringKind(j: Option<Json>, cs: bool)
    ensures j.Some? ==> (Meaning(j.value, cs).VString? <==> j.value.String?)
  {
  }

  /** What is missing decides the status of an operation below the root. */
  lemma WhatIsMissing(doc: Json, patch: Json, op: string, path: string, cs: bool)
    requires GetObjectItem(patch, "op", cs) == Some(String(op)) && GetObjectItem(patch, "path", cs) == Some(String(path))
    requires path != ""
    ensures var from, value := GetObjectItem(patch, "from", cs), GetObjectItem(patch, "value", cs);
      var result := ApplyPatch(doc, patch, cs);
      && ((op == "remove" || op == "replace") && DetachPath(doc, path, cs).None? ==> result == Outcome(13, doc))
      && (op == "add" && value.None? ==> result == Outcome(7, doc))
      && (op == "replace" && DetachPath(doc, path, cs).Some? && value.None? ==> result.status == 7)
      && ((op == "move" || op == "copy") && from.None? ==> result == Outcome(4, doc))
      && (op == "move" && HasText(from) && DetachPath(doc, from.value.text, cs).None? ==>
            result == Outcome(5, doc))
      && (op == "copy" && HasText(from) && Resolve(doc, from.value.text, cs).None? ==>
            result == Outcome(5, doc))
      && (op == "test" && (value.None? || Resolve(doc, path, cs).None?) ==> result == Outcome(1, doc))
  {
    hide *;
    CodesOfNames();
    ReadsAs(patch, op, cs);
    ApplyIsExecute(doc, patch, cs);
    WithoutTarget(doc, ReadPatch(patch, cs), path, cs);
    WithoutSource(doc, ReadPatch(patch, cs), path, cs);
  }

  lemma ApplyIsExecute(doc: Json, patch: Json, cs: bool)
    ensures ApplyPatch(doc, patch, cs) == Execute(doc, ReadPatch(patch, cs), cs)
  {
  }

  lemma WithoutTarget(doc: Json, f: Fields, path: string, cs: bool)
    requires f.path == Some(String(path)) && path != ""
    ensures var result := Execute(doc, f, cs);
      && ((f.opcode == REMOVE || f.opcode == REPLACE) && DetachPath(doc, path, cs).None? ==> result == Outcome(13, doc))
      && (f.opcode == ADD && f.value.None? ==> result == Outcome(7, doc))
      && (f.opcode == REPLACE && DetachPath(doc, path, cs).Some? && f.value.None? ==> result.status == 7)
      && (f.opcode == TEST && (f.value.None? || Resolve(doc, path, cs).None?) ==> result == Outcome(1, doc))
  {
    hide DetachPath, Resolve, AddAtPath, CompareJson, AfterCompare, PutAt, ExecuteMove, ExecuteCopy;
  }

  lemma WithoutSource(doc: Json, f: Fields, path: string, cs: bool)
    requires f.path == Some(String(path)) && path != ""
    ensures var result := Execute(doc, f, cs);
      && ((f.opcode == MOVE || f.opcode == COPY) && f.from.None? ==> result == Outcome(4, doc))
      && (f.opcode == MOVE && HasText(f.from) && DetachPath(doc, f.from.value.text, cs).None? ==> result == Outcome(5, doc))
      && (f.opcode == COPY && HasText(f.from) && Resolve(doc, f.from.value.text, cs).None? ==> result == Outcome(5, doc))
  {
    hide DetachPath, Resolve, AddAtPath, ExecuteTest, ExecuteReplace, ExecuteRemove, ExecuteAdd, ReplaceRoot, Has, At;
  }

  /** Where a value can be put: the status of an addition on a straight path. */
  lemma StatusOfAddition(doc: Json, path: string, value: Json, cs: bool)
    requires Keyed(doc, cs) && IsPointer(path) && path != "" && TargetStraight(doc, path, cs)
    ensures var tokens, status := Split(path), AddAtPath(doc, path, value, cs).status;
      && tokens != []
      && var t, parent := tokens[|tokens| - 1], Nav(Meaning(doc, cs), tokens[..|tokens| - 1], cs);
         status == match parent {
                   case Some(VObject(_)) => 0
                   case Some(VArray(items)) =>
                     if t == "-" then 0
                     else if ArrayIndex(t).None? then 11
                     else if ArrayIndex(t).value > |items| then 10
                     else 0
                   case _ => 9
                   }
  {
    hide *;
    LastSlashSplits(path);
    PathParts(doc, path, value, cs);
    var p, t := path[..LastSlash(path)], path[LastSlash(path) + 1..];
    assert (Split(p) + [t])[..|Split(p)|] == Split(p);
    ResolveIsNav(doc, p, cs);
    LastMisreadIsNoIndex(t);
    StatusOfChild(doc, p, t, value, cs);
  }

  lemma StatusOfChild(doc: Json, p: string, t: string, value: Json, cs: bool)
    requires Keyed(doc, cs) && IsPointer(p) && '/' !in t && ParentStraight(doc, p, t, cs)
    ensures var parent := Nav(Meaning(doc, cs), Split(p), cs);
      AddChild(doc, p, DecodeInPlace(t, 0, 0), value, cs).status
      == match parent {
         case Some(VObject(_)) => 0
         case Some(VArray(items)) =>
           if t == "-" then 0
           else if ArrayIndex(t).None? then 11
           else if ArrayIndex(t).value > |items| then 10
           else 0
         case _ => 9
         }
  {
    hide Meaning, Keyed, Nav, Split, Resolve, DecodeInPlace, DecodeIndex, ArrayIndex, At, PutAt, Has, Straight, LastMisread,
      IsPointer, AddUnderParent;
    ResolveIsNav(doc, p, cs);
    LastMisreadIsNoIndex(t);
    var pos := Resolve(doc, p, cs);
    if pos.Some? {
      MeaningKind(At(doc, pos.value), cs);
      StatusUnderParent(doc, pos.value, DecodeInPlace(t, 0, 0), value, cs);
    }
  }

  lemma StatusUnderParent(doc: Json, pos: Position, child: string, value: Json, cs: bool)
    requires Has(doc, pos)
    ensures AddUnderParent(doc, pos, child, value, cs).status
         == match At(doc, pos) {
            case Object(_) => 0
            case Array(items) =>
              if child == "-" then 0
              else if DecodeIndex(child).None? then 11
              else if DecodeIndex(child).value > |items| then 10
              else 0
            case _ => 9
            }
  {
    hide DecodeIndex, SetMember, PutAt, At, Has;
  }

  lemma MeaningKind(j: Json, cs: bool)
    ensures match j {
            case Array(items) => Meaning(j, cs).VArray? && |Meaning(j, cs).items| == |items|
            case Object(_) => Meaning(j, cs).VObject?
            case _ => !Meaning(j, cs).VArray? && !Meaning(j, cs).VObject?
            }
  {
  }
}
