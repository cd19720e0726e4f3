/** Locations inside JSON data (sections 4 of RFC 6901 and 4 of RFC 6902), on values. */
module DataPath {
  import opened Text
  import opened Sequences
  import opened Json
  import opened Pointer
  import opened PointerIndex

  /** The child that one reference token names. */
  function Step(v: Value, token: string, cs: bool): Option<Value> {
    match v
    case VArray(items) =>
      var i := ArrayIndex(token);
      if i.Some? && i.value < |items| then Some(items[i.value]) else None
    case VObject(ms) =>
      var k := Unescape(token);
      if k.Some? && Fold(k.value, cs) in ms then Some(ms[Fold(k.value, cs)]) else None
    case _ => None
  }

  function PutChild(v: Value, token: string, w: Value, cs: bool): Value
    requires Step(v, token, cs).Some?
  {
    match v
    case VArray(items) => VArray(items[ArrayIndex(token).value := w])
    case VObject(ms) => VObject(ms[Fold(Unescape(token).value, cs) := w])
  }

  function Nav(v: Value, path: seq<string>, cs: bool): Option<Value>
    decreases |path|
  {
    if path == [] then Some(v)
    else
      var child := Step(v, path[0], cs);
      if child.None? then None else Nav(child.value, path[1..], cs)
  }

  function Put(v: Value, path: seq<string>, w: Value, cs: bool): Value
    requires Nav(v, path, cs).Some?
    decreases |path|
  {
    if path == [] then w
    else PutChild(v, path[0], Put(Step(v, path[0], cs).value, path[1..], w, cs), cs)
  }

  // ----- the operations of RFC 6902

  /** Section 4.2: the removed value and the document without it. */
  function RfcRemove(v: Value, path: seq<string>, cs: bool): Option<(Value, Value)> {
    if path == [] then Some((v, VInvalid))
    else
      var parent := Nav(v, path[..|path| - 1], cs);
      if parent.None? then None
      else
        var child := Step(parent.value, path[|path| - 1], cs);
        if child.None? then None
        else Some((child.value, Put(v, path[..|path| - 1], Without(parent.value, path[|path| - 1], cs), cs)))
  }

  function Without(v: Value, token: string, cs: bool): Value
    requires Step(v, token, cs).Some?
  {
    match v
    case VArray(items) => VArray(RemoveAt(items, ArrayIndex(token).value))
    case VObject(ms) => VObject(ms - {Fold(Unescape(token).value, cs)})
  }

  /** Section 4.1: "-" is the position after the last array element. */
  function RfcAdd(v: Value, path: seq<string>, w: Value, cs: bool): Option<Value> {
    if path == [] then Some(w)
    else
      var parent := Nav(v, path[..|path| - 1], cs);
      if parent.None? then None
      else
        var bigger := With(parent.value, path[|path| - 1], w, cs);
        if bigger.None? then None
        else Some(Put(v, path[..|path| - 1], bigger.value, cs))
  }

  function With(v: Value, token: string, w: Value, cs: bool): Option<Value> {
    match v
    case VArray(items) =>
      if token == "-" then Some(VArray(items + [w]))
      else
        var i := ArrayIndex(token);
        if i.Some? && i.value <= |items| then Some(VArray(InsertAt(items, i.value, w))) else None
    case VObject(ms) =>
      var k := Unescape(token);
      if k.None? then None else Some(VObject(ms[Fold(k.value, cs) := w]))
    case _ => None
  }

  /** Section 4.3: the target location must exist, and its value is replaced. */
  function RfcReplace(v: Value, path: seq<string>, w: Value, cs: bool): Option<Value> {
    if Nav(v, path, cs).None? then None else Some(Put(v, path, w, cs))
  }

  /** Section 4.4: a removal followed by an addition; nothing moves into itself, and the whole document not
      at all. */
  function RfcMove(v: Value, from: seq<string>, path: seq<string>, cs: bool): Option<Value> {
    if from == [] || ProperPrefix(from, path) then None else AddRemoved(RfcRemove(v, from, cs), path, cs)
  }

  predicate ProperPrefix(p: seq<string>, q: seq<string>) {
    |p| < |q| && q[..|p|] == p
  }

  function AddRemoved(r: Option<(Value, Value)>, path: seq<string>, cs: bool): Option<Value> {
    if r.None? then None else RfcAdd(r.value.1, path, r.value.0, cs)
  }

  /** Section 4.5. */
  function RfcCopy(v: Value, from: seq<string>, path: seq<string>, cs: bool): Option<Value> {
    AddFound(v, Nav(v, from, cs), path, cs)
  }

  function AddFound(v: Value, w: Option<Value>, path: seq<string>, cs: bool): Option<Value> {
    if w.None? then None else RfcAdd(v, path, w.value, cs)
  }

  datatype Operation =
    | Add(path: seq<string>, value: Value)
    | Remove(path: seq<string>)
    | Replace(path: seq<string>, value: Value)
    | Move(from: seq<string>, path: seq<string>)
    | Copy(from: seq<string>, path: seq<string>)
    | Test(path: seq<string>, value: Value)

  /** The document after one operation; `None` when the operation is in error. */
  function RfcApply(v: Value, op: Operation, cs: bool): Option<Value> {
    match op
    case Add(path, w) => RfcAdd(v, path, w, cs)
    case Remove(path) =>
      var r := RfcRemove(v, path, cs);
      if r.None? then None else Some(r.value.1)
    case Replace(path, w) => RfcReplace(v, path, w, cs)
    case Move(from, path) => RfcMove(v, from, path, cs)
    case Copy(from, path) => RfcCopy(v, from, path, cs)
    case Test(path, w) =>
      if Nav(v, path, cs) == Some(w) then Some(v) else None
  }

  // ----- laws

  lemma RemoveBelow(v: Value, p: seq<string>, t: string, cs: bool)
    ensures Nav(v, p, cs).None? || Step(Nav(v, p, cs).value, t, cs).None? ==> RfcRemove(v, p + [t], cs).None?
    ensures Nav(v, p, cs).Some? && Step(Nav(v, p, cs).value, t, cs).Some? ==>
              RfcRemove(v, p + [t], cs) == Some((Step(Nav(v, p, cs).value, t, cs).value,
                                                 Put(v, p, Without(Nav(v, p, cs).value, t, cs), cs)))
  {
    assert (p + [t])[..|p + [t]| - 1] == p;
  }

  lemma AddBelow(v: Value, p: seq<string>, t: string, w: Value, cs: bool)
    ensures Nav(v, p, cs).None? || With(Nav(v, p, cs).value, t, w, cs).None? ==> RfcAdd(v, p + [t], w, cs).None?
    ensures Nav(v, p, cs).Some? && With(Nav(v, p, cs).value, t, w, cs).Some? ==>
              RfcAdd(v, p + [t], w, cs) == Some(Put(v, p, With(Nav(v, p, cs).value, t, w, cs).value, cs))
  {
    assert (p + [t])[..|p + [t]| - 1] == p;
  }

  lemma {:induction false} NavAppend(v: Value, p: seq<string>, t: string, cs: bool)
    ensures Nav(v, p + [t], cs) == if Nav(v, p, cs).None? then None else Step(Nav(v, p, cs).value, t, cs)
    decreases |p|
  {
    if p == [] {
      assert p + [t] == [t];
      assert [t][1..] == [];
    } else {
      assert (p + [t])[1..] == p[1..] + [t];
      if Step(v, p[0], cs).Some? {
        NavAppend(Step(v, p[0], cs).value, p[1..], t, cs);
      }
    }
  }

  lemma StepPut(v: Value, t: string, w: Value, x: Value, cs: bool)
    requires Step(v, t, cs).Some?
    ensures Step(PutChild(v, t, w, cs), t, cs) == Some(w)
    ensures PutChild(v, t, Step(v, t, cs).value, cs) == v
    ensures PutChild(PutChild(v, t, w, cs), t, x, cs) == PutChild(v, t, x, cs)
  {
  }

  /** What was put is found there, putting twice is putting the last, and putting back what is
      there changes nothing. */
  lemma {:induction false} PutLaws(v: Value, p: seq<string>, w: Value, x: Value, cs: bool)
    requires Nav(v, p, cs).Some?
    ensures Nav(Put(v, p, w, cs), p, cs) == Some(w)
    ensures Put(Put(v, p, w, cs), p, x, cs) == Put(v, p, x, cs)
    ensures Put(v, p, Nav(v, p, cs).value, cs) == v
    decreases |p|
  {
    if p != [] {
      var child := Step(v, p[0], cs).value;
      PutLaws(child, p[1..], w, x, cs);
      StepPut(v, p[0], Put(child, p[1..], w, cs), Put(child, p[1..], x, cs), cs);
      assert Step(Put(v, p, w, cs), p[0], cs) == Some(Put(child, p[1..], w, cs));
    }
  }

  lemma {:induction false} PutAppend(v: Value, p: seq<string>, t: string, w: Value, cs: bool)
    requires Nav(v, p + [t], cs).Some?
    ensures Nav(v, p, cs).Some? && Step(Nav(v, p, cs).value, t, cs).Some?
    ensures Put(v, p + [t], w, cs) == Put(v, p, PutChild(Nav(v, p, cs).value, t, w, cs), cs)
    decreases |p|
  {
    NavAppend(v, p, t, cs);
    if p == [] {
      assert p + [t] == [t];
      assert [t][1..] == [];
    } else {
      assert (p + [t])[1..] == p[1..] + [t];
      PutAppend(Step(v, p[0], cs).value, p[1..], t, w, cs);
    }
  }

  /** Replacing is removing and adding at the same place, for existing locations. */
  lemma ReplaceIsRemoveThenAdd(v: Value, path: seq<string>, w: Value, cs: bool)
    requires path != []
    ensures RfcReplace(v, path, w, cs).Some? <==> RfcRemove(v, path, cs).Some?
    ensures RfcRemove(v, path, cs).Some? ==>
              RfcAdd(RfcRemove(v, path, cs).value.1, path, w, cs) == RfcReplace(v, path, w, cs)
  {
    var p, t := path[..|path| - 1], path[|path| - 1];
    assert path == p + [t];
    NavAppend(v, p, t, cs);
    if RfcRemove(v, path, cs).Some? {
      PutAppend(v, p, t, w, cs);
      var parent := Nav(v, p, cs).value;
      PutLaws(v, p, Without(parent, t, cs), PutChild(parent, t, w, cs), cs);
      WithoutWith(parent, t, w, cs);
    }
  }

  lemma WithoutWith(v: Value, t: string, w: Value, cs: bool)
    requires Step(v, t, cs).Some?
    ensures With(Without(v, t, cs), t, w, cs) == Some(PutChild(v, t, w, cs))
  {
    match v
    case VArray(items) =>
      var i := ArrayIndex(t).value;
      assert ArrayIndex("-").None?;
      assert InsertAt(RemoveAt(items, i), i, w) == items[i := w];
    case VObject(ms) =>
      var k := Fold(Unescape(t).value, cs);
      assert (ms - {k})[k := w] == ms[k := w];
    case _ =>
  }

  // ----- a value moved below its own place

  /** The removed value's place is taken by another element, and the rest of the path can be added there. */
  ghost predicate NextTakesOver(v: Value, from: seq<string>, more: seq<string>, cs: bool)
    requires from != [] && RfcRemove(v, from, cs).Some?
  {
    var parent, i := Nav(v, from[..|from| - 1], cs).value, ArrayIndex(from[|from| - 1]);
    && parent.VArray? && i.value + 1 < |parent.items|
    && RfcAdd(parent.items[i.value + 1], more, RfcRemove(v, from, cs).value.0, cs).Some?
  }

  /** A move below its own place goes on to the element that takes the place of the removed one: the
      removal and the addition are possible one after the other exactly if there is one and it takes the
      rest of the path. */
  lemma MovedBelowItself(v: Value, from: seq<string>, more: seq<string>, cs: bool)
    requires from != [] && more != [] && RfcRemove(v, from, cs).Some?
    ensures var (w, rest) := RfcRemove(v, from, cs).value;
            RfcAdd(rest, from + more, w, cs).Some? <==> NextTakesOver(v, from, more, cs)
  {
    var p, t := from[..|from| - 1], from[|from| - 1];
    var parent := Nav(v, p, cs).value;
    var w := Step(parent, t, cs).value;
    var left := Without(parent, t, cs);
    var rest := Put(v, p, left, cs);
    PutLaws(v, p, left, left, cs);
    assert from == p + [t] && from + more == p + ([t] + more);
    AddFurther(rest, p, [t] + more, w, cs);
    assert ([t] + more)[1..] == more;
    AddFurther(left, [t], more, w, cs);
    NavAppend(left, [], t, cs);
    assert [] + [t] == [t];
    if parent.VArray? {
      var i, items := ArrayIndex(t).value, parent.items;
      assert Step(left, t, cs) == if i + 1 < |items| then Some(items[i + 1]) else None;
    }
  }

  /** Adding at a longer path is adding in what its beginning leads to. */
  lemma AddFurther(v: Value, p: seq<string>, more: seq<string>, w: Value, cs: bool)
    requires more != []
    ensures RfcAdd(v, p + more, w, cs).Some? <==> Nav(v, p, cs).Some? && RfcAdd(Nav(v, p, cs).value, more, w, cs).Some?
  {
    var q := p + more;
    assert q[..|q| - 1] == p + more[..|more| - 1] && q[|q| - 1] == more[|more| - 1];
    NavFurther(v, p, more[..|more| - 1], cs);
  }

  lemma {:induction false} NavFurther(v: Value, p: seq<string>, q: seq<string>, cs: bool)
    ensures Nav(v, p + q, cs) == if Nav(v, p, cs).None? then None else Nav(Nav(v, p, cs).value, q, cs)
    decreases |p|
  {
    if p == [] {
      assert p + q == q;
    } else {
      assert (p + q)[1..] == p[1..] + q;
      if Step(v, p[0], cs).Some? {
        NavFurther(Step(v, p[0], cs).value, p[1..], q, cs);
      }
    }
  }

  // ----- what the library takes the last token of a path for

  /** In an object, the in-place decoder's text is the key. */
  function Taken(parent: Value, t: string): string {
    if parent.VObject? then TokenOf(DecodeInPlace(t, 0, 0)) else t
  }

  function TakenPath(v: Value, path: seq<string>, cs: bool): seq<string> {
    if path == [] || Nav(v, path[..|path| - 1], cs).None? then path
    else path[..|path| - 1] + [Taken(Nav(v, path[..|path| - 1], cs).value, path[|path| - 1])]
  }

  lemma TakenBelow(v: Value, p: seq<string>, t: string, cs: bool)
    ensures TakenPath(v, p + [t], cs)
         == p + [if Nav(v, p, cs).None? then t else Taken(Nav(v, p, cs).value, t)]
  {
    assert (p + [t])[..|p + [t]| - 1] == p;
  }

  /** The token is taken for the key it stands for. */
  predicate KeyDecodes(parent: Value, t: string) {
    parent.VObject? ==> Unescape(t).Some? && SurvivesInPlace(t, 0, 0)
  }

  ghost predicate Decodes(v: Value, path: seq<string>, cs: bool) {
    path != [] && Nav(v, path[..|path| - 1], cs).Some? ==>
      KeyDecodes(Nav(v, path[..|path| - 1], cs).value, path[|path| - 1])
  }

  /** No other key differs from this one in letter case only: members are removed without regard to case. */
  ghost predicate KeyStandsOut(parent: Value, key: string, cs: bool) {
    parent.VObject? ==> forall k <- parent.members :: Lower(k) == Lower(key) ==> k == Fold(key, cs)
  }

  ghost predicate StandsOut(v: Value, path: seq<string>, cs: bool) {
    path != [] && Nav(v, path[..|path| - 1], cs).Some? ==>
      KeyStandsOut(Nav(v, path[..|path| - 1], cs).value, DecodeInPlace(path[|path| - 1], 0, 0), cs)
  }

  lemma ParentDecides(v: Value, p: seq<string>, t: string, cs: bool)
    ensures StandsOut(v, p + [t], cs)
        <==> (Nav(v, p, cs).Some? ==> KeyStandsOut(Nav(v, p, cs).value, DecodeInPlace(t, 0, 0), cs))
    ensures Decodes(v, p + [t], cs) <==> (Nav(v, p, cs).Some? ==> KeyDecodes(Nav(v, p, cs).value, t))
  {
    assert (p + [t])[..|p + [t]| - 1] == p;
  }

  /** A token that is decoded right is taken for what it stands for. */
  lemma TakenRight(v: Value, path: seq<string>, w: Value, cs: bool)
    requires Decodes(v, path, cs) && forall t <- path :: '/' !in t
    ensures RfcAdd(v, TakenPath(v, path, cs), w, cs) == RfcAdd(v, path, w, cs)
    ensures RfcRemove(v, TakenPath(v, path, cs), cs) == RfcRemove(v, path, cs)
    ensures path != [] ==> RfcReplace(v, TakenPath(v, path, cs), w, cs) == RfcReplace(v, path, w, cs)
  {
    if path != [] {
      var p, t := path[..|path| - 1], path[|path| - 1];
      assert path == p + [t] && t in path;
      TakenBelow(v, p, t, cs);
      ParentDecides(v, p, t, cs);
      var u := if Nav(v, p, cs).None? then t else Taken(Nav(v, p, cs).value, t);
      hide TakenPath, Decodes, RfcReplace, RfcAdd, RfcRemove;
      if Nav(v, p, cs).Some? { SameChild(Nav(v, p, cs).value, t, w, cs); }
      AddBelow(v, p, t, w, cs);
      AddBelow(v, p, u, w, cs);
      RemoveBelow(v, p, t, cs);
      RemoveBelow(v, p, u, cs);
      ReplaceIsRemoveThenAdd(v, path, w, cs);
      ReplaceIsRemoveThenAdd(v, p + [u], w, cs);
      if RfcRemove(v, path, cs).Some? {
        var rest := RfcRemove(v, path, cs).value.1;
        PutLaws(v, p, Without(Nav(v, p, cs).value, t, cs), w, cs);
        AddBelow(rest, p, t, w, cs);
        AddBelow(rest, p, u, w, cs);
        SameChild(Without(Nav(v, p, cs).value, t, cs), t, w, cs);
      }
    }
  }

  lemma SameChild(parent: Value, t: string, w: Value, cs: bool)
    requires KeyDecodes(parent, t) && '/' !in t
    ensures var u := Taken(parent, t);
      && Step(parent, u, cs) == Step(parent, t, cs) && With(parent, u, w, cs) == With(parent, t, w, cs)
      && (Step(parent, t, cs).Some? ==>
            Without(parent, u, cs) == Without(parent, t, cs) && KeyDecodes(Without(parent, t, cs), t)
            && Taken(Without(parent, t, cs), t) == u)
  {
    if parent.VObject? {
      DecodeInPlaceIsRfc(t);
      TokenStandsFor(DecodeInPlace(t, 0, 0));
    }
  }
}
