/** `create_patches`: writing down the difference of two trees as a JSON Patch document. */
module PatchGen {
  import opened Text
  import opened Json
  import opened Compare
  import opened Pointer

  /** `compose_patch`. */
  function Compose(op: string, path: string, suffix: Option<string>, value: Option<Json>): Json {
    var fullPath := if suffix.None? then path else path + "/" + Escape(suffix.value);
    Object([Member("op", String(op)), Member("path", String(fullPath))]
           + (if value.None? then [] else [Member("value", value.value)]))
  }

  function CreatePatches(path: string, from: Json, to: Json, cs: bool): seq<Json>
    decreases Depth(from), 2, 0
  {
    if !SameKind(from, to) then [Compose("replace", path, None, Some(to))]
    else
      match from
      case Number(n) => if n != to.n then [Compose("replace", path, None, Some(to))] else []
      case String(s) => if s != to.text then [Compose("replace", path, None, Some(to))] else []
      case Array(xs) =>
        CommonPatches(path, xs, to.items, 0, cs)
        + SurplusPatches(path, |to.items|, |xs|)
        + MissingPatches(path, to.items, |xs|)
      case Object(ms) => JoinPatches(path, SortMembers(ms, cs), SortMembers(to.members, cs), cs)
      case _ => []
  }

  /** The elements both arrays have. */
  function CommonPatches(path: string, xs: seq<Json>, ys: seq<Json>, i: nat, cs: bool): seq<Json>
    decreases ItemsDepth(xs) + 1, 1, |xs| - i
  {
    if i < |xs| && i < |ys|
    then CreatePatches(path + "/" + Decimal(i), xs[i], ys[i], cs) + CommonPatches(path, xs, ys, i + 1, cs)
    else []
  }

  /** Removing at one fixed index, once per element that is too many. */
  function SurplusPatches(path: string, index: nat, end: nat): seq<Json>
    decreases end - index
  {
    if index < end
    then SurplusPatches(path, index, end - 1) + [Compose("remove", path, Some(Decimal(index)), None)]
    else []
  }

  function MissingPatches(path: string, ys: seq<Json>, i: nat): seq<Json>
    decreases |ys| - i
  {
    if i < |ys| then [Compose("add", path, Some("-"), Some(ys[i]))] + MissingPatches(path, ys, i + 1)
    else []
  }

  /** Walking two sorted member lists side by side. */
  function JoinPatches(path: string, fs: seq<Member>, ts: seq<Member>, cs: bool): seq<Json>
    decreases MembersDepth(fs) + 1, 1, |fs| + |ts|
  {
    if fs == [] && ts == [] then []
    else JoinHead(path, fs, ts, cs) + JoinPatches(path, RestOfFrom(fs, ts, cs), RestOfTo(fs, ts, cs), cs)
  }

  /** The patches of one step of the walk. */
  function JoinHead(path: string, fs: seq<Member>, ts: seq<Member>, cs: bool): seq<Json>
    requires fs != [] || ts != []
    decreases MembersDepth(fs) + 1, 0, 0
  {
    var diff := JoinOrder(fs, ts, cs);
    if diff == 0 then CreatePatches(path + "/" + Escape(fs[0].key), fs[0].value, ts[0].value, cs)
    else if diff < 0 then [Compose("remove", path, Some(fs[0].key), None)]
    else [Compose("add", path, Some(ts[0].key), Some(ts[0].value))]
  }

  function RestOfFrom(fs: seq<Member>, ts: seq<Member>, cs: bool): seq<Member>
    requires fs != [] || ts != []
  {
    if JoinOrder(fs, ts, cs) <= 0 then fs[1..] else fs
  }

  function RestOfTo(fs: seq<Member>, ts: seq<Member>, cs: bool): seq<Member>
    requires fs != [] || ts != []
  {
    if JoinOrder(fs, ts, cs) >= 0 then ts[1..] else ts
  }

  /** Which list the next step of the walk takes from; an exhausted list counts as later. */
  function JoinOrder(fs: seq<Member>, ts: seq<Member>, cs: bool): (diff: int)
    requires fs != [] || ts != []
    ensures diff <= 0 ==> fs != []
    ensures diff >= 0 ==> ts != []
  {
    if fs == [] then 1
    else if ts == [] then -1
    else CompareStrings(fs[0].key, ts[0].key, cs)
  }
}
