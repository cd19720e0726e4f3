/** What the LRU hash table is for: a finite map whose keys are ordered by last use. */
module Lru {
  import opened Text
  import opened Sequences

  const MAX_HASH_SIZE: nat := 32

  datatype Entry = Entry(key: string, value: string)

  /** The live entries, oldest first, and the table's own counter. */
  datatype State = State(entries: seq<Entry>, size: int)

  const EMPTY := State([], 0)

  function IndexOf(entries: seq<Entry>, key: string): (i: nat)
    ensures i <= |entries| && (i < |entries| ==> entries[i].key == key)
    ensures forall k :: 0 <= k < i ==> entries[k].key != key
  {
    if entries == [] || entries[0].key == key then 0 else 1 + IndexOf(entries[1..], key)
  }

  // ----- the operations; an empty key is ignored everywhere

  /** Re-adding a key replaces its value where it stands. */
  function Add(st: State, key: string, value: string): State {
    if key == "" then st
    else
      var i := IndexOf(st.entries, key);
      if i < |st.entries| then State(st.entries[i := Entry(key, value)], st.size)
      else State(st.entries + [Entry(key, value)], st.size + 1)
  }

  /** A hit moves the key to the newest end. */
  function Search(st: State, key: string): State {
    var i := IndexOf(st.entries, key);
    if key == "" || i == |st.entries| then st
    else State(RemoveAt(st.entries, i) + [st.entries[i]], st.size)
  }

  function Found(st: State, key: string): Option<string> {
    var i := IndexOf(st.entries, key);
    if key == "" || i == |st.entries| then None else Some(st.entries[i].value)
  }

  function Delete(st: State, key: string): State {
    var i := IndexOf(st.entries, key);
    if key == "" || i == |st.entries| then st
    else State(RemoveAt(st.entries, i), st.size - 1)
  }

  /** How many of `n` entries `hash_pop(len)` removes when the counter is at `size`.  The comparison that
      should bound `len` reads a variable before it has a value; `unset` is what it happens to hold. */
  function PopCount(n: nat, size: int, len: int, unset: int): nat {
    var l := if len < 0 || unset > size then size else len;
    if l < 0 then 0 else if l > n then n else l
  }

  /** The counter is not adjusted. */
  function Pop(st: State, len: int, unset: int): State {
    if len == 0 then st else State(st.entries[PopCount(|st.entries|, st.size, len, unset)..], st.size)
  }

  datatype Op =
    | OpAdd(key: string, value: string)
    | OpSearch(key: string)
    | OpDelete(key: string)
    | OpPop(len: int, unset: int)

  function Step(st: State, op: Op): State {
    match op
    case OpAdd(key, value) => Add(st, key, value)
    case OpSearch(key) => Search(st, key)
    case OpDelete(key) => Delete(st, key)
    case OpPop(len, unset) => Pop(st, len, unset)
  }

  function Run(ops: seq<Op>): State {
    if ops == [] then EMPTY else Step(Run(ops[..|ops| - 1]), ops[|ops| - 1])
  }

  ghost predicate UniqueKeys(entries: seq<Entry>) {
    forall i, j :: 0 <= i < j < |entries| ==> entries[i].key != entries[j].key
  }

  // ----- an independent account: a map with the time of each key's last use

  datatype Stamped = Stamped(value: string, time: nat)

  /** What is stored, and how many entries have ever been popped. */
  datatype Account = Account(stored: map<string, Stamped>, popped: nat)

  /** Keys used earlier than `key`. */
  function Older(m: map<string, Stamped>, key: string): set<string>
    requires key in m
  {
    set k | k in m && m[k].time < m[key].time
  }

  /** What popping leaves: the keys that at least `count` others are older than. */
  function Survivors(m: map<string, Stamped>, count: nat): map<string, Stamped> {
    map k | k in m && |Older(m, k)| >= count :: m[k]
  }

  /** A key is used when it is added to the table anew and when a search finds it.  The counter is always
      at the number of keys stored and popped. */
  function ClockStep(acc: Account, now: nat, op: Op): Account {
    var m := acc.stored;
    match op
    case OpAdd(key, value) =>
      if key == "" then acc
      else acc.(stored := m[key := Stamped(value, if key in m then m[key].time else now)])
    case OpSearch(key) =>
      if key == "" || key !in m then acc else acc.(stored := m[key := Stamped(m[key].value, now)])
    case OpDelete(key) =>
      if key == "" then acc else acc.(stored := m - {key})
    case OpPop(len, unset) =>
      if len == 0 then acc
      else
        var count := PopCount(|m|, |m| + acc.popped, len, unset);
        Account(Survivors(m, count), acc.popped + count)
  }

  function Clock(ops: seq<Op>): Account {
    if ops == [] then Account(map[], 0)
    else ClockStep(Clock(ops[..|ops| - 1]), |ops| - 1, ops[|ops| - 1])
  }

  ghost predicate HasKey(entries: seq<Entry>, key: string) {
    exists i :: 0 <= i < |entries| && entries[i].key == key
  }

  /** Every entry is in the map, with its value and a time before now. */
  ghost predicate Agrees(entries: seq<Entry>, m: map<string, Stamped>, now: nat) {
    forall i :: 0 <= i < |entries| ==>
      entries[i].key in m && m[entries[i].key].value == entries[i].value && m[entries[i].key].time < now
  }

  ghost predicate Ascending(entries: seq<Entry>, m: map<string, Stamped>) {
    forall i, j :: 0 <= i < j < |entries| && entries[i].key in m && entries[j].key in m ==>
      m[entries[i].key].time < m[entries[j].key].time
  }

  /** The entries are the map's, in the order of their last use. */
  ghost predicate InOrderOfUse(entries: seq<Entry>, m: map<string, Stamped>, now: nat) {
    && Agrees(entries, m, now) && Ascending(entries, m)
    && forall k <- m :: HasKey(entries, k)
  }

  lemma OrderedIsUnique(entries: seq<Entry>, m: map<string, Stamped>, now: nat)
    requires InOrderOfUse(entries, m, now)
    ensures UniqueKeys(entries)
  {
    forall i, j | 0 <= i < j < |entries| ensures entries[i].key != entries[j].key {
      assert m[entries[i].key].time < m[entries[j].key].time;
    }
  }

  lemma IndexFinds(entries: seq<Entry>, key: string)
    ensures IndexOf(entries, key) < |entries| <==> HasKey(entries, key)
  {
    var i := IndexOf(entries, key);
    if HasKey(entries, key) {
      var k :| 0 <= k < |entries| && entries[k].key == key;
    }
  }

  lemma KeyKnown(entries: seq<Entry>, m: map<string, Stamped>, now: nat, key: string)
    requires InOrderOfUse(entries, m, now)
    ensures key in m <==> IndexOf(entries, key) < |entries|
  {
    hide IndexOf;
    IndexFinds(entries, key);
    if HasKey(entries, key) {
      var k :| 0 <= k < |entries| && entries[k].key == key;
    }
  }

  /** The table is the map, ordered by last use, and its counter that of the account. */
  ghost predicate Matches(st: State, acc: Account, now: nat) {
    InOrderOfUse(st.entries, acc.stored, now) && st.size == |st.entries| + acc.popped
  }

  /** After every run the table is the account. */
  lemma {:induction false} RunIsClock(ops: seq<Op>)
    ensures Matches(Run(ops), Clock(ops), |ops|)
  {
    if ops != [] {
      var init, op := ops[..|ops| - 1], ops[|ops| - 1];
      RunIsClock(init);
      StepIsClockStep(Run(init), Clock(init), |init|, op);
    }
  }

  lemma StepIsClockStep(st: State, acc: Account, now: nat, op: Op)
    requires Matches(st, acc, now)
    ensures Matches(Step(st, op), ClockStep(acc, now, op), now + 1)
  {
    hide InOrderOfUse, IndexOf, Survivors, Older, PopCount;
    var es, m := st.entries, acc.stored;
    LaterInOrder(es, m, now);
    match op
    case OpAdd(key, value) => if key != "" { AddInOrder(st, m, now, key, value); }
    case OpSearch(key) => if key != "" { SearchInOrder(st, m, now, key); }
    case OpDelete(key) => if key != "" { DeleteInOrder(st, m, now, key); }
    case OpPop(len, unset) =>
      if len != 0 {
        AsManyStored(es, m, now);
        PopIsBounded(|es|, st.size, len, unset);
        PopInOrder(es, m, now, PopCount(|es|, st.size, len, unset));
      }
  }

  lemma PopIsBounded(n: nat, size: int, len: int, unset: int)
    ensures PopCount(n, size, len, unset) <= n
  {
  }

  lemma AddInOrder(st: State, m: map<string, Stamped>, now: nat, key: string, value: string)
    requires InOrderOfUse(st.entries, m, now) && key != ""
    ensures InOrderOfUse(Add(st, key, value).entries,
                         m[key := Stamped(value, if key in m then m[key].time else now)], now + 1)
  {
    hide IndexOf;
    var es := st.entries;
    OrderedIsUnique(es, m, now);
    KeyKnown(es, m, now, key);
    var i := IndexOf(es, key);
    if i < |es| {
      UpdatedInOrder(es, m, now, i, value);
    } else {
      AppendedInOrder(es, m, now, key, value);
    }
  }

  lemma UpdatedInOrder(es: seq<Entry>, m: map<string, Stamped>, now: nat, i: nat, value: string)
    requires InOrderOfUse(es, m, now) && UniqueKeys(es) && i < |es|
    ensures var key := es[i].key;
            InOrderOfUse(es[i := Entry(key, value)], m[key := Stamped(value, m[key].time)], now + 1)
  {
    hide HasKey;
    var key := es[i].key;
    var es', m' := es[i := Entry(key, value)], m[key := Stamped(value, m[key].time)];
    forall j | 0 <= j < |es'| ensures es'[j].key == es[j].key {}
    forall k <- m' ensures HasKey(es', k) {
      SameKeys(es, es', k);
    }
    assert Agrees(es', m', now + 1);
    forall a, b | 0 <= a < b < |es'| ensures m'[es'[a].key].time < m'[es'[b].key].time {
      assert m[es[a].key].time < m[es[b].key].time;
    }
  }

  lemma SameKeys(es: seq<Entry>, es': seq<Entry>, key: string)
    requires |es| == |es'| && forall j :: 0 <= j < |es| ==> es'[j].key == es[j].key
    requires HasKey(es, key)
    ensures HasKey(es', key)
  {
    var j :| 0 <= j < |es| && es[j].key == key;
    assert es'[j].key == key;
  }

  /** Leaving entries out keeps the others in order. */
  lemma FewerInOrder(
      es: seq<Entry>, m: map<string, Stamped>, now: nat,
      es': seq<Entry>, m': map<string, Stamped>, from: seq<nat>)
    requires InOrderOfUse(es, m, now) && |from| == |es'|
    requires forall j :: 0 <= j < |es'| ==> from[j] < |es| && es'[j] == es[from[j]] && es'[j].key in m'
    requires forall i, j :: 0 <= i < j < |es'| ==> from[i] < from[j]
    requires forall k <- m' :: k in m && m'[k] == m[k] && HasKey(es', k)
    ensures InOrderOfUse(es', m', now)
  {
    hide HasKey;
    forall i, j | 0 <= i < j < |es'| ensures m'[es'[i].key].time < m'[es'[j].key].time {
      assert m[es[from[i]].key].time < m[es[from[j]].key].time;
    }
  }

  lemma AppendedInOrder(es: seq<Entry>, m: map<string, Stamped>, now: nat, key: string, value: string)
    requires InOrderOfUse(es, m, now) && key !in m
    ensures InOrderOfUse(es + [Entry(key, value)], m[key := Stamped(value, now)], now + 1)
  {
    var es', m' := es + [Entry(key, value)], m[key := Stamped(value, now)];
    assert forall j :: 0 <= j < |es| ==> es'[j] == es[j] && es[j].key != key;
    forall k <- m' ensures HasKey(es', k) {
      if k == key {
        assert es'[|es|].key == k;
      } else {
        var j :| 0 <= j < |es| && es[j].key == k;
        assert es'[j].key == k;
      }
    }
  }

  lemma RemovedInOrder(es: seq<Entry>, m: map<string, Stamped>, now: nat, i: nat)
    requires InOrderOfUse(es, m, now) && UniqueKeys(es) && i < |es|
    ensures InOrderOfUse(RemoveAt(es, i), m - {es[i].key}, now)
  {
    hide HasKey;
    var es', m' := RemoveAt(es, i), m - {es[i].key};
    var from := seq(|es'|, j => if j < i then j else j + 1);
    forall j | 0 <= j < |es'| ensures es'[j] == es[from[j]] && es'[j].key in m' {
      assert from[j] < i || i < from[j];
    }
    forall k <- m' ensures HasKey(es', k) {
      OtherKeysStay(es, i, k);
    }
    FewerInOrder(es, m, now, es', m', from);
  }

  lemma OtherKeysStay(es: seq<Entry>, i: nat, key: string)
    requires i < |es| && HasKey(es, key) && key != es[i].key
    ensures HasKey(RemoveAt(es, i), key)
  {
    var j :| 0 <= j < |es| && es[j].key == key;
    assert RemoveAt(es, i)[if j < i then j else j - 1] == es[j];
  }

  lemma SearchInOrder(st: State, m: map<string, Stamped>, now: nat, key: string)
    requires InOrderOfUse(st.entries, m, now) && key != ""
    ensures InOrderOfUse(Search(st, key).entries,
                         if key in m then m[key := Stamped(m[key].value, now)] else m, now + 1)
  {
    hide IndexOf;
    var es := st.entries;
    OrderedIsUnique(es, m, now);
    KeyKnown(es, m, now, key);
    var i := IndexOf(es, key);
    if i < |es| {
      var m1 := m - {key};
      RemovedInOrder(es, m, now, i);
      AppendedInOrder(RemoveAt(es, i), m1, now, key, es[i].value);
      assert m1[key := Stamped(es[i].value, now)] == m[key := Stamped(es[i].value, now)];
    } else {
      LaterInOrder(es, m, now);
    }
  }

  lemma LaterInOrder(es: seq<Entry>, m: map<string, Stamped>, now: nat)
    requires InOrderOfUse(es, m, now)
    ensures InOrderOfUse(es, m, now + 1)
  {
  }

  lemma DeleteInOrder(st: State, m: map<string, Stamped>, now: nat, key: string)
    requires InOrderOfUse(st.entries, m, now) && key != ""
    ensures InOrderOfUse(Delete(st, key).entries, m - {key}, now + 1)
  {
    hide IndexOf;
    var es := st.entries;
    OrderedIsUnique(es, m, now);
    KeyKnown(es, m, now, key);
    var i := IndexOf(es, key);
    if i < |es| {
      RemovedInOrder(es, m, now, i);
      LaterInOrder(RemoveAt(es, i), m - {key}, now);
    } else {
      assert m - {key} == m;
      LaterInOrder(es, m, now);
    }
  }

  ghost function KeysOf(entries: seq<Entry>): set<string> {
    if entries == [] then {} else KeysOf(entries[..|entries| - 1]) + {entries[|entries| - 1].key}
  }

  lemma {:induction false} KeysOfHas(entries: seq<Entry>, key: string)
    ensures key in KeysOf(entries) <==> HasKey(entries, key)
  {
    if entries != [] {
      var n := |entries| - 1;
      KeysOfHas(entries[..n], key);
      if HasKey(entries[..n], key) {
        var i :| 0 <= i < n && entries[..n][i].key == key;
        assert entries[i].key == key;
      }
      if HasKey(entries, key) {
        var i :| 0 <= i < |entries| && entries[i].key == key;
        assert i < n ==> entries[..n][i].key == key;
      }
    }
  }

  lemma {:induction false} UniqueKeysCount(entries: seq<Entry>)
    requires UniqueKeys(entries)
    ensures |KeysOf(entries)| == |entries|
  {
    if entries != [] {
      var n := |entries| - 1;
      var init, last := entries[..n], entries[n].key;
      UniqueKeysCount(init);
      KeysOfHas(init, last);
      forall i | 0 <= i < n ensures init[i].key != last {
        assert entries[i].key != entries[n].key;
      }
    }
  }

  /** Exactly as many keys are older than an entry as stand before it. */
  lemma OlderAreBefore(entries: seq<Entry>, m: map<string, Stamped>, now: nat, i: nat)
    requires InOrderOfUse(entries, m, now) && i < |entries|
    ensures |Older(m, entries[i].key)| == i
  {
    hide KeysOf;
    OrderedIsUnique(entries, m, now);
    var before, older := entries[..i], Older(m, entries[i].key);
    UniqueKeysCount(before);
    forall k ensures k in older <==> k in KeysOf(before) {
      KeysOfHas(before, k);
      OlderIsBefore(entries, m, now, i, k);
    }
    assert older == KeysOf(before);
  }

  lemma OlderIsBefore(entries: seq<Entry>, m: map<string, Stamped>, now: nat, i: nat, k: string)
    requires InOrderOfUse(entries, m, now) && i < |entries|
    ensures k in Older(m, entries[i].key) <==> HasKey(entries[..i], k)
  {
    var before := entries[..i];
    if k in Older(m, entries[i].key) {
      assert HasKey(entries, k);
      var j :| 0 <= j < |entries| && entries[j].key == k;
      assert j < i && before[j].key == k;
    }
    if HasKey(before, k) {
      var j :| 0 <= j < |before| && before[j].key == k;
      assert entries[j].key == k;
    }
  }

  /** The map has as many keys as the list has entries. */
  lemma AsManyStored(entries: seq<Entry>, m: map<string, Stamped>, now: nat)
    requires InOrderOfUse(entries, m, now)
    ensures |m| == |entries|
  {
    OrderedIsUnique(entries, m, now);
    UniqueKeysCount(entries);
    forall k ensures k in m <==> k in KeysOf(entries) {
      KeysOfHas(entries, k);
    }
    assert m.Keys == KeysOf(entries);
  }

  lemma SurvivorsStandBehind(es: seq<Entry>, m: map<string, Stamped>, now: nat, count: nat, k: string)
    requires InOrderOfUse(es, m, now) && count <= |es| && k in Survivors(m, count)
    ensures k in m && Survivors(m, count)[k] == m[k] && HasKey(es[count..], k)
  {
    hide Older;
    assert HasKey(es, k);
    var i :| 0 <= i < |es| && es[i].key == k;
    OlderAreBefore(es, m, now, i);
    assert es[count..][i - count].key == k;
  }

  lemma PopInOrder(es: seq<Entry>, m: map<string, Stamped>, now: nat, count: nat)
    requires InOrderOfUse(es, m, now) && count <= |es|
    ensures InOrderOfUse(es[count..], Survivors(m, count), now + 1)
  {
    hide Older, HasKey;
    var es', m' := es[count..], Survivors(m, count);
    var from := seq(|es'|, j => j + count);
    forall j | 0 <= j < |es'| ensures es'[j] == es[from[j]] && es'[j].key in m' {
      OlderAreBefore(es, m, now, from[j]);
    }
    forall k <- m' ensures k in m && m'[k] == m[k] && HasKey(es', k) {
      SurvivorsStandBehind(es, m, now, count, k);
    }
    hide Survivors;
    FewerInOrder(es, m, now, es', m', from);
    LaterInOrder(es', m', now);
  }

  /** A search answers what the map says. */
  lemma FoundIsLookup(ops: seq<Op>, key: string)
    requires key != ""
    ensures var m := Clock(ops).stored; Found(Run(ops), key) == if key in m then Some(m[key].value) else None
  {
    RunIsClock(ops);
    KeyKnown(Run(ops).entries, Clock(ops).stored, |ops|, key);
  }

  // ----- the counter

  /** The counter is the number of entries exactly as long as nothing has been popped; in general it
      is too high by all that ever was. */
  lemma SizeCountsPopped(ops: seq<Op>)
    ensures Run(ops).size == |Run(ops).entries| + Clock(ops).popped
    ensures |Run(ops).entries| == |Clock(ops).stored|
  {
    RunIsClock(ops);
    AsManyStored(Run(ops).entries, Clock(ops).stored, |ops|);
  }

  /** What `hash_pop` is asked for. */
  function AsAsked(n: nat, len: nat): nat {
    if len < n then len else n
  }

  /** After any run, `hash_pop(len)` removes as many entries as it is asked for exactly when the unset
      variable holds at most the counter, or all entries are to go anyway. */
  lemma PopsAsAsked(ops: seq<Op>, len: nat, unset: int)
    requires len > 0
    ensures var n := |Run(ops).entries|;
      && |Pop(Run(ops), len, unset).entries| == n - PopCount(n, Run(ops).size, len, unset)
      && (PopCount(n, Run(ops).size, len, unset) == AsAsked(n, len) <==> unset <= Run(ops).size || len >= n)
  {
    SizeCountsPopped(ops);
  }

  /** What is left after any run, for every length: nothing changes for length 0; no entry is left after a negative
      length, nor if the unset variable holds more than the counter; otherwise the oldest `len` are gone. */
  lemma PopLeaves(ops: seq<Op>, len: int, unset: int)
    ensures var es, popped := Run(ops).entries, Run(ops + [OpPop(len, unset)]);
      && (len == 0 ==> popped.entries == es)
      && (len < 0 ==> popped.entries == [])
      && (len > 0 && unset > Run(ops).size ==> popped.entries == [])
      && (len > 0 && unset <= Run(ops).size ==> popped.entries == if len < |es| then es[len..] else [])
      && popped.size == Run(ops).size
  {
    SizeCountsPopped(ops);
    RunMore(ops, OpPop(len, unset));
    hide Run, Clock;
  }

  lemma RunMore(ops: seq<Op>, op: Op)
    ensures Run(ops + [op]) == Step(Run(ops), op)
  {
    hide Step;
    var all := ops + [op];
    assert all[..|all| - 1] == ops && all[|all| - 1] == op;
  }

  /** So it can be relied upon exactly when no entry is to stay. */
  lemma PopIsReliable(ops: seq<Op>, len: nat)
    requires len > 0
    ensures var n, size := |Run(ops).entries|, Run(ops).size;
      (forall unset :: PopCount(n, size, len, unset) == AsAsked(n, len)) <==> len >= n
  {
    var n, size := |Run(ops).entries|, Run(ops).size;
    PopsAsAsked(ops, len, size + 1);
    forall unset | len >= n ensures PopCount(n, size, len, unset) == AsAsked(n, len) {
      PopsAsAsked(ops, len, unset);
    }
  }

  /** Two keys are added and one is to be popped: both are gone if the variable holds 3. */
  lemma PopTakesAll()
    ensures |Run([OpAdd("a", "1"), OpAdd("b", "2")]).entries| == 2
    ensures Run([OpAdd("a", "1"), OpAdd("b", "2"), OpPop(1, 3)]).entries == []
  {
    var a, b := OpAdd("a", "1"), OpAdd("b", "2");
    assert [a][..0] == [] && [a, b][..1] == [a] && [a, b, OpPop(1, 3)][..2] == [a, b];
    assert Run([a]) == State([Entry("a", "1")], 1);
    assert Run([a, b]) == State([Entry("a", "1"), Entry("b", "2")], 2);
  }
}
