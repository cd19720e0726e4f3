/** The LRU hash table in memory: every node sits in a bucket ring and in the recency ring. */
module HashTable {
  import opened Text
  import opened Sequences
  import opened Ring
  import opened Lru

  type Link = ListHead<HashNode?>

  class HashNode {
    const key: string
    const list: Link
    const lruList: Link
    var value: string

    constructor (key: string, value: string)
      ensures this.key == key && this.value == value
      ensures fresh(list) && fresh(lruList) && list != lruList
      ensures list.owner == this && lruList.owner == this
    {
      this.key := key;
      this.value := value;
      list := new ListHead(null);
      lruList := new ListHead(null);
      new;
      list.owner := this;
      lruList.owner := this;
    }
  }

  /** Keys whose bucket index is not negative.  Where `char` is signed, a first byte from 128 on stands for a
      negative number, and so does its remainder unless it is 0. */
  predicate UsableKey(key: string) {
    key == "" || key[0] as int < 128 || (key[0] as int < 256 && key[0] as int % MAX_HASH_SIZE == 0)
  }

  /** `*key % MAX_HASH_SIZE` */
  function Index(key: string): (b: nat)
    requires key != "" && UsableKey(key)
    ensures b < MAX_HASH_SIZE
  {
    key[0] as int % MAX_HASH_SIZE
  }

  ghost function Lists(nodes: seq<HashNode>): seq<Link> {
    seq(|nodes|, i requires 0 <= i < |nodes| => nodes[i].list)
  }

  ghost function LruLists(nodes: seq<HashNode>): seq<Link> {
    seq(|nodes|, i requires 0 <= i < |nodes| => nodes[i].lruList)
  }

  ghost function EntriesOf(nodes: seq<HashNode>): seq<Entry>
    reads nodes
  {
    seq(|nodes|, i requires 0 <= i < |nodes| reads nodes => Entry(nodes[i].key, nodes[i].value))
  }

  /** Which nodes there are and where: keys are unique, and every node is in the bucket its key says,
      once, and in no other. */
  ghost predicate Structure(buckets: seq<seq<HashNode>>, nodes: seq<HashNode>) {
    && |buckets| == MAX_HASH_SIZE
    && NoDuplicates(nodes)
    && (forall n <- nodes :: n.key != "" && UsableKey(n.key) && n.list != n.lruList)
    && (forall i, j :: 0 <= i < j < |nodes| ==> nodes[i].key != nodes[j].key)
    && (forall b :: 0 <= b < MAX_HASH_SIZE ==> NoDuplicates(buckets[b]))
    && (forall b, n :: 0 <= b < MAX_HASH_SIZE && n in buckets[b] ==> n in nodes && Index(n.key) == b)
    && (forall n <- nodes :: n in buckets[Index(n.key)])
  }

  lemma AppendedStructure(buckets: seq<seq<HashNode>>, nodes: seq<HashNode>, node: HashNode)
    requires Structure(buckets, nodes) && node !in nodes
    requires node.key != "" && UsableKey(node.key) && node.list != node.lruList
    requires forall n <- nodes :: n.key != node.key
    ensures var b := Index(node.key); Structure(buckets[b := buckets[b] + [node]], nodes + [node])
  {
    var b := Index(node.key);
    var buckets' := buckets[b := buckets[b] + [node]];
    assert node !in buckets[b];
    forall n <- nodes + [node] ensures n in buckets'[Index(n.key)] {
      assert n in nodes || n == node;
    }
  }

  lemma RemovedElements<T>(s: seq<T>, i: nat)
    requires NoDuplicates(s) && i < |s|
    ensures NoDuplicates(RemoveAt(s, i))
    ensures forall x <- s :: x in RemoveAt(s, i) <==> x != s[i]
    ensures forall x <- RemoveAt(s, i) :: x in s && x != s[i]
  {
    var t := RemoveAt(s, i);
    assert forall k :: 0 <= k < |t| ==> t[k] == s[if k < i then k else k + 1];
    forall x <- s ensures x in t <==> x != s[i] {
      var k :| 0 <= k < |s| && s[k] == x;
      if k != i { assert t[if k < i then k else k - 1] == x; }
    }
  }

  lemma KeysStayDifferent(nodes: seq<HashNode>, j: nat)
    requires j < |nodes| && forall a, b :: 0 <= a < b < |nodes| ==> nodes[a].key != nodes[b].key
    ensures var t := RemoveAt(nodes, j); forall a, b :: 0 <= a < b < |t| ==> t[a].key != t[b].key
  {
    var t := RemoveAt(nodes, j);
    assert forall k :: 0 <= k < |t| ==> t[k] == nodes[if k < j then k else k + 1];
  }

  lemma RemovedStructure(
      buckets: seq<seq<HashNode>>, nodes: seq<HashNode>, b: nat, i: nat, j: nat)
    requires Structure(buckets, nodes) && j < |nodes| && Index(nodes[j].key) == b
    requires i < |buckets[b]| && buckets[b][i] == nodes[j]
    ensures Structure(buckets[b := RemoveAt(buckets[b], i)], RemoveAt(nodes, j))
  {
    var node, nodes' := nodes[j], RemoveAt(nodes, j);
    var buckets' := buckets[b := RemoveAt(buckets[b], i)];
    RemovedElements(nodes, j);
    RemovedElements(buckets[b], i);
    KeysStayDifferent(nodes, j);
    hide RemoveAt;
    forall n <- nodes' ensures n in buckets'[Index(n.key)] {
      assert n in buckets[Index(n.key)];
    }
    forall c, n | 0 <= c < MAX_HASH_SIZE && n in buckets'[c] ensures n in nodes' && Index(n.key) == c {
      assert n in buckets[c] && n != node;
    }
  }

  lemma MovedElements<T>(s: seq<T>, j: nat)
    requires NoDuplicates(s) && j < |s|
    ensures var t := RemoveAt(s, j) + [s[j]]; NoDuplicates(t) && forall x :: x in t <==> x in s
  {
    RemovedElements(s, j);
    var r := RemoveAt(s, j);
    hide RemoveAt;
    assert forall x :: x in r + [s[j]] <==> x in r || x == s[j];
  }

  lemma MovedKeysDiffer(nodes: seq<HashNode>, nodes': seq<HashNode>)
    requires NoDuplicates(nodes') && forall n :: n in nodes' <==> n in nodes
    requires forall i, j :: 0 <= i < j < |nodes| ==> nodes[i].key != nodes[j].key
    ensures forall i, j :: 0 <= i < j < |nodes'| ==> nodes'[i].key != nodes'[j].key
  {
    forall i, j | 0 <= i < j < |nodes'| ensures nodes'[i].key != nodes'[j].key {
      assert nodes'[i] in nodes && nodes'[j] in nodes;
      var a :| 0 <= a < |nodes| && nodes[a] == nodes'[i];
      var b :| 0 <= b < |nodes| && nodes[b] == nodes'[j];
      assert a != b;
      if a < b { assert nodes[a].key != nodes[b].key; } else { assert nodes[b].key != nodes[a].key; }
    }
  }

  lemma MovedStructure(buckets: seq<seq<HashNode>>, nodes: seq<HashNode>, j: nat)
    requires Structure(buckets, nodes) && j < |nodes|
    ensures Structure(buckets, RemoveAt(nodes, j) + [nodes[j]])
  {
    var nodes' := RemoveAt(nodes, j) + [nodes[j]];
    MovedElements(nodes, j);
    hide RemoveAt;
    assert forall n :: n in nodes' <==> n in nodes;
    MovedKeysDiffer(nodes, nodes');
  }

  lemma ListsOfMore(head: Link, s: seq<HashNode>, node: HashNode)
    ensures [head] + Lists(s + [node]) == ([head] + Lists(s)) + [node.list]
    ensures [head] + LruLists(s + [node]) == ([head] + LruLists(s)) + [node.lruList]
  {
  }

  lemma ListsOfFewer(head: Link, s: seq<HashNode>, i: nat)
    requires i < |s|
    ensures [head] + Lists(RemoveAt(s, i)) == RemoveAt([head] + Lists(s), i + 1)
    ensures [head] + LruLists(RemoveAt(s, i)) == RemoveAt([head] + LruLists(s), i + 1)
  {
    var l, r := Lists(s), [head] + Lists(RemoveAt(s, i));
    assert RemoveAt([head] + l, i + 1) == [head] + RemoveAt(l, i);
    assert Lists(RemoveAt(s, i)) == RemoveAt(l, i);
    assert RemoveAt([head] + LruLists(s), i + 1) == [head] + RemoveAt(LruLists(s), i);
    assert LruLists(RemoveAt(s, i)) == RemoveAt(LruLists(s), i);
  }

  ghost function BucketRing(head: Link, bucket: seq<HashNode>): seq<Link> {
    [head] + Lists(bucket)
  }

  ghost function LruRing(head: Link, nodes: seq<HashNode>): seq<Link> {
    [head] + LruLists(nodes)
  }

  /** All objects of a table belong to `repr`. */
  ghost predicate Owned(heads: seq<Link>, lruHead: Link, nodes: seq<HashNode>, repr: set<object>) {
    && lruHead in repr && (forall h <- heads :: h in repr)
    && (forall n <- nodes :: n in repr && n.list in repr && n.lruList in repr)
  }

  /** From every link one gets back to its node; from the heads one gets nowhere. */
  ghost predicate Owners(heads: seq<Link>, lruHead: Link, nodes: seq<HashNode>, repr: set<object>)
    requires Owned(heads, lruHead, nodes, repr)
    reads repr
  {
    && lruHead.owner == null && (forall h <- heads :: h.owner == null)
    && (forall n <- nodes :: n.list.owner == n && n.lruList.owner == n)
  }

  /** A ring of links that belong to `repr`. */
  ghost predicate RingIn(r: seq<Link>, repr: set<object>)
    reads repr
  {
    (forall x <- r :: x in repr) && IsRing(r)
  }

  /** All bucket rings but the one of bucket `b`. */
  ghost predicate OtherRings(heads: seq<Link>, buckets: seq<seq<HashNode>>, repr: set<object>, b: nat)
    requires |heads| == |buckets|
    reads repr
  {
    forall c {:trigger BucketRing(heads[c], buckets[c])} :: 0 <= c < |heads| && c != b ==>
      RingIn(BucketRing(heads[c], buckets[c]), repr)
  }

  ghost predicate TableValid(heads: seq<Link>, lruHead: Link, buckets: seq<seq<HashNode>>, nodes: seq<HashNode>,
                             repr: set<object>)
    reads repr
  {
    && |heads| == |buckets| == MAX_HASH_SIZE && NoDuplicates(heads) && lruHead !in heads
    && Owned(heads, lruHead, nodes, repr) && Owners(heads, lruHead, nodes, repr)
    && Structure(buckets, nodes)
    && OtherRings(heads, buckets, repr, |heads|) && RingIn(LruRing(lruHead, nodes), repr)
  }

  /** A link of a bucket ring is its head, or leads back to a node of that bucket. */
  lemma LinkBelongs(
      heads: seq<Link>, lruHead: Link, buckets: seq<seq<HashNode>>, nodes: seq<HashNode>, repr: set<object>,
      b: nat, x: Link)
    requires TableValid(heads, lruHead, buckets, nodes, repr)
    requires b < MAX_HASH_SIZE && x in BucketRing(heads[b], buckets[b])
    ensures x.owner == null ==> x == heads[b]
    ensures x.owner != null ==> x == x.owner.list && x.owner in nodes && Index(x.owner.key) == b
  {
    hide IsRing;
    var r := BucketRing(heads[b], buckets[b]);
    var i :| 0 <= i < |r| && r[i] == x;
    if i > 0 { assert buckets[b][i - 1] in buckets[b]; }
  }

  lemma LruLinkBelongs(
      heads: seq<Link>, lruHead: Link, buckets: seq<seq<HashNode>>, nodes: seq<HashNode>, repr: set<object>, x: Link)
    requires TableValid(heads, lruHead, buckets, nodes, repr) && x in LruRing(lruHead, nodes)
    ensures x.owner == null ==> x == lruHead
    ensures x.owner != null ==> x == x.owner.lruList && x.owner in nodes
  {
    hide IsRing;
    var r := LruRing(lruHead, nodes);
    var i :| 0 <= i < |r| && r[i] == x;
    if i > 0 { assert nodes[i - 1] in nodes; }
  }

  ghost predicate Apart(r: seq<Link>, s: seq<Link>) {
    forall x <- r :: x !in s
  }

  /** No link belongs to two rings. */
  lemma BucketsAreApart(
      heads: seq<Link>, lruHead: Link, buckets: seq<seq<HashNode>>, nodes: seq<HashNode>, repr: set<object>,
      b: nat, c: nat)
    requires TableValid(heads, lruHead, buckets, nodes, repr) && b < MAX_HASH_SIZE && c < MAX_HASH_SIZE && c != b
    ensures Apart(BucketRing(heads[c], buckets[c]), BucketRing(heads[b], buckets[b]))
  {
    hide IsRing, Structure, BucketRing;
    forall x <- BucketRing(heads[c], buckets[c]) ensures x !in BucketRing(heads[b], buckets[b]) {
      LinkBelongs(heads, lruHead, buckets, nodes, repr, c, x);
      if x in BucketRing(heads[b], buckets[b]) { LinkBelongs(heads, lruHead, buckets, nodes, repr, b, x); }
    }
  }

  lemma BucketIsApartFromLru(
      heads: seq<Link>, lruHead: Link, buckets: seq<seq<HashNode>>, nodes: seq<HashNode>, repr: set<object>, c: nat)
    requires TableValid(heads, lruHead, buckets, nodes, repr) && c < MAX_HASH_SIZE
    ensures Apart(BucketRing(heads[c], buckets[c]), LruRing(lruHead, nodes))
  {
    hide IsRing, Structure, BucketRing, LruRing;
    forall x <- BucketRing(heads[c], buckets[c]) ensures x !in LruRing(lruHead, nodes) {
      LinkBelongs(heads, lruHead, buckets, nodes, repr, c, x);
      if x in LruRing(lruHead, nodes) {
        LruLinkBelongs(heads, lruHead, buckets, nodes, repr, x);
        NodeLinksDiffer(buckets, nodes, x.owner);
      }
    }
  }

  lemma NodeLinksDiffer(buckets: seq<seq<HashNode>>, nodes: seq<HashNode>, n: HashNode?)
    requires Structure(buckets, nodes)
    ensures n != null && n in nodes ==> n.list != n.lruList
  {
  }

  /** The bucket rings other than that of bucket `b` do not meet `s`. */
  ghost predicate OthersApart(heads: seq<Link>, buckets: seq<seq<HashNode>>, b: nat, s: seq<Link>)
    requires |heads| == |buckets|
  {
    forall c {:trigger BucketRing(heads[c], buckets[c])} :: 0 <= c < |heads| && c != b ==>
      Apart(BucketRing(heads[c], buckets[c]), s)
  }

  lemma RingsAreApart(
      heads: seq<Link>, lruHead: Link, buckets: seq<seq<HashNode>>, nodes: seq<HashNode>, repr: set<object>, b: nat)
    requires TableValid(heads, lruHead, buckets, nodes, repr)
    ensures OthersApart(heads, buckets, b, LruRing(lruHead, nodes))
    ensures b < MAX_HASH_SIZE ==> OthersApart(heads, buckets, b, BucketRing(heads[b], buckets[b]))
    ensures b < MAX_HASH_SIZE ==> Apart(BucketRing(heads[b], buckets[b]), LruRing(lruHead, nodes))
  {
    hide Structure, Apart, BucketRing, LruRing, RingIn;
    forall c | 0 <= c < |heads| ensures Apart(BucketRing(heads[c], buckets[c]), LruRing(lruHead, nodes)) {
      BucketIsApartFromLru(heads, lruHead, buckets, nodes, repr, c);
    }
    if b < MAX_HASH_SIZE {
      forall c | 0 <= c < |heads| && c != b
        ensures Apart(BucketRing(heads[c], buckets[c]), BucketRing(heads[b], buckets[b]))
      {
        BucketsAreApart(heads, lruHead, buckets, nodes, repr, b, c);
      }
    }
  }

  /** Adding one link at the end of a ring and another one at the end of another ring. */
  method LinkTwice(x: Link, y: Link, head: Link, lruHead: Link, ghost r: seq<Link>, ghost l: seq<Link>)
    requires IsRing(r) && IsRing(l) && Apart(r, l) && r[0] == head && l[0] == lruHead
    requires x != y && x !in r && y !in r && x !in l && y !in l
    modifies Links(r)`next, Links(r)`prev, Links(l)`next, Links(l)`prev, x`next, x`prev, y`next, y`prev
    ensures IsRing(r + [x]) && IsRing(l + [y])
  {
    assert forall z <- l :: z in Links(l);
    ListAddTail(x, head, r);
    ListAddTail(y, lruHead, l);
    assert forall z <- r :: z in Links(r);
    assert forall z <- r + [x] :: z !in Links(l) && z != y;
  }

  /** Taking one link out of a ring and another one out of another ring. */
  method UnlinkTwice(x: Link, y: Link, ghost r: seq<Link>, ghost i: nat, ghost l: seq<Link>, ghost j: nat)
    requires IsRing(r) && IsRing(l) && Apart(r, l)
    requires 1 <= i < |r| && r[i] == x && 1 <= j < |l| && l[j] == y
    modifies Links(r)`next, Links(r)`prev, Links(l)`next, Links(l)`prev
    ensures IsRing(RemoveAt(r, i)) && IsRing(RemoveAt(l, j))
  {
    assert forall z <- l :: z in Links(l);
    ListDel(x, r, i);
    ghost var rest := RemoveAt(r, i);
    assert forall k :: 0 <= k < |rest| ==> rest[k] == r[if k < i then k else k + 1];
    hide NextExcept, PrevExcept, NoDuplicates, RemoveAt;
    ListDel(y, l, j);
    assert forall z <- rest :: z in r && z !in Links(l);
  }

  // ----- a table after its links have changed

  /** What is left of a table when the links of two rings have been changed. */
  ghost predicate Relinked(heads: seq<Link>, lruHead: Link, buckets: seq<seq<HashNode>>, nodes: seq<HashNode>,
                           repr: set<object>, b: nat)
    reads repr
  {
    && |heads| == |buckets| == MAX_HASH_SIZE && NoDuplicates(heads) && lruHead !in heads
    && Owned(heads, lruHead, nodes, repr) && Owners(heads, lruHead, nodes, repr) && Structure(buckets, nodes)
    && OtherRings(heads, buckets, repr, b)
  }

  lemma AppendedIsValid(
      heads: seq<Link>, lruHead: Link, buckets: seq<seq<HashNode>>, nodes: seq<HashNode>, repr: set<object>,
      node: HashNode, b: nat)
    requires Relinked(heads, lruHead, buckets, nodes, repr, b)
    requires node !in repr && node.key != "" && UsableKey(node.key) && Index(node.key) == b
    requires node.list.owner == node && node.lruList.owner == node && node.list != node.lruList
    requires forall n <- nodes :: n.key != node.key
    requires IsRing(BucketRing(heads[b], buckets[b]) + [node.list]) && IsRing(LruRing(lruHead, nodes) + [node.lruList])
    ensures TableValid(heads, lruHead, buckets[b := buckets[b] + [node]], nodes + [node],
                       repr + {node, node.list, node.lruList})
  {
    hide IsRing;
    AppendedStructure(buckets, nodes, node);
    ListsOfMore(heads[b], buckets[b], node);
    ListsOfMore(lruHead, nodes, node);
    BucketsOwned(heads, lruHead, buckets, nodes, repr, b);
    hide Structure;
  }

  lemma BucketsOwned(
      heads: seq<Link>, lruHead: Link, buckets: seq<seq<HashNode>>, nodes: seq<HashNode>, repr: set<object>, b: nat)
    requires Owned(heads, lruHead, nodes, repr) && Structure(buckets, nodes) && b < |heads| == MAX_HASH_SIZE
    ensures forall x <- BucketRing(heads[b], buckets[b]) :: x in repr
    ensures forall x <- LruRing(lruHead, nodes) :: x in repr
  {
    forall x <- BucketRing(heads[b], buckets[b]) ensures x in repr {
      var r := BucketRing(heads[b], buckets[b]);
      var i :| 0 <= i < |r| && r[i] == x;
      if i > 0 { assert buckets[b][i - 1] in buckets[b]; } else { assert heads[b] in heads; }
    }
    forall x <- LruRing(lruHead, nodes) ensures x in repr {
      var r := LruRing(lruHead, nodes);
      var i :| 0 <= i < |r| && r[i] == x;
      if i > 0 { assert nodes[i - 1] in nodes; }
    }
  }

  lemma RemovedIsValid(
      heads: seq<Link>, lruHead: Link, buckets: seq<seq<HashNode>>, nodes: seq<HashNode>, repr: set<object>,
      b: nat, i: nat, j: nat)
    requires Relinked(heads, lruHead, buckets, nodes, repr, b)
    requires j < |nodes| && UsableKey(nodes[j].key) && nodes[j].key != "" && Index(nodes[j].key) == b
    requires i < |buckets[b]| && buckets[b][i] == nodes[j]
    requires IsRing(RemoveAt(BucketRing(heads[b], buckets[b]), i + 1)) && IsRing(RemoveAt(LruRing(lruHead, nodes), j + 1))
    ensures TableValid(heads, lruHead, buckets[b := RemoveAt(buckets[b], i)], RemoveAt(nodes, j), repr)
  {
    hide IsRing;
    RemovedStructure(buckets, nodes, b, i, j);
    RemovedElements(nodes, j);
    ListsOfFewer(heads[b], buckets[b], i);
    ListsOfFewer(lruHead, nodes, j);
    BucketsOwned(heads, lruHead, buckets[b := RemoveAt(buckets[b], i)], RemoveAt(nodes, j), repr, b);
    hide Structure;
  }

  lemma MovedIsValid(
      heads: seq<Link>, lruHead: Link, buckets: seq<seq<HashNode>>, nodes: seq<HashNode>, repr: set<object>, j: nat)
    requires Relinked(heads, lruHead, buckets, nodes, repr, MAX_HASH_SIZE) && j < |nodes|
    requires IsRing(RemoveAt(LruRing(lruHead, nodes), j + 1) + [nodes[j].lruList])
    ensures TableValid(heads, lruHead, buckets, RemoveAt(nodes, j) + [nodes[j]], repr)
  {
    hide IsRing;
    var nodes' := RemoveAt(nodes, j) + [nodes[j]];
    MovedStructure(buckets, nodes, j);
    RemovedElements(nodes, j);
    ListsOfFewer(lruHead, nodes, j);
    ListsOfMore(lruHead, RemoveAt(nodes, j), nodes[j]);
    assert forall n <- nodes' :: n in nodes;
    BucketsOwned(heads, lruHead, buckets, nodes', repr, 0);
    hide Structure;
  }

  // ----- the three changes of links

  method LinkNode(node: HashNode, heads: seq<Link>, lruHead: Link, b: nat,
                  ghost buckets: seq<seq<HashNode>>, ghost nodes: seq<HashNode>, ghost repr: set<object>)
    requires TableValid(heads, lruHead, buckets, nodes, repr) && b < MAX_HASH_SIZE
    requires node.list != node.lruList && node.list !in repr && node.lruList !in repr
    modifies Links(BucketRing(heads[b], buckets[b]))`next, Links(BucketRing(heads[b], buckets[b]))`prev
    modifies Links(LruRing(lruHead, nodes))`next, Links(LruRing(lruHead, nodes))`prev
    modifies node.list`next, node.list`prev, node.lruList`next, node.lruList`prev
    ensures Relinked(heads, lruHead, buckets, nodes, repr, b)
    ensures IsRing(BucketRing(heads[b], buckets[b]) + [node.list]) && IsRing(LruRing(lruHead, nodes) + [node.lruList])
  {
    hide Structure, NextExcept, PrevExcept, NoDuplicates;
    ghost var r, l := BucketRing(heads[b], buckets[b]), LruRing(lruHead, nodes);
    assert RingIn(r, repr);
    RingsAreApart(heads, lruHead, buckets, nodes, repr, b);
    LinkTwice(node.list, node.lruList, heads[b], lruHead, r, l);
    hide BucketRing, LruRing;
    assert forall x <- r :: x in repr;
  }

  lemma LinkPositions(head: Link, nodes: seq<HashNode>, i: nat)
    requires i < |nodes|
    ensures var r := BucketRing(head, nodes); i + 1 < |r| && r[i + 1] == nodes[i].list
    ensures var l := LruRing(head, nodes); i + 1 < |l| && l[i + 1] == nodes[i].lruList
  {
  }

  method UnlinkNode(node: HashNode, ghost b: nat, ghost i: nat, ghost j: nat, heads: seq<Link>, lruHead: Link,
                    ghost buckets: seq<seq<HashNode>>, ghost nodes: seq<HashNode>, ghost repr: set<object>)
    requires TableValid(heads, lruHead, buckets, nodes, repr) && b < MAX_HASH_SIZE
    requires j < |nodes| && nodes[j] == node && i < |buckets[b]| && buckets[b][i] == node
    modifies Links(BucketRing(heads[b], buckets[b]))`next, Links(BucketRing(heads[b], buckets[b]))`prev
    modifies Links(LruRing(lruHead, nodes))`next, Links(LruRing(lruHead, nodes))`prev
    ensures Relinked(heads, lruHead, buckets, nodes, repr, b)
    ensures IsRing(RemoveAt(BucketRing(heads[b], buckets[b]), i + 1))
    ensures IsRing(RemoveAt(LruRing(lruHead, nodes), j + 1))
  {
    hide Structure, IsRing, RemoveAt, NoDuplicates;
    ghost var r, l := BucketRing(heads[b], buckets[b]), LruRing(lruHead, nodes);
    LinkPositions(heads[b], buckets[b], i);
    LinkPositions(lruHead, nodes, j);
    assert RingIn(r, repr);
    hide BucketRing, LruRing;
    RingsAreApart(heads, lruHead, buckets, nodes, repr, b);
    UnlinkTwice(node.list, node.lruList, r, i + 1, l, j + 1);
  }

  method MoveNode(node: HashNode, ghost j: nat, heads: seq<Link>, lruHead: Link,
                  ghost buckets: seq<seq<HashNode>>, ghost nodes: seq<HashNode>, ghost repr: set<object>)
    requires TableValid(heads, lruHead, buckets, nodes, repr) && j < |nodes| && nodes[j] == node
    modifies Links(LruRing(lruHead, nodes))`next, Links(LruRing(lruHead, nodes))`prev
    ensures Relinked(heads, lruHead, buckets, nodes, repr, MAX_HASH_SIZE)
    ensures IsRing(RemoveAt(LruRing(lruHead, nodes), j + 1) + [node.lruList])
  {
    hide Structure, NextExcept, PrevExcept, NoDuplicates;
    ghost var l := LruRing(lruHead, nodes);
    RingsAreApart(heads, lruHead, buckets, nodes, repr, MAX_HASH_SIZE);
    ListMoveTail(node.lruList, lruHead, l, j + 1);
    hide BucketRing, LruRing;
  }

  // ----- a new table

  method NewHeads() returns (hs: seq<Link>)
    ensures |hs| == MAX_HASH_SIZE && NoDuplicates(hs)
    ensures forall h <- hs :: fresh(h) && h.owner == null && IsRing([h])
  {
    hs := [];
    while |hs| < MAX_HASH_SIZE
      invariant |hs| <= MAX_HASH_SIZE && NoDuplicates(hs)
      invariant forall h <- hs :: fresh(h) && h.owner == null && IsRing([h])
      decreases MAX_HASH_SIZE - |hs|
    {
      var h: Link := new ListHead(null);
      InitListHead(h);
      hs := hs + [h];
    }
  }

  lemma NewIsValid(heads: seq<Link>, lruHead: Link, repr: set<object>)
    requires |heads| == MAX_HASH_SIZE && NoDuplicates(heads) && lruHead !in heads
    requires lruHead in repr && lruHead.owner == null && IsRing([lruHead])
    requires forall h <- heads :: h in repr && h.owner == null && IsRing([h])
    ensures TableValid(heads, lruHead, seq(MAX_HASH_SIZE, _ => []), [], repr)
  {
    hide IsRing;
    assert LruRing(lruHead, []) == [lruHead];
    var buckets: seq<seq<HashNode>> := seq(MAX_HASH_SIZE, _ => []);
    forall b | 0 <= b < MAX_HASH_SIZE ensures BucketRing(heads[b], buckets[b]) == [heads[b]] {
    }
  }

  lemma EntryOfNode(nodes: seq<HashNode>, key: string, node: HashNode?) returns (j: nat)
    requires forall i, j :: 0 <= i < j < |nodes| ==> nodes[i].key != nodes[j].key
    requires node == null ==> forall n <- nodes :: n.key != key
    requires node != null ==> node in nodes && node.key == key
    ensures j == IndexOf(EntriesOf(nodes), key) && |EntriesOf(nodes)| == |nodes|
    ensures node != null ==> j < |nodes| && EntriesOf(nodes)[j] == Entry(key, node.value)
    ensures node == null ==> j == |nodes|
    ensures node != null ==> j < |nodes| && nodes[j] == node
  {
    j := IndexOf(EntriesOf(nodes), key);
    if node != null {
      var k :| 0 <= k < |nodes| && nodes[k] == node;
      assert EntriesOf(nodes)[k].key == key;
      assert j < |nodes| && nodes[j].key == key;
    }
  }

  lemma PositionInBucket(buckets: seq<seq<HashNode>>, nodes: seq<HashNode>, node: HashNode) returns (i: nat)
    requires Structure(buckets, nodes) && node in nodes
    ensures var b := Index(node.key); i < |buckets[b]| && buckets[b][i] == node
  {
    i :| 0 <= i < |buckets[Index(node.key)]| && buckets[Index(node.key)][i] == node;
  }

  // ----- what a valid table tells its operations

  lemma LinksInRepr(
      heads: seq<Link>, lruHead: Link, buckets: seq<seq<HashNode>>, nodes: seq<HashNode>, repr: set<object>, b: nat)
    requires TableValid(heads, lruHead, buckets, nodes, repr) && b < MAX_HASH_SIZE
    ensures Links(BucketRing(heads[b], buckets[b])) <= repr && Links(LruRing(lruHead, nodes)) <= repr
  {
    hide Structure, Owners, IsRing, Owned, BucketRing, LruRing;
    assert RingIn(BucketRing(heads[b], buckets[b]), repr);
  }

  lemma NodesAreKnown(
      heads: seq<Link>, lruHead: Link, buckets: seq<seq<HashNode>>, nodes: seq<HashNode>, repr: set<object>)
    requires TableValid(heads, lruHead, buckets, nodes, repr)
    ensures forall i, j :: 0 <= i < j < |nodes| ==> nodes[i].key != nodes[j].key
    ensures forall n <- nodes :: n in repr && n.key != "" && UsableKey(n.key)
    ensures Structure(buckets, nodes) && |buckets| == MAX_HASH_SIZE
  {
    hide RingIn, OtherRings, Owners;
  }

  lemma EntriesOfMore(nodes: seq<HashNode>, node: HashNode)
    ensures EntriesOf(nodes + [node]) == EntriesOf(nodes) + [Entry(node.key, node.value)]
  {
  }

  lemma EntriesOfFewer(nodes: seq<HashNode>, j: nat)
    requires j < |nodes|
    ensures EntriesOf(RemoveAt(nodes, j)) == RemoveAt(EntriesOf(nodes), j)
  {
    var l, r := EntriesOf(RemoveAt(nodes, j)), RemoveAt(EntriesOf(nodes), j);
    assert forall k :: 0 <= k < |l| ==> l[k] == r[k];
  }

  lemma RemoveFirst<T>(s: seq<T>, i: nat)
    requires i < |s|
    ensures RemoveAt(s[i..], 0) == s[i + 1..] && s[0..] == s
  {
  }

  class Table {
    const heads: seq<Link>
    const lruHead: Link
    var size: int

    /** The nodes of each bucket ring, and those of the recency ring, oldest first. */
    ghost var buckets: seq<seq<HashNode>>
    ghost var nodes: seq<HashNode>
    ghost var repr: set<object>

    ghost predicate Valid()
      reads this, repr
    {
      this !in repr && TableValid(heads, lruHead, buckets, nodes, repr)
    }

    /** The table as a list of entries, oldest first, with its counter. */
    ghost function Model(): State
      requires Valid()
      reads this, repr
    {
      State(EntriesOf(nodes), size)
    }

    /** `hash_init`. */
    constructor ()
      ensures Valid() && fresh(repr) && Model() == EMPTY
    {
      hide IsRing, TableValid, NoDuplicates;
      var hs := NewHeads();
      var l: Link := new ListHead(null);
      InitListHead(l);
      heads, lruHead, size := hs, l, 0;
      buckets, nodes := seq(MAX_HASH_SIZE, _ => []), [];
      repr := {l} + (set h | h in hs);
      new;
      NewIsValid(heads, lruHead, repr);
    }

    /** The node with a key, found by walking its bucket ring. */
    method FindNode(key: string) returns (node: HashNode?, ghost i: nat)
      requires Valid() && key != "" && UsableKey(key)
      ensures node == null ==> forall n <- nodes :: n.key != key
      ensures node != null ==> node in nodes && node.key == key
      ensures node != null ==> i < |buckets[Index(key)]| && buckets[Index(key)][i] == node
    {
      var b := Index(key);
      ghost var r := BucketRing(heads[b], buckets[b]);
      var p := heads[b].next;
      i := 0;
      assert r[0].next == r[Succ(0, |r|)];
      while p != heads[b]
        invariant i <= |buckets[b]| && p == r[Succ(i, |r|)]
        invariant forall j :: 0 <= j < i ==> buckets[b][j].key != key
        decreases |buckets[b]| - i
      {
        assert buckets[b][i] in buckets[b];
        var n := p.owner;
        if n.key == key {
          return n, i;
        }
        assert r[i + 1].next == r[Succ(i + 1, |r|)];
        p, i := p.next, i + 1;
      }
      node := null;
      assert i == |buckets[b]|;
      forall n <- nodes ensures n.key != key {
        assert n in buckets[Index(n.key)];
      }
    }

    // ----- changing the rings

    /** Linking a new node into its bucket ring and at the newest end of the recency ring. */
    method AppendNode(node: HashNode)
      requires Valid() && node.list.owner == node && node.lruList.owner == node && node.list != node.lruList
      requires node.key != "" && UsableKey(node.key) && node !in repr
      requires node.list !in repr && node.lruList !in repr
      requires forall n <- nodes :: n.key != node.key
      modifies this, repr, node.list`next, node.list`prev, node.lruList`next, node.lruList`prev
      ensures Valid() && repr == old(repr) + {node, node.list, node.lruList}
      ensures nodes == old(nodes) + [node] && size == old(size)
      ensures EntriesOf(nodes) == old(EntriesOf(nodes)) + [Entry(node.key, node.value)]
    {
      hide TableValid, Relinked, BucketRing, LruRing, IsRing, Links;
      var b := Index(node.key);
      TableSizes();
      LinksInRepr(heads, lruHead, buckets, nodes, repr, b);
      LinkNode(node, heads, lruHead, b, buckets, nodes, repr);
      AppendedIsValid(heads, lruHead, buckets, nodes, repr, node, b);
      EntriesOfMore(nodes, node);
      buckets := buckets[b := buckets[b] + [node]];
      nodes := nodes + [node];
      repr := repr + {node, node.list, node.lruList};
    }

    lemma TableSizes()
      requires Valid()
      ensures |heads| == |buckets| == MAX_HASH_SIZE && forall n <- nodes :: n in repr
    {
    }

    /** Taking a node out of both rings; the counter stays as it is. */
    method RemoveNode(node: HashNode, ghost i: nat, ghost j: nat)
      requires Valid() && j < |nodes| && nodes[j] == node && UsableKey(node.key) && node.key != ""
      requires |buckets| == MAX_HASH_SIZE
      requires var b := Index(node.key); i < |buckets[b]| && buckets[b][i] == node
      modifies this, repr
      ensures Valid() && repr == old(repr)
      ensures nodes == RemoveAt(old(nodes), j) && size == old(size)
      ensures EntriesOf(nodes) == RemoveAt(old(EntriesOf(nodes)), j)
    {
      hide TableValid, Relinked, BucketRing, LruRing, IsRing, Links;
      ghost var b := Index(node.key);
      TableSizes();
      LinksInRepr(heads, lruHead, buckets, nodes, repr, b);
      UnlinkNode(node, b, i, j, heads, lruHead, buckets, nodes, repr);
      RemovedIsValid(heads, lruHead, buckets, nodes, repr, b, i, j);
      EntriesOfFewer(nodes, j);
      buckets := buckets[b := RemoveAt(buckets[b], i)];
      nodes := RemoveAt(nodes, j);
    }

    /** `_hash_update_lru`. */
    method MoveToNewest(node: HashNode, ghost j: nat)
      requires Valid() && j < |nodes| && nodes[j] == node
      modifies this, repr
      ensures Valid() && repr == old(repr)
      ensures nodes == RemoveAt(old(nodes), j) + [node] && size == old(size)
      ensures var es := old(EntriesOf(nodes)); EntriesOf(nodes) == RemoveAt(es, j) + [es[j]]
    {
      hide TableValid, Relinked, BucketRing, LruRing, IsRing, Links;
      TableSizes();
      LinksInRepr(heads, lruHead, buckets, nodes, repr, 0);
      MoveNode(node, j, heads, lruHead, buckets, nodes, repr);
      MovedIsValid(heads, lruHead, buckets, nodes, repr, j);
      EntriesOfFewer(nodes, j);
      EntriesOfMore(RemoveAt(nodes, j), node);
      nodes := RemoveAt(nodes, j) + [node];
    }

    /** Replacing a value where it stands. */
    method Overwrite(node: HashNode, ghost j: nat, value: string)
      requires Valid() && j < |nodes| && nodes[j] == node
      modifies node`value
      ensures Valid() && EntriesOf(nodes) == old(EntriesOf(nodes))[j := Entry(node.key, value)]
    {
      node.value := value;
    }

    // ----- the operations

    /** `hash_add`; `value` is the copied payload. */
    method HashAdd(key: string, value: string)
      requires Valid() && UsableKey(key)
      modifies this, repr
      ensures Valid() && fresh(repr - old(repr)) && Model() == Add(old(Model()), key, value)
    {
      hide TableValid, Structure, IndexOf, EntriesOf, RemoveAt;
      if key == "" {
        return;
      }
      NodesAreKnown(heads, lruHead, buckets, nodes, repr);
      var node, i := FindNode(key);
      ghost var j := EntryOfNode(nodes, key, node);
      if node != null {
        Overwrite(node, j, value);
      } else {
        AddNew(key, value);
      }
    }

    method AddNew(key: string, value: string)
      requires Valid() && UsableKey(key) && key != "" && forall n <- nodes :: n.key != key
      modifies this, repr
      ensures Valid() && fresh(repr - old(repr))
      ensures Model() == State(old(Model()).entries + [Entry(key, value)], old(Model()).size + 1)
    {
      hide TableValid, Structure;
      TableSizes();
      var added := new HashNode(key, value);
      AppendNode(added);
      size := size + 1;
    }

    /** `hash_search`: a copy of the value, if there is one. */
    method HashSearch(key: string) returns (value: Option<string>)
      requires Valid() && UsableKey(key)
      modifies this, repr
      ensures Valid() && repr == old(repr)
      ensures Model() == Search(old(Model()), key) && value == Found(old(Model()), key)
    {
      hide TableValid, Structure, IndexOf, EntriesOf, RemoveAt;
      if key == "" {
        return None;
      }
      NodesAreKnown(heads, lruHead, buckets, nodes, repr);
      var node, i := FindNode(key);
      ghost var j := EntryOfNode(nodes, key, node);
      if node == null {
        return None;
      }
      value := Some(node.value);
      MoveToNewest(node, j);
    }

    /** `hash_del`. */
    method HashDel(key: string)
      requires Valid() && UsableKey(key)
      modifies this, repr
      ensures Valid() && repr == old(repr) && Model() == Delete(old(Model()), key)
    {
      hide TableValid, Structure, IndexOf, EntriesOf, RemoveAt;
      if key == "" {
        return;
      }
      NodesAreKnown(heads, lruHead, buckets, nodes, repr);
      var node, i := FindNode(key);
      ghost var j := EntryOfNode(nodes, key, node);
      if node != null {
        RemoveNode(node, i, j);
        size := size - 1;
      }
    }

    method HashSize() returns (s: int)
      requires Valid()
      ensures s == Model().size
    {
      s := size;
    }

    /** `hash_pop`; `unset` is what the variable `l` holds before it is first assigned. */
    method HashPop(len: int, unset: int)
      requires Valid()
      modifies this, repr
      ensures Valid() && repr == old(repr) && Model() == Pop(old(Model()), len, unset)
    {
      hide TableValid, Structure, RemoveAt, EntriesOf;
      if len == 0 {
        return;
      }
      var l := if len < 0 || unset > size then size else len;
      ghost var all, entries := nodes, EntriesOf(nodes);
      SameLength(nodes);
      var i := 0;
      var p := FirstNode();
      while p != null && i < l
        invariant Valid() && repr == old(repr) && size == old(size)
        invariant 0 <= i <= |all| && (i <= l || i == 0)
        invariant nodes == all[i..] && EntriesOf(nodes) == entries[i..]
        invariant p == if nodes == [] then null else nodes[0]
        decreases |all| - i
      {
        RemoveOldest(p);
        assert all[i..][1..] == all[i + 1..] && entries[i..][1..] == entries[i + 1..];
        i := i + 1;
        p := FirstNode();
      }
    }

    lemma SameLength(s: seq<HashNode>)
      ensures |EntriesOf(s)| == |s|
    {
    }

    method RemoveOldest(p: HashNode)
      requires Valid() && nodes != [] && p == nodes[0]
      modifies this, repr
      ensures Valid() && repr == old(repr) && size == old(size)
      ensures nodes == old(nodes)[1..] && EntriesOf(nodes) == old(EntriesOf(nodes))[1..]
    {
      hide TableValid, Structure, EntriesOf;
      NodesAreKnown(heads, lruHead, buckets, nodes, repr);
      SameLength(nodes);
      ghost var k := PositionInBucket(buckets, nodes, p);
      RemoveFirst(nodes, 0);
      RemoveFirst(EntriesOf(nodes), 0);
      RemoveNode(p, k, 0);
    }

    /** The node at the oldest end of the recency ring. */
    method FirstNode() returns (p: HashNode?)
      requires Valid()
      ensures p == if nodes == [] then null else nodes[0]
    {
      ghost var r := LruRing(lruHead, nodes);
      assert r[0].next == r[Succ(0, |r|)];
      p := lruHead.next.owner;
    }
  }

  /** Every live node is in the bucket ring that its key says, in no other one, and in the recency ring. */
  lemma ThreadedTwice(t: Table, n: HashNode, b: nat)
    requires t.Valid() && n in t.nodes && b < MAX_HASH_SIZE
    ensures IsRing(BucketRing(t.heads[b], t.buckets[b])) && IsRing(LruRing(t.lruHead, t.nodes))
    ensures n.list in BucketRing(t.heads[b], t.buckets[b]) <==> b == Index(n.key)
    ensures n.lruList in LruRing(t.lruHead, t.nodes)
  {
    var r, l := BucketRing(t.heads[b], t.buckets[b]), LruRing(t.lruHead, t.nodes);
    assert RingIn(r, t.repr);
    hide IsRing;
    if n.list in r {
      LinkBelongs(t.heads, t.lruHead, t.buckets, t.nodes, t.repr, b, n.list);
    }
    if b == Index(n.key) {
      var i := PositionInBucket(t.buckets, t.nodes, n);
      assert r[i + 1] == n.list;
    }
    var j :| 0 <= j < |t.nodes| && t.nodes[j] == n;
    assert l[j + 1] == n.lruList;
  }
}
