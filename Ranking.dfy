/**
 * The per-node tallies both the heatmap and the direct-links export build: a
 * dictionary keyed by the resolved pubkey, whose entry keeps the node seen first
 * and a counter, listed in insertion order and then sorted by the counter,
 * highest first, as `sorted(node_data.values(), key=..., reverse=True)` does.
 */
module Ranking {
  import opened MeshTypes

  /** One entry of `node_data`: the node as first resolved and its counter. */
  datatype Tallied = Tallied(node: NodeInfo, count: nat)

  /** How many of `infos` resolved to the pubkey `pk`. */
  function Occ(infos: seq<NodeInfo>, pk: string): nat
    decreases |infos|
  {
    if infos == [] then 0
    else Occ(infos[..|infos| - 1], pk) + (if infos[|infos| - 1].pubkey == pk then 1 else 0)
  }

  /** The position of the entry for `pk` (`pk in node_data`), or -1. */
  function KeyIndex(entries: seq<Tallied>, pk: string): (k: int)
    ensures -1 <= k < |entries|
    ensures k >= 0 ==> entries[k].node.pubkey == pk
    ensures k < 0 ==> forall i :: 0 <= i < |entries| ==> entries[i].node.pubkey != pk
    decreases |entries|
  {
    if entries == [] then -1
    else if entries[0].node.pubkey == pk then 0
    else
      var k := KeyIndex(entries[1..], pk);
      if k < 0 then -1 else k + 1
  }

  /** One visit of a resolved node: a new entry with counter 0 if needed, then the counter raised by 1. */
  function Bump(entries: seq<Tallied>, info: NodeInfo): seq<Tallied> {
    var k := KeyIndex(entries, info.pubkey);
    if k < 0 then entries + [Tallied(info, 1)]
    else entries[k := entries[k].(count := entries[k].count + 1)]
  }

  /**
   * `entries` tallies `infos`: one entry per pubkey, each holding a node that
   * resolved to that pubkey and counting how many of `infos` did, and an entry
   * for every pubkey that occurs.
   */
  predicate Tallies(entries: seq<Tallied>, infos: seq<NodeInfo>) {
    && (forall i, j :: 0 <= i < j < |entries| ==> entries[i].node.pubkey != entries[j].node.pubkey)
    && (forall i :: 0 <= i < |entries| ==> entries[i].count == Occ(infos, entries[i].node.pubkey) && entries[i].node in infos)
    && (forall x :: x in infos ==> KeyIndex(entries, x.pubkey) >= 0)
  }

  /** `node_data` after visiting `infos` in order. */
  function Tally(infos: seq<NodeInfo>): seq<Tallied>
    decreases |infos|
  {
    if infos == [] then []
    else Bump(Tally(infos[..|infos| - 1]), infos[|infos| - 1])
  }

  /** The tally of `infos` holds one entry per pubkey, counting its occurrences in `infos`. */
  lemma {:induction false} TallyExact(infos: seq<NodeInfo>)
    ensures Tallies(Tally(infos), infos)
    decreases |infos|
  {
    if infos != [] {
      var init := infos[..|infos| - 1];
      TallyExact(init);
      BumpTallies(Tally(init), init, infos[|infos| - 1]);
      assert init + [infos[|infos| - 1]] == infos;
    }
  }

  /** The tally of one more visited node is the old tally with that node counted once more. */
  lemma TallyStep(infos: seq<NodeInfo>, x: NodeInfo)
    ensures Tally(infos + [x]) == Bump(Tally(infos), x)
  {
    assert (infos + [x])[..|infos|] == infos;
  }

  /** Visiting one more node keeps the tally exact. */
  lemma BumpTallies(entries: seq<Tallied>, infos: seq<NodeInfo>, x: NodeInfo)
    requires Tallies(entries, infos)
    ensures Tallies(Bump(entries, x), infos + [x])
  {
    BumpKeepsKeysDistinct(entries, x);
    BumpCounts(entries, infos, x);
    BumpCovers(entries, infos, x);
  }

  /** Counting a node never creates a second entry for a pubkey. */
  lemma BumpKeepsKeysDistinct(entries: seq<Tallied>, x: NodeInfo)
    requires forall i, j :: 0 <= i < j < |entries| ==> entries[i].node.pubkey != entries[j].node.pubkey
    ensures var r := Bump(entries, x);
            forall i, j :: 0 <= i < j < |r| ==> r[i].node.pubkey != r[j].node.pubkey
  {
  }

  /** Counting a node keeps every entry's count equal to its pubkey's occurrences. */
  lemma BumpCounts(entries: seq<Tallied>, infos: seq<NodeInfo>, x: NodeInfo)
    requires Tallies(entries, infos)
    ensures var r := Bump(entries, x);
            forall i :: 0 <= i < |r| ==> r[i].count == Occ(infos + [x], r[i].node.pubkey) && r[i].node in infos + [x]
  {
    var all := infos + [x];
    assert all[..|infos|] == infos;
    assert forall pk :: Occ(all, pk) == Occ(infos, pk) + (if x.pubkey == pk then 1 else 0);
    var r := Bump(entries, x);
    var k := KeyIndex(entries, x.pubkey);
    if k < 0 {
      forall y | y in infos ensures y.pubkey != x.pubkey {
        assert KeyIndex(entries, y.pubkey) >= 0;
      }
      OccAbsent(infos, x.pubkey);
    }
    forall i | 0 <= i < |r| ensures r[i].count == Occ(all, r[i].node.pubkey) && r[i].node in all {
      if i < |entries| && i != k {
        assert r[i] == entries[i];
      }
    }
  }

  /** Counting a node leaves an entry for every pubkey visited so far and for the node's own. */
  lemma BumpCovers(entries: seq<Tallied>, infos: seq<NodeInfo>, x: NodeInfo)
    requires forall y :: y in infos ==> KeyIndex(entries, y.pubkey) >= 0
    ensures forall y :: y in infos + [x] ==> KeyIndex(Bump(entries, x), y.pubkey) >= 0
  {
    var r := Bump(entries, x);
    var k := KeyIndex(entries, x.pubkey);
    forall y | y in infos + [x] ensures KeyIndex(r, y.pubkey) >= 0 {
      var j := if y in infos then KeyIndex(entries, y.pubkey) else if k < 0 then |entries| else k;
      assert r[j].node.pubkey == y.pubkey;
    }
  }

  /** A pubkey no node resolved to occurs 0 times. */
  lemma {:induction false} OccAbsent(infos: seq<NodeInfo>, pk: string)
    requires forall y :: y in infos ==> y.pubkey != pk
    ensures Occ(infos, pk) == 0
    decreases |infos|
  {
    if infos != [] {
      var init := infos[..|infos| - 1];
      assert forall y :: y in init ==> y in infos;
      OccAbsent(init, pk);
    }
  }

  /** The first of `infos` that resolved to the pubkey `pk`, if any. */
  function FirstWith(infos: seq<NodeInfo>, pk: string): Option<NodeInfo>
    decreases |infos|
  {
    if infos == [] then None
    else if infos[0].pubkey == pk then Some(infos[0])
    else FirstWith(infos[1..], pk)
  }

  /** Every entry keeps the node as first resolved for its pubkey (`node_data[key] = {...}` runs once per key). */
  predicate FirstNodes(entries: seq<Tallied>, infos: seq<NodeInfo>) {
    forall i :: 0 <= i < |entries| ==> FirstWith(infos, entries[i].node.pubkey) == Some(entries[i].node)
  }

  /** The first node for `pk` after one more visit: the old first one, else the visited node if it has that pubkey. */
  lemma {:induction false} FirstWithSnoc(infos: seq<NodeInfo>, x: NodeInfo, pk: string)
    ensures FirstWith(infos + [x], pk)
            == if FirstWith(infos, pk).Some? then FirstWith(infos, pk) else if x.pubkey == pk then Some(x) else None
    decreases |infos|
  {
    if infos != [] {
      assert (infos + [x])[1..] == infos[1..] + [x];
      FirstWithSnoc(infos[1..], x, pk);
    }
  }

  /** No node resolved to a pubkey that does not occur. */
  lemma {:induction false} FirstWithAbsent(infos: seq<NodeInfo>, pk: string)
    requires forall y :: y in infos ==> y.pubkey != pk
    ensures FirstWith(infos, pk) == None
    decreases |infos|
  {
    if infos != [] {
      assert infos[0] in infos;
      assert forall y :: y in infos[1..] ==> y in infos;
      FirstWithAbsent(infos[1..], pk);
    }
  }

  /** The tally of `infos` keeps, for each pubkey, the node that first resolved to it. */
  lemma {:induction false} TallyFirstNodes(infos: seq<NodeInfo>)
    ensures FirstNodes(Tally(infos), infos)
    decreases |infos|
  {
    if infos != [] {
      var init := infos[..|infos| - 1];
      TallyFirstNodes(init);
      TallyExact(init);
      BumpFirstNodes(Tally(init), init, infos[|infos| - 1]);
      assert init + [infos[|infos| - 1]] == infos;
    }
  }

  /** Counting one more visit keeps every entry's node the first resolved for its pubkey. */
  lemma BumpFirstNodes(entries: seq<Tallied>, infos: seq<NodeInfo>, x: NodeInfo)
    requires Tallies(entries, infos) && FirstNodes(entries, infos)
    ensures FirstNodes(Bump(entries, x), infos + [x])
  {
    var k := KeyIndex(entries, x.pubkey);
    var r := Bump(entries, x);
    if k < 0 {
      forall y | y in infos ensures y.pubkey != x.pubkey {
        assert KeyIndex(entries, y.pubkey) >= 0;
      }
      FirstWithAbsent(infos, x.pubkey);
    }
    forall i | 0 <= i < |r| ensures FirstWith(infos + [x], r[i].node.pubkey) == Some(r[i].node) {
      FirstWithSnoc(infos, x, r[i].node.pubkey);
      if i < |entries| {
        assert r[i].node == entries[i].node;
      }
    }
  }

  /** Counters never increase along `s`. */
  predicate NonIncreasing(s: seq<Tallied>) {
    forall i, j :: 0 <= i < j < |s| ==> s[i].count >= s[j].count
  }

  /** Inserts `x` before the first entry whose counter is not above its own. */
  function Insert(x: Tallied, ys: seq<Tallied>): (r: seq<Tallied>)
    requires NonIncreasing(ys)
    ensures multiset(r) == multiset(ys) + multiset{x}
    ensures NonIncreasing(r)
    decreases |ys|
  {
    if ys == [] || ys[0].count <= x.count then
      PrependKeepsOrder(x, ys);
      [x] + ys
    else
      var rest := Insert(x, ys[1..]);
      assert ys == [ys[0]] + ys[1..];
      HeadBound(ys[0], rest, ys[1..], x);
      PrependKeepsOrder(ys[0], rest);
      [ys[0]] + rest
  }

  /** An entry whose counter bounds every counter of a non-increasing list can go in front of it. */
  lemma PrependKeepsOrder(h: Tallied, s: seq<Tallied>)
    requires NonIncreasing(s)
    requires s == [] || s[0].count <= h.count
    ensures NonIncreasing([h] + s)
  {
    var r := [h] + s;
    forall i, j | 0 <= i < j < |r| ensures r[i].count >= r[j].count {
      if i > 0 {
        assert r[i] == s[i - 1] && r[j] == s[j - 1];
      } else {
        assert r[j] == s[j - 1];
      }
    }
  }

  /** Every entry of `rest`, a rearrangement of `tail` and `x`, has a counter at most `h`'s. */
  lemma HeadBound(h: Tallied, rest: seq<Tallied>, tail: seq<Tallied>, x: Tallied)
    requires multiset(rest) == multiset(tail) + multiset{x}
    requires x.count < h.count
    requires forall i :: 0 <= i < |tail| ==> tail[i].count <= h.count
    ensures rest == [] || rest[0].count <= h.count
  {
    if rest != [] {
      assert rest[0] in multiset(rest);
      if rest[0] != x {
        assert rest[0] in multiset(tail);
      }
    }
  }

  /** `sorted(entries, key=count, reverse=True)`: the same entries, counters non-increasing. */
  function SortByCount(entries: seq<Tallied>): (r: seq<Tallied>)
    ensures multiset(r) == multiset(entries)
    ensures NonIncreasing(r)
    decreases |entries|
  {
    if entries == [] then []
    else
      assert entries == [entries[0]] + entries[1..];
      Insert(entries[0], SortByCount(entries[1..]))
  }
}
