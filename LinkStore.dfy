/**
 * The direct-link table as values: what recording a half-edge, ingesting a relay
 * path and pruning at save time do to it, and the symmetry they keep.
 */
module LinkStore {
  import opened MeshTypes

  /** The half-edge `links[x][y]`, if there is one. */
  function Entry(links: LinkTable, x: string, y: string): Option<LinkInfo> {
    if x in links && y in links[x] then Some(links[x][y]) else None
  }

  /** The count recording starts from: a missing half-edge or a missing count is 0. */
  function PriorCount(e: Option<LinkInfo>): int {
    if e.Some? then e.value.count.GetOr(0) else 0
  }

  /** Every half-edge has its mirror image, with the same count and last-seen time. */
  ghost predicate Symmetric(links: LinkTable) {
    forall x, y :: Entry(links, x, y) == Entry(links, y, x)
  }

  /** `_record_direct_link(a, b, t)` on a table value. */
  function RecordLink(links: LinkTable, a: string, b: string, t: int): LinkTable {
    var inner := if a in links then links[a] else map[];
    var e := if b in inner then LinkInfo(Some(t), Some(inner[b].count.GetOr(0) + 1))
             else LinkInfo(Some(t), Some(1));
    links[a := inner[b := e]]
  }

  /**
   * Recording a -> b at `t` sets that half-edge's last-seen to `t` and raises
   * its count by one (from 0 when new or countless); every other half-edge is
   * unchanged, and `a` becomes a source.
   */
  lemma RecordLinkEntry(links: LinkTable, a: string, b: string, t: int, x: string, y: string)
    ensures Entry(RecordLink(links, a, b, t), x, y)
            == if x == a && y == b then Some(LinkInfo(Some(t), Some(PriorCount(Entry(links, a, b)) + 1)))
               else Entry(links, x, y)
    ensures RecordLink(links, a, b, t).Keys == links.Keys + {a}
  {
  }

  /** How often recording the pair (a, b) in both directions touches the half-edge x -> y. */
  function PairHits(a: string, b: string, x: string, y: string): nat {
    (if a == x && b == y then 1 else 0) + (if b == x && a == y then 1 else 0)
  }

  /** How often ingesting `nodes` touches the half-edge x -> y. */
  function Hits(nodes: seq<string>, x: string, y: string): nat
    decreases |nodes|
  {
    if |nodes| < 2 then 0
    else Hits(nodes[..|nodes| - 1], x, y)
         + PairHits(Lower(nodes[|nodes| - 2]), Lower(nodes[|nodes| - 1]), x, y)
  }

  /**
   * The table after `_process_rx_log_data` saw the relay path `nodes` at time `t`:
   * every consecutive lower-cased pair recorded in both directions, in path order.
   */
  function Ingest(links: LinkTable, nodes: seq<string>, t: int): LinkTable
    decreases |nodes|
  {
    if |nodes| < 2 then links
    else
      var before := Ingest(links, nodes[..|nodes| - 1], t);
      var a, b := Lower(nodes[|nodes| - 2]), Lower(nodes[|nodes| - 1]);
      RecordLink(RecordLink(before, a, b, t), b, a, t)
  }

  /**
   * What ingesting a path does to any one half-edge: untouched half-edges keep
   * their value (in particular, no pair that is not adjacent in the path is
   * created); a touched one gets last-seen `t` and its count raised by the number
   * of times it was touched.
   */
  lemma {:induction false} IngestEntry(links: LinkTable, nodes: seq<string>, t: int, x: string, y: string)
    ensures Entry(Ingest(links, nodes, t), x, y)
            == if Hits(nodes, x, y) == 0 then Entry(links, x, y)
               else Some(LinkInfo(Some(t), Some(PriorCount(Entry(links, x, y)) + Hits(nodes, x, y))))
    decreases |nodes|
  {
    if |nodes| >= 2 {
      var init := nodes[..|nodes| - 1];
      IngestEntry(links, init, t, x, y);
      RecordPairEntry(Ingest(links, init, t), Lower(nodes[|nodes| - 2]), Lower(nodes[|nodes| - 1]), t, x, y);
    }
  }

  /** Recording the pair (a, b) in both directions touches x -> y `PairHits` times. */
  lemma RecordPairEntry(links: LinkTable, a: string, b: string, t: int, x: string, y: string)
    ensures var h := PairHits(a, b, x, y);
            Entry(RecordLink(RecordLink(links, a, b, t), b, a, t), x, y)
            == if h == 0 then Entry(links, x, y) else Some(LinkInfo(Some(t), Some(PriorCount(Entry(links, x, y)) + h)))
  {
    var mid := RecordLink(links, a, b, t);
    RecordLinkEntry(links, a, b, t, x, y);
    RecordLinkEntry(mid, b, a, t, x, y);
    RecordLinkEntry(links, a, b, t, b, a);
  }

  /** A path touches x -> y exactly as often as y -> x. */
  lemma {:induction false} HitsSymmetric(nodes: seq<string>, x: string, y: string)
    ensures Hits(nodes, x, y) == Hits(nodes, y, x)
    decreases |nodes|
  {
    if |nodes| >= 2 {
      HitsSymmetric(nodes[..|nodes| - 1], x, y);
    }
  }

  /** Ingesting a path keeps a symmetric table symmetric. */
  lemma {:induction false} IngestKeepsSymmetry(links: LinkTable, nodes: seq<string>, t: int)
    requires Symmetric(links)
    ensures Symmetric(Ingest(links, nodes, t))
  {
    var r := Ingest(links, nodes, t);
    forall x, y ensures Entry(r, x, y) == Entry(r, y, x) {
      assert Entry(links, x, y) == Entry(links, y, x);
      IngestMirror(links, nodes, t, x, y);
    }
  }

  /** A half-edge and its mirror image that agree before ingesting a path agree after it. */
  lemma IngestMirror(links: LinkTable, nodes: seq<string>, t: int, x: string, y: string)
    requires Entry(links, x, y) == Entry(links, y, x)
    ensures Entry(Ingest(links, nodes, t), x, y) == Entry(Ingest(links, nodes, t), y, x)
  {
    IngestEntry(links, nodes, t, x, y);
    IngestEntry(links, nodes, t, y, x);
    HitsSymmetric(nodes, x, y);
  }

  /**
   * A three-node path x, y, z seen at 1000: both adjacent pairs exist in both
   * directions, counted once, last seen at 1000.
   */
  lemma ThreeNodePathOnce(x: string, y: string, z: string)
    requires Lower(x) == x && Lower(y) == y && Lower(z) == z
    requires x != y && y != z && x != z
    ensures var once := Ingest(map[], [x, y, z], 1000);
            && Entry(once, x, y) == Entry(once, y, x) == Some(LinkInfo(Some(1000), Some(1)))
            && Entry(once, y, z) == Entry(once, z, y) == Some(LinkInfo(Some(1000), Some(1)))
  {
    AdjacentPairCounted(x, y, z, x, y);
    AdjacentPairCounted(x, y, z, y, x);
    AdjacentPairCounted(x, y, z, y, z);
    AdjacentPairCounted(x, y, z, z, y);
  }

  /**
   * The same path seen again at 2000: both adjacent pairs are counted twice and
   * last seen at 2000.
   */
  lemma ThreeNodePathTwice(x: string, y: string, z: string)
    requires Lower(x) == x && Lower(y) == y && Lower(z) == z
    requires x != y && y != z && x != z
    ensures var twice := Ingest(Ingest(map[], [x, y, z], 1000), [x, y, z], 2000);
            && Entry(twice, x, y) == Entry(twice, y, x) == Some(LinkInfo(Some(2000), Some(2)))
            && Entry(twice, y, z) == Entry(twice, z, y) == Some(LinkInfo(Some(2000), Some(2)))
  {
    AdjacentPairCounted(x, y, z, x, y);
    AdjacentPairCounted(x, y, z, y, x);
    AdjacentPairCounted(x, y, z, y, z);
    AdjacentPairCounted(x, y, z, z, y);
  }

  /** One adjacent pair of a three-node path, in either direction, seen at 1000 and again at 2000. */
  lemma AdjacentPairCounted(x: string, y: string, z: string, u: string, v: string)
    requires Lower(x) == x && Lower(y) == y && Lower(z) == z
    requires x != y && y != z && x != z
    requires (u, v) == (x, y) || (u, v) == (y, x) || (u, v) == (y, z) || (u, v) == (z, y)
    ensures var once := Ingest(map[], [x, y, z], 1000);
            && Entry(once, u, v) == Some(LinkInfo(Some(1000), Some(1)))
            && Entry(Ingest(once, [x, y, z], 2000), u, v) == Some(LinkInfo(Some(2000), Some(2)))
  {
    HitsThree(x, y, z, u, v);
    assert Hits([x, y, z], u, v) == 1;
    IngestTwice(map[], [x, y, z], 1000, 2000, u, v);
  }

  /** The ends of a three-node path are never linked, however often it is seen. */
  lemma ThreeNodeEndsUnlinked(x: string, y: string, z: string)
    requires Lower(x) == x && Lower(y) == y && Lower(z) == z
    requires x != y && y != z && x != z
    ensures var twice := Ingest(Ingest(map[], [x, y, z], 1000), [x, y, z], 2000);
            Entry(twice, x, z) == Entry(twice, z, x) == None
  {
    var path := [x, y, z];
    HitsThree(x, y, z, x, z);
    HitsThree(x, y, z, z, x);
    IngestTwice(map[], path, 1000, 2000, x, z);
    IngestTwice(map[], path, 1000, 2000, z, x);
  }

  /**
   * A half-edge absent from the table, after the same path is seen at `t1`
   * and then at `t2`: absent if the path does not touch it, else last seen at
   * `t2` and counted twice as often as the path touches it.
   */
  lemma IngestTwice(links: LinkTable, nodes: seq<string>, t1: int, t2: int, u: string, v: string)
    requires Entry(links, u, v).None?
    ensures var h := Hits(nodes, u, v);
            var once := Ingest(links, nodes, t1);
            && Entry(once, u, v) == (if h == 0 then None else Some(LinkInfo(Some(t1), Some(h))))
            && Entry(Ingest(once, nodes, t2), u, v) == (if h == 0 then None else Some(LinkInfo(Some(t2), Some(2 * h))))
  {
    var h := Hits(nodes, u, v);
    var once := Ingest(links, nodes, t1);
    IngestEntry(links, nodes, t1, u, v);
    assert PriorCount(Entry(once, u, v)) == h;
    IngestEntry(once, nodes, t2, u, v);
    assert h == 0 ==> Entry(once, u, v).None?;
  }

  /** A three-node path touches u -> v once per adjacent pair it joins, in either direction. */
  lemma HitsThree(x: string, y: string, z: string, u: string, v: string)
    requires Lower(x) == x && Lower(y) == y && Lower(z) == z
    ensures Hits([x, y, z], u, v) == PairHits(x, y, u, v) + PairHits(y, z, u, v)
  {
    var path := [x, y, z];
    assert path[..2] == [x, y] && [x, y][..1] == [x];
    assert Hits([x, y], u, v) == PairHits(x, y, u, v);
  }

  /** A half-edge survives a save at `now` when it is at most 7 days old; a missing last-seen counts as 0. */
  predicate Retained(e: LinkInfo, now: int) {
    now - e.lastSeen.GetOr(0) <= RetentionSeconds
  }

  /** The half-edges of one source that survive a save. */
  function KeptLinks(connections: map<string, LinkInfo>, now: int): map<string, LinkInfo> {
    map b | b in connections && Retained(connections[b], now) :: connections[b]
  }

  /** The table `_save_persisted_data` keeps at `now`. */
  function Pruned(links: LinkTable, now: int): LinkTable {
    PrunedFrom(links, links.Keys, now)
  }

  /** The pruned entries of the sources `sources` only. */
  function PrunedFrom(links: LinkTable, sources: set<string>, now: int): LinkTable {
    map a | a in sources && a in links && KeptLinks(links[a], now) != map[] :: KeptLinks(links[a], now)
  }

  /** Pruning one more source adds its kept half-edges, unless none is kept. */
  lemma PrunedFromStep(links: LinkTable, sources: set<string>, a: string, now: int)
    requires a in links && a !in sources
    ensures PrunedFrom(links, sources + {a}, now)
            == if KeptLinks(links[a], now) == map[] then PrunedFrom(links, sources, now)
               else PrunedFrom(links, sources, now)[a := KeptLinks(links[a], now)]
  {
    var r := PrunedFrom(links, sources + {a}, now);
    var p := PrunedFrom(links, sources, now);
    if KeptLinks(links[a], now) == map[] {
      assert r.Keys == p.Keys;
    } else {
      assert r.Keys == p.Keys + {a};
    }
  }

  /**
   * Pruning keeps exactly the half-edges seen within the retention period (a
   * missing last-seen counts as 0) and drops a source left without half-edges.
   */
  lemma PrunedEntry(links: LinkTable, now: int)
    ensures var r := Pruned(links, now);
            && (forall x, y :: Entry(r, x, y)
                                == if Entry(links, x, y).Some? && Retained(Entry(links, x, y).value, now)
                                   then Entry(links, x, y) else None)
            && (forall x :: x in r ==> r[x] != map[])
  {
    assert forall x, y | Entry(links, x, y).Some? && Retained(Entry(links, x, y).value, now) :: y in KeptLinks(links[x], now);
  }

  /** Pruning keeps a symmetric table symmetric: mirror half-edges share their last-seen time. */
  lemma PrunedKeepsSymmetry(links: LinkTable, now: int)
    requires Symmetric(links)
    ensures Symmetric(Pruned(links, now))
  {
    PrunedEntry(links, now);
  }

  /** The last-message times `_save_persisted_data` keeps at `now`: those at most 7 days old. */
  function PrunedMessages(times: map<string, int>, now: int): (r: map<string, int>)
    ensures forall k :: k in r <==> k in times && now - times[k] <= RetentionSeconds
    ensures forall k :: k in r ==> r[k] == times[k]
  {
    map k | k in times && now - times[k] <= RetentionSeconds :: times[k]
  }
}
