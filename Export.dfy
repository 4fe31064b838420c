/**
 * What the three exports compute, as values: the heatmap's use counts, the
 * nodemap's entries and the direct-links graph with its merged links.
 */
module Export {
  import opened MeshTypes
  import opened Resolver
  import opened Ranking

  const DefaultHeatmapHours: real := 168.0
  const DefaultAdvertHours: real := 12.0

  /**
   * `_get_threshold_hours`: the setting's numeric value when the entity exists
   * and its state parses as a number (`setting` is then `Some`), else the default.
   */
  function ThresholdHours(setting: Option<real>, default: real): (hours: real)
    ensures setting.Some? ==> hours == setting.value
    ensures setting.None? ==> hours == default
  {
    setting.GetOr(default)
  }

  // ---------------------------------------------------------------- heatmap

  /** A hops sensor the heatmap reads: it has a last-message time within the window. */
  predicate HopInWindow(s: EntityState, now: int, hours: real) {
    s.isHopsSensor && s.lastMessageTime != 0 && InWindow(now, s.lastMessageTime, hours)
  }

  /** The nodes the prefixes of a path resolve to, in path order; unresolved prefixes are skipped. */
  function ResolvedPath(nodes: seq<string>, states: seq<EntityState>): (r: seq<NodeInfo>)
    ensures |r| <= |nodes|
    decreases |nodes|
  {
    if nodes == [] then []
    else
      var init := nodes[..|nodes| - 1];
      ResolvedPath(init, states)
      + match Resolve(nodes[|nodes| - 1], states) case Some(x) => [x] case None => []
  }

  /** Every node on a resolved path is what one of the path's prefixes resolves to. */
  lemma {:induction false} ResolvedPathSound(nodes: seq<string>, states: seq<EntityState>, x: NodeInfo)
    requires x in ResolvedPath(nodes, states)
    ensures exists j :: 0 <= j < |nodes| && Resolve(nodes[j], states) == Some(x)
    decreases |nodes|
  {
    var init := nodes[..|nodes| - 1];
    if x in ResolvedPath(init, states) {
      ResolvedPathSound(init, states, x);
      var j :| 0 <= j < |init| && Resolve(init[j], states) == Some(x);
      assert nodes[j] == init[j];
    } else {
      assert Resolve(nodes[|nodes| - 1], states) == Some(x);
    }
  }

  /** Resolving one more path node appends what it resolves to, if anything. */
  lemma ResolvedPathPrefix(nodes: seq<string>, j: int, states: seq<EntityState>)
    requires 0 <= j < |nodes|
    ensures Resolve(nodes[j], states).Some? ==>
              ResolvedPath(nodes[..j + 1], states) == ResolvedPath(nodes[..j], states) + [Resolve(nodes[j], states).value]
    ensures Resolve(nodes[j], states).None? ==> ResolvedPath(nodes[..j + 1], states) == ResolvedPath(nodes[..j], states)
  {
    assert nodes[..j + 1][..j] == nodes[..j];
    assert ResolvedPath(nodes[..j], states) + [] == ResolvedPath(nodes[..j], states);
  }

  /**
   * Every node a path node of an in-window hops sensor among `hops` resolves to,
   * in visiting order; `states` is the host's whole state list the resolver reads.
   */
  function HeatUses(hops: seq<EntityState>, states: seq<EntityState>, now: int, hours: real): seq<NodeInfo>
    decreases |hops|
  {
    if hops == [] then []
    else
      var s := hops[|hops| - 1];
      HeatUses(hops[..|hops| - 1], states, now, hours)
      + if HopInWindow(s, now, hours) then ResolvedPath(s.pathNodes, states) else []
  }

  /** Taking one more sensor into account appends its resolved path when it is in the window. */
  lemma HeatUsesPrefix(hops: seq<EntityState>, i: int, states: seq<EntityState>, now: int, hours: real)
    requires 0 <= i < |hops|
    ensures HeatUses(hops[..i + 1], states, now, hours)
            == HeatUses(hops[..i], states, now, hours)
               + if HopInWindow(hops[i], now, hours) then ResolvedPath(hops[i].pathNodes, states) else []
  {
    assert hops[..i + 1][..i] == hops[..i];
  }

  /** How often the path nodes of one hops sensor resolve to `pk`, when it is in the window. */
  function SensorUses(s: EntityState, states: seq<EntityState>, now: int, hours: real, pk: string): nat {
    if HopInWindow(s, now, hours) then Occ(ResolvedPath(s.pathNodes, states), pk) else 0
  }

  /** `Occ` of a concatenation adds up. */
  lemma {:induction false} OccAppend(xs: seq<NodeInfo>, ys: seq<NodeInfo>, pk: string)
    ensures Occ(xs + ys, pk) == Occ(xs, pk) + Occ(ys, pk)
    decreases |ys|
  {
    if ys == [] {
      assert xs + ys == xs;
    } else {
      var init := ys[..|ys| - 1];
      assert (xs + ys)[..|xs + ys| - 1] == xs + init;
      OccAppend(xs, init, pk);
    }
  }

  /**
   * The heatmap's `use_count` for `pk` adds up per hops sensor: the last sensor
   * adds the uses of its own path, and an out-of-window sensor adds nothing.
   */
  lemma HeatUsesStep(hops: seq<EntityState>, states: seq<EntityState>, now: int, hours: real, pk: string)
    requires hops != []
    ensures Occ(HeatUses(hops, states, now, hours), pk)
            == Occ(HeatUses(hops[..|hops| - 1], states, now, hours), pk)
               + SensorUses(hops[|hops| - 1], states, now, hours, pk)
  {
    var s := hops[|hops| - 1];
    OccAppend(HeatUses(hops[..|hops| - 1], states, now, hours),
              if HopInWindow(s, now, hours) then ResolvedPath(s.pathNodes, states) else [], pk);
  }

  // ---------------------------------------------------------------- nodemap

  /** One node of the nodemap; `age_hours` is not modelled. */
  datatype MapNode = MapNode(name: string, lat: real, lon: real, nodeType: string)

  /** The nodemap entry a state contributes: a contact sensor advertised within the window, with both coordinates. */
  function NodemapEntry(s: EntityState, now: int, hours: real): Option<MapNode> {
    if s.isContactSensor && s.lastAdvert != 0 && InWindow(now, s.lastAdvert, hours)
       && Lat(s).Some? && Lon(s).Some?
    then Some(MapNode(DisplayName(s), Lat(s).value, Lon(s).value, NodeType(s)))
    else None
  }

  /** The nodemap's node list: one entry per qualifying record, in record order. */
  function Nodemap(states: seq<EntityState>, now: int, hours: real): (r: seq<MapNode>)
    ensures |r| <= |states|
    ensures forall x :: x in r ==> exists i :: 0 <= i < |states| && NodemapEntry(states[i], now, hours) == Some(x)
    decreases |states|
  {
    if states == [] then []
    else
      var init := states[..|states| - 1];
      assert forall i :: 0 <= i < |init| ==> init[i] == states[i];
      Nodemap(init, now, hours)
      + match NodemapEntry(states[|states| - 1], now, hours) case Some(x) => [x] case None => []
  }

  /**
   * The nodemap does not merge records: the entries for two runs of records are
   * those of the first run followed by those of the second.
   */
  lemma {:induction false} NodemapAppend(s1: seq<EntityState>, s2: seq<EntityState>, now: int, hours: real)
    ensures Nodemap(s1 + s2, now, hours) == Nodemap(s1, now, hours) + Nodemap(s2, now, hours)
    decreases |s2|
  {
    if s2 == [] {
      assert s1 + s2 == s1;
    } else {
      var init := s2[..|s2| - 1];
      assert (s1 + s2)[..|s1 + s2| - 1] == s1 + init;
      NodemapAppend(s1, init, now, hours);
    }
  }

  /** A single record contributes its own entry, or none. */
  lemma NodemapOne(s: EntityState, now: int, hours: real)
    ensures Nodemap([s], now, hours) == match NodemapEntry(s, now, hours) case Some(x) => [x] case None => []
  {
    assert [s][..0] == [];
  }

  /** Every qualifying record has its entry in the nodemap. */
  lemma {:induction false} NodemapComplete(states: seq<EntityState>, now: int, hours: real, i: int)
    requires 0 <= i < |states| && NodemapEntry(states[i], now, hours).Some?
    ensures NodemapEntry(states[i], now, hours).value in Nodemap(states, now, hours)
    decreases |states|
  {
    var init := states[..|states| - 1];
    if i < |init| {
      assert init[i] == states[i];
      NodemapComplete(init, now, hours, i);
    }
  }

  // ---------------------------------------------------------------- direct links

  /** A half-edge a -> b that made it into the direct-links export, with both ends resolved. */
  datatype Contribution = Contribution(a: string, b: string, src: NodeInfo, dst: NodeInfo, count: int)

  /** An exported link; `from` and `to` come from the first half-edge seen for the pair. */
  datatype Link = Link(from: NodeInfo, to: NodeInfo, count: int)

  /**
   * What the half-edge `links[a][b]` contributes: nothing when `a` does not
   * resolve, when it was last seen outside the window (a missing last-seen
   * counts as 0) or when `b` does not resolve; its count defaults to 1.
   */
  function HalfEdge(links: LinkTable, states: seq<EntityState>, now: int, hours: real, a: string, b: string): Option<Contribution>
    requires a in links && b in links[a]
  {
    var e := links[a][b];
    var ra := Resolve(a, states);
    var rb := Resolve(b, states);
    if ra.None? || !InWindow(now, e.lastSeen.GetOr(0), hours) || rb.None? then None
    else Some(Contribution(a, b, ra.value, rb.value, e.count.GetOr(1)))
  }

  /** The half-edges out of the sources `sources` that contribute to the export. */
  function QualifyingEdges(links: LinkTable, states: seq<EntityState>, now: int, hours: real, sources: set<string>): set<(string, string)> {
    set a, b | a in sources && a in links && b in links[a] && HalfEdge(links, states, now, hours, a, b).Some? :: (a, b)
  }

  /** The half-edges a list of contributions came from. */
  function EdgeSet(cs: seq<Contribution>): (r: set<(string, string)>)
    ensures forall i :: 0 <= i < |cs| ==> (cs[i].a, cs[i].b) in r
    decreases |cs|
  {
    if cs == [] then {}
    else EdgeSet(cs[..|cs| - 1]) + {(cs[|cs| - 1].a, cs[|cs| - 1].b)}
  }

  /** Every entry of `contribs` is what its half-edge contributes, and no half-edge is listed twice. */
  ghost predicate Listed(links: LinkTable, states: seq<EntityState>, now: int, hours: real, contribs: seq<Contribution>) {
    && (forall i :: 0 <= i < |contribs| ==>
          contribs[i].a in links && contribs[i].b in links[contribs[i].a]
          && HalfEdge(links, states, now, hours, contribs[i].a, contribs[i].b) == Some(contribs[i]))
    && (forall i, j :: 0 <= i < j < |contribs| ==> (contribs[i].a, contribs[i].b) != (contribs[j].a, contribs[j].b))
  }

  /** `contribs` lists, once each, exactly the contributing half-edges of `links`. */
  ghost predicate Enumerates(links: LinkTable, states: seq<EntityState>, now: int, hours: real, contribs: seq<Contribution>) {
    Listed(links, states, now, hours, contribs)
    && EdgeSet(contribs) == QualifyingEdges(links, states, now, hours, links.Keys)
  }

  /** The contributing half-edges from `a` to the targets `targets`. */
  function OutEdges(links: LinkTable, states: seq<EntityState>, now: int, hours: real, a: string, targets: set<string>): set<(string, string)> {
    set b | b in targets && a in links && b in links[a] && HalfEdge(links, states, now, hours, a, b).Some? :: (a, b)
  }

  /** The edges out of one more source are those out of the others plus its own. */
  lemma QualifyingEdgesSplit(links: LinkTable, states: seq<EntityState>, now: int, hours: real, done: set<string>, a: string)
    requires a in links
    ensures QualifyingEdges(links, states, now, hours, done + {a})
            == QualifyingEdges(links, states, now, hours, done) + OutEdges(links, states, now, hours, a, links[a].Keys)
  {
  }

  /** A source that does not resolve contributes no half-edge. */
  lemma UnresolvedSourceSilent(links: LinkTable, states: seq<EntityState>, now: int, hours: real, a: string, targets: set<string>)
    requires Resolve(a, states).None?
    ensures OutEdges(links, states, now, hours, a, targets) == {}
  {
  }

  /** A half-edge that contributes nothing leaves the contributing edges as they were. */
  lemma EdgeSkipped(links: LinkTable, states: seq<EntityState>, now: int, hours: real, a: string, seen: set<string>, b: string)
    requires a in links && b in links[a]
    requires HalfEdge(links, states, now, hours, a, b).None?
    ensures OutEdges(links, states, now, hours, a, seen + {b}) == OutEdges(links, states, now, hours, a, seen)
  {
  }

  /**
   * Listing the contribution of a half-edge a -> b not visited yet keeps the
   * list exact and free of repeats.
   */
  lemma EdgeAdded(links: LinkTable, states: seq<EntityState>, now: int, hours: real, contribs: seq<Contribution>,
                  done: set<string>, a: string, seen: set<string>, b: string, c: Contribution)
    requires a in links && b in links[a] && a !in done && b !in seen
    requires Listed(links, states, now, hours, contribs)
    requires EdgeSet(contribs) == QualifyingEdges(links, states, now, hours, done) + OutEdges(links, states, now, hours, a, seen)
    requires HalfEdge(links, states, now, hours, a, b) == Some(c)
    ensures Listed(links, states, now, hours, contribs + [c])
    ensures EdgeSet(contribs + [c])
            == QualifyingEdges(links, states, now, hours, done) + OutEdges(links, states, now, hours, a, seen + {b})
  {
    assert c.a == a && c.b == b;
    assert (a, b) !in QualifyingEdges(links, states, now, hours, done);
    assert (a, b) !in OutEdges(links, states, now, hours, a, seen);
    ListedSnoc(links, states, now, hours, contribs, c);
    EdgeSetSnoc(contribs, c);
    OutEdgesAdd(links, states, now, hours, a, seen, b);
  }

  /** Listing the contribution of a half-edge not listed yet keeps the list exact and free of repeats. */
  lemma ListedSnoc(links: LinkTable, states: seq<EntityState>, now: int, hours: real, contribs: seq<Contribution>, c: Contribution)
    requires Listed(links, states, now, hours, contribs)
    requires c.a in links && c.b in links[c.a] && HalfEdge(links, states, now, hours, c.a, c.b) == Some(c)
    requires (c.a, c.b) !in EdgeSet(contribs)
    ensures Listed(links, states, now, hours, contribs + [c])
  {
    var all := contribs + [c];
    forall i | 0 <= i < |all|
      ensures all[i].a in links && all[i].b in links[all[i].a]
              && HalfEdge(links, states, now, hours, all[i].a, all[i].b) == Some(all[i])
    {
      if i < |contribs| {
        assert all[i] == contribs[i];
      }
    }
    forall i, j | 0 <= i < j < |all| ensures (all[i].a, all[i].b) != (all[j].a, all[j].b) {
      if j == |contribs| {
        assert (contribs[i].a, contribs[i].b) in EdgeSet(contribs);
      } else {
        assert all[i] == contribs[i] && all[j] == contribs[j];
      }
    }
  }

  /** The half-edges of one more contribution are the old ones plus its own. */
  lemma EdgeSetSnoc(cs: seq<Contribution>, c: Contribution)
    ensures EdgeSet(cs + [c]) == EdgeSet(cs) + {(c.a, c.b)}
  {
    assert (cs + [c])[..|cs|] == cs;
  }

  /** A contributing half-edge a -> b adds (a, b) to the edges out of `a`. */
  lemma OutEdgesAdd(links: LinkTable, states: seq<EntityState>, now: int, hours: real, a: string, seen: set<string>, b: string)
    requires a in links && b in links[a] && HalfEdge(links, states, now, hours, a, b).Some?
    ensures OutEdges(links, states, now, hours, a, seen + {b}) == OutEdges(links, states, now, hours, a, seen) + {(a, b)}
  {
  }

  /** `tuple(sorted([x1, y1])) == tuple(sorted([x2, y2]))`: the same unordered pair. */
  predicate SamePair(x1: string, y1: string, x2: string, y2: string) {
    (x1 == x2 && y1 == y2) || (x1 == y2 && y1 == x2)
  }

  /** The link `l` joins the same two pubkeys as the contribution `c`. */
  predicate Joins(l: Link, c: Contribution) {
    SamePair(l.from.pubkey, l.to.pubkey, c.src.pubkey, c.dst.pubkey)
  }

  /** No two links join the same unordered pair. */
  predicate DistinctPairs(ls: seq<Link>) {
    forall i, j :: 0 <= i < j < |ls| ==> !SamePair(ls[i].from.pubkey, ls[i].to.pubkey, ls[j].from.pubkey, ls[j].to.pubkey)
  }

  /** The position of the link for the pair of `c`, or -1 (the `for link in link_data` search). */
  function LinkIndex(ls: seq<Link>, c: Contribution): (k: int)
    ensures -1 <= k < |ls|
    ensures k >= 0 ==> Joins(ls[k], c)
    ensures forall i :: 0 <= i < |ls| && (k < 0 || i < k) ==> !Joins(ls[i], c)
    decreases |ls|
  {
    if ls == [] then -1
    else if Joins(ls[0], c) then 0
    else
      var k := LinkIndex(ls[1..], c);
      if k < 0 then -1 else k + 1
  }

  /** One contribution merged into the link list: the pair's count raised to its count, or a new link. */
  function MergeLink(ls: seq<Link>, c: Contribution): seq<Link> {
    var k := LinkIndex(ls, c);
    if k < 0 then ls + [Link(c.src, c.dst, c.count)]
    else ls[k := ls[k].(count := if ls[k].count >= c.count then ls[k].count else c.count)]
  }

  /**
   * `link_data` after merging `cs`: one link per unordered pair of pubkeys,
   * covering every contribution, whose count is the largest count among the
   * contributions for its pair.
   */
  ghost predicate MergedLinks(ls: seq<Link>, cs: seq<Contribution>) {
    && DistinctPairs(ls)
    && (forall c :: c in cs ==> LinkIndex(ls, c) >= 0)
    && (forall i, c :: 0 <= i < |ls| && c in cs && Joins(ls[i], c) ==> c.count <= ls[i].count)
    && (forall i :: 0 <= i < |ls| ==> exists c :: c in cs && Joins(ls[i], c) && c.count == ls[i].count)
  }

  /** `link_data` after merging the contributions `cs` in order. */
  function MergeLinks(cs: seq<Contribution>): seq<Link>
    decreases |cs|
  {
    if cs == [] then []
    else MergeLink(MergeLinks(cs[..|cs| - 1]), cs[|cs| - 1])
  }

  /**
   * Merging keeps one link per unordered pair of pubkeys, covering every
   * contribution, each with the largest count among its pair's contributions.
   */
  lemma {:induction false} MergeLinksExact(cs: seq<Contribution>)
    ensures MergedLinks(MergeLinks(cs), cs)
    decreases |cs|
  {
    if cs != [] {
      var init := cs[..|cs| - 1];
      MergeLinksExact(init);
      MergeLinkKeeps(MergeLinks(init), init, cs[|cs| - 1]);
      assert init + [cs[|cs| - 1]] == cs;
    }
  }

  /** Merging one more contribution is one `MergeLink` step. */
  lemma MergeLinksStep(cs: seq<Contribution>, c: Contribution)
    ensures MergeLinks(cs + [c]) == MergeLink(MergeLinks(cs), c)
  {
    assert (cs + [c])[..|cs|] == cs;
  }

  /** Merging one more contribution keeps the link list exact. */
  lemma MergeLinkKeeps(ls: seq<Link>, cs: seq<Contribution>, c: Contribution)
    requires MergedLinks(ls, cs)
    ensures MergedLinks(MergeLink(ls, c), cs + [c])
  {
    MergeKeepsDistinct(ls, c);
    MergeCovers(ls, cs, c);
    MergeBounds(ls, cs, c);
    MergeAttains(ls, cs, c);
  }

  lemma MergeKeepsDistinct(ls: seq<Link>, c: Contribution)
    requires DistinctPairs(ls)
    ensures DistinctPairs(MergeLink(ls, c))
  {
    var r := MergeLink(ls, c);
    var k := LinkIndex(ls, c);
    forall i, j | 0 <= i < j < |r|
      ensures !SamePair(r[i].from.pubkey, r[i].to.pubkey, r[j].from.pubkey, r[j].to.pubkey)
    {
      if k < 0 && j == |ls| {
        assert !Joins(ls[i], c);
      } else {
        assert r[i].from == ls[i].from && r[i].to == ls[i].to;
        assert r[j].from == ls[j].from && r[j].to == ls[j].to;
      }
    }
  }

  lemma MergeCovers(ls: seq<Link>, cs: seq<Contribution>, c: Contribution)
    requires forall d :: d in cs ==> LinkIndex(ls, d) >= 0
    ensures forall d :: d in cs + [c] ==> LinkIndex(MergeLink(ls, c), d) >= 0
  {
    var r := MergeLink(ls, c);
    var k := LinkIndex(ls, c);
    forall d | d in cs + [c] ensures LinkIndex(r, d) >= 0 {
      var j := if d == c then (if k < 0 then |ls| else k) else LinkIndex(ls, d);
      assert j == |ls| || (r[j].from == ls[j].from && r[j].to == ls[j].to);
      assert Joins(r[j], d);
    }
  }

  lemma MergeBounds(ls: seq<Link>, cs: seq<Contribution>, c: Contribution)
    requires DistinctPairs(ls)
    requires forall d :: d in cs ==> LinkIndex(ls, d) >= 0
    requires forall i, d :: 0 <= i < |ls| && d in cs && Joins(ls[i], d) ==> d.count <= ls[i].count
    ensures var r := MergeLink(ls, c);
            forall i, d :: 0 <= i < |r| && d in cs + [c] && Joins(r[i], d) ==> d.count <= r[i].count
  {
    var r := MergeLink(ls, c);
    var k := LinkIndex(ls, c);
    forall i, d | 0 <= i < |r| && d in cs + [c] && Joins(r[i], d) ensures d.count <= r[i].count {
      if i < |ls| {
        assert r[i].from == ls[i].from && r[i].to == ls[i].to && r[i].count >= ls[i].count;
      }
      if d == c {
        if k >= 0 && i != k {
          PairsDiffer(ls, i, k);
        }
      } else if i < |ls| {
        assert d in cs;
      } else {
        var j := LinkIndex(ls, d);
        assert Joins(ls[j], c);
      }
    }
  }

  lemma MergeAttains(ls: seq<Link>, cs: seq<Contribution>, c: Contribution)
    requires forall i :: 0 <= i < |ls| ==> exists d :: d in cs && Joins(ls[i], d) && d.count == ls[i].count
    ensures var r := MergeLink(ls, c);
            forall i :: 0 <= i < |r| ==> exists d :: d in cs + [c] && Joins(r[i], d) && d.count == r[i].count
  {
    var r := MergeLink(ls, c);
    var k := LinkIndex(ls, c);
    var all := cs + [c];
    forall i | 0 <= i < |r| ensures exists d :: d in all && Joins(r[i], d) && d.count == r[i].count {
      if (i == k || i == |ls|) && r[i].count == c.count {
        assert c in all && Joins(r[i], c);
      } else {
        var d :| d in cs && Joins(ls[i], d) && d.count == ls[i].count;
        assert d in all && Joins(r[i], d);
      }
    }
  }

  /** Two distinct links of a list with distinct pairs cannot both join one contribution. */
  lemma PairsDiffer(ls: seq<Link>, i: int, k: int)
    requires DistinctPairs(ls) && 0 <= i < |ls| && 0 <= k < |ls| && i != k
    ensures forall c :: !(Joins(ls[i], c) && Joins(ls[k], c))
  {
    if i < k {
      assert !SamePair(ls[i].from.pubkey, ls[i].to.pubkey, ls[k].from.pubkey, ls[k].to.pubkey);
    } else {
      assert !SamePair(ls[k].from.pubkey, ls[k].to.pubkey, ls[i].from.pubkey, ls[i].to.pubkey);
    }
  }

  /** The first of `cs` for the unordered pair of pubkeys x, y, if any. */
  function FirstJoining(cs: seq<Contribution>, x: string, y: string): Option<Contribution>
    decreases |cs|
  {
    if cs == [] then None
    else if SamePair(x, y, cs[0].src.pubkey, cs[0].dst.pubkey) then Some(cs[0])
    else FirstJoining(cs[1..], x, y)
  }

  /**
   * Every link's `from` and `to` are the source and target of the first
   * contribution for its pair: a link is created once and later merges only
   * raise its count.
   */
  predicate FirstEnds(ls: seq<Link>, cs: seq<Contribution>) {
    forall i :: 0 <= i < |ls| ==>
      var f := FirstJoining(cs, ls[i].from.pubkey, ls[i].to.pubkey);
      f.Some? && f.value.src == ls[i].from && f.value.dst == ls[i].to
  }

  /** The first contribution for a pair after one more: the old first one, else the new one if it is for that pair. */
  lemma {:induction false} FirstJoiningSnoc(cs: seq<Contribution>, c: Contribution, x: string, y: string)
    ensures FirstJoining(cs + [c], x, y)
            == if FirstJoining(cs, x, y).Some? then FirstJoining(cs, x, y)
               else if SamePair(x, y, c.src.pubkey, c.dst.pubkey) then Some(c) else None
    decreases |cs|
  {
    if cs != [] {
      assert (cs + [c])[1..] == cs[1..] + [c];
      FirstJoiningSnoc(cs[1..], c, x, y);
    }
  }

  /** No contribution is for a pair none of `cs` joins. */
  lemma {:induction false} FirstJoiningAbsent(cs: seq<Contribution>, x: string, y: string)
    requires forall c :: c in cs ==> !SamePair(x, y, c.src.pubkey, c.dst.pubkey)
    ensures FirstJoining(cs, x, y) == None
    decreases |cs|
  {
    if cs != [] {
      assert cs[0] in cs;
      assert forall c :: c in cs[1..] ==> c in cs;
      FirstJoiningAbsent(cs[1..], x, y);
    }
  }

  /** The merged links take their ends from the first contribution for each pair. */
  lemma {:induction false} MergeLinksFirstEnds(cs: seq<Contribution>)
    ensures FirstEnds(MergeLinks(cs), cs)
    decreases |cs|
  {
    if cs != [] {
      var init := cs[..|cs| - 1];
      MergeLinksFirstEnds(init);
      assert forall d :: d in init ==> LinkIndex(MergeLinks(init), d) >= 0 by {
        MergeLinksExact(init);
      }
      MergeLinkFirstEnds(MergeLinks(init), init, cs[|cs| - 1]);
      assert init + [cs[|cs| - 1]] == cs;
    }
  }

  /** Merging one more contribution keeps every link's ends those of the first contribution for its pair. */
  lemma MergeLinkFirstEnds(ls: seq<Link>, cs: seq<Contribution>, c: Contribution)
    requires forall d :: d in cs ==> LinkIndex(ls, d) >= 0
    requires FirstEnds(ls, cs)
    ensures FirstEnds(MergeLink(ls, c), cs + [c])
  {
    var k := LinkIndex(ls, c);
    var r := MergeLink(ls, c);
    if k < 0 {
      NewPairUnseen(ls, cs, c);
    }
    forall i | 0 <= i < |r|
      ensures var f := FirstJoining(cs + [c], r[i].from.pubkey, r[i].to.pubkey);
              f.Some? && f.value.src == r[i].from && f.value.dst == r[i].to
    {
      FirstJoiningSnoc(cs, c, r[i].from.pubkey, r[i].to.pubkey);
      if i < |ls| {
        assert r[i].from == ls[i].from && r[i].to == ls[i].to;
      }
    }
  }

  /** A contribution no link joins is for a pair none of the merged contributions was for. */
  lemma NewPairUnseen(ls: seq<Link>, cs: seq<Contribution>, c: Contribution)
    requires forall d :: d in cs ==> LinkIndex(ls, d) >= 0
    requires LinkIndex(ls, c) < 0
    ensures FirstJoining(cs, c.src.pubkey, c.dst.pubkey) == None
  {
    forall d | d in cs ensures !SamePair(c.src.pubkey, c.dst.pubkey, d.src.pubkey, d.dst.pubkey) {
      var j := LinkIndex(ls, d);
      assert Joins(ls[j], d);
      assert !Joins(ls[j], c);
    }
    FirstJoiningAbsent(cs, c.src.pubkey, c.dst.pubkey);
  }

  /** The source nodes of the contributions, in order: what `node_data` counts. */
  function Sources(cs: seq<Contribution>): (r: seq<NodeInfo>)
    ensures |r| == |cs| && forall i :: 0 <= i < |cs| ==> r[i] == cs[i].src
  {
    seq(|cs|, i requires 0 <= i < |cs| => cs[i].src)
  }

  /** One more contribution adds its source. */
  lemma SourcesSnoc(cs: seq<Contribution>, c: Contribution)
    ensures Sources(cs + [c]) == Sources(cs) + [c.src]
  {
  }

  /**
   * The state of the direct-links export loop: `contribs` lists the half-edges
   * `edges` once each, `nodeData` counts their sources and `linkData` merges them.
   */
  ghost predicate Exported(links: LinkTable, states: seq<EntityState>, now: int, hours: real, edges: set<(string, string)>,
                           contribs: seq<Contribution>, nodeData: seq<Tallied>, linkData: seq<Link>) {
    && Listed(links, states, now, hours, contribs)
    && EdgeSet(contribs) == edges
    && nodeData == Tally(Sources(contribs))
    && linkData == MergeLinks(contribs)
  }

  /** Visiting a contributing half-edge a -> b not visited yet keeps the export state exact. */
  lemma ExportStep(links: LinkTable, states: seq<EntityState>, now: int, hours: real, done: set<string>, a: string,
                   seen: set<string>, b: string, c: Contribution,
                   contribs: seq<Contribution>, nodeData: seq<Tallied>, linkData: seq<Link>)
    requires a in links && b in links[a] && a !in done && b !in seen
    requires Exported(links, states, now, hours,
                      QualifyingEdges(links, states, now, hours, done) + OutEdges(links, states, now, hours, a, seen),
                      contribs, nodeData, linkData)
    requires HalfEdge(links, states, now, hours, a, b) == Some(c)
    ensures Exported(links, states, now, hours,
                     QualifyingEdges(links, states, now, hours, done) + OutEdges(links, states, now, hours, a, seen + {b}),
                     contribs + [c], Bump(nodeData, c.src), MergeLink(linkData, c))
  {
    EdgeAdded(links, states, now, hours, contribs, done, a, seen, b, c);
    SourcesSnoc(contribs, c);
    TallyStep(Sources(contribs), c.src);
    MergeLinksStep(contribs, c);
  }

  /**
   * The opposite half-edges X -> Y (count 3) and Y -> X (count 5), both
   * resolved, collapse into one link for the pair, with count 5.
   */
  lemma OppositeHalfEdgesCollapse(a: string, b: string, x: NodeInfo, y: NodeInfo)
    ensures MergeLinks([Contribution(a, b, x, y, 3), Contribution(b, a, y, x, 5)]) == [Link(x, y, 5)]
  {
    var c1, c2 := Contribution(a, b, x, y, 3), Contribution(b, a, y, x, 5);
    MergeLinksStep([], c1);
    assert [] + [c1] == [c1];
    MergeLinksStep([c1], c2);
    assert [c1] + [c2] == [c1, c2];
    assert LinkIndex([Link(x, y, 3)], c2) == 0;
  }

  // ---------------------------------------------------------------- link counts

  /** The half-edges among `cs` whose source resolved to the pubkey `pk`. */
  function EdgesFrom(cs: seq<Contribution>, pk: string): set<(string, string)>
    decreases |cs|
  {
    if cs == [] then {}
    else
      var c := cs[|cs| - 1];
      EdgesFrom(cs[..|cs| - 1], pk) + if c.src.pubkey == pk then {(c.a, c.b)} else {}
  }

  /** The contributing half-edges of `links` whose source resolves to the pubkey `pk`. */
  ghost function SourceEdges(links: LinkTable, states: seq<EntityState>, now: int, hours: real, pk: string): set<(string, string)> {
    set a, b | a in links && b in links[a] && HalfEdge(links, states, now, hours, a, b).Some?
                 && HalfEdge(links, states, now, hours, a, b).value.src.pubkey == pk :: (a, b)
  }

  /** An edge is in `EdgeSet(cs)` only if some contribution of `cs` came from it. */
  lemma {:induction false} EdgeSetMember(cs: seq<Contribution>, e: (string, string))
    requires e in EdgeSet(cs)
    ensures exists i :: 0 <= i < |cs| && (cs[i].a, cs[i].b) == e
    decreases |cs|
  {
    var init := cs[..|cs| - 1];
    if e in EdgeSet(init) {
      EdgeSetMember(init, e);
      var i :| 0 <= i < |init| && (init[i].a, init[i].b) == e;
      assert cs[i] == init[i];
    } else {
      assert (cs[|cs| - 1].a, cs[|cs| - 1].b) == e;
    }
  }

  /** `EdgesFrom(cs, pk)` holds exactly the edges of the contributions whose source has pubkey `pk`. */
  lemma {:induction false} EdgesFromMember(cs: seq<Contribution>, pk: string, e: (string, string))
    ensures e in EdgesFrom(cs, pk) <==> exists i :: 0 <= i < |cs| && (cs[i].a, cs[i].b) == e && cs[i].src.pubkey == pk
    decreases |cs|
  {
    if cs != [] {
      var init := cs[..|cs| - 1];
      EdgesFromMember(init, pk, e);
      if exists i :: 0 <= i < |init| && (init[i].a, init[i].b) == e && init[i].src.pubkey == pk {
        var i :| 0 <= i < |init| && (init[i].a, init[i].b) == e && init[i].src.pubkey == pk;
        assert cs[i] == init[i];
      }
      if exists i :: 0 <= i < |cs| && (cs[i].a, cs[i].b) == e && cs[i].src.pubkey == pk {
        var i :| 0 <= i < |cs| && (cs[i].a, cs[i].b) == e && cs[i].src.pubkey == pk;
        if i < |init| {
          assert init[i] == cs[i];
        }
      }
    }
  }

  /** Counting the sources of duplicate-free contributions counts their edges. */
  lemma {:induction false} OccSourcesEdges(cs: seq<Contribution>, pk: string)
    requires forall i, j :: 0 <= i < j < |cs| ==> (cs[i].a, cs[i].b) != (cs[j].a, cs[j].b)
    ensures Occ(Sources(cs), pk) == |EdgesFrom(cs, pk)|
    decreases |cs|
  {
    if cs != [] {
      var init := cs[..|cs| - 1];
      var c := cs[|cs| - 1];
      assert init + [c] == cs;
      OccSourcesEdges(init, pk);
      SourcesSnoc(init, c);
      assert (Sources(init) + [c.src])[..|init|] == Sources(init);
      EdgesFromMember(init, pk, (c.a, c.b));
      assert forall i :: 0 <= i < |init| ==> init[i] == cs[i];
      assert (c.a, c.b) !in EdgesFrom(init, pk);
    }
  }

  /** For an exact enumeration, the edges from `pk` among the contributions are its contributing half-edges. */
  lemma EdgesFromAreSourceEdges(links: LinkTable, states: seq<EntityState>, now: int, hours: real,
                                contribs: seq<Contribution>, pk: string)
    requires Enumerates(links, states, now, hours, contribs)
    ensures EdgesFrom(contribs, pk) == SourceEdges(links, states, now, hours, pk)
  {
    forall e | e in EdgesFrom(contribs, pk) ensures e in SourceEdges(links, states, now, hours, pk) {
      EdgesFromMember(contribs, pk, e);
      var i :| 0 <= i < |contribs| && (contribs[i].a, contribs[i].b) == e && contribs[i].src.pubkey == pk;
      assert HalfEdge(links, states, now, hours, contribs[i].a, contribs[i].b) == Some(contribs[i]);
    }
    forall e | e in SourceEdges(links, states, now, hours, pk) ensures e in EdgesFrom(contribs, pk) {
      assert e in QualifyingEdges(links, states, now, hours, links.Keys);
      EdgeSetMember(contribs, e);
      var i :| 0 <= i < |contribs| && (contribs[i].a, contribs[i].b) == e;
      assert HalfEdge(links, states, now, hours, contribs[i].a, contribs[i].b) == Some(contribs[i]);
      EdgesFromMember(contribs, pk, e);
    }
  }

  /**
   * Each node of the direct-links export has as `link_count` the number of
   * contributing half-edges whose source resolves to it.
   */
  lemma LinkCountIsOutDegree(links: LinkTable, states: seq<EntityState>, now: int, hours: real,
                             contribs: seq<Contribution>, n: Tallied)
    requires Enumerates(links, states, now, hours, contribs)
    requires n in SortByCount(Tally(Sources(contribs)))
    ensures n.count == |SourceEdges(links, states, now, hours, n.node.pubkey)|
  {
    var t := Tally(Sources(contribs));
    TallyExact(Sources(contribs));
    assert n in multiset(SortByCount(t));
    assert n in t;
    OccSourcesEdges(contribs, n.node.pubkey);
    EdgesFromAreSourceEdges(links, states, now, hours, contribs, n.node.pubkey);
  }
}
