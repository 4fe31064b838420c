/**
 * `MeshCorePanelCoordinator`: the state the panel keeps between events (the
 * direct-link table, the last-message times, the greeted keys) and the methods
 * that update and read it. The host's entity states, the clock, the threshold
 * settings and the outcome of outbound service calls are parameters.
 */
module Coordinator {
  import opened MeshTypes
  import opened LinkStore
  import opened Resolver
  import opened Ranking
  import opened Greeting
  import opened Cleanup
  import opened Export

  /** A `meshcore_raw_event` as the coordinator tells it apart; payload fields that may be missing are optional. */
  datatype MeshEvent =
    | RxLogData(pathNodes: seq<string>)
    | NewContact(publicKey: Option<string>, advName: Option<string>, nodeType: Option<int>)
    | OtherEvent

  /**
   * One visit of a resolved node in an export's `node_data`: an entry with
   * counter 0 is added for a pubkey not seen yet, then the entry's counter is
   * raised by one.
   */
  method CountVisit(nodeData: seq<Tallied>, info: NodeInfo) returns (r: seq<Tallied>)
    ensures r == Bump(nodeData, info)
  {
    r := nodeData;
    var k := KeyIndex(r, info.pubkey);
    if k < 0 {
      r := r + [Tallied(info, 0)];
      k := |r| - 1;
    }
    r := r[k := r[k].(count := r[k].count + 1)];
  }

  /** The inner loop of `_save_persisted_data`: the half-edges of one source seen within the retention period. */
  method KeepRecent(connections: map<string, LinkInfo>, now: int) returns (cleaned: map<string, LinkInfo>)
    ensures cleaned == KeptLinks(connections, now)
  {
    cleaned := map[];
    var rest := connections.Keys;
    ghost var seen: set<string> := {};
    while rest != {}
      invariant rest !! seen && rest + seen == connections.Keys
      invariant cleaned == map b | b in seen && Retained(connections[b], now) :: connections[b]
      decreases rest
    {
      var b :| b in rest;
      rest := rest - {b};
      var linkData := connections[b];
      if now - linkData.lastSeen.GetOr(0) <= RetentionSeconds {
        cleaned := cleaned[b := linkData];
      }
      seen := seen + {b};
    }
  }

  /** Resolving one more path node extends the visited nodes by what it resolves to. */
  lemma PathStep(seen: seq<NodeInfo>, visited: seq<NodeInfo>, pathNodes: seq<string>, j: int,
                 states: seq<EntityState>, info: Option<NodeInfo>)
    requires 0 <= j < |pathNodes|
    requires seen == visited + ResolvedPath(pathNodes[..j], states)
    requires info == Resolve(pathNodes[j], states)
    ensures info.Some? ==> seen + [info.value] == visited + ResolvedPath(pathNodes[..j + 1], states)
    ensures info.None? ==> seen == visited + ResolvedPath(pathNodes[..j + 1], states)
  {
    var path := ResolvedPath(pathNodes[..j], states);
    ResolvedPathPrefix(pathNodes, j, states);
    if info.Some? {
      assert visited + (path + [info.value]) == (visited + path) + [info.value];
    }
  }

  /**
   * The duplicate check of `_export_directlinks_data`: the first link joining
   * the same unordered pair of pubkeys takes the larger count and the search
   * stops; with no such link, a new one is appended.
   */
  method MergeIntoLinks(linkData: seq<Link>, c: Contribution) returns (r: seq<Link>)
    ensures r == MergeLink(linkData, c)
  {
    r := linkData;
    var existing := false;
    var j := 0;
    while j < |r| && !existing
      invariant 0 <= j <= |r| && |r| == |linkData|
      invariant !existing ==> r == linkData && forall i :: 0 <= i < j ==> !Joins(linkData[i], c)
      invariant existing ==> r == MergeLink(linkData, c)
      decreases |linkData| - j + (if existing then 0 else 1)
    {
      if SamePair(r[j].from.pubkey, r[j].to.pubkey, c.src.pubkey, c.dst.pubkey) {
        existing := true;
        var most := if r[j].count >= c.count then r[j].count else c.count;
        r := r[j := r[j].(count := most)];
      } else {
        j := j + 1;
      }
    }
    if !existing {
      r := r + [Link(c.src, c.dst, c.count)];
    }
  }

  class MeshCorePanelCoordinator {
    const greetEnabled: bool
    const cleanupEnabled: bool
    var directLinks: LinkTable
    var lastMessageTimes: map<string, int>
    var greetedPubkeys: set<string>

    constructor (greetEnabled: bool, cleanupEnabled: bool)
      ensures this.greetEnabled == greetEnabled && this.cleanupEnabled == cleanupEnabled
      ensures directLinks == map[] && lastMessageTimes == map[] && greetedPubkeys == {}
    {
      this.greetEnabled := greetEnabled;
      this.cleanupEnabled := cleanupEnabled;
      directLinks := map[];
      lastMessageTimes := map[];
      greetedPubkeys := {};
    }

    /**
     * `_load_persisted_data`: each snapshot that could be read replaces its
     * field; one that is missing or unreadable (`None`) leaves the field as it was.
     */
    method LoadPersistedData(links: Option<LinkTable>, messages: Option<map<string, int>>, greeted: Option<set<string>>)
      modifies this`directLinks, this`lastMessageTimes, this`greetedPubkeys
      ensures directLinks == links.GetOr(old(directLinks))
      ensures lastMessageTimes == messages.GetOr(old(lastMessageTimes))
      ensures greetedPubkeys == greeted.GetOr(old(greetedPubkeys))
    {
      if links.Some? {
        directLinks := links.value;
      }
      if messages.Some? {
        lastMessageTimes := messages.value;
      }
      if greeted.Some? {
        greetedPubkeys := greeted.value;
      }
    }

    /**
     * `_save_persisted_data` at time `now`, without the file writes: half-edges
     * and last-message times older than 7 days are dropped, and so are sources
     * left without half-edges.
     */
    method SavePersistedData(now: int)
      modifies this`directLinks, this`lastMessageTimes
      ensures directLinks == Pruned(old(directLinks), now)
      ensures lastMessageTimes == PrunedMessages(old(lastMessageTimes), now)
      ensures Symmetric(old(directLinks)) ==> Symmetric(directLinks)
    {
      if Symmetric(directLinks) {
        PrunedKeepsSymmetry(directLinks, now);
      }
      var links := directLinks;
      var times := lastMessageTimes;
      var cleanedLinks: LinkTable := map[];
      var todo := links.Keys;
      assert PrunedFrom(links, {}, now) == map[];
      ghost var done: set<string> := {};
      while todo != {}
        invariant todo !! done && todo + done == links.Keys
        invariant cleanedLinks == PrunedFrom(links, done, now)
        decreases todo
      {
        var a :| a in todo;
        todo := todo - {a};
        PrunedFromStep(links, done, a, now);
        var cleanedConnections := KeepRecent(links[a], now);
        if cleanedConnections != map[] {
          cleanedLinks := cleanedLinks[a := cleanedConnections];
        }
        done := done + {a};
      }
      assert done == links.Keys;
      directLinks := cleanedLinks;
      lastMessageTimes := map k | k in times && now - times[k] <= RetentionSeconds :: times[k];
    }

    /** `_handle_meshcore_event`: path traces feed the link table, new contacts the greeting; anything else is ignored. */
    method HandleMeshcoreEvent(ev: MeshEvent, now: int, channelOk: bool, notifyOk: bool) returns (calls: seq<ServiceCall>)
      modifies this`directLinks, this`greetedPubkeys
      ensures ev.RxLogData? ==>
                directLinks == Ingest(old(directLinks), ev.pathNodes, now)
                && greetedPubkeys == old(greetedPubkeys) && calls == []
      ensures ev.NewContact? ==>
                directLinks == old(directLinks)
                && Outcome(greetedPubkeys, calls)
                   == OnNewContact(greetEnabled, old(greetedPubkeys), ev.publicKey.GetOr(""),
                                   ev.advName.GetOr("Unknown"), ev.nodeType.GetOr(0), channelOk, notifyOk)
      ensures ev.OtherEvent? ==>
                directLinks == old(directLinks) && greetedPubkeys == old(greetedPubkeys) && calls == []
      ensures Symmetric(old(directLinks)) ==> Symmetric(directLinks)
    {
      calls := [];
      match ev
      case RxLogData(pathNodes) =>
        ProcessRxLogData(pathNodes, now);
      case NewContact(publicKey, advName, nodeType) =>
        calls := ProcessNewContact(publicKey, advName, nodeType, channelOk, notifyOk);
      case OtherEvent =>
    }

    /**
     * `_process_rx_log_data` for a path received at `now`: each consecutive
     * lower-cased pair is recorded in both directions; paths shorter than two
     * nodes change nothing.
     */
    method ProcessRxLogData(pathNodes: seq<string>, now: int)
      modifies this`directLinks
      ensures directLinks == Ingest(old(directLinks), pathNodes, now)
      ensures |pathNodes| < 2 ==> directLinks == old(directLinks)
      ensures Symmetric(old(directLinks)) ==> Symmetric(directLinks)
    {
      if Symmetric(directLinks) {
        IngestKeepsSymmetry(directLinks, pathNodes, now);
      }
      if |pathNodes| < 2 {
        return;
      }
      var i := 0;
      while i < |pathNodes| - 1
        invariant 0 <= i <= |pathNodes| - 1
        invariant directLinks == Ingest(old(directLinks), pathNodes[..i + 1], now)
      {
        var nodeA := Lower(pathNodes[i]);
        var nodeB := Lower(pathNodes[i + 1]);
        RecordDirectLink(nodeA, nodeB, now);
        RecordDirectLink(nodeB, nodeA, now);
        assert pathNodes[..i + 2][..i + 1] == pathNodes[..i + 1];
        i := i + 1;
      }
      assert pathNodes[..|pathNodes|] == pathNodes;
    }

    /** `_record_direct_link(a, b, t)`: creates the half-edge with count 1, or counts it once more; always sets last-seen to `t`. */
    method RecordDirectLink(a: string, b: string, t: int)
      modifies this`directLinks
      ensures directLinks == RecordLink(old(directLinks), a, b, t)
    {
      if a !in directLinks {
        directLinks := directLinks[a := map[]];
      }
      if b in directLinks[a] {
        var e := directLinks[a][b];
        directLinks := directLinks[a := directLinks[a][b := LinkInfo(Some(t), Some(e.count.GetOr(0) + 1))]];
      } else {
        directLinks := directLinks[a := directLinks[a][b := LinkInfo(Some(t), Some(1))]];
      }
    }

    /**
     * `_process_new_contact`: greets the contact unless greeting is off, it is a
     * repeater (type 2), its 12-character key is empty or already greeted.
     */
    method ProcessNewContact(publicKey: Option<string>, advName: Option<string>, nodeType: Option<int>,
                             channelOk: bool, notifyOk: bool) returns (calls: seq<ServiceCall>)
      modifies this`greetedPubkeys
      ensures Outcome(greetedPubkeys, calls)
              == OnNewContact(greetEnabled, old(greetedPubkeys), publicKey.GetOr(""), advName.GetOr("Unknown"),
                              nodeType.GetOr(0), channelOk, notifyOk)
    {
      calls := [];
      if !greetEnabled {
        return;
      }
      var pubkey := GreetKey(publicKey.GetOr(""));
      var name := advName.GetOr("Unknown");
      var kind := nodeType.GetOr(0);
      if kind == 2 {
        return;
      }
      if pubkey == "" || pubkey in greetedPubkeys {
        return;
      }
      ghost var atSend;
      calls, atSend := SendGreeting(name, pubkey, channelOk, notifyOk);
    }

    /**
     * `_send_greeting`: the key is added to the greeted set before the calls
     * (`greetedAtSend` is the set the calls run under) and discarded again if
     * either call fails.
     */
    method SendGreeting(name: string, pubkey: string, channelOk: bool, notifyOk: bool)
      returns (calls: seq<ServiceCall>, ghost greetedAtSend: set<string>)
      modifies this`greetedPubkeys
      ensures greetedAtSend == old(greetedPubkeys) + {pubkey}
      ensures greetedPubkeys == AfterGreeting(old(greetedPubkeys), pubkey, channelOk, notifyOk)
      ensures calls == GreetingCalls(name, pubkey, channelOk)
    {
      greetedPubkeys := greetedPubkeys + {pubkey};
      greetedAtSend := greetedPubkeys;
      calls := [SendChannelMessage(0, name)];
      if channelOk {
        calls := calls + [CreateNotification(name, pubkey)];
      }
      if !(channelOk && notifyOk) {
        greetedPubkeys := greetedPubkeys - {pubkey};
      }
    }

    /**
     * `_cleanup_old_contacts` at `now`: one `remove_contact` command for every
     * stale contact, in record order. A failing command is only logged, so the
     * sweep goes on whatever each call returns.
     */
    method CleanupOldContacts(now: int, states: seq<EntityState>) returns (calls: seq<ServiceCall>)
      ensures |calls| == |StaleKeys(states, lastMessageTimes, now)|
      ensures forall i :: 0 <= i < |calls| ==> calls[i] == RemoveContact(StaleKeys(states, lastMessageTimes, now)[i])
    {
      calls := [];
      for i := 0 to |states|
        invariant |calls| == |StaleKeys(states[..i], lastMessageTimes, now)|
        invariant forall j :: 0 <= j < |calls| ==> calls[j] == RemoveContact(StaleKeys(states[..i], lastMessageTimes, now)[j])
      {
        assert states[..i + 1][..i] == states[..i];
        var s := states[i];
        if s.isContactSensor {
          var lastAdvert := s.lastAdvert;
          var lastMessage := if s.pubkeyPrefix in lastMessageTimes then lastMessageTimes[s.pubkeyPrefix] else 0;
          var advertOld := lastAdvert == 0 || now - lastAdvert > CleanupSeconds;
          var messageOld := lastMessage == 0 || now - lastMessage > CleanupSeconds;
          if advertOld && messageOld {
            var pubkey := s.pubkeyPrefix;
            if pubkey != "" {
              calls := calls + [RemoveContact(pubkey)];
            }
          }
        }
      }
      assert states[..|states|] == states;
    }

    /** `_get_node_info(prefix)` against the host's states `states`. */
    method GetNodeInfo(prefix: string, states: seq<EntityState>) returns (r: Option<NodeInfo>)
      ensures r == Resolve(prefix, states)
    {
      var matches: seq<NodeInfo> := [];
      for i := 0 to |states|
        invariant matches == Matches(prefix, states[..i])
      {
        assert states[..i + 1][..i] == states[..i];
        var s := states[i];
        if s.isContactSensor {
          var pubkey := Lower(s.pubkeyPrefix);
          if pubkey != "" && StartsWith(pubkey, Lower(prefix)) {
            var lat, lon := Lat(s), Lon(s);
            if lat.Some? && lon.Some? {
              matches := matches + [NodeInfo(DisplayName(s), lat.value, lon.value, pubkey, NodeType(s), s.lastAdvert)];
            }
          }
        }
      }
      assert states[..|states|] == states;
      if |matches| == 0 {
        return None;
      }
      if |matches| == 1 {
        return Some(matches[0]);
      }
      var repeaters := Repeaters(matches);
      if repeaters != [] {
        return Some(repeaters[LatestIndex(repeaters)]);
      }
      return Some(matches[LatestIndex(matches)]);
    }

    /** `_export_heatmap_data` at `now`, returning the node list instead of writing it. */
    method ExportHeatmapData(states: seq<EntityState>, now: int, setting: Option<real>)
      returns (hours: real, nodes: seq<Tallied>)
      ensures hours == ThresholdHours(setting, DefaultHeatmapHours)
      ensures nodes == SortByCount(Tally(HeatUses(states, states, now, hours)))
    {
      hours := ThresholdHours(setting, DefaultHeatmapHours);
      var nodeData: seq<Tallied> := [];
      for i := 0 to |states|
        invariant nodeData == Tally(HeatUses(states[..i], states, now, hours))
      {
        var s := states[i];
        ghost var before := HeatUses(states[..i], states, now, hours);
        HeatUsesPrefix(states, i, states, now, hours);
        if s.isHopsSensor && s.lastMessageTime != 0 && (now - s.lastMessageTime) as real <= hours * 3600.0 {
          nodeData := CountPath(nodeData, s.pathNodes, states, before);
        } else {
          assert before + [] == before;
        }
      }
      assert states[..|states|] == states;
      nodes := SortByCount(nodeData);
    }

    /**
     * The inner loop of `_export_heatmap_data`: every node of one path that
     * resolves is counted in `nodeData`, which tallies `visited` so far.
     */
    method CountPath(nodeData: seq<Tallied>, pathNodes: seq<string>, states: seq<EntityState>, ghost visited: seq<NodeInfo>)
      returns (r: seq<Tallied>)
      requires nodeData == Tally(visited)
      ensures r == Tally(visited + ResolvedPath(pathNodes, states))
    {
      r := nodeData;
      ghost var seen := visited;
      for j := 0 to |pathNodes|
        invariant seen == visited + ResolvedPath(pathNodes[..j], states)
        invariant r == Tally(seen)
      {
        var info := GetNodeInfo(pathNodes[j], states);
        PathStep(seen, visited, pathNodes, j, states, info);
        if info.Some? {
          TallyStep(seen, info.value);
          r := CountVisit(r, info.value);
          seen := seen + [info.value];
        }
      }
      assert pathNodes[..|pathNodes|] == pathNodes;
    }

    /**
     * `_export_directlinks_data` at `now` (its threshold is the heatmap's),
     * returning nodes and links instead of writing them. `contribs` is the
     * order the half-edges were visited in, which the host's dictionary order
     * decides: it lists every contributing half-edge once, and the links and
     * node counters are what merging and counting them in that order gives.
     */
    method ExportDirectLinksData(states: seq<EntityState>, now: int, setting: Option<real>)
      returns (hours: real, nodes: seq<Tallied>, links: seq<Link>, ghost contribs: seq<Contribution>)
      ensures hours == ThresholdHours(setting, DefaultHeatmapHours)
      ensures Enumerates(directLinks, states, now, hours, contribs)
      ensures links == MergeLinks(contribs)
      ensures nodes == SortByCount(Tally(Sources(contribs)))
    {
      hours := ThresholdHours(setting, DefaultHeatmapHours);
      var nodeData: seq<Tallied> := [];
      links := [];
      contribs := [];
      var todo := directLinks.Keys;
      ghost var done: set<string> := {};
      while todo != {}
        invariant todo !! done && todo + done == directLinks.Keys
        invariant Exported(directLinks, states, now, hours, QualifyingEdges(directLinks, states, now, hours, done),
                           contribs, nodeData, links)
        decreases todo
      {
        var a :| a in todo;
        todo := todo - {a};
        nodeData, links, contribs := ExportSource(a, states, now, hours, nodeData, links, contribs, done);
        done := done + {a};
      }
      nodes := SortByCount(nodeData);
    }

    /**
     * One pass of the outer loop of `_export_directlinks_data`: the half-edges
     * out of `a` are exported when `a` resolves, and none otherwise.
     */
    method ExportSource(a: string, states: seq<EntityState>, now: int, hours: real,
                        nodeData0: seq<Tallied>, links0: seq<Link>, ghost contribs0: seq<Contribution>, ghost done: set<string>)
      returns (nodeData: seq<Tallied>, links: seq<Link>, ghost contribs: seq<Contribution>)
      requires a in directLinks && a !in done
      requires Exported(directLinks, states, now, hours, QualifyingEdges(directLinks, states, now, hours, done),
                        contribs0, nodeData0, links0)
      ensures Exported(directLinks, states, now, hours, QualifyingEdges(directLinks, states, now, hours, done + {a}),
                       contribs, nodeData, links)
    {
      var aInfo := GetNodeInfo(a, states);
      if aInfo.Some? {
        nodeData, links, contribs := ExportConnections(a, aInfo.value, states, now, hours, nodeData0, links0, contribs0, done);
      } else {
        nodeData, links, contribs := nodeData0, links0, contribs0;
        UnresolvedSourceSilent(directLinks, states, now, hours, a, directLinks[a].Keys);
      }
      QualifyingEdgesSplit(directLinks, states, now, hours, done, a);
    }

    /**
     * The inner loop of `_export_directlinks_data` for the resolved source `a`:
     * each half-edge out of `a` seen within the window whose target resolves is
     * counted for `a` and merged into the links.
     */
    method ExportConnections(a: string, aInfo: NodeInfo, states: seq<EntityState>, now: int, hours: real,
                             nodeData0: seq<Tallied>, links0: seq<Link>, ghost contribs0: seq<Contribution>, ghost done: set<string>)
      returns (nodeData: seq<Tallied>, links: seq<Link>, ghost contribs: seq<Contribution>)
      requires a in directLinks && a !in done && Resolve(a, states) == Some(aInfo)
      requires Exported(directLinks, states, now, hours, QualifyingEdges(directLinks, states, now, hours, done),
                        contribs0, nodeData0, links0)
      ensures Exported(directLinks, states, now, hours,
                       QualifyingEdges(directLinks, states, now, hours, done) + OutEdges(directLinks, states, now, hours, a, directLinks[a].Keys),
                       contribs, nodeData, links)
    {
      nodeData, links, contribs := nodeData0, links0, contribs0;
      var connections := directLinks[a];
      var rest := connections.Keys;
      ghost var seen: set<string> := {};
      assert OutEdges(directLinks, states, now, hours, a, seen) == {};
      while rest != {}
        invariant rest !! seen && rest + seen == connections.Keys
        invariant Exported(directLinks, states, now, hours,
                           QualifyingEdges(directLinks, states, now, hours, done) + OutEdges(directLinks, states, now, hours, a, seen),
                           contribs, nodeData, links)
        decreases rest
      {
        var b :| b in rest;
        rest := rest - {b};
        var linkInfo := connections[b];
        var bInfo: Option<NodeInfo> := None;
        if (now - linkInfo.lastSeen.GetOr(0)) as real <= hours * 3600.0 {
          bInfo := GetNodeInfo(b, states);
        }
        if bInfo.Some? {
          var c := Contribution(a, b, aInfo, bInfo.value, linkInfo.count.GetOr(1));
          ExportStep(directLinks, states, now, hours, done, a, seen, b, c, contribs, nodeData, links);
          nodeData := CountVisit(nodeData, aInfo);
          links := MergeIntoLinks(links, c);
          contribs := contribs + [c];
        } else {
          EdgeSkipped(directLinks, states, now, hours, a, seen, b);
        }
        seen := seen + {b};
      }
    }

    /** `_export_nodemap_data` at `now`, returning the node list instead of writing it. */
    method ExportNodemapData(states: seq<EntityState>, now: int, setting: Option<real>)
      returns (hours: real, nodes: seq<MapNode>)
      ensures hours == ThresholdHours(setting, DefaultAdvertHours)
      ensures nodes == Nodemap(states, now, hours)
    {
      hours := ThresholdHours(setting, DefaultAdvertHours);
      nodes := [];
      for i := 0 to |states|
        invariant nodes == Nodemap(states[..i], now, hours)
      {
        assert states[..i + 1][..i] == states[..i];
        var s := states[i];
        if s.isContactSensor && s.lastAdvert != 0 && (now - s.lastAdvert) as real <= hours * 3600.0 {
          var lat, lon := Lat(s), Lon(s);
          if lat.Some? && lon.Some? {
            nodes := nodes + [MapNode(DisplayName(s), lat.value, lon.value, NodeType(s))];
          }
        }
      }
      assert states[..|states|] == states;
    }

    /**
     * `_export_data` at `now`: the three exports, each against the table as it
     * stands, then `_save_persisted_data`, which prunes the table afterwards.
     */
    method ExportData(states: seq<EntityState>, now: int, heatmapSetting: Option<real>, advertSetting: Option<real>)
      returns (heatmap: seq<Tallied>, nodemap: seq<MapNode>, linkNodes: seq<Tallied>, links: seq<Link>,
               ghost contribs: seq<Contribution>)
      modifies this`directLinks, this`lastMessageTimes
      ensures heatmap == SortByCount(Tally(HeatUses(states, states, now, ThresholdHours(heatmapSetting, DefaultHeatmapHours))))
      ensures nodemap == Nodemap(states, now, ThresholdHours(advertSetting, DefaultAdvertHours))
      ensures Enumerates(old(directLinks), states, now, ThresholdHours(heatmapSetting, DefaultHeatmapHours), contribs)
      ensures links == MergeLinks(contribs) && linkNodes == SortByCount(Tally(Sources(contribs)))
      ensures directLinks == Pruned(old(directLinks), now)
      ensures lastMessageTimes == PrunedMessages(old(lastMessageTimes), now)
    {
      var hours;
      hours, heatmap := ExportHeatmapData(states, now, heatmapSetting);
      hours, nodemap := ExportNodemapData(states, now, advertSetting);
      hours, linkNodes, links, contribs := ExportDirectLinksData(states, now, heatmapSetting);
      SavePersistedData(now);
    }
  }
}
