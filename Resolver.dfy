/**
 * The node resolver (`_get_node_info`) as a function of the prefix and the host's
 * entity states: which contact records match, and which match wins.
 */
module Resolver {
  import opened MeshTypes

  /**
   * The node a state contributes to the matches for `prefix`: a contact sensor
   * whose lower-cased, non-empty key starts with the lower-cased prefix and which
   * has both coordinates.
   */
  function Candidate(prefix: string, s: EntityState): Option<NodeInfo> {
    var pubkey := Lower(s.pubkeyPrefix);
    if s.isContactSensor && pubkey != [] && StartsWith(pubkey, Lower(prefix))
       && Lat(s).Some? && Lon(s).Some?
    then Some(NodeInfo(DisplayName(s), Lat(s).value, Lon(s).value, pubkey, NodeType(s), s.lastAdvert))
    else None
  }

  /** The `matches` list: the candidates, in the host's enumeration order. */
  function Matches(prefix: string, states: seq<EntityState>): seq<NodeInfo>
    decreases |states|
  {
    if states == [] then []
    else
      var m := Matches(prefix, states[..|states| - 1]);
      match Candidate(prefix, states[|states| - 1])
      case Some(info) => m + [info]
      case None => m
  }

  /** There are no matches exactly when no record is a candidate. */
  lemma {:induction false} MatchesEmpty(prefix: string, states: seq<EntityState>)
    ensures |Matches(prefix, states)| == 0 <==> forall i :: 0 <= i < |states| ==> Candidate(prefix, states[i]).None?
    decreases |states|
  {
    if states != [] {
      var init := states[..|states| - 1];
      MatchesEmpty(prefix, init);
      assert forall i :: 0 <= i < |init| ==> init[i] == states[i];
    }
  }

  /** Every match is the candidate of some record. */
  lemma {:induction false} MatchesSound(prefix: string, states: seq<EntityState>, x: NodeInfo)
    requires x in Matches(prefix, states)
    ensures exists i :: 0 <= i < |states| && Candidate(prefix, states[i]) == Some(x)
    decreases |states|
  {
    var init := states[..|states| - 1];
    if x in Matches(prefix, init) {
      MatchesSound(prefix, init, x);
      var i :| 0 <= i < |init| && Candidate(prefix, init[i]) == Some(x);
      assert states[i] == init[i];
    } else {
      assert Candidate(prefix, states[|states| - 1]) == Some(x);
    }
  }

  /** A single record matches exactly when it is a candidate. */
  lemma MatchesOne(prefix: string, s: EntityState)
    ensures Matches(prefix, [s]) == match Candidate(prefix, s) case Some(x) => [x] case None => []
  {
    assert [s][..0] == [];
  }

  /**
   * The matches keep the host's order: those for two runs of records are the
   * matches of the first run followed by those of the second.
   */
  lemma {:induction false} MatchesAppend(prefix: string, s1: seq<EntityState>, s2: seq<EntityState>)
    ensures Matches(prefix, s1 + s2) == Matches(prefix, s1) + Matches(prefix, s2)
    decreases |s2|
  {
    if s2 == [] {
      assert s1 + s2 == s1;
    } else {
      var init := s2[..|s2| - 1];
      assert (s1 + s2)[..|s1 + s2| - 1] == s1 + init;
      assert (s1 + s2)[|s1 + s2| - 1] == s2[|s2| - 1];
      MatchesAppend(prefix, s1, init);
    }
  }

  /** Every candidate record is among the matches. */
  lemma {:induction false} MatchesComplete(prefix: string, states: seq<EntityState>, i: int)
    requires 0 <= i < |states| && Candidate(prefix, states[i]).Some?
    ensures Candidate(prefix, states[i]).value in Matches(prefix, states)
    decreases |states|
  {
    var init := states[..|states| - 1];
    if i < |init| {
      assert init[i] == states[i];
      MatchesComplete(prefix, init, i);
    }
  }

  /**
   * The k-th match is the candidate of some record j, and the matches of the
   * records before j are exactly the matches before k.
   */
  lemma {:induction false} MatchesIndex(prefix: string, states: seq<EntityState>, k: int)
    requires 0 <= k < |Matches(prefix, states)|
    ensures exists j :: 0 <= j < |states| && Candidate(prefix, states[j]) == Some(Matches(prefix, states)[k])
                        && Matches(prefix, states[..j]) == Matches(prefix, states)[..k]
    decreases |states|
  {
    var init := states[..|states| - 1];
    var mi := Matches(prefix, init);
    var ms := Matches(prefix, states);
    assert ms[..|mi|] == mi;
    if k < |mi| {
      MatchesIndex(prefix, init, k);
      var j :| 0 <= j < |init| && Candidate(prefix, init[j]) == Some(mi[k]) && Matches(prefix, init[..j]) == mi[..k];
      assert states[..j] == init[..j];
      assert states[j] == init[j];
      assert ms[..k] == mi[..k];
    } else {
      assert ms[..k] == mi;
      assert states[..|init|] == init;
    }
  }

  /** `"repeater" in node_type` */
  predicate IsRepeater(n: NodeInfo) {
    Contains(n.nodeType, "repeater")
  }

  /** `[m for m in matches if "repeater" in m["node_type"]]` */
  function Repeaters(ms: seq<NodeInfo>): (r: seq<NodeInfo>)
    ensures forall x :: x in r <==> x in ms && IsRepeater(x)
    decreases |ms|
  {
    if ms == [] then []
    else Repeaters(ms[..|ms| - 1]) + (if IsRepeater(ms[|ms| - 1]) then [ms[|ms| - 1]] else [])
  }

  /**
   * The position of the head of `xs` after a stable sort on `last_advert`,
   * descending: the earliest element with the latest advert.
   */
  function LatestIndex(xs: seq<NodeInfo>): (k: nat)
    requires xs != []
    ensures k < |xs|
    ensures forall i :: 0 <= i < |xs| ==> xs[i].lastAdvert <= xs[k].lastAdvert
    ensures forall i :: 0 <= i < k ==> xs[i].lastAdvert < xs[k].lastAdvert
    decreases |xs|
  {
    if |xs| == 1 then 0
    else
      var k := LatestIndex(xs[..|xs| - 1]);
      if xs[|xs| - 1].lastAdvert > xs[k].lastAdvert then |xs| - 1 else k
  }

  /** The choice among the matches: none, the only one, else the latest repeater, else the latest match. */
  function Choose(ms: seq<NodeInfo>): Option<NodeInfo> {
    if |ms| == 0 then None
    else if |ms| == 1 then Some(ms[0])
    else
      var reps := Repeaters(ms);
      if reps != [] then Some(reps[LatestIndex(reps)]) else Some(ms[LatestIndex(ms)])
  }

  /** What `_get_node_info(prefix)` returns against the states `states`. */
  function Resolve(prefix: string, states: seq<EntityState>): Option<NodeInfo> {
    Choose(Matches(prefix, states))
  }

  /**
   * The choice finds nothing exactly when there are no matches; what it finds
   * is a match; a unique match is chosen; a repeater is preferred and is the
   * latest advertised repeater; otherwise no match advertised later.
   */
  lemma ChooseSpec(ms: seq<NodeInfo>)
    ensures var r := Choose(ms);
            && (r.None? <==> ms == [])
            && (r.Some? ==> r.value in ms)
            && (|ms| == 1 ==> r == Some(ms[0]))
            && (r.Some? && (exists x :: x in ms && IsRepeater(x)) ==>
                  IsRepeater(r.value) && forall x :: x in ms && IsRepeater(x) ==> x.lastAdvert <= r.value.lastAdvert)
            && (r.Some? ==> forall x :: x in ms ==> x.lastAdvert <= r.value.lastAdvert || IsRepeater(r.value))
  {
    if |ms| >= 2 {
      var reps := Repeaters(ms);
      if reps != [] {
        var v := reps[LatestIndex(reps)];
        assert v in reps;
        forall x | x in ms && IsRepeater(x) ensures x.lastAdvert <= v.lastAdvert {
          assert x in reps;
        }
      } else {
        forall x | x in ms ensures !IsRepeater(x) {
          assert x !in reps;
        }
      }
    }
  }

  /**
   * The resolver finds nothing exactly when no record is a candidate; what it
   * finds is a match; a unique match is returned; a repeater is preferred and
   * is the latest advertised repeater; otherwise no match advertised later.
   */
  lemma ResolveSpec(prefix: string, states: seq<EntityState>)
    ensures var r := Resolve(prefix, states);
            && (r.None? <==> forall i :: 0 <= i < |states| ==> Candidate(prefix, states[i]).None?)
            && (r.Some? ==> r.value in Matches(prefix, states))
            && (|Matches(prefix, states)| == 1 ==> r == Some(Matches(prefix, states)[0]))
            && (r.Some? && (exists x :: x in Matches(prefix, states) && IsRepeater(x)) ==>
                  IsRepeater(r.value)
                  && forall x :: x in Matches(prefix, states) && IsRepeater(x) ==> x.lastAdvert <= r.value.lastAdvert)
            && (r.Some? ==> forall x :: x in Matches(prefix, states) ==> x.lastAdvert <= r.value.lastAdvert || IsRepeater(r.value))
  {
    MatchesEmpty(prefix, states);
    ChooseSpec(Matches(prefix, states));
  }

  /** `ms[k]` is `v`, and every repeater before position k advertised strictly before `v`. */
  predicate FirstRepeaterWith(ms: seq<NodeInfo>, k: int, v: NodeInfo) {
    0 <= k < |ms| && ms[k] == v
    && forall i :: 0 <= i < k && IsRepeater(ms[i]) ==> ms[i].lastAdvert < v.lastAdvert
  }

  /** Every repeater in `ms` is in `Repeaters(ms)`, so none advertised later than its latest. */
  lemma RepeatersBounded(ms: seq<NodeInfo>)
    requires Repeaters(ms) != []
    ensures forall i :: 0 <= i < |ms| && IsRepeater(ms[i]) ==>
              ms[i].lastAdvert <= Repeaters(ms)[LatestIndex(Repeaters(ms))].lastAdvert
  {
    var reps := Repeaters(ms);
    forall i | 0 <= i < |ms| && IsRepeater(ms[i])
      ensures ms[i].lastAdvert <= reps[LatestIndex(reps)].lastAdvert
    {
      assert ms[i] in reps;
    }
  }

  /** With no repeater in `ms`, none of its elements is a repeater. */
  lemma NoRepeaters(ms: seq<NodeInfo>)
    requires Repeaters(ms) == []
    ensures forall i :: 0 <= i < |ms| ==> !IsRepeater(ms[i])
  {
    forall i | 0 <= i < |ms| ensures !IsRepeater(ms[i]) {
      assert ms[i] in ms;
    }
  }

  /**
   * The repeater `Choose` picks is the earliest repeater in `ms` with the latest
   * advert: every repeater before it advertised strictly earlier.
   */
  lemma {:induction false} LatestRepeaterIsFirst(ms: seq<NodeInfo>)
    requires Repeaters(ms) != []
    ensures exists k :: FirstRepeaterWith(ms, k, Repeaters(ms)[LatestIndex(Repeaters(ms))])
    decreases |ms|
  {
    var init, last := ms[..|ms| - 1], ms[|ms| - 1];
    var reps, repsInit := Repeaters(ms), Repeaters(init);
    var v := reps[LatestIndex(reps)];
    if repsInit != [] && (!IsRepeater(last) || last.lastAdvert <= repsInit[LatestIndex(repsInit)].lastAdvert) {
      LatestUnchanged(ms);
      LatestRepeaterIsFirst(init);
      var k :| FirstRepeaterWith(init, k, v);
      FirstRepeaterExtends(ms, k, v);
    } else if repsInit == [] {
      LoneRepeaterWins(ms);
    } else {
      LaterRepeaterWins(ms);
    }
  }

  /** A last element that is no later repeater leaves the latest repeater as it was. */
  lemma LatestUnchanged(ms: seq<NodeInfo>)
    requires ms != [] && Repeaters(ms[..|ms| - 1]) != []
    requires var u := Repeaters(ms[..|ms| - 1])[LatestIndex(Repeaters(ms[..|ms| - 1]))];
             !IsRepeater(ms[|ms| - 1]) || ms[|ms| - 1].lastAdvert <= u.lastAdvert
    ensures Repeaters(ms) != []
    ensures Repeaters(ms)[LatestIndex(Repeaters(ms))] == Repeaters(ms[..|ms| - 1])[LatestIndex(Repeaters(ms[..|ms| - 1]))]
  {
    var last := ms[|ms| - 1];
    var reps, repsInit := Repeaters(ms), Repeaters(ms[..|ms| - 1]);
    if IsRepeater(last) {
      assert reps == repsInit + [last];
      assert reps[..|reps| - 1] == repsInit;
      assert LatestIndex(reps) == LatestIndex(repsInit);
    } else {
      assert reps == repsInit + [];
      assert reps == repsInit;
    }
  }

  /** A repeater at the end of `ms` with no repeater before it is the one chosen. */
  lemma LoneRepeaterWins(ms: seq<NodeInfo>)
    requires ms != [] && Repeaters(ms) != [] && Repeaters(ms[..|ms| - 1]) == []
    ensures FirstRepeaterWith(ms, |ms| - 1, Repeaters(ms)[LatestIndex(Repeaters(ms))])
  {
    assert Repeaters(ms) == [ms[|ms| - 1]];
    OnlyRepeaterLast(ms);
  }

  /** A repeater at the end of `ms` later than every earlier repeater is the one chosen. */
  lemma LaterRepeaterWins(ms: seq<NodeInfo>)
    requires ms != [] && IsRepeater(ms[|ms| - 1]) && Repeaters(ms[..|ms| - 1]) != []
    requires ms[|ms| - 1].lastAdvert > Repeaters(ms[..|ms| - 1])[LatestIndex(Repeaters(ms[..|ms| - 1]))].lastAdvert
    ensures Repeaters(ms) != []
    ensures FirstRepeaterWith(ms, |ms| - 1, Repeaters(ms)[LatestIndex(Repeaters(ms))])
  {
    var reps, repsInit := Repeaters(ms), Repeaters(ms[..|ms| - 1]);
    assert reps == repsInit + [ms[|ms| - 1]];
    assert reps[..|reps| - 1] == repsInit;
    LaterThanEarlierRepeaters(ms);
  }

  /** With no repeater before the last element, no earlier element is a repeater. */
  lemma OnlyRepeaterLast(ms: seq<NodeInfo>)
    requires ms != [] && Repeaters(ms[..|ms| - 1]) == []
    ensures forall i :: 0 <= i < |ms| - 1 ==> !IsRepeater(ms[i])
  {
    var init := ms[..|ms| - 1];
    NoRepeaters(init);
    forall i | 0 <= i < |ms| - 1 ensures !IsRepeater(ms[i]) {
      assert ms[i] == init[i];
    }
  }

  /** A last element later than the latest earlier repeater is later than every earlier repeater. */
  lemma LaterThanEarlierRepeaters(ms: seq<NodeInfo>)
    requires ms != [] && Repeaters(ms[..|ms| - 1]) != []
    requires ms[|ms| - 1].lastAdvert > Repeaters(ms[..|ms| - 1])[LatestIndex(Repeaters(ms[..|ms| - 1]))].lastAdvert
    ensures forall i :: 0 <= i < |ms| - 1 && IsRepeater(ms[i]) ==> ms[i].lastAdvert < ms[|ms| - 1].lastAdvert
  {
    var init := ms[..|ms| - 1];
    RepeatersBounded(init);
    forall i | 0 <= i < |ms| - 1 && IsRepeater(ms[i]) ensures ms[i].lastAdvert < ms[|ms| - 1].lastAdvert {
      assert ms[i] == init[i];
    }
  }

  /** A witness found in all but the last element of `ms` is a witness in `ms`. */
  lemma FirstRepeaterExtends(ms: seq<NodeInfo>, k: int, v: NodeInfo)
    requires ms != [] && FirstRepeaterWith(ms[..|ms| - 1], k, v)
    ensures FirstRepeaterWith(ms, k, v)
  {
    assert forall i :: 0 <= i < |ms| - 1 ==> ms[..|ms| - 1][i] == ms[i];
  }

  /**
   * `ms[k]` won with the earliest position among the eligible matches with the
   * latest advert: every eligible match before it (a repeater, or any match when
   * `ms[k]` is not a repeater) advertised strictly earlier.
   */
  predicate EarliestLatestAt(ms: seq<NodeInfo>, k: int) {
    0 <= k < |ms|
    && forall i :: 0 <= i < k && (IsRepeater(ms[i]) || !IsRepeater(ms[k])) ==> ms[i].lastAdvert < ms[k].lastAdvert
  }

  /**
   * Ties on `last_advert` go to the earliest record in the host's enumeration
   * order (Python's `list.sort` is stable, also with `reverse=True`).
   */
  lemma ResolveFirstAmongLatest(prefix: string, states: seq<EntityState>)
    requires Resolve(prefix, states).Some?
    ensures exists k :: EarliestLatestAt(Matches(prefix, states), k)
                        && Resolve(prefix, states) == Some(Matches(prefix, states)[k])
  {
    var ms := Matches(prefix, states);
    if |ms| == 1 {
      assert EarliestLatestAt(ms, 0);
      assert Resolve(prefix, states) == Some(ms[0]);
    } else if Repeaters(ms) != [] {
      LatestRepeaterIsFirst(ms);
      var reps := Repeaters(ms);
      var v := reps[LatestIndex(reps)];
      var k :| FirstRepeaterWith(ms, k, v);
      assert v in reps;
      assert EarliestLatestAt(ms, k);
      assert Resolve(prefix, states) == Some(ms[k]);
    } else {
      var k := LatestIndex(ms);
      assert EarliestLatestAt(ms, k);
      assert Resolve(prefix, states) == Some(ms[k]);
    }
  }

  /**
   * What `_get_node_info` returns, stated over the records themselves: the
   * candidate of some record; a repeater whenever some candidate is one, and
   * then no candidate repeater advertised later; otherwise no candidate
   * advertised later.
   */
  lemma ResolveOverRecords(prefix: string, states: seq<EntityState>)
    requires Resolve(prefix, states).Some?
    ensures var r := Resolve(prefix, states).value;
            && (exists j :: 0 <= j < |states| && Candidate(prefix, states[j]) == Some(r))
            && forall i :: 0 <= i < |states| && Candidate(prefix, states[i]).Some? ==>
                 var c := Candidate(prefix, states[i]).value;
                 (IsRepeater(c) ==> IsRepeater(r) && c.lastAdvert <= r.lastAdvert)
                 && (c.lastAdvert <= r.lastAdvert || IsRepeater(r))
  {
    var r := Resolve(prefix, states).value;
    ResolveSpec(prefix, states);
    MatchesSound(prefix, states, r);
    forall i | 0 <= i < |states| && Candidate(prefix, states[i]).Some?
      ensures Candidate(prefix, states[i]).value in Matches(prefix, states)
    {
      MatchesComplete(prefix, states, i);
    }
  }

  /**
   * Ties go to the earliest record: the result is the candidate of record j,
   * and every eligible candidate before j (a repeater, or any candidate when
   * the result is not a repeater) advertised strictly earlier.
   */
  lemma ResolveEarliestRecord(prefix: string, states: seq<EntityState>)
    requires Resolve(prefix, states).Some?
    ensures var r := Resolve(prefix, states).value;
            exists j :: 0 <= j < |states| && Candidate(prefix, states[j]) == Some(r)
              && forall i :: 0 <= i < j && Candidate(prefix, states[i]).Some?
                             && (IsRepeater(Candidate(prefix, states[i]).value) || !IsRepeater(r))
                             ==> Candidate(prefix, states[i]).value.lastAdvert < r.lastAdvert
  {
    var r := Resolve(prefix, states).value;
    var ms := Matches(prefix, states);
    ResolveFirstAmongLatest(prefix, states);
    var k :| EarliestLatestAt(ms, k) && Resolve(prefix, states) == Some(ms[k]);
    MatchesIndex(prefix, states, k);
    var j :| 0 <= j < |states| && Candidate(prefix, states[j]) == Some(ms[k]) && Matches(prefix, states[..j]) == ms[..k];
    forall i | 0 <= i < j && Candidate(prefix, states[i]).Some?
                 && (IsRepeater(Candidate(prefix, states[i]).value) || !IsRepeater(r))
      ensures Candidate(prefix, states[i]).value.lastAdvert < r.lastAdvert
    {
      assert states[..j][i] == states[i];
      MatchesComplete(prefix, states[..j], i);
      var c := Candidate(prefix, states[i]).value;
      assert c in ms[..k];
      var p :| 0 <= p < k && ms[p] == c;
    }
  }
}
