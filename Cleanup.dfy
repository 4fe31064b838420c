/**
 * The stale-contact decision of the daily cleanup (`_cleanup_old_contacts`): a
 * contact is removed when neither an advert nor a message was seen from it in
 * the last 30 days.
 */
module Cleanup {
  import opened MeshTypes

  /** `not last_advert or (now - last_advert) > threshold` */
  predicate AdvertOld(lastAdvert: int, now: int) {
    lastAdvert == 0 || now - lastAdvert > CleanupSeconds
  }

  /** `not last_message or (now - last_message) > threshold`, looked up by the record's key. */
  predicate MessageOld(lastMessages: map<string, int>, key: string, now: int) {
    key !in lastMessages || lastMessages[key] == 0 || now - lastMessages[key] > CleanupSeconds
  }

  /** A remove command is issued for `s`. */
  predicate ShouldRemove(s: EntityState, lastMessages: map<string, int>, now: int) {
    && s.isContactSensor
    && AdvertOld(s.lastAdvert, now)
    && MessageOld(lastMessages, s.pubkeyPrefix, now)
    && s.pubkeyPrefix != ""
  }

  /** The keys removal is requested for, in the order of the records. */
  function StaleKeys(states: seq<EntityState>, lastMessages: map<string, int>, now: int): (keys: seq<string>)
    ensures |keys| <= |states|
    ensures forall k :: k in keys ==> k != ""
    decreases |states|
  {
    if states == [] then []
    else
      var s := states[|states| - 1];
      StaleKeys(states[..|states| - 1], lastMessages, now)
      + if ShouldRemove(s, lastMessages, now) then [s.pubkeyPrefix] else []
  }

  /**
   * Each record is decided on its own: the keys for two runs of records are
   * those of the first run followed by those of the second.
   */
  lemma {:induction false} StaleKeysAppend(s1: seq<EntityState>, s2: seq<EntityState>, lastMessages: map<string, int>, now: int)
    ensures StaleKeys(s1 + s2, lastMessages, now) == StaleKeys(s1, lastMessages, now) + StaleKeys(s2, lastMessages, now)
    decreases |s2|
  {
    if s2 != [] {
      var init := s2[..|s2| - 1];
      assert (s1 + s2)[..|s1 + s2| - 1] == s1 + init;
      StaleKeysAppend(s1, init, lastMessages, now);
    } else {
      assert s1 + s2 == s1;
    }
  }

  /** A key is requested for removal exactly when some record with that key is stale. */
  lemma {:induction false} StaleKeysExact(states: seq<EntityState>, lastMessages: map<string, int>, now: int, key: string)
    ensures key in StaleKeys(states, lastMessages, now)
            <==> exists i :: 0 <= i < |states| && states[i].pubkeyPrefix == key && ShouldRemove(states[i], lastMessages, now)
    decreases |states|
  {
    if states != [] {
      var init := states[..|states| - 1];
      StaleKeysExact(init, lastMessages, now, key);
      if exists i :: 0 <= i < |init| && init[i].pubkeyPrefix == key && ShouldRemove(init[i], lastMessages, now) {
        var i :| 0 <= i < |init| && init[i].pubkeyPrefix == key && ShouldRemove(init[i], lastMessages, now);
        assert states[i] == init[i];
      }
      if exists i :: 0 <= i < |states| && states[i].pubkeyPrefix == key && ShouldRemove(states[i], lastMessages, now) {
        var i :| 0 <= i < |states| && states[i].pubkeyPrefix == key && ShouldRemove(states[i], lastMessages, now);
        if i < |init| {
          assert init[i] == states[i];
        }
      }
    }
  }
}
