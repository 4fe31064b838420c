/**
 * The greeting workflow for newly seen contacts as values: which new-contact
 * events lead to a greeting, which service calls a greeting makes, and what the
 * greeted set is afterwards, including the rollback when a call fails.
 */
module Greeting {
  import opened MeshTypes

  /** The service calls the panel makes; the message texts themselves are not modelled. */
  datatype ServiceCall =
    | SendChannelMessage(channel: int, contactName: string)
    | CreateNotification(contactName: string, pubkey: string)
    | RemoveContact(pubkey: string)

  /** The key a contact is greeted under: the first 12 characters of its public key, case kept. */
  function GreetKey(publicKey: string): (key: string)
    ensures |key| == if |publicKey| < 12 then |publicKey| else 12
    ensures StartsWith(publicKey, key)
  {
    if |publicKey| <= 12 then publicKey else publicKey[..12]
  }

  /**
   * `_process_new_contact` goes on to greet when greeting is enabled, the node
   * type is not 2 (repeater), the key is not empty and the key was not greeted.
   */
  predicate ShouldGreet(enabled: bool, greeted: set<string>, key: string, nodeType: int) {
    enabled && nodeType != 2 && key != "" && key !in greeted
  }

  /**
   * The calls `_send_greeting` makes: the channel message is always attempted,
   * the notification only when the channel message went through.
   */
  function GreetingCalls(name: string, key: string, channelOk: bool): (calls: seq<ServiceCall>)
    ensures 1 <= |calls| <= 2 && calls[0] == SendChannelMessage(0, name)
    ensures |calls| == 2 <==> channelOk
    ensures channelOk ==> calls[1] == CreateNotification(name, key)
  {
    [SendChannelMessage(0, name)] + if channelOk then [CreateNotification(name, key)] else []
  }

  /**
   * The greeted set after `_send_greeting`: the key stays in it when both calls
   * succeeded and is discarded again when either failed.
   */
  function AfterGreeting(greeted: set<string>, key: string, channelOk: bool, notifyOk: bool): (r: set<string>)
    ensures key in r <==> channelOk && notifyOk
    ensures r - {key} == greeted - {key}
  {
    if channelOk && notifyOk then greeted + {key} else greeted - {key}
  }

  /** The greeted set and the calls made after one new-contact event. */
  datatype Outcome = Outcome(greeted: set<string>, calls: seq<ServiceCall>)

  /**
   * A new-contact event as `_process_new_contact` handles it; `channelOk` and
   * `notifyOk` are what the two service calls would return.
   */
  function OnNewContact(enabled: bool, greeted: set<string>, publicKey: string, name: string, nodeType: int,
                        channelOk: bool, notifyOk: bool): (r: Outcome)
    ensures r.calls != [] <==> ShouldGreet(enabled, greeted, GreetKey(publicKey), nodeType)
    ensures r.calls == [] ==> r.greeted == greeted
    ensures r.calls != [] ==> r.greeted == if channelOk && notifyOk then greeted + {GreetKey(publicKey)} else greeted
  {
    var key := GreetKey(publicKey);
    if !ShouldGreet(enabled, greeted, key, nodeType) then Outcome(greeted, [])
    else Outcome(AfterGreeting(greeted, key, channelOk, notifyOk), GreetingCalls(name, key, channelOk))
  }

  /** After a successful greeting, the same event again sends nothing, whatever the calls would return. */
  lemma GreetedOnce(enabled: bool, greeted: set<string>, publicKey: string, name: string, nodeType: int,
                    channelOk: bool, notifyOk: bool)
    requires ShouldGreet(enabled, greeted, GreetKey(publicKey), nodeType)
    ensures var first := OnNewContact(enabled, greeted, publicKey, name, nodeType, true, true);
            OnNewContact(enabled, first.greeted, publicKey, name, nodeType, channelOk, notifyOk).calls == []
  {
  }

  /** After a failed greeting, the same event again makes the same calls: the greeting is retried. */
  lemma FailedGreetingRetried(enabled: bool, greeted: set<string>, publicKey: string, name: string, nodeType: int,
                              channelOk: bool, notifyOk: bool)
    requires ShouldGreet(enabled, greeted, GreetKey(publicKey), nodeType)
    requires !(channelOk && notifyOk)
    ensures var first := OnNewContact(enabled, greeted, publicKey, name, nodeType, channelOk, notifyOk);
            first.greeted == greeted
            && OnNewContact(enabled, first.greeted, publicKey, name, nodeType, true, true).calls
               == [SendChannelMessage(0, name), CreateNotification(name, GreetKey(publicKey))]
  {
  }

  /** A type-3 node (room server) is greeted like a client: only type 2 is excluded. */
  lemma RoomServerGreeted(greeted: set<string>, publicKey: string, name: string)
    requires publicKey != "" && GreetKey(publicKey) !in greeted
    ensures OnNewContact(true, greeted, publicKey, name, 3, true, true).calls != []
  {
  }

  /** A repeater (type 2) is never greeted, whatever the greeted set holds. */
  lemma RepeaterNeverGreeted(enabled: bool, greeted: set<string>, publicKey: string, name: string,
                             channelOk: bool, notifyOk: bool)
    ensures OnNewContact(enabled, greeted, publicKey, name, 2, channelOk, notifyOk)
            == Outcome(greeted, [])
  {
  }
}
