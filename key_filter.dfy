/**
 * Selection of the chat-session entries among all keys of the user-data store:
 * a key is kept when it contains the path segment `/chatSessions/` and ends in `.json`.
 */
module KeyFilter {
  import opened Strings

  const SessionMarker := "/chatSessions/"
  const SessionSuffix := ".json"

  predicate IsChatSessionKey(key: string)
  {
    Includes(key, SessionMarker) && EndsWith(key, SessionSuffix)
  }

  /**
   * `allKeys.filter(...)`: the chat-session keys in their original order, each kept
   * key as often as it occurs, every other key dropped.
   */
  function FilterKeys(keys: seq<string>): (kept: seq<string>)
    ensures IsSubseq(kept, keys)
    ensures forall k :: k in kept ==> IsChatSessionKey(k)
    ensures forall k :: multiset(kept)[k] == if IsChatSessionKey(k) then multiset(keys)[k] else 0
  {
    if keys == [] then []
    else
      var rest := FilterKeys(keys[1..]);
      assert keys == [keys[0]] + keys[1..];
      if IsChatSessionKey(keys[0]) then
        assert ([keys[0]] + rest)[1..] == rest;
        [keys[0]] + rest
      else rest
  }

  /** A key survives the filter exactly when it has both the marker and the suffix. */
  lemma FilterKeysMembership(keys: seq<string>, k: string)
    ensures k in FilterKeys(keys) <==> k in keys && (exists i :: OccursAt(SessionMarker, k, i)) && EndsWith(k, SessionSuffix)
  {
    IncludesSpec(k, SessionMarker);
    var kept := FilterKeys(keys);
    assert k in kept <==> multiset(kept)[k] > 0;
    assert k in keys <==> multiset(keys)[k] > 0;
  }
}
