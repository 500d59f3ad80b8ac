/**
 * The export as a whole: list the keys of the user-data store, keep the chat-session
 * keys, read and decode each matched entry, turn the decoded sessions into records one
 * after the other, and name the download file after the export time.
 *
 * The store is given as a loader `load`: for a key it returns the decoded session, or
 * `None` when the read fails, the stored value is not a byte array, `JSON.parse` throws,
 * or the text parses to `null` (on which reading `requests` throws inside the `try`).
 * The export time is given as its ISO 8601 text `timestamp`.
 */
module Export {
  import opened Wrappers
  import opened Strings
  import opened KeyFilter
  import opened Extraction

  // ---------------------------------------------------------------------------
  // Reading the matched entries
  // ---------------------------------------------------------------------------

  /** The decoded session behind each key, in the order of the keys. */
  function LoadAll(keys: seq<string>, load: string -> Option<Session>): (sessions: seq<Option<Session>>)
    ensures |sessions| == |keys|
    ensures forall i :: 0 <= i < |keys| ==> sessions[i] == load(keys[i])
  {
    seq(|keys|, i requires 0 <= i < |keys| => load(keys[i]))
  }

  /** Reading one more key adds the records of its session, if it has one, at the end. */
  lemma LoadAllStep(keys: seq<string>, load: string -> Option<Session>, i: nat)
    requires i < |keys|
    ensures AllRecords(LoadAll(keys[..i + 1], load)) == AllRecords(LoadAll(keys[..i], load)) + Contribution(load(keys[i]))
  {
    var sessions := LoadAll(keys[..i + 1], load);
    assert sessions[..i] == LoadAll(keys[..i], load);
    FlatMapPrefix(Contribution, sessions, i);
    assert sessions[..i + 1] == sessions;
  }

  /** Every record the export produces, for the given key list and store contents. */
  function ExportedRecords(allKeys: seq<string>, load: string -> Option<Session>): seq<Record>
  {
    AllRecords(LoadAll(FilterKeys(allKeys), load))
  }

  // ---------------------------------------------------------------------------
  // The download file name
  // ---------------------------------------------------------------------------

  const FileNamePrefix := "copilot_export_"
  const FileNameSuffix := ".json"

  predicate IsSeparator(c: char)
  {
    c == ':' || c == '.'
  }

  /** `timestamp.replace(/[:.]/g, '-')`: every colon and every dot becomes a hyphen. */
  function SanitizeTimestamp(t: string): (r: string)
    ensures |r| == |t|
    ensures forall i :: 0 <= i < |t| ==> r[i] == if IsSeparator(t[i]) then '-' else t[i]
    decreases |t|
  {
    if t == [] then []
    else [if IsSeparator(t[0]) then '-' else t[0]] + SanitizeTimestamp(t[1..])
  }

  /** No colon or dot survives, and every other character stays where it was. */
  lemma SanitizedHasNoSeparator(t: string)
    ensures forall i :: 0 <= i < |t| ==> !IsSeparator(SanitizeTimestamp(t)[i])
    ensures forall i :: 0 <= i < |t| && !IsSeparator(t[i]) ==> SanitizeTimestamp(t)[i] == t[i]
  {
  }

  lemma SanitizeIdempotent(t: string)
    ensures SanitizeTimestamp(SanitizeTimestamp(t)) == SanitizeTimestamp(t)
  {
    var r := SanitizeTimestamp(t);
    assert forall i :: 0 <= i < |r| ==> !IsSeparator(r[i]);
  }

  /** `copilot_export_${timestamp}.json` with the separators of the timestamp replaced. */
  function ExportFileName(timestamp: string): (name: string)
    ensures |name| == |FileNamePrefix| + |timestamp| + |FileNameSuffix|
    ensures name[..|FileNamePrefix|] == FileNamePrefix
    ensures name[|name| - |FileNameSuffix|..] == FileNameSuffix
    ensures name[|FileNamePrefix|..|name| - |FileNameSuffix|] == SanitizeTimestamp(timestamp)
    ensures forall i :: |FileNamePrefix| <= i < |name| - |FileNameSuffix| ==> !IsSeparator(name[i])
  {
    var middle := SanitizeTimestamp(timestamp);
    var name := FileNamePrefix + middle + FileNameSuffix;
    assert forall i :: |FileNamePrefix| <= i < |name| - |FileNameSuffix| ==> name[i] == middle[i - |FileNamePrefix|];
    name
  }

  /** A text without separators is left as it is. */
  lemma SanitizeUnchanged(t: string)
    requires forall i :: 0 <= i < |t| ==> !IsSeparator(t[i])
    ensures SanitizeTimestamp(t) == t
  {
  }

  lemma SanitizeAppend(a: string, b: string)
    ensures SanitizeTimestamp(a + b) == SanitizeTimestamp(a) + SanitizeTimestamp(b)
  {
    var r, ra, rb := SanitizeTimestamp(a + b), SanitizeTimestamp(a), SanitizeTimestamp(b);
    forall i | 0 <= i < |r|
      ensures r[i] == (ra + rb)[i]
    {
      if i < |a| {
        assert (a + b)[i] == a[i];
      } else {
        assert (a + b)[i] == b[i - |a|];
      }
    }
  }

  /** The file name of an export made at 03:04:05.678 UTC on 2 January 2024. */
  lemma FileNameExample(timestamp: string)
    requires timestamp == "2024-01-02T03:04:05.678Z"
    ensures ExportFileName(timestamp) == FileNamePrefix + "2024-01-02T03-04-05-678Z" + FileNameSuffix
  {
    var date, hour, minute, second := "2024-01-02T03", "04", "05", "678Z";
    ExampleTimestampShape(timestamp, date, hour, minute, second);
    SanitizeAppend(date, ":" + (hour + (":" + (minute + ("." + second)))));
    SanitizeAppend(":", hour + (":" + (minute + ("." + second))));
    SanitizeAppend(hour, ":" + (minute + ("." + second)));
    SanitizeAppend(":", minute + ("." + second));
    SanitizeAppend(minute, "." + second);
    SanitizeAppend(".", second);
    ExampleTimestampPieces(date, hour, minute, second);
  }

  lemma ExampleTimestampShape(timestamp: string, date: string, hour: string, minute: string, second: string)
    requires timestamp == "2024-01-02T03:04:05.678Z"
    requires date == "2024-01-02T03" && hour == "04" && minute == "05" && second == "678Z"
    ensures timestamp == date + (":" + (hour + (":" + (minute + ("." + second)))))
  {
  }

  lemma ExampleTimestampPieces(date: string, hour: string, minute: string, second: string)
    requires date == "2024-01-02T03" && hour == "04" && minute == "05" && second == "678Z"
    ensures SanitizeTimestamp(date) == date && SanitizeTimestamp(hour) == hour
    ensures SanitizeTimestamp(minute) == minute && SanitizeTimestamp(second) == second
    ensures SanitizeTimestamp(":") == "-" && SanitizeTimestamp(".") == "-"
    ensures date + ("-" + (hour + ("-" + (minute + ("-" + second))))) == "2024-01-02T03-04-05-678Z"
  {
    SanitizeUnchanged(date);
    SanitizeUnchanged(hour);
    SanitizeUnchanged(minute);
    SanitizeUnchanged(second);
  }

  // ---------------------------------------------------------------------------
  // The export
  // ---------------------------------------------------------------------------

  /**
   * The body of the script: filter the keys, then for each matched key read its
   * session and push the records of its requests onto `allChats`; finally name the
   * download file. The keys come from `getAllKeys`, which gives the empty list when
   * the read fails.
   */
  method ExportChats(allKeys: seq<string>, load: string -> Option<Session>, timestamp: string)
    returns (allChats: seq<Record>, fileName: string)
    ensures allChats == ExportedRecords(allKeys, load)
    ensures fileName == ExportFileName(timestamp)
  {
    var chatSessionKeys := FilterKeys(allKeys);
    allChats := [];
    var i := 0;
    while i < |chatSessionKeys|
      invariant 0 <= i <= |chatSessionKeys|
      invariant allChats == AllRecords(LoadAll(chatSessionKeys[..i], load))
    {
      LoadAllStep(chatSessionKeys, load, i);
      var value := load(chatSessionKeys[i]);
      if value.Some? {
        var pushed := ProcessSession(value.value);
        allChats := allChats + pushed;
      }
      i := i + 1;
    }
    assert chatSessionKeys[..i] == chatSessionKeys;
    fileName := ExportFileName(timestamp);
  }

  // ---------------------------------------------------------------------------
  // Properties of the export
  // ---------------------------------------------------------------------------

  /** Store entries under keys that are not chat-session keys have no effect on the output. */
  lemma ExportIgnoresOtherKeys(allKeys: seq<string>, load1: string -> Option<Session>, load2: string -> Option<Session>)
    requires forall k :: IsChatSessionKey(k) ==> load1(k) == load2(k)
    ensures ExportedRecords(allKeys, load1) == ExportedRecords(allKeys, load2)
  {
    var keys := FilterKeys(allKeys);
    forall i | 0 <= i < |keys|
      ensures LoadAll(keys, load1)[i] == LoadAll(keys, load2)[i]
    {
      assert keys[i] in keys;
    }
    assert LoadAll(keys, load1) == LoadAll(keys, load2);
  }

  /** Without a chat-session key (as when the key listing fails) nothing is exported. */
  lemma NoChatKeysNoRecords(allKeys: seq<string>, load: string -> Option<Session>)
    requires forall k :: k in allKeys ==> !IsChatSessionKey(k)
    ensures ExportedRecords(allKeys, load) == []
  {
    var keys := FilterKeys(allKeys);
    if keys != [] {
      assert false;
    }
  }

  /** Every exported record is a record of the session stored under a matched key. */
  lemma ExportedRecordFrom(allKeys: seq<string>, load: string -> Option<Session>, r: Record)
    requires r in ExportedRecords(allKeys, load)
    ensures exists k :: k in allKeys && IsChatSessionKey(k) && load(k).Some? && r in SessionRecords(load(k).value)
  {
    var keys := FilterKeys(allKeys);
    var sessions := LoadAll(keys, load);
    AllRecordsFrom(sessions, r);
    var i :| 0 <= i < |sessions| && sessions[i].Some? && r in SessionRecords(sessions[i].value);
    var k := keys[i];
    assert k in keys;
    assert multiset(keys)[k] > 0;
    assert k in allKeys;
  }

  /** There are at most as many records as the decoded sessions of the matched keys have requests. */
  lemma ExportLength(allKeys: seq<string>, load: string -> Option<Session>)
    ensures |ExportedRecords(allKeys, load)| <= TotalRequests(LoadAll(FilterKeys(allKeys), load))
  {
    AllRecordsLength(LoadAll(FilterKeys(allKeys), load));
  }
}
