/**
 * `MentionsStore`: the list of highlights shown in the mentions view,
 * kept in a preferences store as one JSON array under `entries`.
 */
module Mentions {
  import opened Wrappers
  import Text
  import opened Json

  datatype MentionBufferKind = Status | Channel | Query

  /** The enum constant's `name`. */
  function KindName(k: MentionBufferKind): string {
    match k
    case Status => "STATUS"
    case Channel => "CHANNEL"
    case Query => "QUERY"
  }

  /** `MentionBufferKind.valueOf(name)`; `None` is the exception for any other text. */
  function KindOf(name: string): (r: Option<MentionBufferKind>)
    ensures r.Some? ==> KindName(r.value) == name
  {
    if name == "STATUS" then Some(Status)
    else if name == "CHANNEL" then Some(Channel)
    else if name == "QUERY" then Some(Query)
    else None
  }

  lemma KindRoundTrip(k: MentionBufferKind)
    ensures KindOf(KindName(k)) == Some(k)
  {
  }

  /** `time` is a Kotlin `Long`, epoch milliseconds. */
  datatype MentionEntry = MentionEntry(
    source: string,
    bufferName: string,
    bufferKind: MentionBufferKind,
    text: string,
    time: int,
    dismissed: bool)

  /** The preference key. */
  const Entries: string := "entries"

  // ---------------------------------------------------------------------
  // MentionEntry <-> JSON
  // ---------------------------------------------------------------------

  /** The pairs `MentionEntry.toJson` puts, in order. */
  function MentionFields(e: MentionEntry): seq<Field> {
    [ Field("source", JString(e.source)),
      Field("bufferName", JString(e.bufferName)),
      Field("bufferKind", JString(KindName(e.bufferKind))),
      Field("text", JString(e.text)),
      Field("time", JNumber(e.time)),
      Field("dismissed", JBool(e.dismissed)) ]
  }

  /** `MentionEntry.toJson`. */
  function MentionToJson(e: MentionEntry): seq<Field> {
    PutPairs([], MentionFields(e))
  }

  /**
   * The body of the loop in `parseMentions` for one object: each field read
   * with its default (an unknown kind is `CHANNEL`), and the entry kept only
   * when its source, buffer name and text are all non-empty.
   */
  function MentionFrom(o: seq<Field>): (r: Option<MentionEntry>)
    ensures r.Some? <==>
      OptString(o, "source", "") != [] && OptString(o, "bufferName", "") != [] && OptString(o, "text", "") != []
    ensures r.Some? ==> r.value.source != [] && r.value.bufferName != [] && r.value.text != []
  {
    var source := OptString(o, "source", "");
    var bufferName := OptString(o, "bufferName", "");
    var kindName := OptString(o, "bufferKind", "");
    var text := OptString(o, "text", "");
    var time := OptLong(o, "time");
    var kind := KindOf(kindName).GetOr(Channel);
    var dismissed := OptBoolean(o, "dismissed", false);
    if source != [] && bufferName != [] && text != [] then
      Some(MentionEntry(source, bufferName, kind, text, time, dismissed))
    else None
  }

  /** An entry `parseMentions` keeps. */
  predicate Listed(e: MentionEntry) {
    e.source != [] && e.bufferName != [] && e.text != []
  }

  /** What a kept object holds when some of its pairs are missing. */
  lemma MentionDefaults(o: seq<Field>)
    requires MentionFrom(o).Some?
    ensures !Has(o, "bufferKind") ==> MentionFrom(o).value.bufferKind == Channel
    ensures (forall k :: OptString(o, "bufferKind", "") != KindName(k)) ==> MentionFrom(o).value.bufferKind == Channel
    ensures !Has(o, "time") ==> MentionFrom(o).value.time == 0
    ensures !Has(o, "dismissed") ==> !MentionFrom(o).value.dismissed
  {
  }

  /** The object `toJson` builds holds exactly the six pairs, once each. */
  lemma MentionObject(e: MentionEntry)
    requires Text.IsInt64(e.time)
    ensures NamesDistinct(MentionFields(e))
    ensures MentionToJson(e) == MentionFields(e)
    ensures WellFormed(JObject(MentionToJson(e)))
  {
    var fs := MentionFields(e);
    NamesDistinctKeys(fs);
    AllFieldsWellFormed(fs);
    PutPairsFresh([], fs);
    assert [] + fs == fs;
  }

  lemma MentionGets(e: MentionEntry)
    requires Text.IsInt64(e.time)
    ensures Get(MentionToJson(e), "source") == Some(JString(e.source))
    ensures Get(MentionToJson(e), "bufferName") == Some(JString(e.bufferName))
    ensures Get(MentionToJson(e), "bufferKind") == Some(JString(KindName(e.bufferKind)))
    ensures Get(MentionToJson(e), "text") == Some(JString(e.text))
    ensures Get(MentionToJson(e), "time") == Some(JNumber(e.time))
    ensures Get(MentionToJson(e), "dismissed") == Some(JBool(e.dismissed))
  {
    var fs := MentionFields(e);
    MentionObject(e);
    GetIndex(fs, 0);
    GetIndex(fs, 1);
    GetIndex(fs, 2);
    GetIndex(fs, 3);
    GetIndex(fs, 4);
    GetIndex(fs, 5);
  }

  /** A mention written by `toJson` is read back as itself, if it has the three texts `parseMentions` demands. */
  lemma MentionRoundTrip(e: MentionEntry)
    requires Text.IsInt64(e.time)
    ensures WellFormed(JObject(MentionToJson(e)))
    ensures MentionFrom(MentionToJson(e)) == if Listed(e) then Some(e) else None
  {
    MentionObject(e);
    MentionGets(e);
    KindRoundTrip(e.bufferKind);
  }

  // ---------------------------------------------------------------------
  // parseMentions
  // ---------------------------------------------------------------------

  function MentionAt(items: seq<Json>, i: nat): Option<MentionEntry> {
    match OptObjectAt(items, i)
    case None => None
    case Some(o) => MentionFrom(o)
  }

  /** What each item of the array reads as. */
  function MentionReads(items: seq<Json>): (r: seq<Option<MentionEntry>>)
    ensures |r| == |items|
    ensures forall i :: 0 <= i < |items| ==> r[i] == MentionAt(items, i)
  {
    seq(|items|, i requires 0 <= i < |items| => MentionAt(items, i))
  }

  /** What `parseMentions(raw)` returns: nothing when `raw` is not an array. */
  function MentionsOf(raw: string): seq<MentionEntry> {
    match ParseArrayText(raw)
    case None => []
    case Some(items) => Somes(MentionReads(items))
  }

  /** Every mention read has a source, a buffer name and a text. */
  lemma MentionsListed(raw: string, k: nat)
    requires k < |MentionsOf(raw)|
    ensures Listed(MentionsOf(raw)[k])
  {
    var items := ParseArrayText(raw).value;
    var results := MentionReads(items);
    SomesFrom(results, k);
    var i :| 0 <= i < |results| && results[i] == Some(Somes(results)[k]);
  }

  /** `parseMentions`: the array's objects with the three texts, in order. */
  method ParseMentions(raw: string) returns (results: seq<MentionEntry>)
    ensures results == MentionsOf(raw)
  {
    results := [];
    var arr := ParseArrayText(raw);
    if arr.None? {
      return;
    }
    var items := arr.value;
    ghost var entries := MentionReads(items);
    for i := 0 to |items|
      invariant results == Somes(entries[..i])
    {
      assert entries[..i + 1] == entries[..i] + [entries[i]];
      SomesAppend(entries[..i], entries[i]);
      var obj := OptObjectAt(items, i);
      if obj.None? {
        continue;
      }
      var entry := MentionFrom(obj.value);
      if entry.Some? {
        results := results + [entry.value];
      }
    }
    assert entries[..|items|] == entries;
  }

  // ---------------------------------------------------------------------
  // save / load
  // ---------------------------------------------------------------------

  /** The array `saveMentions` writes: each entry's object, in order. */
  function MentionsJson(entries: seq<MentionEntry>): (r: seq<Json>)
    ensures |r| == |entries|
  {
    seq(|entries|, i requires 0 <= i < |entries| => JObject(MentionToJson(entries[i])))
  }

  /** The store after `saveMentions(entries)`. */
  function Saved(prefs: map<string, string>, entries: seq<MentionEntry>): (r: map<string, string>)
    ensures (entries == []) <==> Entries !in r
    ensures forall k :: k != Entries ==> (k in r <==> k in prefs) && (k in r ==> r[k] == prefs[k])
  {
    if entries == [] then prefs - {Entries}
    else prefs[Entries := Serialize(JArray(MentionsJson(entries)))]
  }

  /** `saveMentions`: the edit applied to the store's preferences. */
  method SaveMentions(prefs: map<string, string>, entries: seq<MentionEntry>) returns (r: map<string, string>)
    ensures r == Saved(prefs, entries)
  {
    r := prefs;
    if entries == [] {
      r := r - {Entries};
    } else {
      var arr: seq<Json> := [];
      for i := 0 to |entries|
        invariant |arr| == i
        invariant forall k :: 0 <= k < i ==> arr[k] == JObject(MentionToJson(entries[k]))
      {
        arr := arr + [JObject(MentionToJson(entries[i]))];
      }
      assert arr == MentionsJson(entries);
      r := r[Entries := Serialize(JArray(arr))];
    }
  }

  /** `loadMentions`: `prefs` is `None` when the store cannot be read. */
  function Load(prefs: Option<map<string, string>>): (r: seq<MentionEntry>)
    ensures prefs.None? ==> r == []
    ensures prefs.Some? && Entries !in prefs.value ==> r == []
  {
    match prefs
    case None => []
    case Some(m) => if Entries in m then MentionsOf(m[Entries]) else []
  }

  /** Each saved entry as it loads back: dropped unless `Listed`. */
  function ReloadedAll(entries: seq<MentionEntry>): (r: seq<Option<MentionEntry>>)
    ensures |r| == |entries|
  {
    seq(|entries|, i requires 0 <= i < |entries| => if Listed(entries[i]) then Some(entries[i]) else None)
  }

  predicate TimesInRange(entries: seq<MentionEntry>) {
    forall i :: 0 <= i < |entries| ==> Text.IsInt64(entries[i].time)
  }

  lemma MentionsTextRoundTrip(entries: seq<MentionEntry>)
    requires TimesInRange(entries)
    ensures ParseArrayText(Serialize(JArray(MentionsJson(entries)))) == Some(MentionsJson(entries))
  {
    var items := MentionsJson(entries);
    forall i | 0 <= i < |items| ensures WellFormed(items[i]) {
      MentionRoundTrip(entries[i]);
    }
    AllItemsWellFormed(items);
    ArrayTextRoundTrip(items);
  }

  lemma ReadsReloaded(entries: seq<MentionEntry>)
    requires TimesInRange(entries)
    ensures MentionReads(MentionsJson(entries)) == ReloadedAll(entries)
  {
    var items := MentionsJson(entries);
    forall i | 0 <= i < |items| ensures MentionAt(items, i) == ReloadedAll(entries)[i] {
      MentionRoundTrip(entries[i]);
    }
  }

  /**
   * Saving and loading: the entries come back in order, those without a
   * source, buffer name or text dropped; an empty list removes the key.
   */
  lemma SaveLoad(prefs: map<string, string>, entries: seq<MentionEntry>)
    requires TimesInRange(entries)
    ensures Load(Some(Saved(prefs, entries))) == Somes(ReloadedAll(entries))
  {
    if entries != [] {
      MentionsTextRoundTrip(entries);
      ReadsReloaded(entries);
    }
  }

  /** A list of entries that all have their three texts loads back unchanged. */
  lemma SaveLoadListed(prefs: map<string, string>, entries: seq<MentionEntry>)
    requires TimesInRange(entries)
    requires forall i :: 0 <= i < |entries| ==> Listed(entries[i])
    ensures Load(Some(Saved(prefs, entries))) == entries
  {
    SaveLoad(prefs, entries);
    var all := ReloadedAll(entries);
    SomesAll(all);
    assert Somes(all) == entries;
  }
}
