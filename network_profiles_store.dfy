/**
 * `NetworkProfilesStore`: named connection profiles kept in a preferences
 * store as one JSON array under `entries`, with the selected profile's id
 * under `active`.
 */
module NetworkProfiles {
  import opened Wrappers
  import Text
  import opened Json

  /** A Kotlin `Int`. */
  type Int32 = n: int | Text.IsInt32(n)

  /** The connection settings of `Prefs.kt`. */
  datatype SavedConfig = SavedConfig(
    server: string,
    port: Int32,
    tls: bool,
    nick: string,
    user: string,
    realName: string,
    channel: string,
    channels: string,
    highlights: string,
    highlightExceptions: string,
    ignoreNicks: string,
    saslAccount: string,
    saslPassword: string,
    stripColors: bool,
    allowBackgrounds: bool,
    linkPreviewsEnabled: bool,
    fontScalePercent: Int32,
    quietHoursEnabled: bool,
    quietHoursStart: Int32,
    quietHoursEnd: Int32,
    forceLightTheme: bool)

  /** `SavedConfig()`: every field at its declared default. */
  const DefaultConfig: SavedConfig := SavedConfig(
    "irc.libera.chat", 6697, true, "AndroidUser", "AndroidUser", "Android IRC", "#android",
    "", "", "", "", "", "", true, false, true, 100, false, 23, 7, false)

  datatype NetworkProfile = NetworkProfile(id: string, name: string, config: SavedConfig)

  datatype NetworkProfilesState = NetworkProfilesState(profiles: seq<NetworkProfile>, activeId: Option<string>)

  const EmptyState: NetworkProfilesState := NetworkProfilesState([], None)

  /** The preference keys. */
  const Entries: string := "entries"
  const Active: string := "active"

  // ---------------------------------------------------------------------
  // SavedConfig <-> JSON
  // ---------------------------------------------------------------------

  /** The names `SavedConfig.toJson` puts, in order; the link-preview and theme switches are not among them. */
  const ConfigKeys: seq<string> := [
    "server", "port", "tls", "nick", "user", "realName", "channel", "channels", "highlights",
    "highlightExceptions", "ignoreNicks", "saslAccount", "saslPassword", "stripColors", "allowBackgrounds",
    "fontScalePercent", "quietHoursEnabled", "quietHoursStart", "quietHoursEnd"]

  /** The values put under those names, in the same order. */
  function ConfigValues(c: SavedConfig): (r: seq<Json>)
    ensures |r| == |ConfigKeys|
  {
    [ JString(c.server), JNumber(c.port), JBool(c.tls), JString(c.nick), JString(c.user),
      JString(c.realName), JString(c.channel), JString(c.channels), JString(c.highlights),
      JString(c.highlightExceptions), JString(c.ignoreNicks), JString(c.saslAccount),
      JString(c.saslPassword), JBool(c.stripColors), JBool(c.allowBackgrounds),
      JNumber(c.fontScalePercent), JBool(c.quietHoursEnabled), JNumber(c.quietHoursStart),
      JNumber(c.quietHoursEnd) ]
  }

  /** The pairs `SavedConfig.toJson` puts: each name with its value. */
  function ConfigFields(c: SavedConfig): (r: seq<Field>)
    ensures |r| == |ConfigKeys|
  {
    seq(|ConfigKeys|, i requires 0 <= i < |ConfigKeys| => Field(ConfigKeys[i], ConfigValues(c)[i]))
  }

  /** `SavedConfig.toJson`. */
  function ConfigToJson(c: SavedConfig): seq<Field> {
    PutPairs([], ConfigFields(c))
  }

  /** `JSONObject.toConfig`: each field read with its default when absent or unreadable. */
  function ToConfig(o: seq<Field>): (r: SavedConfig)
    ensures r.linkPreviewsEnabled == DefaultConfig.linkPreviewsEnabled
    ensures r.forceLightTheme == DefaultConfig.forceLightTheme
    ensures o == [] ==> r == DefaultConfig
    // a key that is missing reads as its `SavedConfig` default
    ensures !Has(o, "server") ==> r.server == DefaultConfig.server
    ensures !Has(o, "port") ==> r.port == DefaultConfig.port
    ensures !Has(o, "tls") ==> r.tls == DefaultConfig.tls
    ensures !Has(o, "nick") ==> r.nick == DefaultConfig.nick
    ensures !Has(o, "user") ==> r.user == DefaultConfig.user
    ensures !Has(o, "realName") ==> r.realName == DefaultConfig.realName
    ensures !Has(o, "channel") ==> r.channel == DefaultConfig.channel
    ensures !Has(o, "channels") ==> r.channels == DefaultConfig.channels
    ensures !Has(o, "highlights") ==> r.highlights == DefaultConfig.highlights
    ensures !Has(o, "highlightExceptions") ==> r.highlightExceptions == DefaultConfig.highlightExceptions
    ensures !Has(o, "ignoreNicks") ==> r.ignoreNicks == DefaultConfig.ignoreNicks
    ensures !Has(o, "saslAccount") ==> r.saslAccount == DefaultConfig.saslAccount
    ensures !Has(o, "saslPassword") ==> r.saslPassword == DefaultConfig.saslPassword
    ensures !Has(o, "stripColors") ==> r.stripColors == DefaultConfig.stripColors
    ensures !Has(o, "allowBackgrounds") ==> r.allowBackgrounds == DefaultConfig.allowBackgrounds
    ensures !Has(o, "fontScalePercent") ==> r.fontScalePercent == DefaultConfig.fontScalePercent
    ensures !Has(o, "quietHoursEnabled") ==> r.quietHoursEnabled == DefaultConfig.quietHoursEnabled
    ensures !Has(o, "quietHoursStart") ==> r.quietHoursStart == DefaultConfig.quietHoursStart
    ensures !Has(o, "quietHoursEnd") ==> r.quietHoursEnd == DefaultConfig.quietHoursEnd
  {
    SavedConfig(
      OptString(o, "server", "irc.libera.chat"),
      OptInt(o, "port", 6697),
      OptBoolean(o, "tls", true),
      OptString(o, "nick", "AndroidUser"),
      OptString(o, "user", "AndroidUser"),
      OptString(o, "realName", "Android IRC"),
      OptString(o, "channel", "#android"),
      OptString(o, "channels", ""),
      OptString(o, "highlights", ""),
      OptString(o, "highlightExceptions", ""),
      OptString(o, "ignoreNicks", ""),
      OptString(o, "saslAccount", ""),
      OptString(o, "saslPassword", ""),
      OptBoolean(o, "stripColors", true),
      OptBoolean(o, "allowBackgrounds", false),
      true,
      OptInt(o, "fontScalePercent", 100),
      OptBoolean(o, "quietHoursEnabled", false),
      OptInt(o, "quietHoursStart", 23),
      OptInt(o, "quietHoursEnd", 7),
      false)
  }

  /** What a configuration becomes after being written and read back: the two unsaved switches reset. */
  function Normalize(c: SavedConfig): SavedConfig {
    c.(linkPreviewsEnabled := DefaultConfig.linkPreviewsEnabled, forceLightTheme := DefaultConfig.forceLightTheme)
  }

  lemma ConfigKeysDistinct()
    ensures forall i, j :: 0 <= i < j < |ConfigKeys| ==> ConfigKeys[i] != ConfigKeys[j]
  {
  }

  lemma ConfigValuesWellFormed(c: SavedConfig)
    ensures forall i :: 0 <= i < |ConfigKeys| ==> WellFormed(ConfigValues(c)[i])
  {
  }

  /** The pairs have distinct names and values the writer can write back. */
  lemma ConfigFieldsWellFormed(c: SavedConfig)
    ensures NamesDistinct(ConfigFields(c))
    ensures DistinctKeys(ConfigFields(c)) && FieldsWellFormed(ConfigFields(c))
  {
    var fs := ConfigFields(c);
    ConfigKeysDistinct();
    NamesDistinctKeys(fs);
    ConfigValuesWellFormed(c);
    AllFieldsWellFormed(fs);
  }

  /** In the written pairs, each name finds its own value. */
  lemma ConfigGets(c: SavedConfig)
    ensures forall i :: 0 <= i < |ConfigKeys| ==> Get(ConfigFields(c), ConfigKeys[i]) == Some(ConfigValues(c)[i])
  {
    var fs := ConfigFields(c);
    ConfigFieldsWellFormed(c);
    forall i | 0 <= i < |fs| ensures Get(fs, ConfigKeys[i]) == Some(ConfigValues(c)[i]) {
      GetIndex(fs, i);
    }
  }

  /** An object holding each name with the value of `c`: the server fields read back. */
  lemma ReadServer(o: seq<Field>, c: SavedConfig)
    requires forall i :: 0 <= i < |ConfigKeys| ==> Get(o, ConfigKeys[i]) == Some(ConfigValues(c)[i])
    ensures OptString(o, "server", "irc.libera.chat") == c.server
    ensures OptInt(o, "port", 6697) == c.port
    ensures OptBoolean(o, "tls", true) == c.tls
  {
    assert ConfigKeys[0] == "server" && ConfigKeys[1] == "port" && ConfigKeys[2] == "tls";
  }

  /** The identity fields. */
  lemma ReadIdentity(o: seq<Field>, c: SavedConfig)
    requires forall i :: 0 <= i < |ConfigKeys| ==> Get(o, ConfigKeys[i]) == Some(ConfigValues(c)[i])
    ensures OptString(o, "nick", "AndroidUser") == c.nick
    ensures OptString(o, "user", "AndroidUser") == c.user
    ensures OptString(o, "realName", "Android IRC") == c.realName
  {
    assert ConfigKeys[3] == "nick" && ConfigKeys[4] == "user" && ConfigKeys[5] == "realName";
  }

  /** The channel, highlight, ignore and SASL fields. */
  lemma ReadMiddle(o: seq<Field>, c: SavedConfig)
    requires forall i :: 0 <= i < |ConfigKeys| ==> Get(o, ConfigKeys[i]) == Some(ConfigValues(c)[i])
    ensures OptString(o, "channel", "#android") == c.channel
    ensures OptString(o, "channels", "") == c.channels
    ensures OptString(o, "highlights", "") == c.highlights
    ensures OptString(o, "highlightExceptions", "") == c.highlightExceptions
    ensures OptString(o, "ignoreNicks", "") == c.ignoreNicks
    ensures OptString(o, "saslAccount", "") == c.saslAccount
    ensures OptString(o, "saslPassword", "") == c.saslPassword
  {
    assert ConfigKeys[6] == "channel" && ConfigKeys[7] == "channels" && ConfigKeys[8] == "highlights";
    assert ConfigKeys[9] == "highlightExceptions" && ConfigKeys[10] == "ignoreNicks";
    assert ConfigKeys[11] == "saslAccount" && ConfigKeys[12] == "saslPassword";
  }

  /** The display and quiet-hours fields. */
  lemma ReadLast(o: seq<Field>, c: SavedConfig)
    requires forall i :: 0 <= i < |ConfigKeys| ==> Get(o, ConfigKeys[i]) == Some(ConfigValues(c)[i])
    ensures OptBoolean(o, "stripColors", true) == c.stripColors
    ensures OptBoolean(o, "allowBackgrounds", false) == c.allowBackgrounds
    ensures OptInt(o, "fontScalePercent", 100) == c.fontScalePercent
    ensures OptBoolean(o, "quietHoursEnabled", false) == c.quietHoursEnabled
    ensures OptInt(o, "quietHoursStart", 23) == c.quietHoursStart
    ensures OptInt(o, "quietHoursEnd", 7) == c.quietHoursEnd
  {
    assert ConfigKeys[13] == "stripColors" && ConfigKeys[14] == "allowBackgrounds";
    assert ConfigKeys[15] == "fontScalePercent" && ConfigKeys[16] == "quietHoursEnabled";
    assert ConfigKeys[17] == "quietHoursStart" && ConfigKeys[18] == "quietHoursEnd";
  }

  /** `toConfig` reads every written pair back into its own field. */
  lemma ConfigRead(c: SavedConfig)
    ensures ToConfig(ConfigFields(c)) == Normalize(c)
  {
    ConfigGets(c);
    ReadServer(ConfigFields(c), c);
    ReadIdentity(ConfigFields(c), c);
    ReadMiddle(ConfigFields(c), c);
    ReadLast(ConfigFields(c), c);
  }

  /**
   * A configuration written by `toJson` and read back by `toConfig` is the
   * same configuration, except for the two switches `toJson` does not write.
   */
  lemma ConfigRoundTrip(c: SavedConfig)
    ensures WellFormed(JObject(ConfigToJson(c)))
    ensures ParseObjectText(Serialize(JObject(ConfigToJson(c)))) == Some(ConfigToJson(c))
    ensures ToConfig(ConfigToJson(c)) == Normalize(c)
  {
    ConfigFieldsWellFormed(c);
    BuiltObjectRoundTrip(ConfigFields(c));
    ConfigRead(c);
  }

  // ---------------------------------------------------------------------
  // NetworkProfile <-> JSON
  // ---------------------------------------------------------------------

  /** The pairs `NetworkProfile.toJson` puts, given the configuration's object. */
  function ProfileFields(id: string, name: string, config: seq<Field>): seq<Field> {
    [Field("id", JString(id)), Field("name", JString(name)), Field("config", JObject(config))]
  }

  /** `NetworkProfile.toJson`. */
  function ProfileToJson(p: NetworkProfile): seq<Field> {
    PutPairs([], ProfileFields(p.id, p.name, ConfigToJson(p.config)))
  }

  /**
   * `JSONObject.toProfile`: null without a non-blank name or without a
   * nested `config` object; a blank id is replaced by `freshId` (a new
   * random UUID in the source).
   */
  function ToProfile(o: seq<Field>, freshId: string): (r: Option<NetworkProfile>)
    ensures r.Some? <==> !Text.IsBlank(OptString(o, "name", "")) && OptObject(o, "config").Some?
    ensures r.Some? ==> r.value.name == OptString(o, "name", "") && r.value.config == ToConfig(OptObject(o, "config").value)
    ensures r.Some? ==> r.value.id == (if Text.IsBlank(OptString(o, "id", "")) then freshId else OptString(o, "id", ""))
  {
    var name := OptString(o, "name", "");
    if Text.IsBlank(name) then None
    else
      match OptObject(o, "config")
      case None => None
      case Some(cfg) =>
        var id := OptString(o, "id", "");
        Some(NetworkProfile(if Text.IsBlank(id) then freshId else id, name, ToConfig(cfg)))
  }

  /** How one profile comes back after a save and a load, given the id a blank one is reissued with. */
  function Reloaded(p: NetworkProfile, freshId: string): Option<NetworkProfile> {
    if Text.IsBlank(p.name) then None
    else Some(NetworkProfile(if Text.IsBlank(p.id) then freshId else p.id, p.name, Normalize(p.config)))
  }

  /** The object `toJson` builds holds exactly the three pairs, once each. */
  lemma ProfileObject(id: string, name: string, config: seq<Field>)
    requires WellFormed(JObject(config))
    ensures PutPairs([], ProfileFields(id, name, config)) == ProfileFields(id, name, config)
    ensures WellFormed(JObject(ProfileFields(id, name, config)))
    ensures Get(ProfileFields(id, name, config), "id") == Some(JString(id))
    ensures Get(ProfileFields(id, name, config), "name") == Some(JString(name))
    ensures Get(ProfileFields(id, name, config), "config") == Some(JObject(config))
  {
    var fs := ProfileFields(id, name, config);
    NamesDistinctKeys(fs);
    AllFieldsWellFormed(fs);
    PutPairsFresh([], fs);
    assert [] + fs == fs;
    GetIndex(fs, 0);
    GetIndex(fs, 1);
    GetIndex(fs, 2);
  }

  lemma ProfileWellFormed(p: NetworkProfile)
    ensures WellFormed(JObject(ProfileToJson(p)))
  {
    ConfigRoundTrip(p.config);
    ProfileObject(p.id, p.name, ConfigToJson(p.config));
  }

  /** A profile written by `toJson` and read by `toProfile` is `Reloaded`. */
  lemma ProfileRoundTrip(p: NetworkProfile, freshId: string)
    ensures ToProfile(ProfileToJson(p), freshId) == Reloaded(p, freshId)
  {
    ConfigRoundTrip(p.config);
    ProfileObject(p.id, p.name, ConfigToJson(p.config));
  }

  // ---------------------------------------------------------------------
  // parseProfiles
  // ---------------------------------------------------------------------

  /** The profile read from the item at `i`, if that item is an object `toProfile` accepts. */
  function ProfileAt(items: seq<Json>, i: nat, freshIds: nat -> string): Option<NetworkProfile> {
    match OptObjectAt(items, i)
    case None => None
    case Some(o) => ToProfile(o, freshIds(i))
  }

  /** What each item of the array reads as. */
  function ProfileReads(items: seq<Json>, freshIds: nat -> string): (r: seq<Option<NetworkProfile>>)
    ensures |r| == |items|
    ensures forall i :: 0 <= i < |items| ==> r[i] == ProfileAt(items, i, freshIds)
  {
    seq(|items|, i requires 0 <= i < |items| => ProfileAt(items, i, freshIds))
  }

  /** What `parseProfiles(raw)` returns: nothing when `raw` is not an array. */
  function ProfilesOf(raw: string, freshIds: nat -> string): seq<NetworkProfile> {
    match ParseArrayText(raw)
    case None => []
    case Some(items) => Somes(ProfileReads(items, freshIds))
  }

  /** Every profile read has a non-blank name. */
  lemma ProfilesNamed(raw: string, freshIds: nat -> string, k: nat)
    requires k < |ProfilesOf(raw, freshIds)|
    ensures !Text.IsBlank(ProfilesOf(raw, freshIds)[k].name)
  {
    var items := ParseArrayText(raw).value;
    var results := ProfileReads(items, freshIds);
    SomesFrom(results, k);
    var i :| 0 <= i < |results| && results[i] == Some(Somes(results)[k]);
  }

  /** `parseProfiles`: the array's objects that `toProfile` accepts, in order. */
  method ParseProfiles(raw: string, freshIds: nat -> string) returns (list: seq<NetworkProfile>)
    ensures list == ProfilesOf(raw, freshIds)
  {
    list := [];
    var arr := ParseArrayText(raw);
    if arr.None? {
      return;
    }
    var items := arr.value;
    ghost var results := ProfileReads(items, freshIds);
    for i := 0 to |items|
      invariant list == Somes(results[..i])
    {
      assert results[..i + 1] == results[..i] + [results[i]];
      SomesAppend(results[..i], results[i]);
      var obj := OptObjectAt(items, i);
      if obj.None? {
        continue;
      }
      var profile := ToProfile(obj.value, freshIds(i));
      if profile.None? {
        continue;
      }
      list := list + [profile.value];
    }
    assert results[..|items|] == results;
  }

  // ---------------------------------------------------------------------
  // save / load
  // ---------------------------------------------------------------------

  /** The array `saveNetworkProfiles` writes: each profile's object, in order. */
  function ProfilesJson(profiles: seq<NetworkProfile>): (r: seq<Json>)
    ensures |r| == |profiles|
  {
    seq(|profiles|, i requires 0 <= i < |profiles| => JObject(ProfileToJson(profiles[i])))
  }

  /** The store after `saveNetworkProfiles(profiles, activeId)`. */
  function Saved(prefs: map<string, string>, profiles: seq<NetworkProfile>, activeId: Option<string>): (r: map<string, string>)
    ensures profiles == [] ==> Entries !in r && Active !in r
    ensures profiles != [] ==> Entries in r && (Active in r <==> activeId.Some?)
    ensures forall k :: k in prefs && k != Entries && k != Active ==> k in r && r[k] == prefs[k]
    ensures forall k :: k in r && k != Entries && k != Active ==> k in prefs
  {
    if profiles == [] then prefs - {Entries, Active}
    else
      var withEntries := prefs[Entries := Serialize(JArray(ProfilesJson(profiles)))];
      match activeId
      case Some(a) => withEntries[Active := a]
      case None => withEntries - {Active}
  }

  /** `saveNetworkProfiles`: the edit applied to the store's preferences. */
  method SaveNetworkProfiles(prefs: map<string, string>, profiles: seq<NetworkProfile>, activeId: Option<string>)
    returns (r: map<string, string>)
    ensures r == Saved(prefs, profiles, activeId)
  {
    r := prefs;
    if profiles == [] {
      r := r - {Entries};
      r := r - {Active};
      assert r == prefs - {Entries, Active};
    } else {
      var arr: seq<Json> := [];
      for i := 0 to |profiles|
        invariant |arr| == i
        invariant forall k :: 0 <= k < i ==> arr[k] == JObject(ProfileToJson(profiles[k]))
      {
        arr := arr + [JObject(ProfileToJson(profiles[i]))];
      }
      assert arr == ProfilesJson(profiles);
      r := r[Entries := Serialize(JArray(arr))];
      if activeId.Some? {
        r := r[Active := activeId.value];
      } else {
        r := r - {Active};
      }
    }
  }

  /**
   * `loadNetworkProfiles`: `prefs` is `None` when the store cannot be
   * read; without `entries` the state is empty.
   */
  function Load(prefs: Option<map<string, string>>, freshIds: nat -> string): (r: NetworkProfilesState)
    ensures prefs.None? ==> r == EmptyState
    ensures prefs.Some? && Entries !in prefs.value ==> r == EmptyState
    ensures prefs.Some? && Entries in prefs.value ==>
      r.activeId == (if Active in prefs.value then Some(prefs.value[Active]) else None)
  {
    match prefs
    case None => EmptyState
    case Some(m) =>
      if Entries !in m then EmptyState
      else NetworkProfilesState(ProfilesOf(m[Entries], freshIds), if Active in m then Some(m[Active]) else None)
  }

  /** Each saved profile as it loads back. */
  function ReloadedAll(profiles: seq<NetworkProfile>, freshIds: nat -> string): (r: seq<Option<NetworkProfile>>)
    ensures |r| == |profiles|
  {
    seq(|profiles|, i requires 0 <= i < |profiles| => Reloaded(profiles[i], freshIds(i)))
  }

  lemma ProfilesTextRoundTrip(profiles: seq<NetworkProfile>)
    ensures ParseArrayText(Serialize(JArray(ProfilesJson(profiles)))) == Some(ProfilesJson(profiles))
  {
    var items := ProfilesJson(profiles);
    forall i | 0 <= i < |items| ensures WellFormed(items[i]) {
      ProfileWellFormed(profiles[i]);
    }
    AllItemsWellFormed(items);
    ArrayTextRoundTrip(items);
  }

  lemma ReadsReloaded(profiles: seq<NetworkProfile>, freshIds: nat -> string)
    ensures ProfileReads(ProfilesJson(profiles), freshIds) == ReloadedAll(profiles, freshIds)
  {
    var items := ProfilesJson(profiles);
    forall i | 0 <= i < |items| ensures ProfileAt(items, i, freshIds) == Reloaded(profiles[i], freshIds(i)) {
      ProfileRoundTrip(profiles[i], freshIds(i));
    }
  }

  /**
   * Saving and loading: an empty list removes both keys and loads as the
   * empty state; otherwise the profiles come back in order, those with a
   * blank name dropped, blank ids reissued, and the active id as saved.
   */
  lemma SaveLoad(prefs: map<string, string>, profiles: seq<NetworkProfile>, activeId: Option<string>, freshIds: nat -> string)
    ensures Load(Some(Saved(prefs, profiles, activeId)), freshIds)
         == if profiles == [] then EmptyState
            else NetworkProfilesState(Somes(ReloadedAll(profiles, freshIds)), activeId)
  {
    if profiles != [] {
      ProfilesTextRoundTrip(profiles);
      ReadsReloaded(profiles, freshIds);
    }
  }

  /** Profiles with non-blank names and ids come back unchanged, but for the two unsaved switches. */
  lemma SaveLoadNamed(prefs: map<string, string>, profiles: seq<NetworkProfile>, activeId: Option<string>, freshIds: nat -> string)
    requires profiles != []
    requires forall i :: 0 <= i < |profiles| ==> !Text.IsBlank(profiles[i].name) && !Text.IsBlank(profiles[i].id)
    ensures Load(Some(Saved(prefs, profiles, activeId)), freshIds).activeId == activeId
    ensures |Load(Some(Saved(prefs, profiles, activeId)), freshIds).profiles| == |profiles|
    ensures forall i :: 0 <= i < |profiles| ==>
      Load(Some(Saved(prefs, profiles, activeId)), freshIds).profiles[i] == profiles[i].(config := Normalize(profiles[i].config))
  {
    SaveLoad(prefs, profiles, activeId, freshIds);
    var rs := ReloadedAll(profiles, freshIds);
    forall i | 0 <= i < |rs| ensures rs[i] == Some(profiles[i].(config := Normalize(profiles[i].config))) {
      assert rs[i] == Reloaded(profiles[i], freshIds(i));
    }
    SomesAll(rs);
    var st := Load(Some(Saved(prefs, profiles, activeId)), freshIds);
    assert st.profiles == Somes(rs);
  }
}
