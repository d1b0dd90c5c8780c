/**
 * `PersistedEventMapper`: a `UiEvent` becomes a `buffer_events` row whose
 * payload is a JSON object of the event's fields, and a row becomes an
 * event again. Null optional fields are left out of the payload.
 */
module EventMapper {
  import opened Wrappers
  import Text
  import opened Json
  import opened IrcModels

  const TypeChat: string := "chat"
  const TypeNotice: string := "notice"
  const TypeJoin: string := "join"
  const TypePart: string := "part"
  const TypeQuit: string := "quit"
  const TypeKick: string := "kick"
  const TypeNick: string := "nick"
  const TypeTopic: string := "topic"
  const TypeSystem: string := "system"

  const Tags: set<string> := {TypeChat, TypeNotice, TypeJoin, TypePart, TypeQuit, TypeKick, TypeNick, TypeTopic, TypeSystem}

  /** A row of `buffer_events`; `id` is the generated key, `0` before insertion. */
  datatype BufferEventEntity = BufferEventEntity(id: int, bufferKey: string, eventType: string, payload: string, time: int)

  /** A `Pair<String, Any?>` handed to `jsonObject`. */
  type Pair = (string, Option<Json>)

  // ---------------------------------------------------------------------
  // jsonObject
  // ---------------------------------------------------------------------

  /** The pairs whose value is not null, in order. */
  function Present(pairs: seq<Pair>): seq<Field> {
    if pairs == [] then []
    else (if pairs[0].1.Some? then [Field(pairs[0].0, pairs[0].1.value)] else []) + Present(pairs[1..])
  }

  /** The object `jsonObject(pairs)` builds. */
  function JsonObjectOf(pairs: seq<Pair>): seq<Field> {
    PutPairs([], Present(pairs))
  }

  /** `jsonObject`: `put` every pair whose value is not null. */
  method JsonObject(pairs: seq<Pair>) returns (obj: seq<Field>)
    ensures obj == JsonObjectOf(pairs)
  {
    obj := [];
    for i := 0 to |pairs|
      invariant PutPairs(obj, Present(pairs[i..])) == JsonObjectOf(pairs)
    {
      var rest := Present(pairs[i + 1..]);
      assert pairs[i..][0] == pairs[i] && pairs[i..][1..] == pairs[i + 1..];
      if pairs[i].1.Some? {
        var f := Field(pairs[i].0, pairs[i].1.value);
        assert Present(pairs[i..]) == [f] + rest;
        assert ([f] + rest)[0] == f && ([f] + rest)[1..] == rest;
        obj := Put(obj, pairs[i].0, pairs[i].1.value);
      } else {
        assert Present(pairs[i..]) == [] + rest == rest;
      }
    }
    assert pairs[|pairs|..] == [];
  }

  predicate PairsDistinct(pairs: seq<Pair>) {
    forall i, j :: 0 <= i < j < |pairs| ==> pairs[i].0 != pairs[j].0
  }

  predicate PairsWellFormed(pairs: seq<Pair>) {
    forall i :: 0 <= i < |pairs| && pairs[i].1.Some? ==> WellFormed(pairs[i].1.value)
  }

  lemma PairsTail(pairs: seq<Pair>)
    requires pairs != []
    ensures PairsDistinct(pairs) ==> PairsDistinct(pairs[1..])
    ensures PairsWellFormed(pairs) ==> PairsWellFormed(pairs[1..])
    ensures forall j :: 0 <= j < |pairs[1..]| ==> pairs[1..][j] == pairs[j + 1]
  {
  }

  /** A name that no pair has is not in the object. */
  lemma {:induction false} PresentKeys(pairs: seq<Pair>, k: string)
    requires forall j :: 0 <= j < |pairs| ==> pairs[j].0 != k
    ensures k !in Keys(Present(pairs))
    decreases |pairs|
  {
    if pairs != [] {
      var head := if pairs[0].1.Some? then [Field(pairs[0].0, pairs[0].1.value)] else [];
      KeysAppend(head, Present(pairs[1..]));
      PairsTail(pairs);
      PresentKeys(pairs[1..], k);
    }
  }

  lemma {:induction false} PresentDistinct(pairs: seq<Pair>)
    requires PairsDistinct(pairs)
    ensures DistinctKeys(Present(pairs))
    decreases |pairs|
  {
    if pairs != [] {
      PairsTail(pairs);
      PresentDistinct(pairs[1..]);
      PresentKeys(pairs[1..], pairs[0].0);
      if pairs[0].1.Some? {
        var f := Field(pairs[0].0, pairs[0].1.value);
        assert ([f] + Present(pairs[1..]))[1..] == Present(pairs[1..]);
      } else {
        assert [] + Present(pairs[1..]) == Present(pairs[1..]);
      }
    }
  }

  lemma {:induction false} PresentWellFormed(pairs: seq<Pair>)
    requires PairsWellFormed(pairs)
    ensures FieldsWellFormed(Present(pairs))
    decreases |pairs|
  {
    if pairs != [] {
      PairsTail(pairs);
      PresentWellFormed(pairs[1..]);
      if pairs[0].1.Some? {
        var f := Field(pairs[0].0, pairs[0].1.value);
        assert ([f] + Present(pairs[1..]))[1..] == Present(pairs[1..]);
      } else {
        assert [] + Present(pairs[1..]) == Present(pairs[1..]);
      }
    }
  }

  /** In the object, each pair's name has that pair's value, and a null pair's name is absent. */
  lemma {:induction false} PresentGet(pairs: seq<Pair>, i: nat)
    requires PairsDistinct(pairs) && i < |pairs|
    ensures Get(Present(pairs), pairs[i].0) == pairs[i].1
    decreases i
  {
    var rest := Present(pairs[1..]);
    PairsTail(pairs);
    if i == 0 {
      if pairs[0].1.None? {
        assert [] + rest == rest;
        PresentKeys(pairs[1..], pairs[0].0);
      }
    } else {
      PresentGet(pairs[1..], i - 1);
      if pairs[0].1.Some? {
        var f := Field(pairs[0].0, pairs[0].1.value);
        assert ([f] + rest)[1..] == rest;
      } else {
        assert [] + rest == rest;
      }
    }
  }

  /** A payload of distinct names, once written out, reads back as its non-null pairs. */
  lemma PayloadRoundTrip(pairs: seq<Pair>)
    requires PairsDistinct(pairs) && PairsWellFormed(pairs)
    ensures ParseObjectText(Serialize(JObject(JsonObjectOf(pairs)))) == Some(Present(pairs))
  {
    PresentDistinct(pairs);
    PresentWellFormed(pairs);
    BuiltObjectRoundTrip(Present(pairs));
  }

  // ---------------------------------------------------------------------
  // toEntity
  // ---------------------------------------------------------------------

  function Str(s: string): Option<Json> {
    Some(JString(s))
  }

  function OptStr(o: Option<string>): Option<Json> {
    match o
    case Some(s) => Some(JString(s))
    case None => None
  }

  function OptNumber(o: Option<int>): Option<Json> {
    match o
    case Some(n) => Some(JNumber(n))
    case None => None
  }

  /** The type tag and the payload pairs of each kind of event. */
  function EventPairs(e: UiEvent): (r: (string, seq<Pair>))
    ensures r.0 in Tags
    ensures PairsDistinct(r.1)
  {
    match e
    case Chat(nick, target, text, _) =>
      (TypeChat, [("nick", Str(nick)), ("target", Str(target)), ("text", Str(text))])
    case Notice(nick, target, text, _) =>
      (TypeNotice, [("nick", OptStr(nick)), ("target", OptStr(target)), ("text", Str(text))])
    case Join(nick, channel, _) =>
      (TypeJoin, [("nick", Str(nick)), ("channel", Str(channel))])
    case Part(nick, channel, reason, _) =>
      (TypePart, [("nick", Str(nick)), ("channel", Str(channel)), ("reason", OptStr(reason))])
    case Quit(nick, reason, _) =>
      (TypeQuit, [("nick", Str(nick)), ("reason", OptStr(reason))])
    case Kick(kickedBy, channel, target, reason, _) =>
      (TypeKick, [("by", OptStr(kickedBy)), ("channel", Str(channel)), ("target", Str(target)), ("reason", OptStr(reason))])
    case Nick(oldNick, newNick, _) =>
      (TypeNick, [("old", Str(oldNick)), ("new", Str(newNick))])
    case Topic(channel, text, setter, setAt, _) =>
      (TypeTopic, [("channel", Str(channel)), ("text", Str(text)), ("setter", OptStr(setter)), ("setAt", OptNumber(setAt))])
    case System(text, target, _) =>
      (TypeSystem, [("text", Str(text)), ("target", OptStr(target))])
  }

  /** `toEntity`: the row for an event in a buffer. */
  function ToEntity(bufferKey: string, e: UiEvent): (r: BufferEventEntity)
    ensures r.id == 0 && r.bufferKey == bufferKey && r.time == e.time
    ensures r.eventType in Tags
    ensures r.eventType == TypeChat <==> e.Chat?
    ensures r.eventType == TypeNotice <==> e.Notice?
    ensures r.eventType == TypeJoin <==> e.Join?
    ensures r.eventType == TypePart <==> e.Part?
    ensures r.eventType == TypeQuit <==> e.Quit?
    ensures r.eventType == TypeKick <==> e.Kick?
    ensures r.eventType == TypeNick <==> e.Nick?
    ensures r.eventType == TypeTopic <==> e.Topic?
    ensures r.eventType == TypeSystem <==> e.System?
  {
    var ep := EventPairs(e);
    BufferEventEntity(0, bufferKey, ep.0, Serialize(JObject(JsonObjectOf(ep.1))), e.time)
  }

  // ---------------------------------------------------------------------
  // toUiEvent
  // ---------------------------------------------------------------------

  /** `optStringOrNull`: the string under `key`, or null when it is absent or null. */
  function OptStringOrNull(p: seq<Field>, key: string): Option<string> {
    if Has(p, key) && !IsNull(p, key) then GetString(p, key) else None
  }

  /**
   * `optLongOrNull`: `Some(None)` when the key is absent or null,
   * `Some(Some(n))` for a number, and `None` for the exception `getLong`
   * throws on anything else.
   */
  function OptLongOrNull(p: seq<Field>, key: string): Option<Option<int>> {
    if Has(p, key) && !IsNull(p, key) then
      match GetLong(p, key)
      case Some(n) => Some(Some(n))
      case None => None
    else Some(None)
  }

  /** The `when` of `toUiEvent` on a parsed payload; `None` is a missing required name or an unknown type. */
  function EventOf(eventType: string, p: seq<Field>, time: int): Option<UiEvent> {
    if eventType == TypeChat then
      var nick := GetString(p, "nick");
      var target := GetString(p, "target");
      var text := GetString(p, "text");
      if nick.Some? && target.Some? && text.Some? then Some(Chat(nick.value, target.value, text.value, time)) else None
    else if eventType == TypeNotice then
      var text := GetString(p, "text");
      if text.Some? then Some(Notice(OptStringOrNull(p, "nick"), OptStringOrNull(p, "target"), text.value, time)) else None
    else if eventType == TypeJoin then
      var nick := GetString(p, "nick");
      var channel := GetString(p, "channel");
      if nick.Some? && channel.Some? then Some(Join(nick.value, channel.value, time)) else None
    else if eventType == TypePart then
      var nick := GetString(p, "nick");
      var channel := GetString(p, "channel");
      if nick.Some? && channel.Some? then Some(Part(nick.value, channel.value, OptStringOrNull(p, "reason"), time)) else None
    else if eventType == TypeQuit then
      var nick := GetString(p, "nick");
      if nick.Some? then Some(Quit(nick.value, OptStringOrNull(p, "reason"), time)) else None
    else if eventType == TypeKick then
      var channel := GetString(p, "channel");
      var target := GetString(p, "target");
      if channel.Some? && target.Some? then
        Some(Kick(OptStringOrNull(p, "by"), channel.value, target.value, OptStringOrNull(p, "reason"), time))
      else None
    else if eventType == TypeNick then
      var oldNick := GetString(p, "old");
      var newNick := GetString(p, "new");
      if oldNick.Some? && newNick.Some? then Some(Nick(oldNick.value, newNick.value, time)) else None
    else if eventType == TypeTopic then
      var channel := GetString(p, "channel");
      var text := GetString(p, "text");
      var setAt := OptLongOrNull(p, "setAt");
      if channel.Some? && text.Some? && setAt.Some? then
        Some(Topic(channel.value, text.value, OptStringOrNull(p, "setter"), setAt.value, time))
      else None
    else if eventType == TypeSystem then
      var text := GetString(p, "text");
      if text.Some? then Some(System(text.value, OptStringOrNull(p, "target"), time)) else None
    else None
  }

  /** `toUiEvent`: the event a row stores, or null. */
  function ToUiEvent(entity: BufferEventEntity): (r: Option<UiEvent>)
    ensures r.Some? ==> r.value.time == entity.time
    ensures entity.eventType !in Tags ==> r.None?
    ensures ParseObjectText(entity.payload).None? ==> r.None?
  {
    match ParseObjectText(entity.payload)
    case None => None
    case Some(p) => EventOf(entity.eventType, p, entity.time)
  }

  /** The names each type of event cannot do without (read with `getString`). */
  function RequiredKeys(eventType: string): set<string> {
    if eventType == TypeChat then {"nick", "target", "text"}
    else if eventType == TypeNotice then {"text"}
    else if eventType == TypeJoin then {"nick", "channel"}
    else if eventType == TypePart then {"nick", "channel"}
    else if eventType == TypeQuit then {"nick"}
    else if eventType == TypeKick then {"channel", "target"}
    else if eventType == TypeNick then {"old", "new"}
    else if eventType == TypeTopic then {"channel", "text"}
    else if eventType == TypeSystem then {"text"}
    else {}
  }

  /** A payload without one of the names its type requires gives null, not a failure. */
  lemma MissingRequiredKey(entity: BufferEventEntity, p: seq<Field>, key: string)
    requires ParseObjectText(entity.payload) == Some(p)
    requires key in RequiredKeys(entity.eventType) && !Has(p, key)
    ensures ToUiEvent(entity).None?
  {
  }

  // ---------------------------------------------------------------------
  // Round trip
  // ---------------------------------------------------------------------

  /** The events a row can hold: a topic's timestamp fits a `Long`. */
  predicate Storable(e: UiEvent) {
    e.Topic? && e.setAtEpoch.Some? ==> Text.IsInt64(e.setAtEpoch.value)
  }

  lemma StorablePairs(e: UiEvent)
    requires Storable(e)
    ensures PairsWellFormed(EventPairs(e).1)
  {
  }

  /** The payload of a row reads back as the event's non-null fields. */
  lemma EntityPayload(bufferKey: string, e: UiEvent)
    requires Storable(e)
    ensures ParseObjectText(ToEntity(bufferKey, e).payload) == Some(Present(EventPairs(e).1))
  {
    StorablePairs(e);
    PayloadRoundTrip(EventPairs(e).1);
  }

  /** A null optional field is not in the payload at all. */
  lemma NullFieldLeftOut(bufferKey: string, e: UiEvent, i: nat)
    requires Storable(e) && i < |EventPairs(e).1| && EventPairs(e).1[i].1.None?
    ensures ParseObjectText(ToEntity(bufferKey, e).payload).Some?
    ensures !Has(ParseObjectText(ToEntity(bufferKey, e).payload).value, EventPairs(e).1[i].0)
  {
    EntityPayload(bufferKey, e);
    PresentGet(EventPairs(e).1, i);
  }

  /** An object with the fields of an event gives back that event. */
  predicate HoldsFields(e: UiEvent, p: seq<Field>) {
    forall i :: 0 <= i < |EventPairs(e).1| ==> Get(p, EventPairs(e).1[i].0) == EventPairs(e).1[i].1
  }

  lemma MessagesFromFields(e: UiEvent, p: seq<Field>)
    requires e.Chat? || e.Notice? || e.Join?
    requires HoldsFields(e, p)
    ensures EventOf(EventPairs(e).0, p, e.time) == Some(e)
  {
    var pairs := EventPairs(e).1;
    match e
    case Chat(_, _, _, _) =>
      assert Get(p, pairs[0].0) == pairs[0].1 && Get(p, pairs[1].0) == pairs[1].1 && Get(p, pairs[2].0) == pairs[2].1;
    case Notice(_, _, _, _) =>
      assert Get(p, pairs[0].0) == pairs[0].1 && Get(p, pairs[1].0) == pairs[1].1 && Get(p, pairs[2].0) == pairs[2].1;
    case Join(_, _, _) =>
      assert Get(p, pairs[0].0) == pairs[0].1 && Get(p, pairs[1].0) == pairs[1].1;
  }

  lemma DeparturesFromFields(e: UiEvent, p: seq<Field>)
    requires e.Part? || e.Quit? || e.Kick?
    requires HoldsFields(e, p)
    ensures EventOf(EventPairs(e).0, p, e.time) == Some(e)
  {
    var pairs := EventPairs(e).1;
    match e
    case Part(_, _, _, _) =>
      assert Get(p, pairs[0].0) == pairs[0].1 && Get(p, pairs[1].0) == pairs[1].1 && Get(p, pairs[2].0) == pairs[2].1;
    case Quit(_, _, _) =>
      assert Get(p, pairs[0].0) == pairs[0].1 && Get(p, pairs[1].0) == pairs[1].1;
    case Kick(_, _, _, _, _) =>
      assert Get(p, pairs[0].0) == pairs[0].1 && Get(p, pairs[1].0) == pairs[1].1;
      assert Get(p, pairs[2].0) == pairs[2].1 && Get(p, pairs[3].0) == pairs[3].1;
  }

  lemma ChangesFromFields(e: UiEvent, p: seq<Field>)
    requires e.Nick? || e.Topic? || e.System?
    requires HoldsFields(e, p)
    ensures EventOf(EventPairs(e).0, p, e.time) == Some(e)
  {
    var pairs := EventPairs(e).1;
    match e
    case Nick(_, _, _) =>
      assert Get(p, pairs[0].0) == pairs[0].1 && Get(p, pairs[1].0) == pairs[1].1;
    case Topic(_, _, _, _, _) =>
      assert Get(p, pairs[0].0) == pairs[0].1 && Get(p, pairs[1].0) == pairs[1].1;
      assert Get(p, pairs[2].0) == pairs[2].1 && Get(p, pairs[3].0) == pairs[3].1;
    case System(_, _, _) =>
      assert Get(p, pairs[0].0) == pairs[0].1 && Get(p, pairs[1].0) == pairs[1].1;
  }

  /** Every event comes back from its row unchanged. */
  lemma EventRoundTrip(bufferKey: string, e: UiEvent)
    requires Storable(e)
    ensures ToUiEvent(ToEntity(bufferKey, e)) == Some(e)
  {
    var pairs := EventPairs(e).1;
    EntityPayload(bufferKey, e);
    var p := Present(pairs);
    forall i | 0 <= i < |pairs| ensures Get(p, pairs[i].0) == pairs[i].1 {
      PresentGet(pairs, i);
    }
    if e.Chat? || e.Notice? || e.Join? {
      MessagesFromFields(e, p);
    } else if e.Part? || e.Quit? || e.Kick? {
      DeparturesFromFields(e, p);
    } else {
      ChangesFromFields(e, p);
    }
  }
}
