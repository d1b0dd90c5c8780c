/**
 * The chat screen's per-buffer state that `MainActivity.kt` edits in
 * place: the joined channels, the mute switches, and each buffer's
 * input history with its cursor.
 */
module ChatScreen {
  import opened Wrappers
  import opened Text

  /** The entries of `s` that are not `name` in any case, in their order. */
  function Unmatched(s: seq<string>, name: string): seq<string> {
    if s == [] then []
    else (if EqualsIgnoreCase(s[0], name) then [] else [s[0]]) + Unmatched(s[1..], name)
  }

  /** Exactly the entries that are not `name` in any case are kept, and no more of them than there were. */
  lemma {:induction false} UnmatchedMembers(s: seq<string>, name: string, x: string)
    ensures |Unmatched(s, name)| <= |s|
    ensures x in Unmatched(s, name) <==> x in s && !EqualsIgnoreCase(x, name)
    decreases |s|
  {
    if s != [] {
      UnmatchedMembers(s[1..], name, x);
      assert s == [s[0]] + s[1..];
    }
  }

  /** The entries of `s` that are `name` in some case. */
  function Matched(s: seq<string>, name: string): set<string> {
    set x | x in s && EqualsIgnoreCase(x, name)
  }

  /** With no entry matching, nothing is removed. */
  lemma {:induction false} UnmatchedNoMatch(s: seq<string>, name: string)
    requires forall i :: 0 <= i < |s| ==> !EqualsIgnoreCase(s[i], name)
    ensures Unmatched(s, name) == s
    decreases |s|
  {
    if s != [] {
      UnmatchedNoMatch(s[1..], name);
    }
  }

  /** Removing the matches again removes nothing. */
  lemma UnmatchedIdempotent(s: seq<string>, name: string)
    ensures Unmatched(Unmatched(s, name), name) == Unmatched(s, name)
  {
    var r := Unmatched(s, name);
    forall i | 0 <= i < |r| ensures !EqualsIgnoreCase(r[i], name) {
      UnmatchedMembers(s, name, r[i]);
    }
    UnmatchedNoMatch(r, name);
  }

  /** `history.getOrNull(1) != trimmed` etc.: a sent line goes in at slot 1 unless it is already there; at most 101 slots are kept. */
  function HistoryAfter(history: seq<string>, line: string): seq<string> {
    var h := if history == [] then [""] else history;
    var inserted := if |h| >= 2 && h[1] == line then h else [h[0], line] + h[1..];
    if |inserted| > 101 then inserted[..|inserted| - 1] else inserted
  }

  /** The shape every history keeps: slot 0 is the empty draft, and at most 101 slots. */
  predicate HistoryShape(h: seq<string>) {
    1 <= |h| <= 101 && h[0] == ""
  }

  /**
   * After a line is sent the history keeps its shape and holds the line at
   * slot 1; if the line was not already there, the older lines move one
   * slot down and only the oldest can fall off the end.
   */
  lemma HistoryAfterShape(history: seq<string>, line: string)
    requires history == [] || HistoryShape(history)
    ensures var r := HistoryAfter(history, line);
      HistoryShape(r) && |r| >= 2 && r[1] == line
      && (if |history| >= 2 && history[1] == line then r == history
          else
            var older := if history == [] then [] else history[1..];
            |r| == Min(|older| + 2, 101) && r[2..] == older[..|r| - 2])
  {
  }

  function Min(a: int, b: int): int { if a < b then a else b }

  /** Sending the same line twice in a row records it once. */
  lemma HistoryAfterRepeat(history: seq<string>, line: string)
    requires history == [] || HistoryShape(history)
    ensures HistoryAfter(HistoryAfter(history, line), line) == HistoryAfter(history, line)
  {
    HistoryAfterShape(history, line);
  }

  /** The key a history is kept under: the buffer's name, or `"global"` when it is blank. */
  function HistoryKey(activeChannel: string): (r: string)
    ensures r != []
    ensures !IsBlank(activeChannel) ==> r == activeChannel
  {
    if IsBlank(activeChannel) then "global" else activeChannel
  }

  class ChatBuffers {
    /** The joined channels, in the order shown. */
    var channels: seq<string>
    /** Mute switch per buffer name. */
    var muted: map<string, bool>
    /** Per buffer: slot 0 is the draft, then the sent lines, newest first. */
    var inputHistories: map<string, seq<string>>
    /** Per buffer: the history slot the input field shows. */
    var inputHistoryPos: map<string, int>
    /** The buffer on screen. */
    var activeChannel: Option<string>

    /** Every history has the shape `HistoryAfter` keeps. */
    predicate Valid()
      reads this
    {
      forall k | k in inputHistories :: HistoryShape(inputHistories[k])
    }

    constructor ()
      ensures Valid()
      ensures channels == [] && muted == map[] && inputHistories == map[] && inputHistoryPos == map[]
      ensures activeChannel == None
    {
      channels := [];
      muted := map[];
      inputHistories := map[];
      inputHistoryPos := map[];
      activeChannel := None;
    }

    /**
     * The history update at the start of `sendMessageOrCommand`: a blank
     * line changes nothing; otherwise the line is recorded for the buffer
     * and its cursor goes back to the draft slot.
     */
    method RecordInput(active: string, text: string)
      requires Valid()
      modifies this
      ensures Valid()
      ensures channels == old(channels) && muted == old(muted) && activeChannel == old(activeChannel)
      ensures IsBlank(Trim(text)) ==> inputHistories == old(inputHistories) && inputHistoryPos == old(inputHistoryPos)
      ensures !IsBlank(Trim(text)) ==>
        var key := HistoryKey(active);
        inputHistories == old(inputHistories)[key := HistoryAfter(if key in old(inputHistories) then old(inputHistories)[key] else [""], Trim(text))]
        && inputHistoryPos == old(inputHistoryPos)[key := 0]
    {
      var trimmed := Trim(text);
      if IsBlank(trimmed) {
        return;
      }
      var key := HistoryKey(active);
      var history := if key in inputHistories then inputHistories[key] else [""];
      ghost var before := history;
      if history == [] {
        history := history + [""];
      }
      if !(|history| >= 2 && history[1] == trimmed) {
        history := [history[0], trimmed] + history[1..];
      }
      if |history| > 101 {
        history := history[..|history| - 1];
      }
      assert history == HistoryAfter(before, trimmed);
      HistoryAfterShape(before, trimmed);
      inputHistories := inputHistories[key := history];
      inputHistoryPos := inputHistoryPos[key := 0];
    }

    /**
     * `handleSelfKick`: after we are kicked from `channel`, every joined
     * entry equal to it ignoring case is dropped, walking from the back;
     * each dropped name loses its mute switch, history and cursor; and if
     * something was dropped and the channel was on screen, no buffer is.
     */
    method HandleSelfKick(channel: string)
      modifies this
      ensures channels == Unmatched(old(channels), channel)
      ensures muted == old(muted) - Matched(old(channels), channel)
      ensures inputHistories == old(inputHistories) - Matched(old(channels), channel)
      ensures inputHistoryPos == old(inputHistoryPos) - Matched(old(channels), channel)
      ensures activeChannel ==
        if Matched(old(channels), channel) != {} && old(activeChannel).Some? && EqualsIgnoreCase(old(activeChannel).value, channel)
        then None else old(activeChannel)
      ensures old(Valid()) ==> Valid()
    {
      ghost var original := channels;
      var removed := DropChannel(channel);
      assert NameSet(removed) == Matched(original, channel);
      if removed != [] {
        assert removed[0] in Matched(original, channel);
        RemoveAll(removed);
        if activeChannel.Some? && EqualsIgnoreCase(activeChannel.value, channel) {
          activeChannel := None;
        }
      } else {
        assert Matched(original, channel) == {};
      }
      if old(Valid()) {
        MinusKeepsShape(old(inputHistories), Matched(original, channel));
      }
    }

    /** The backwards `removeAt` walk over the joined channels; returns the dropped names. */
    method DropChannel(channel: string) returns (removed: seq<string>)
      modifies this
      ensures channels == Unmatched(old(channels), channel)
      ensures forall x :: x in removed <==> x in old(channels) && EqualsIgnoreCase(x, channel)
      ensures muted == old(muted) && inputHistories == old(inputHistories)
      ensures inputHistoryPos == old(inputHistoryPos) && activeChannel == old(activeChannel)
    {
      ghost var original := channels;
      removed := [];
      var i := |channels|;
      assert original[|original|..] == [];
      while i > 0
        invariant 0 <= i <= |original|
        invariant channels == original[..i] + Unmatched(original[i..], channel)
        invariant forall x :: x in removed <==> x in original[i..] && EqualsIgnoreCase(x, channel)
        invariant muted == old(muted) && inputHistories == old(inputHistories)
        invariant inputHistoryPos == old(inputHistoryPos) && activeChannel == old(activeChannel)
        decreases i
      {
        DropStep(original, channels, i - 1, Unmatched(original[i..], channel));
        SuffixSplit(original, i - 1);
        UnmatchedCons(original[i - 1], original[i..], channel);
        i := i - 1;
        var name := channels[i];
        if EqualsIgnoreCase(name, channel) {
          channels := channels[..i] + channels[i + 1..];
          removed := removed + [name];
        }
      }
      assert original[0..] == original;
    }

    /** `removed.forEach { … }`: drops each name from the three per-buffer maps. */
    method RemoveAll(names: seq<string>)
      modifies this
      ensures muted == old(muted) - NameSet(names)
      ensures inputHistories == old(inputHistories) - NameSet(names)
      ensures inputHistoryPos == old(inputHistoryPos) - NameSet(names)
      ensures channels == old(channels) && activeChannel == old(activeChannel)
    {
      assert names[..0] == [];
      for j := 0 to |names|
        invariant muted == old(muted) - NameSet(names[..j])
        invariant inputHistories == old(inputHistories) - NameSet(names[..j])
        invariant inputHistoryPos == old(inputHistoryPos) - NameSet(names[..j])
        invariant channels == old(channels) && activeChannel == old(activeChannel)
      {
        NameSetStep(names, j);
        MapMinusStep(old(muted), NameSet(names[..j]), names[j]);
        MapMinusStep(old(inputHistories), NameSet(names[..j]), names[j]);
        MapMinusStep(old(inputHistoryPos), NameSet(names[..j]), names[j]);
        muted := muted - {names[j]};
        inputHistories := inputHistories - {names[j]};
        inputHistoryPos := inputHistoryPos - {names[j]};
      }
      assert names[..|names|] == names;
    }
  }

  /** Dropping keys keeps every remaining history in shape. */
  lemma MinusKeepsShape(m: map<string, seq<string>>, drop: set<string>)
    requires forall k | k in m :: HistoryShape(m[k])
    ensures forall k | k in m - drop :: HistoryShape((m - drop)[k])
  {
  }

  /** The names listed in `s`. */
  function NameSet(s: seq<string>): set<string> {
    set x | x in s
  }

  lemma NameSetStep(s: seq<string>, j: nat)
    requires j < |s|
    ensures NameSet(s[..j + 1]) == NameSet(s[..j]) + {s[j]}
  {
    assert s[..j + 1] == s[..j] + [s[j]];
  }

  lemma MapMinusStep<V>(m: map<string, V>, a: set<string>, x: string)
    ensures m - (a + {x}) == (m - a) - {x}
  {
  }

  /**
   * One step of the backwards walk: with `s[..i + 1]` untouched ahead of
   * the already filtered rest `done`, index `i` is `s[i]`, and either
   * removing it or keeping it leaves `s[..i]` ahead of a filtered rest.
   */
  lemma DropStep(s: seq<string>, cur: seq<string>, i: nat, done: seq<string>)
    requires i < |s|
    requires cur == s[..i + 1] + done
    ensures i < |cur| && cur[i] == s[i]
    ensures cur[..i] + cur[i + 1..] == s[..i] + done
    ensures cur == s[..i] + ([s[i]] + done)
  {
    assert s[..i + 1] == s[..i] + [s[i]];
    assert cur[..i] == s[..i];
    assert cur[i + 1..] == done;
  }

  lemma SuffixSplit(s: seq<string>, i: nat)
    requires i < |s|
    ensures s[i..] == [s[i]] + s[i + 1..]
    ensures s[..i + 1] == s[..i] + [s[i]]
    ensures forall x :: x in s[i..] <==> x == s[i] || x in s[i + 1..]
  {
  }

  lemma UnmatchedCons(x: string, rest: seq<string>, name: string)
    ensures Unmatched([x] + rest, name) == (if EqualsIgnoreCase(x, name) then [] else [x]) + Unmatched(rest, name)
  {
    assert ([x] + rest)[1..] == rest;
  }
}
