/**
 * The channel membership table of `IrcClient`: `usersMap`, a
 * `LinkedHashMap<String, Char?>` from exact nick to privilege symbol (null
 * for a plain member), the NAMES batch that refills it, the MODE, NICK,
 * KICK, JOIN, PART and QUIT updates, the ISUPPORT `PREFIX` map those updates
 * consult, and the sorted list the client publishes.
 *
 * A `LinkedHashMap` is a map plus the order its keys were first inserted in,
 * and the published list is a stable sort of the entries in that order, so
 * the table is modelled as exactly that pair.
 */
module ChannelMembers {
  import opened Wrappers
  import Text
  import opened IrcModels
  import IrcParser

  // ---------------------------------------------------------------------
  // The table
  // ---------------------------------------------------------------------

  predicate Distinct(s: seq<string>) {
    forall i, j :: 0 <= i < j < |s| ==> s[i] != s[j]
  }

  /** `usersMap`: each key once in `order`, in first-insertion order. */
  datatype Members = Members(modes: map<string, Option<char>>, order: seq<string>)

  ghost predicate WellFormed(m: Members) {
    Distinct(m.order) && forall k :: k in m.modes <==> k in m.order
  }

  const NoMembers: Members := Members(map[], [])

  /** `usersMap[nick]`: null both for a plain member and for a nick that is not there. */
  function Get(m: Members, nick: string): Option<char> {
    if nick in m.modes then m.modes[nick] else None
  }

  /** `usersMap[nick] = mode`: an existing key keeps its place, a new one goes last. */
  function Put(m: Members, nick: string, mode: Option<char>): (r: Members)
    ensures WellFormed(m) ==> WellFormed(r)
    ensures nick in r.modes && r.modes[nick] == mode
    ensures forall n :: n != nick ==> Get(r, n) == Get(m, n) && (n in r.modes <==> n in m.modes)
  {
    if nick in m.modes then Members(m.modes[nick := mode], m.order)
    else
      var r := Members(m.modes[nick := mode], m.order + [nick]);
      assert WellFormed(m) ==> forall i :: 0 <= i < |m.order| ==> r.order[i] != nick;
      r
  }

  /** `usersMap.putIfAbsent(nick, mode)`: Java replaces a null value too. */
  function PutIfAbsent(m: Members, nick: string, mode: Option<char>): (r: Members)
    ensures WellFormed(m) ==> WellFormed(r)
    ensures nick in r.modes
    ensures Get(m, nick).Some? ==> r == m
    ensures Get(m, nick).None? ==> Get(r, nick) == mode
    ensures forall n :: n != nick ==> Get(r, n) == Get(m, n) && (n in r.modes <==> n in m.modes)
  {
    if Get(m, nick).Some? then m else Put(m, nick, mode)
  }

  /** The keys of `s` other than `x`, in order. */
  function Without(s: seq<string>, x: string): (r: seq<string>)
    ensures forall y :: y in r <==> y in s && y != x
    ensures Distinct(s) ==> Distinct(r)
  {
    if s == [] then []
    else if s[0] == x then Without(s[1..], x)
    else
      var rest := Without(s[1..], x);
      assert Distinct(s) ==> s[0] !in s[1..];
      [s[0]] + rest
  }

  /** `usersMap.remove(nick)`. */
  function Remove(m: Members, nick: string): (r: Members)
    ensures WellFormed(m) ==> WellFormed(r)
    ensures nick !in r.modes
    ensures forall n :: n != nick ==> Get(r, n) == Get(m, n) && (n in r.modes <==> n in m.modes)
  {
    Members(m.modes - {nick}, Without(m.order, nick))
  }

  /** `usersMap.entries.map { ChannelUser(it.key, it.value) }`, in key order. */
  function EntriesOf(order: seq<string>, modes: map<string, Option<char>>): (r: seq<ChannelUser>)
    ensures forall u :: u in r <==> u.nick in order && u.nick in modes && modes[u.nick] == u.mode
  {
    if order == [] then []
    else
      var rest := EntriesOf(order[1..], modes);
      if order[0] in modes then [ChannelUser(order[0], modes[order[0]])] + rest else rest
  }

  // ---------------------------------------------------------------------
  // The published order
  // ---------------------------------------------------------------------

  /** `compareByDescending { modeRank(it.mode) }.thenBy { it.nick.lowercase() }`, strictly. */
  predicate Before(a: ChannelUser, b: ChannelUser) {
    ModeRank(a.mode) > ModeRank(b.mode)
    || (ModeRank(a.mode) == ModeRank(b.mode) && Text.LexLess(Text.Lower(a.nick), Text.Lower(b.nick)))
  }

  lemma BeforeAsymmetric(a: ChannelUser, b: ChannelUser)
    ensures !(Before(a, b) && Before(b, a))
  {
    Text.LexLessAsymmetric(Text.Lower(a.nick), Text.Lower(b.nick));
  }

  /** No element is strictly before the one in front of it. */
  predicate Sorted(s: seq<ChannelUser>) {
    forall i :: 0 < i < |s| ==> !Before(s[i], s[i - 1])
  }

  /** Puts `x` behind every element it is not strictly before, which keeps the sort stable. */
  function Insert(x: ChannelUser, s: seq<ChannelUser>): (r: seq<ChannelUser>)
    ensures multiset(r) == multiset(s) + multiset{x}
    ensures |r| == |s| + 1 && (r[0] == x || (s != [] && r[0] == s[0]))
    ensures Sorted(s) ==> Sorted(r)
  {
    if s == [] then [x]
    else if Before(x, s[0]) then
      BeforeAsymmetric(x, s[0]);
      [x] + s
    else
      var rest := Insert(x, s[1..]);
      assert s == [s[0]] + s[1..];
      assert Sorted(s) ==> Sorted(s[1..]) by {
        if Sorted(s) {
          forall i | 0 < i < |s[1..]| ensures !Before(s[1..][i], s[1..][i - 1]) {
            assert s[1..][i] == s[i + 1] && s[1..][i - 1] == s[i];
          }
        }
      }
      [s[0]] + rest
  }

  /** `sortedWith(...)`: a stable insertion sort. */
  function SortUsers(s: seq<ChannelUser>): (r: seq<ChannelUser>)
    ensures multiset(r) == multiset(s)
    ensures Sorted(r)
  {
    if s == [] then []
    else
      assert s == s[..|s| - 1] + [s[|s| - 1]];
      Insert(s[|s| - 1], SortUsers(s[..|s| - 1]))
  }

  /** Same rank and the same lower-cased nick: the entries the comparator cannot tell apart. */
  predicate Tied(a: ChannelUser, b: ChannelUser) {
    ModeRank(a.mode) == ModeRank(b.mode) && Text.Lower(a.nick) == Text.Lower(b.nick)
  }

  /** The entries of `s` tied with `k`, in their order in `s`. */
  function TiedWith(k: ChannelUser, s: seq<ChannelUser>): seq<ChannelUser> {
    if s == [] then []
    else (if Tied(s[0], k) then [s[0]] else []) + TiedWith(k, s[1..])
  }

  lemma {:induction false} TiedWithAppend(k: ChannelUser, a: seq<ChannelUser>, b: seq<ChannelUser>)
    ensures TiedWith(k, a + b) == TiedWith(k, a) + TiedWith(k, b)
    decreases |a|
  {
    if a == [] {
      assert a + b == b;
    } else {
      assert (a + b)[0] == a[0] && (a + b)[1..] == a[1..] + b;
      TiedWithAppend(k, a[1..], b);
    }
  }

  /** Strictly before an entry, and that entry not strictly before a third: strictly before the third. */
  lemma BeforeThenNotBefore(x: ChannelUser, y: ChannelUser, z: ChannelUser)
    requires Before(x, y) && !Before(z, y)
    ensures Before(x, z)
  {
    var lx, ly, lz := Text.Lower(x.nick), Text.Lower(y.nick), Text.Lower(z.nick);
    if ModeRank(x.mode) == ModeRank(y.mode) == ModeRank(z.mode) && lz != ly {
      Text.LexLessTotal(lz, ly);
      Text.LexLessTransitive(lx, ly, lz);
    }
  }

  lemma SortedTail(s: seq<ChannelUser>)
    requires Sorted(s) && s != []
    ensures Sorted(s[1..])
  {
    forall i | 0 < i < |s[1..]| ensures !Before(s[1..][i], s[1..][i - 1]) {
      assert s[1..][i] == s[i + 1] && s[1..][i - 1] == s[i];
    }
  }

  lemma TiedWithCons(k: ChannelUser, x: ChannelUser, s: seq<ChannelUser>)
    ensures TiedWith(k, [x] + s) == (if Tied(x, k) then [x] else []) + TiedWith(k, s)
  {
    assert ([x] + s)[0] == x && ([x] + s)[1..] == s;
  }

  /** Nothing in a sorted list headed by an entry strictly after `x` is tied with `x`. */
  lemma {:induction false} NoTiesBehind(x: ChannelUser, k: ChannelUser, s: seq<ChannelUser>)
    requires Sorted(s) && s != [] && Before(x, s[0]) && Tied(x, k)
    ensures TiedWith(k, s) == []
    decreases |s|
  {
    Text.LexLessIrreflexive(Text.Lower(x.nick));
    if |s| > 1 {
      BeforeThenNotBefore(x, s[0], s[1]);
      SortedTail(s);
      NoTiesBehind(x, k, s[1..]);
    }
  }

  /** Insertion in front of a sorted list: nothing behind `x` is tied with it. */
  lemma InsertFrontStable(x: ChannelUser, s: seq<ChannelUser>, k: ChannelUser)
    requires Sorted(s) && s != [] && Before(x, s[0])
    ensures TiedWith(k, [x] + s) == TiedWith(k, s) + (if Tied(x, k) then [x] else [])
  {
    TiedWithCons(k, x, s);
    if Tied(x, k) {
      NoTiesBehind(x, k, s);
    }
  }

  /** Insertion puts `x` behind every entry it is tied with. */
  lemma {:induction false} InsertStable(x: ChannelUser, s: seq<ChannelUser>, k: ChannelUser)
    requires Sorted(s)
    ensures TiedWith(k, Insert(x, s)) == TiedWith(k, s) + (if Tied(x, k) then [x] else [])
    decreases |s|
  {
    if s == [] {
      TiedWithCons(k, x, []);
    } else if Before(x, s[0]) {
      InsertFrontStable(x, s, k);
    } else {
      SortedTail(s);
      InsertStable(x, s[1..], k);
      InsertBehindStable(s, Insert(x, s[1..]), k, if Tied(x, k) then [x] else []);
    }
  }

  /** Insertion behind the head: the head's tie, if any, stays in front. */
  lemma InsertBehindStable(s: seq<ChannelUser>, rest: seq<ChannelUser>, k: ChannelUser, tail: seq<ChannelUser>)
    requires s != [] && TiedWith(k, rest) == TiedWith(k, s[1..]) + tail
    ensures TiedWith(k, [s[0]] + rest) == TiedWith(k, s) + tail
  {
    TiedWithCons(k, s[0], rest);
    TiedWithCons(k, s[0], s[1..]);
    assert s == [s[0]] + s[1..];
  }

  /** One step of the sort: inserting the last entry keeps the tied entries in input order. */
  lemma InsertLastStable(init: seq<ChannelUser>, last: ChannelUser, sorted: seq<ChannelUser>, k: ChannelUser)
    requires Sorted(sorted) && TiedWith(k, sorted) == TiedWith(k, init)
    ensures TiedWith(k, Insert(last, sorted)) == TiedWith(k, init + [last])
  {
    InsertStable(last, sorted, k);
    assert [last][1..] == [];
    TiedWithAppend(k, init, [last]);
  }

  /** `sortedWith` is stable: entries the comparator ties keep their order in the table. */
  lemma {:induction false} SortUsersStable(s: seq<ChannelUser>, k: ChannelUser)
    ensures TiedWith(k, SortUsers(s)) == TiedWith(k, s)
    decreases |s|
  {
    if s != [] {
      var init, last := s[..|s| - 1], s[|s| - 1];
      assert s == init + [last];
      SortUsersStable(init, k);
      InsertLastStable(init, last, SortUsers(init), k);
    }
  }

  /** `publishUsers`: the value `users` gets. */
  function Published(m: Members): seq<ChannelUser> {
    SortUsers(EntriesOf(m.order, m.modes))
  }

  /** With distinct keys, each table entry is listed exactly once. */
  lemma {:induction false} EntriesOfOnce(order: seq<string>, modes: map<string, Option<char>>, u: ChannelUser)
    requires Distinct(order)
    ensures multiset(EntriesOf(order, modes))[u] ==
      if u.nick in order && u.nick in modes && modes[u.nick] == u.mode then 1 else 0
    decreases |order|
  {
    if order != [] {
      assert order == [order[0]] + order[1..];
      assert Distinct(order[1..]) && order[0] !in order[1..];
      EntriesOfOnce(order[1..], modes, u);
    }
  }

  /** The published list is a sorted permutation of the table's entries: each listed exactly once. */
  lemma PublishedIsTable(m: Members, u: ChannelUser)
    requires WellFormed(m)
    ensures Sorted(Published(m))
    ensures multiset(Published(m))[u] == if u.nick in m.modes && m.modes[u.nick] == u.mode then 1 else 0
    ensures u in Published(m) <==> u.nick in m.modes && m.modes[u.nick] == u.mode
  {
    var e := EntriesOf(m.order, m.modes);
    EntriesOfOnce(m.order, m.modes, u);
    assert u in Published(m) <==> u in multiset(e);
    assert u.nick in m.modes ==> u.nick in m.order;
  }

  // ---------------------------------------------------------------------
  // NAMES (353) and end of NAMES (366)
  // ---------------------------------------------------------------------

  /**
   * One space-separated word of a 353 reply: trimmed, with at most one
   * leading privilege symbol taken off; `None` when nothing is left.
   */
  function NamesEntry(n: string): (r: Option<ChannelUser>)
    ensures r.Some? ==> !Text.IsBlank(r.value.nick)
    ensures r.Some? && r.value.mode.Some? ==>
      r.value.mode.value in PrivilegeSymbols && [r.value.mode.value] + r.value.nick == Text.Trim(n)
    ensures r.Some? && r.value.mode.None? ==>
      r.value.nick == Text.Trim(n) && Text.Trim(n)[0] !in PrivilegeSymbols
    ensures r.None? ==> Text.IsBlank(n) || (Text.Trim(n)[0] in PrivilegeSymbols && Text.IsBlank(Text.Trim(n)[1..]))
  {
    if Text.IsBlank(n) then None
    else
      var t := Text.Trim(n);
      Text.TrimEmptyIffBlank(n);
      var mode := if t[0] in PrivilegeSymbols then Some(t[0]) else None;
      var nick := if mode.Some? then t[1..] else t;
      assert mode.Some? ==> [t[0]] + t[1..] == t;
      if Text.IsBlank(nick) then None else Some(ChannelUser(nick, mode))
  }

  function NamesOf(parts: seq<string>): seq<ChannelUser> {
    if parts == [] then []
    else
      (match NamesEntry(parts[0]) case Some(u) => [u] case None => []) + NamesOf(parts[1..])
  }

  /** The words after the first " :" of a 353 line, trimmed and split on single spaces. */
  function NamesWords(l: string): seq<string> {
    var names := Text.Trim(Text.SubstringAfter(l, " :", ""));
    if names == [] then [] else Text.Split(names, ' ')
  }

  /** What a 353 line adds to `namesBuffer`. */
  function NamesInLine(l: string): seq<ChannelUser> {
    NamesOf(NamesWords(l))
  }

  /** Every buffered entry has a non-blank nick and a privilege symbol or none. */
  predicate IsNamesEntry(u: ChannelUser) {
    !Text.IsBlank(u.nick) && (u.mode.Some? ==> u.mode.value in PrivilegeSymbols)
  }

  lemma {:induction false} NamesOfEntries(parts: seq<string>)
    ensures forall u :: u in NamesOf(parts) ==> IsNamesEntry(u)
    decreases |parts|
  {
    if parts != [] {
      NamesOfEntries(parts[1..]);
    }
  }

  /** The 366 step for one buffered entry: it goes in unless a higher symbol is already there. */
  function Keep(m: Members, cu: ChannelUser): (r: Members)
    ensures WellFormed(m) ==> WellFormed(r)
  {
    var existing := Get(m, cu.nick);
    if existing.None? || ModeRank(cu.mode) > ModeRank(existing) then Put(m, cu.nick, cu.mode) else m
  }

  /** The `namesBuffer.forEach` loop of the 366 handler, from table `m`. */
  function Collapse(m: Members, b: seq<ChannelUser>): Members
    decreases |b|
  {
    if b == [] then m else Collapse(Keep(m, b[0]), b[1..])
  }

  lemma {:induction false} CollapseWellFormed(m: Members, b: seq<ChannelUser>)
    ensures WellFormed(m) ==> WellFormed(Collapse(m, b))
    decreases |b|
  {
    if b != [] {
      CollapseWellFormed(Keep(m, b[0]), b[1..]);
    }
  }

  /** After the batch the table holds exactly the nicks it held plus those of the batch. */
  lemma {:induction false} CollapseKeys(m: Members, b: seq<ChannelUser>, n: string)
    ensures n in Collapse(m, b).modes <==> n in m.modes || exists i :: 0 <= i < |b| && b[i].nick == n
    decreases |b|
  {
    if b != [] {
      CollapseKeys(Keep(m, b[0]), b[1..], n);
      if exists i :: 0 <= i < |b[1..]| && b[1..][i].nick == n {
        var i :| 0 <= i < |b[1..]| && b[1..][i].nick == n;
        assert b[i + 1].nick == n;
      }
      if exists i :: 0 <= i < |b| && b[i].nick == n {
        var i :| 0 <= i < |b| && b[i].nick == n;
        if i > 0 { assert b[1..][i - 1].nick == n; }
      }
    }
  }

  /** The symbol a nick ends up with outranks each of its batch entries and comes from one of them or the start. */
  predicate RankBound(m: Members, b: seq<ChannelUser>, r: Members, n: string) {
    ModeRank(Get(r, n)) >= ModeRank(Get(m, n))
    && (forall i :: 0 <= i < |b| && b[i].nick == n ==> ModeRank(b[i].mode) <= ModeRank(Get(r, n)))
    && (Get(r, n) == Get(m, n) || exists i :: 0 <= i < |b| && b[i].nick == n && b[i].mode == Get(r, n))
  }

  lemma {:induction false} CollapseRank(m: Members, b: seq<ChannelUser>, n: string)
    ensures RankBound(m, b, Collapse(m, b), n)
    decreases |b|
  {
    if b != [] {
      var k := Keep(m, b[0]);
      var r := Collapse(m, b);
      CollapseRank(k, b[1..], n);
      assert RankBound(k, b[1..], r, n);
      forall i | 0 <= i < |b| && b[i].nick == n ensures ModeRank(b[i].mode) <= ModeRank(Get(r, n)) {
        if i > 0 { assert b[1..][i - 1] == b[i]; }
      }
      if Get(r, n) != Get(m, n) {
        if Get(r, n) == Get(k, n) {
          assert b[0].nick == n && b[0].mode == Get(r, n);
        } else {
          var i :| 0 <= i < |b[1..]| && b[1..][i].nick == n && b[1..][i].mode == Get(r, n);
          assert b[i + 1] == b[1..][i];
        }
      }
    }
  }

  /** A batch whose entries are already absorbed leaves the table as it is. */
  lemma {:induction false} CollapseAbsorbs(r: Members, c: seq<ChannelUser>)
    requires forall i :: 0 <= i < |c| ==>
      IsNamesEntry(c[i]) && c[i].nick in r.modes && ModeRank(c[i].mode) <= ModeRank(Get(r, c[i].nick))
    ensures Collapse(r, c) == r
    decreases |c|
  {
    if c != [] {
      var cu := c[0];
      if Get(r, cu.nick).None? {
        assert cu.mode == None;
        assert r.modes[cu.nick := None] == r.modes;
      }
      assert Keep(r, cu) == r;
      assert forall i :: 0 <= i < |c[1..]| ==> c[1..][i] == c[i + 1];
      CollapseAbsorbs(r, c[1..]);
    }
  }

  lemma {:induction false} CollapseAppend(m: Members, b: seq<ChannelUser>, c: seq<ChannelUser>)
    ensures Collapse(m, b + c) == Collapse(Collapse(m, b), c)
    decreases |b|
  {
    if b != [] {
      assert (b + c)[0] == b[0] && (b + c)[1..] == b[1..] + c;
      CollapseAppend(Keep(m, b[0]), b[1..], c);
    } else {
      assert b + c == c;
    }
  }

  /** A NAMES batch that arrives twice before its 366 gives the same table as once. */
  lemma NamesBatchTwice(m: Members, b: seq<ChannelUser>)
    requires forall i :: 0 <= i < |b| ==> IsNamesEntry(b[i])
    ensures Collapse(m, b + b) == Collapse(m, b)
  {
    var r := Collapse(m, b);
    CollapseAppend(m, b, b);
    forall i | 0 <= i < |b|
      ensures b[i].nick in r.modes && ModeRank(b[i].mode) <= ModeRank(Get(r, b[i].nick))
    {
      CollapseKeys(m, b, b[i].nick);
      CollapseRank(m, b, b[i].nick);
    }
    CollapseAbsorbs(r, b);
  }

  /** The 366 handler's new table: exactly the batch's nicks, each with its highest symbol. */
  lemma EndOfNamesTable(b: seq<ChannelUser>, n: string)
    ensures WellFormed(Collapse(NoMembers, b))
    ensures n in Collapse(NoMembers, b).modes <==> exists i :: 0 <= i < |b| && b[i].nick == n
    ensures RankBound(NoMembers, b, Collapse(NoMembers, b), n)
  {
    CollapseWellFormed(NoMembers, b);
    CollapseKeys(NoMembers, b, n);
    CollapseRank(NoMembers, b, n);
  }

  // ---------------------------------------------------------------------
  // ISUPPORT PREFIX
  // ---------------------------------------------------------------------

  /** `defaultModeToSymbol`: owner, admin, operator, half-operator, voice. */
  const DefaultModeToSymbol: map<char, char> := map['q' := '~', 'a' := '&', 'o' := '@', 'h' := '%', 'v' := '+']

  /** `for (i in modes.indices) modeToSymbol[modes[i]] = symbols[i]`, from an empty map. */
  function ZipModes(modes: string, symbols: string): (r: map<char, char>)
    requires |modes| == |symbols|
    ensures forall c :: c in r <==> c in modes
    decreases |modes|
  {
    if modes == [] then map[]
    else
      var n := |modes| - 1;
      var r := ZipModes(modes[..n], symbols[..n])[modes[n] := symbols[n]];
      assert modes == modes[..n] + [modes[n]];
      r
  }

  /** With distinct mode letters, each letter maps to the symbol at its own index. */
  lemma {:induction false} ZipModesAt(modes: string, symbols: string, i: nat)
    requires |modes| == |symbols| && i < |modes|
    requires forall a, b :: 0 <= a < b < |modes| ==> modes[a] != modes[b]
    ensures ZipModes(modes, symbols)[modes[i]] == symbols[i]
    decreases |modes|
  {
    var n := |modes| - 1;
    if i < n {
      ZipModesAt(modes[..n], symbols[..n], i);
    }
  }

  /** The text after `PREFIX=`, or after `PREFIX` when that is blank. */
  function PrefixSpec(tok: string): string {
    var spec := Text.SubstringAfter(tok, "PREFIX=", tok);
    if Text.IsBlank(spec) then Text.SubstringAfter(tok, "PREFIX", tok) else spec
  }

  function PrefixModes(spec: string): string {
    var afterOpen := Text.SubstringAfter(spec, "(", spec);
    Text.SubstringBefore(afterOpen, ")", afterOpen)
  }

  function PrefixSymbols(spec: string): string {
    Text.SubstringAfter(spec, ")", spec)
  }

  /** The map one ISUPPORT token installs, if it installs one. */
  function PrefixMap(tok: string): (r: Option<map<char, char>>)
    ensures r.Some? <==> (Text.StartsWith(tok, "PREFIX") && PrefixModes(PrefixSpec(tok)) != []
                          && |PrefixModes(PrefixSpec(tok))| == |PrefixSymbols(PrefixSpec(tok))|)
    ensures r.Some? ==> forall c :: c in r.value <==> c in PrefixModes(PrefixSpec(tok))
  {
    var spec := PrefixSpec(tok);
    var modes := PrefixModes(spec);
    var symbols := PrefixSymbols(spec);
    if Text.StartsWith(tok, "PREFIX") && modes != [] && symbols != [] && |modes| == |symbols| then
      Some(ZipModes(modes, symbols))
    else None
  }

  /** The words of an RPL_ISUPPORT reply: every param after the first, and the trailing one, split on spaces. */
  function Words(parts: seq<string>): seq<string> {
    if parts == [] then [] else Text.Split(parts[0], ' ') + Words(parts[1..])
  }

  function IsupportWords(msg: IrcParser.IrcMessage): seq<string> {
    Words((if |msg.params| > 0 then msg.params[1..] else []) + (match msg.trailing case Some(t) => [t] case None => []))
  }

  /** `handleIsupport`: the last `PREFIX` token that installs a map wins; otherwise nothing changes. */
  function IsupportMap(current: map<char, char>, toks: seq<string>): (r: map<char, char>)
    ensures r == current || exists i :: 0 <= i < |toks| && PrefixMap(toks[i]) == Some(r)
    decreases |toks|
  {
    if toks == [] then current
    else
      var next := match PrefixMap(toks[0]) case Some(mm) => mm case None => current;
      var r := IsupportMap(next, toks[1..]);
      assert forall i :: 0 <= i < |toks[1..]| ==> toks[1..][i] == toks[i + 1];
      r
  }

  /** Tokens that install no map leave `modeToSymbol` unchanged. */
  lemma {:induction false} IsupportWithoutPrefix(current: map<char, char>, toks: seq<string>)
    requires forall i :: 0 <= i < |toks| ==> PrefixMap(toks[i]).None?
    ensures IsupportMap(current, toks) == current
    decreases |toks|
  {
    if toks != [] {
      assert forall i :: 0 <= i < |toks[1..]| ==> toks[1..][i] == toks[i + 1];
      IsupportWithoutPrefix(current, toks[1..]);
    }
  }

  /** `indexOf` of a one-character string finds the first index holding that character. */
  lemma FindFirstChar(s: string, c: char, k: nat)
    requires k < |s| && s[k] == c && c !in s[..k]
    ensures Text.FindSub(s, [c]) == Some(k)
  {
    var r := Text.FindSub(s, [c]);
    assert Text.OccursAt(s, [c], k);
    forall j | 0 <= j < k ensures !Text.OccursAt(s, [c], j) {
      assert s[j] == s[..k][j];
    }
  }

  /** The usual `PREFIX=(qaohv)~&@%+` installs exactly the default map. */
  lemma StandardPrefix()
    ensures PrefixMap("PREFIX=(qaohv)~&@%+") == Some(DefaultModeToSymbol)
  {
    StandardSpec();
    StandardParts();
    DefaultZip();
  }

  lemma StandardSpec()
    ensures PrefixSpec("PREFIX=(qaohv)~&@%+") == "(qaohv)~&@%+"
  {
    var tok := "PREFIX=(qaohv)~&@%+";
    assert tok[..7] == "PREFIX=" && tok[7..] == "(qaohv)~&@%+";
    assert Text.FindSub(tok, "PREFIX=") == Some(0);
    assert !Text.IsWhitespace("(qaohv)~&@%+"[0]);
  }

  lemma StandardParts()
    ensures PrefixModes("(qaohv)~&@%+") == "qaohv"
    ensures PrefixSymbols("(qaohv)~&@%+") == "~&@%+"
  {
    var spec := "(qaohv)~&@%+";
    var afterOpen := "qaohv)~&@%+";
    FindFirstChar(spec, '(', 0);
    assert spec[1..] == afterOpen;
    FindFirstChar(afterOpen, ')', 5);
    assert afterOpen[..5] == "qaohv";
    FindFirstChar(spec, ')', 6);
    assert spec[7..] == "~&@%+";
  }

  /** A bare `PREFIX=` (no status modes) is read through the `PREFIX` fallback and installs `'='` to `'='`. */
  lemma EmptyPrefixToken()
    ensures PrefixMap("PREFIX=") == Some(map['=' := '='])
  {
    var tok := "PREFIX=";
    assert tok[..7] == "PREFIX=" && tok[7..] == "";
    assert Text.FindSub(tok, "PREFIX=") == Some(0);
    assert tok[..6] == "PREFIX" && tok[6..] == "=";
    assert Text.FindSub(tok, "PREFIX") == Some(0);
    assert "="[0..1] == "=";
    assert Text.FindSubFrom("=", "(", 1).None? && Text.FindSubFrom("=", ")", 1).None?;
    assert Text.FindSub("=", "(").None? && Text.FindSub("=", ")").None?;
    assert ZipModes("=", "=") == map['=' := '='];
  }

  lemma DefaultZip()
    ensures ZipModes("qaohv", "~&@%+") == DefaultModeToSymbol
  {
    assert "qaohv"[..4] == "qaoh" && "~&@%+"[..4] == "~&@%";
    assert "qaoh"[..3] == "qao" && "~&@%"[..3] == "~&@";
    assert "qao"[..2] == "qa" && "~&@"[..2] == "~&";
    assert "qa"[..1] == "q" && "~&"[..1] == "~";
    assert ZipModes("q", "~") == map['q' := '~'];
    assert ZipModes("qa", "~&") == map['q' := '~', 'a' := '&'];
    assert ZipModes("qao", "~&@") == map['q' := '~', 'a' := '&', 'o' := '@'];
    assert ZipModes("qaoh", "~&@%") == map['q' := '~', 'a' := '&', 'o' := '@', 'h' := '%'];
  }

  // ---------------------------------------------------------------------
  // MODE
  // ---------------------------------------------------------------------

  function SymbolFor(modeToSymbol: map<char, char>, mode: char): Option<char> {
    if mode in modeToSymbol then Some(modeToSymbol[mode]) else None
  }

  /**
   * `applyUserModeChange`: `+` raises the nick to the mode's symbol only when
   * that outranks what it has; `-` drops the symbol only when it is the
   * mode's own. No other nick is touched.
   */
  function ApplyModeChange(m: Members, modeToSymbol: map<char, char>, nick: string, mode: char, adding: bool): (r: Members)
    ensures WellFormed(m) ==> WellFormed(r)
    ensures forall n :: n != nick ==> Get(r, n) == Get(m, n) && (n in r.modes <==> n in m.modes)
  {
    var symbol := SymbolFor(modeToSymbol, mode);
    var current := Get(m, nick);
    if adding then
      if symbol.Some? then
        if current.None? || ModeRank(symbol) > ModeRank(current) then Put(m, nick, symbol) else m
      else PutIfAbsent(m, nick, None)
    else if current.Some? && symbol.Some? && current == symbol then Put(m, nick, None)
    else m
  }

  /**
   * The `for (ch in modes)` loop of `handleMode`: `+`/`-` switch direction,
   * a letter of `modeToSymbol` takes the next param as its nick (and is
   * skipped once the params run out), other letters take none.
   */
  function ModeLetters(m: Members, modeToSymbol: map<char, char>, params: seq<string>, modes: string,
                       adding: bool, argIndex: nat): (r: Members)
    ensures WellFormed(m) ==> WellFormed(r)
    decreases |modes|
  {
    if modes == [] then m
    else
      var ch := modes[0];
      if ch == '+' then ModeLetters(m, modeToSymbol, params, modes[1..], true, argIndex)
      else if ch == '-' then ModeLetters(m, modeToSymbol, params, modes[1..], false, argIndex)
      else if ch in modeToSymbol && argIndex < |params| then
        ModeLetters(ApplyModeChange(m, modeToSymbol, params[argIndex], ch, adding), modeToSymbol,
                    params, modes[1..], adding, argIndex + 1)
      else ModeLetters(m, modeToSymbol, params, modes[1..], adding, argIndex)
  }

  /** `handleMode`: `None` when it returns before publishing. */
  function ModeUpdate(m: Members, modeToSymbol: map<char, char>, tracked: Option<string>,
                      msg: IrcParser.IrcMessage): (r: Option<Members>)
    ensures r.Some? ==> |msg.params| >= 2 && tracked.Some? && Text.EqualsIgnoreCase(msg.params[0], tracked.value)
    ensures r.Some? && WellFormed(m) ==> WellFormed(r.value)
  {
    if |msg.params| < 2 || tracked.None? || !Text.EqualsIgnoreCase(msg.params[0], tracked.value) then None
    else Some(ModeLetters(m, modeToSymbol, msg.params, msg.params[1], true, 2))
  }

  /** Giving a plain member a status mode and then taking it away leaves the table as it was. */
  lemma GrantThenRevoke(m: Members, modeToSymbol: map<char, char>, nick: string, mode: char)
    requires nick in m.modes && m.modes[nick].None? && mode in modeToSymbol
    ensures ApplyModeChange(ApplyModeChange(m, modeToSymbol, nick, mode, true), modeToSymbol, nick, mode, false) == m
  {
    var granted := ApplyModeChange(m, modeToSymbol, nick, mode, true);
    assert granted == Members(m.modes[nick := Some(modeToSymbol[mode])], m.order);
    assert m.modes[nick := Some(modeToSymbol[mode])][nick := None] == m.modes;
  }

  /** `-` never sets a symbol, and drops one only when it equals the mode's symbol. */
  lemma RevokeOnlyOwnSymbol(m: Members, modeToSymbol: map<char, char>, nick: string, mode: char)
    ensures var r := ApplyModeChange(m, modeToSymbol, nick, mode, false);
      (Get(m, nick).Some? && Get(m, nick) == SymbolFor(modeToSymbol, mode) ==> Get(r, nick).None? && nick in r.modes)
      && (Get(m, nick).None? || Get(m, nick) != SymbolFor(modeToSymbol, mode) ==> r == m)
  {
  }

  /** `+` never lowers a rank, and lands on the mode's symbol only when that outranks the old one. */
  lemma GrantRaises(m: Members, modeToSymbol: map<char, char>, nick: string, mode: char)
    requires mode in modeToSymbol
    ensures var r := ApplyModeChange(m, modeToSymbol, nick, mode, true);
      nick in r.modes
      && ModeRank(Get(r, nick)) >= ModeRank(Get(m, nick))
      && (Get(r, nick) == SymbolFor(modeToSymbol, mode)
          <==> Get(m, nick) == SymbolFor(modeToSymbol, mode) || Get(m, nick).None?
               || ModeRank(SymbolFor(modeToSymbol, mode)) > ModeRank(Get(m, nick)))
  {
  }

  // ---------------------------------------------------------------------
  // NICK, KICK, JOIN, PART, QUIT
  // ---------------------------------------------------------------------

  /** A table update and whether the handler republishes `users` afterwards. */
  datatype Change = Change(members: Members, publish: bool)

  /** `handleNick`: a known nick is re-keyed, keeping its symbol; nothing else happens. */
  function NickChange(m: Members, msg: IrcParser.IrcMessage): (r: Change)
  {
    match IrcParser.NickFromPrefix(msg.prefix)
    case None => Change(m, false)
    case Some(oldNick) =>
      var newNick := if msg.trailing.Some? then msg.trailing else GetOrNull(msg.params, 0);
      if newNick.None? || oldNick !in m.modes then Change(m, false)
      else Change(Put(Remove(m, oldNick), newNick.value, m.modes[oldNick]), true)
  }

  lemma NickRenames(m: Members, msg: IrcParser.IrcMessage, oldNick: string, newNick: string)
    requires IrcParser.NickFromPrefix(msg.prefix) == Some(oldNick)
    requires (if msg.trailing.Some? then msg.trailing else GetOrNull(msg.params, 0)) == Some(newNick)
    ensures var r := NickChange(m, msg);
      (oldNick in m.modes ==>
        r.publish && newNick in r.members.modes && r.members.modes[newNick] == m.modes[oldNick]
        && (oldNick != newNick ==> oldNick !in r.members.modes)
        && (forall n :: n != oldNick && n != newNick ==>
              Get(r.members, n) == Get(m, n) && (n in r.members.modes <==> n in m.modes)))
      && (oldNick !in m.modes ==> r == Change(m, false))
  {
  }

  /** `handleKick` as written: the victim goes only for the tracked channel, and the list is republished only if the victim had a symbol. */
  function KickChange(m: Members, tracked: Option<string>, msg: IrcParser.IrcMessage): (r: Change)
  {
    if |msg.params| < 2 || tracked.None? || !Text.EqualsIgnoreCase(msg.params[0], tracked.value) then Change(m, false)
    else Change(Remove(m, msg.params[1]), Get(m, msg.params[1]).Some?)
  }

  /** `handleKick` as evidently intended: republish whenever the victim was in the table. */
  function KickChangeFixed(m: Members, tracked: Option<string>, msg: IrcParser.IrcMessage): (r: Change)
    ensures r.members == KickChange(m, tracked, msg).members
  {
    if |msg.params| < 2 || tracked.None? || !Text.EqualsIgnoreCase(msg.params[0], tracked.value) then Change(m, false)
    else Change(Remove(m, msg.params[1]), msg.params[1] in m.modes)
  }

  /** A plain member kicked from the tracked channel leaves the table but stays in the published list. */
  lemma KickOfPlainMemberNotPublished(m: Members, victim: string, chan: string, msg: IrcParser.IrcMessage)
    requires WellFormed(m) && victim in m.modes && m.modes[victim].None?
    requires |msg.params| >= 2 && msg.params[0] == chan && msg.params[1] == victim
    ensures var r := KickChange(m, Some(chan), msg);
      victim !in r.members.modes && !r.publish && ChannelUser(victim, None) in Published(m)
  {
    PublishedIsTable(m, ChannelUser(victim, None));
  }

  /** With the fix, every kick that changes the table republishes it, so the list never shows the victim. */
  lemma KickFixedPublishesChange(m: Members, tracked: Option<string>, msg: IrcParser.IrcMessage)
    requires WellFormed(m)
    ensures var r := KickChangeFixed(m, tracked, msg);
      r.members != m ==> r.publish && forall u :: u in Published(r.members) ==> u.nick != msg.params[1]
  {
    var r := KickChangeFixed(m, tracked, msg);
    if r.members != m {
      assert |msg.params| >= 2;
      var victim := msg.params[1];
      if victim !in m.modes {
        WithoutAbsent(m.order, victim);
      }
      forall u | u in Published(r.members) ensures u.nick != victim {
        PublishedIsTable(r.members, u);
      }
    }
  }

  lemma {:induction false} WithoutAbsent(s: seq<string>, x: string)
    requires x !in s
    ensures Without(s, x) == s
  {
    if s != [] {
      WithoutAbsent(s[1..], x);
      assert [s[0]] + s[1..] == s;
    }
  }

  /** The nick of a raw JOIN/PART/QUIT line: what follows the first ':' up to the first '!', if not blank. */
  function LineNick(l: string): Option<string> {
    var afterColon := Text.SubstringAfter(l, ":", l);
    NullIfBlank(Text.SubstringBefore(afterColon, "!", afterColon))
  }

  /** The " JOIN " check of the read loop: the nick goes in as a plain member unless it is already there. */
  function JoinChange(m: Members, l: string): (r: Change)
    ensures r.publish <==> Text.Contains(l, " JOIN ") && LineNick(l).Some?
    ensures r.publish ==> r.members == PutIfAbsent(m, LineNick(l).value, None)
    ensures !r.publish ==> r.members == m
  {
    if Text.Contains(l, " JOIN ") && LineNick(l).Some? then Change(PutIfAbsent(m, LineNick(l).value, None), true)
    else Change(m, false)
  }

  /** JOIN never overwrites a symbol the table already has. */
  lemma JoinKeepsSymbol(m: Members, l: string, n: string)
    requires WellFormed(m)
    ensures WellFormed(JoinChange(m, l).members)
    ensures Get(m, n).Some? ==> Get(JoinChange(m, l).members, n) == Get(m, n)
    ensures JoinChange(m, l).publish ==> LineNick(l).value in JoinChange(m, l).members.modes
  {
  }

  /** The " PART " / " QUIT " check of the read loop: the nick leaves the table. */
  function PartChange(m: Members, l: string): (r: Change)
    ensures r.publish <==> (Text.Contains(l, " PART ") || Text.Contains(l, " QUIT ")) && LineNick(l).Some?
    ensures r.publish ==> LineNick(l).value !in r.members.modes
    ensures !r.publish ==> r.members == m
  {
    if (Text.Contains(l, " PART ") || Text.Contains(l, " QUIT ")) && LineNick(l).Some? then
      Change(Remove(m, LineNick(l).value), true)
    else Change(m, false)
  }
}
