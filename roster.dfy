/** The player filter chain of the release plugin: an optional name filter, then an
    optional "playing" filter, then the count of the survivors. */
module Roster {
  import opened Text

  /** One roster entry of the population endpoint: `persona.personaName`,
      `persona.user.username` and `persona.user.presence.isPlaying`. */
  datatype Player = Player(personaName: string, username: string, isPlaying: bool)

  /** The stored `filteredPlayersNames` value: never written, cleared to the empty
      string by the editor, or a list of names. */
  datatype StoredNames = Unset | Cleared | Names(list: seq<string>)

  /** JavaScript truthiness of the stored value: `undefined` and `""` are falsy, an
      array (even an empty one) is truthy. */
  predicate Truthy(stored: StoredNames) {
    stored.Names?
  }

  /** The settings the filter chain reads: `filter.real.playing.players`,
      `filter.players.names` and `filteredPlayersNames`. */
  datatype FilterConfig = FilterConfig(filterPlaying: int, filterNames: int, names: StoredNames)

  /** `Array.prototype.filter`: the elements that `keep` accepts, in order. */
  function Filter<T>(keep: T -> bool, s: seq<T>): (r: seq<T>)
    ensures |r| <= |s|
    ensures forall k :: 0 <= k < |r| ==> r[k] in s && keep(r[k])
    ensures forall k :: 0 <= k < |s| && keep(s[k]) ==> s[k] in r
    decreases |s|
  {
    if s == [] then []
    else (if keep(s[0]) then [s[0]] else []) + Filter(keep, s[1..])
  }

  /** Filtering keeps every accepted element as many times as it occurs in the input,
      and drops every copy of a rejected one. */
  lemma {:induction false} FilterCounts<T>(keep: T -> bool, s: seq<T>)
    ensures forall x :: multiset(Filter(keep, s))[x] == if keep(x) then multiset(s)[x] else 0
    decreases |s|
  {
    if s != [] {
      FilterCounts(keep, s[1..]);
      assert s == [s[0]] + s[1..];
    }
  }

  /** Filtering keeps everything when `keep` accepts every element. */
  lemma {:induction false} FilterKeepsAll<T>(keep: T -> bool, s: seq<T>)
    requires forall k :: 0 <= k < |s| ==> keep(s[k])
    ensures Filter(keep, s) == s
    decreases |s|
  {
    if s != [] {
      FilterKeepsAll(keep, s[1..]);
      assert [s[0]] + s[1..] == s;
    }
  }

  /** Filtering keeps nothing when `keep` rejects every element. */
  lemma {:induction false} FilterDropsAll<T>(keep: T -> bool, s: seq<T>)
    requires forall k :: 0 <= k < |s| ==> !keep(s[k])
    ensures Filter(keep, s) == []
    decreases |s|
  {
    if s != [] {
      FilterDropsAll(keep, s[1..]);
    }
  }

  /** A filter that keeps as many elements as it was given kept every one of them. */
  lemma {:induction false} FilterFullLength<T>(keep: T -> bool, s: seq<T>)
    requires |Filter(keep, s)| == |s|
    ensures forall k :: 0 <= k < |s| ==> keep(s[k])
    decreases |s|
  {
    if s != [] {
      assert |Filter(keep, s[1..])| <= |s| - 1;
      assert keep(s[0]);
      FilterFullLength(keep, s[1..]);
      assert forall k :: 1 <= k < |s| ==> s[k] == s[1..][k - 1];
    }
  }

  /** Filtering a pair keeps each of its two elements on its own test. */
  lemma FilterPair<T>(keep: T -> bool, a: T, b: T)
    ensures Filter(keep, [a, b]) == (if keep(a) then [a] else []) + (if keep(b) then [b] else [])
  {
    assert [a, b][1..] == [b] && [b][1..] == [];
  }

  /** Two filters in a row are one filter by the conjunction of their tests. */
  lemma {:induction false} FilterFuse<T>(first: T -> bool, second: T -> bool, both: T -> bool, s: seq<T>)
    requires forall x :: both(x) == (first(x) && second(x))
    ensures Filter(second, Filter(first, s)) == Filter(both, s)
    decreases |s|
  {
    if s != [] {
      FilterFuse(first, second, both, s[1..]);
      var rest := Filter(first, s[1..]);
      if first(s[0]) {
        var once := [s[0]] + rest;
        assert once[0] == s[0] && once[1..] == rest;
        assert Filter(second, once) == (if second(s[0]) then [s[0]] else []) + Filter(second, rest);
      } else {
        assert Filter(first, s) == rest;
      }
    }
  }

  /** The name filter and the playing filter commute, so applying them in the other
      order would not change the surviving players. */
  lemma FiltersCommute<T>(f: T -> bool, g: T -> bool, s: seq<T>)
    ensures Filter(g, Filter(f, s)) == Filter(f, Filter(g, s))
  {
    var both := x => f(x) && g(x);
    FilterFuse(f, g, both, s);
    FilterFuse(g, f, both, s);
  }

  /** The alternatives of `new RegExp(names.join("|"))`, reading `|` as the only
      pattern metacharacter: an empty list gives the empty pattern, whose single
      alternative is the empty string. */
  function Alternatives(names: seq<string>): (alts: seq<string>)
    ensures |alts| >= 1
  {
    Split(Join(names, '|'), '|')
  }

  /** Names without `|` are their own alternatives. */
  lemma AlternativesOfPlainNames(names: seq<string>)
    ensures |names| >= 1 && (forall k :: 0 <= k < |names| ==> '|' !in names[k]) ==>
      Alternatives(names) == names
  {
    if |names| >= 1 && forall k :: 0 <= k < |names| ==> '|' !in names[k] {
      SplitJoin(names, '|');
    }
  }

  /** The alternatives of two non-empty lists are those of each list, in order. */
  lemma AlternativesAppend(a: seq<string>, b: seq<string>)
    requires |a| >= 1 && |b| >= 1
    ensures Alternatives(a + b) == Alternatives(a) + Alternatives(b)
  {
    JoinAppend(a, b, '|');
    SplitAround(Join(a, '|'), '|', Join(b, '|'));
  }

  /** A list that starts with an empty name has the empty alternative first. */
  lemma LeadingEmptyName(after: seq<string>)
    ensures Alternatives([""] + after)[0] == ""
  {
    assert Alternatives([""]) == [""] by {
      assert Join([""], '|') == "";
    }
    if after != [] {
      AlternativesAppend([""], after);
    } else {
      assert [""] + after == [""];
    }
  }

  /** An empty ignored name is an empty alternative, whatever the other names hold. */
  lemma EmptyNameIsAlternative(names: seq<string>)
    requires "" in names
    ensures "" in Alternatives(names)
  {
    var k :| 0 <= k < |names| && names[k] == "";
    var before, tail := names[..k], names[k..];
    assert tail == [""] + names[k + 1..];
    LeadingEmptyName(names[k + 1..]);
    assert names == before + tail;
    if before != [] {
      AlternativesAppend(before, tail);
      assert Alternatives(names)[|Alternatives(before)|] == "";
    } else {
      assert Alternatives(names)[0] == "";
    }
  }

  /** A name matches the ignore pattern when one of its alternatives occurs in it; for
      names without `|`, exactly when one of the ignored names occurs in it. */
  predicate MatchesAny(name: string, names: seq<string>): (r: bool)
    ensures |names| >= 1 && (forall k :: 0 <= k < |names| ==> '|' !in names[k]) ==>
      (r <==> exists k :: 0 <= k < |names| && Contains(name, names[k]))
  {
    var alts := Alternatives(names);
    AlternativesOfPlainNames(names);
    exists k :: 0 <= k < |alts| && Contains(name, alts[k])
  }

  /** An empty ignore list builds the empty pattern, which matches every name. */
  lemma EmptyListMatchesEverything(name: string)
    ensures MatchesAny(name, [])
  {
    assert Alternatives([]) == [""];
    assert OccursAt(name, "", 0);
    assert Contains(name, Alternatives([])[0]);
  }

  /** An empty ignored name (an empty alternative) matches every name. */
  lemma EmptyNameMatchesEverything(names: seq<string>, name: string)
    requires "" in names
    ensures MatchesAny(name, names)
  {
    EmptyNameIsAlternative(names);
    var alts := Alternatives(names);
    var k :| 0 <= k < |alts| && alts[k] == "";
    assert OccursAt(name, "", 0);
    assert Contains(name, alts[k]);
  }

  /** The callback of the name filter: a player is dropped only when BOTH the
      persona name and the account name match the ignore pattern. With names without
      `|`, a player is kept when one of its two names contains none of them; a player
      whose two names are equal is kept exactly when that name does not match. */
  predicate KeptByNames(p: Player, names: seq<string>): (r: bool)
    ensures |names| >= 1 && (forall k :: 0 <= k < |names| ==> '|' !in names[k]) ==>
      (r <==> ((forall k :: 0 <= k < |names| ==> !Contains(p.personaName, names[k])) ||
               (forall k :: 0 <= k < |names| ==> !Contains(p.username, names[k]))))
    ensures p.personaName == p.username ==> (r <==> !MatchesAny(p.personaName, names))
  {
    !MatchesAny(p.personaName, names) || !MatchesAny(p.username, names)
  }

  /** The name filter runs only when its toggle is exactly 1 and the stored list is
      truthy: never on the editor's cleared value or before any list was stored, so
      `join` is only ever applied to an array, while an empty array does switch it on. */
  predicate NameFilterOn(c: FilterConfig): (r: bool)
    ensures r ==> c.names.Names?
    ensures c.names == Cleared || c.names == Unset || c.filterNames != 1 ==> !r
    ensures c.filterNames == 1 && c.names == Names([]) ==> r
  {
    c.filterNames == 1 && Truthy(c.names)
  }

  /** The players left after the name filter. */
  function Survivors(roster: seq<Player>, c: FilterConfig): (r: seq<Player>)
    ensures !NameFilterOn(c) ==> r == roster
    ensures forall p :: p in r <==> p in roster && (NameFilterOn(c) ==> KeptByNames(p, c.names.list))
  {
    if NameFilterOn(c) then
      var names := c.names.list;
      Filter(p => KeptByNames(p, names), roster)
    else roster
  }

  /** With the name filter on, every kept player survives as many times as the roster
      lists it, and every copy of a dropped one goes; with it off, all copies stay. */
  lemma SurvivorCounts(roster: seq<Player>, c: FilterConfig)
    ensures forall p :: multiset(Survivors(roster, c))[p] ==
                        (if NameFilterOn(c) ==> KeptByNames(p, c.names.list) then multiset(roster)[p] else 0)
  {
    if NameFilterOn(c) {
      var names := c.names.list;
      FilterCounts(p => KeptByNames(p, names), roster);
    }
  }

  /** The corrected count: the survivors of the name filter, narrowed to the playing
      ones when the playing toggle is exactly 1. */
  function CorrectedCount(roster: seq<Player>, c: FilterConfig): (n: nat)
    ensures n <= |roster|
    ensures roster == [] ==> n == 0
  {
    var players := Survivors(roster, c);
    if c.filterPlaying == 1 then |Filter((p: Player) => p.isPlaying, players)| else |players|
  }

  /** Whether one roster entry is counted: it passes the name filter when that is on,
      and is playing when the playing filter is on. */
  predicate Counted(p: Player, c: FilterConfig) {
    (NameFilterOn(c) ==> KeptByNames(p, c.names.list)) && (c.filterPlaying == 1 ==> p.isPlaying)
  }

  /** The two-stage chain counts exactly the roster entries that pass both tests, taken
      one entry at a time. */
  lemma CountIsOneFilter(roster: seq<Player>, c: FilterConfig)
    ensures CorrectedCount(roster, c) == |Filter(p => Counted(p, c), roster)|
  {
    var counted := p => Counted(p, c);
    var playing := (p: Player) => p.isPlaying;
    var always := (p: Player) => true;
    if NameFilterOn(c) {
      var names := c.names.list;
      var kept := p => KeptByNames(p, names);
      if c.filterPlaying == 1 {
        FilterFuse(kept, playing, counted, roster);
      } else {
        FilterFuse(kept, always, counted, roster);
        FilterKeepsAll(always, Filter(kept, roster));
      }
    } else {
      if c.filterPlaying == 1 {
        FilterFuse(always, playing, counted, roster);
        FilterKeepsAll(always, roster);
      } else {
        FilterFuse(always, always, counted, roster);
        FilterKeepsAll(always, roster);
        FilterKeepsAll(always, Filter(always, roster));
      }
    }
  }

  /** With the name filter on, a roster entry is dropped exactly when both of its names
      match; a player with either name unmatched survives. */
  lemma DroppedOnlyIfBothNamesMatch(roster: seq<Player>, c: FilterConfig, p: Player)
    requires NameFilterOn(c) && p in roster
    ensures p !in Survivors(roster, c) <==>
      MatchesAny(p.personaName, c.names.list) && MatchesAny(p.username, c.names.list)
  {
  }

  /** Turning the playing filter on never raises the count, and leaves it unchanged
      exactly when every player surviving the name filter is playing. */
  lemma PlayingFilterLowersCount(roster: seq<Player>, c: FilterConfig)
    ensures CorrectedCount(roster, c.(filterPlaying := 1)) <= CorrectedCount(roster, c.(filterPlaying := 0))
    ensures CorrectedCount(roster, c.(filterPlaying := 1)) == CorrectedCount(roster, c.(filterPlaying := 0))
      <==> forall p :: p in Survivors(roster, c) ==> p.isPlaying
  {
    var playing := (p: Player) => p.isPlaying;
    var survivors := Survivors(roster, c);
    assert Survivors(roster, c.(filterPlaying := 1)) == survivors;
    assert Survivors(roster, c.(filterPlaying := 0)) == survivors;
    if forall p :: p in survivors ==> p.isPlaying {
      FilterKeepsAll(playing, survivors);
    }
    if |Filter(playing, survivors)| == |survivors| {
      FilterFullLength(playing, survivors);
    }
  }

  /** A name list holding an empty name (for example after the editor input "a,,b")
      drops every player, so the count is zero. */
  lemma EmptyNameDropsEveryone(roster: seq<Player>, c: FilterConfig)
    requires NameFilterOn(c)
    requires "" in c.names.list
    ensures CorrectedCount(roster, c) == 0
  {
    var names := c.names.list;
    forall p | p in roster ensures !KeptByNames(p, names) {
      EmptyNameMatchesEverything(names, p.personaName);
      EmptyNameMatchesEverything(names, p.username);
    }
    FilterDropsAll(p => KeptByNames(p, names), roster);
    assert Filter((p: Player) => p.isPlaying, Survivors(roster, c)) == [];
  }

  /** Two ignored names without `|` are the two alternatives, and a name matches when
      it contains either. */
  lemma PlainPairMatches(name: string, a: string, b: string)
    requires '|' !in a && '|' !in b
    ensures Alternatives([a, b]) == [a, b]
    ensures MatchesAny(name, [a, b]) <==> Contains(name, a) || Contains(name, b)
  {
    var names := [a, b];
    assert forall k :: 0 <= k < |names| ==> '|' !in names[k];
    AlternativesOfPlainNames(names);
    if Contains(name, a) {
      assert Contains(name, names[0]);
    }
    if Contains(name, b) {
      assert Contains(name, names[1]);
    }
  }

  /** Ignoring "Bot1" and "Bot2", the two names are the pattern's alternatives and
      "Bot1" matches. */
  lemma BotNames()
    ensures Alternatives(["Bot1", "Bot2"]) == ["Bot1", "Bot2"]
    ensures MatchesAny("Bot1", ["Bot1", "Bot2"])
  {
    PlainPairMatches("Bot1", "Bot1", "Bot2");
    assert OccursAt("Bot1", "Bot1", 0);
  }

  /** "Player2" and "alice" contain neither "Bot1" nor "Bot2", so neither matches. */
  lemma OtherNamesDoNotMatch()
    ensures !MatchesAny("Player2", ["Bot1", "Bot2"]) && !MatchesAny("alice", ["Bot1", "Bot2"])
  {
    PlainPairMatches("Player2", "Bot1", "Bot2");
    PlainPairMatches("alice", "Bot1", "Bot2");
    AbsentFirstChar("Player2", "Bot1");
    AbsentFirstChar("Player2", "Bot2");
    AbsentFirstChar("alice", "Bot1");
    AbsentFirstChar("alice", "Bot2");
  }

  /** Ignoring "Bot1" and "Bot2", a roster of one bot and one player counts 1; a player
      whose persona name is "Bot1" but whose account name is "alice" is still counted. */
  lemma NameFilterExample()
    ensures CorrectedCount([Player("Bot1", "Bot1", true), Player("Player2", "Player2", true)],
      FilterConfig(0, 1, Names(["Bot1", "Bot2"]))) == 1
    ensures CorrectedCount([Player("Bot1", "alice", true), Player("Player2", "Player2", true)],
      FilterConfig(0, 1, Names(["Bot1", "Bot2"]))) == 2
  {
    BotNames();
    OtherNamesDoNotMatch();
    var names := ["Bot1", "Bot2"];
    var kept := p => KeptByNames(p, names);
    var bot, mixed, player := Player("Bot1", "Bot1", true), Player("Bot1", "alice", true), Player("Player2", "Player2", true);
    assert !kept(bot) && kept(mixed) && kept(player);
    FilterPair(kept, bot, player);
    FilterPair(kept, mixed, player);
  }

  /** With the playing filter on, three players of whom two are playing count 2. */
  lemma PlayingFilterExample(a: Player, b: Player, c: Player)
    requires a.isPlaying && !b.isPlaying && c.isPlaying
    ensures CorrectedCount([a, b, c], FilterConfig(1, 0, Unset)) == 2
  {
    var playing := (p: Player) => p.isPlaying;
    assert [a, b, c][1..] == [b, c] && [b, c][1..] == [c] && [c][1..] == [];
    assert Filter(playing, [c]) == [c];
    assert Filter(playing, [b, c]) == [c];
    assert Filter(playing, [a, b, c]) == [a, c];
  }
}
