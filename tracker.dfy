// The tracker's state: the player history, the enemy history and the log
// (pokemon_data), updated in place by loading a log file, by searching or
// selecting a log entry and classifying it, and by clearing the histories.
// save_history is counted, not performed.

module Tracking {
  import opened Wrappers
  import opened Text
  import opened OrderedMaps
  import opened Entries
  import opened LogParser
  import opened Lookup
  import opened Outcomes

  class Tracker {
    var player: Dict<Entry>
    var enemy: Dict<Entry>
    var log: Dict<Entry>
    /** How many times save_history has been called. */
    ghost var saves: nat

    function State(): Store
      reads this
    {
      Store(player, enemy, log)
    }

    /** The module's start: the histories as load_history read them, and an
        empty log. */
    constructor (player0: Dict<Entry>, enemy0: Dict<Entry>)
      ensures State() == Store(player0, enemy0, Empty())
      ensures saves == 0
    {
      player, enemy, log := player0, enemy0, Empty();
      saves := 0;
    }

    /** open_file: the lines of the chosen file replace the log; a dismissed
        file dialog (None) changes nothing. */
    method OpenFile(file: Option<seq<string>>)
      modifies this
      ensures file.Some? ==> log == Parse(file.value)
      ensures file.None? ==> log == old(log)
      ensures player == old(player) && enemy == old(enemy) && saves == old(saves)
    {
      if file.Some? {
        log := LoadPokemonData(file.value);
      }
    }

    /** The tail shared by search_pokemon and on_list_select for a key of
        the log: shown from a history that holds it, otherwise copied into
        the history the dialog names and saved, or cancelled. */
    method SettleLog(key: string, choice: Option<Choice>) returns (o: Outcome)
      requires key in log.items
      modifies this
      ensures o == Settle(key, old(State()), choice)
      ensures State() == After(o, old(State()))
      ensures saves == old(saves) + (if o.Classified? then 1 else 0)
    {
      if key in player.items {
        o := Resolved(Hit(Player, key));
      } else if key in enemy.items {
        o := Resolved(Hit(Enemy, key));
      } else if choice.None? {
        o := Cancelled(key);
      } else {
        var h := Hit(if choice.value == ChooseYours then Player else Enemy, key);
        CopyToHistory(h);
        o := Classified(h);
      }
    }

    /** `history[key] = data.copy()` followed by save_history(): the log
        entry under the key is stored in the history the hit names. */
    method CopyToHistory(h: Hit)
      requires h.role != Log && h.key in log.items
      modifies this
      ensures State() == After(Classified(h), old(State()))
      ensures saves == old(saves) + 1
    {
      if h.role == Player {
        player := Put(player, h.key, log.items[h.key]);
      } else {
        enemy := Put(enemy, h.key, log.items[h.key]);
      }
      saves := saves + 1;
    }

    /** The lookup part of search_pokemon for a non-empty query, written as
        the source's sequence of early returns: the method form of
        Outcomes.Resolve applied to FindExact and Matches, which the
        ensures ties it to. */
    method ResolveQuery(q: string) returns (r: Resolution)
      ensures r == Outcomes.ResolveQuery(q, State())
    {
      var s := State();
      var exact := FindExact(q, s);
      if exact.Some? && exact.value.key != [] {
        return One(exact.value);
      }
      var matches := Matches(q, s);
      if matches == [] {
        return NoMatch;
      }
      if |matches| > 1 {
        return Several(matches);
      }
      var key := matches[0];
      if key in player.items {
        r := One(Hit(Player, key));
      } else if key in enemy.items {
        r := One(Hit(Enemy, key));
      } else {
        r := One(Hit(Log, key));
      }
    }

    /** The end of search_pokemon for a resolved hit: a history entry is
        shown; a log key without a (non-empty) entry is reported; any other
        log key is settled. */
    method ShowHit(h: Hit, choice: Option<Choice>) returns (o: Outcome)
      modifies this
      ensures o == Outcomes.ShowHit(h, old(State()), choice)
      ensures State() == After(o, old(State()))
      ensures saves == old(saves) + (if o.Classified? then 1 else 0)
    {
      if h.role != Log {
        o := Resolved(h);
      } else if h.key !in log.items || log.items[h.key].keys == [] {
        o := NotInLog(h.key);
      } else {
        o := SettleLog(h.key, choice);
      }
    }

    /** search_pokemon: the exact lookup, then the substring search, then
        the entry shown or settled. */
    method Search(text: string, choice: Option<Choice>) returns (o: Outcome)
      modifies this
      ensures o == SearchOutcome(text, old(State()), choice)
      ensures State() == After(o, old(State()))
      ensures saves == old(saves) + (if o.Classified? then 1 else 0)
      ensures log == old(log) && (Disjoint(old(State())) ==> Disjoint(State()))
    {
      SearchKeeps(text, State(), choice);
      var q := Lower(Strip(text));
      if q == [] {
        return EmptyQuery;
      }
      var r := ResolveQuery(q);
      match r
      case NoMatch =>
        o := NotFound;
      case Several(keys) =>
        o := Ambiguous(keys);
      case One(h) =>
        o := ShowHit(h, choice);
    }

    /** on_list_select: section labels and text that resolves to no key are
        ignored; a history entry is shown; a log entry is settled. */
    method Select(display: string, choice: Option<Choice>) returns (o: Outcome)
      modifies this
      ensures o == SelectOutcome(display, old(State()), choice)
      ensures State() == After(o, old(State()))
      ensures saves == old(saves) + (if o.Classified? then 1 else 0)
      ensures log == old(log) && (Disjoint(old(State())) ==> Disjoint(State()))
    {
      SelectKeeps(display, State(), choice);
      if display == SectionPlayer || display == SectionEnemy || display == SectionLog {
        return Ignored;
      }
      var s := State();
      var found := KeyFromDisplay(display, s);
      if found.None? || found.value.key == [] {
        return Ignored;
      }
      var h := found.value;
      if h.role != Log {
        o := Resolved(h);
      } else {
        FirstHitHolds(s, ShownIn(s, Lower(Strip(display))));
        o := SettleLog(h.key, choice);
      }
    }

    /** clear_history: once confirmed, both histories are emptied and
        saved; the log is left as it is. */
    method ClearHistory(confirmed: bool)
      modifies this
      ensures confirmed ==> player == Empty() && enemy == Empty() && saves == old(saves) + 1
      ensures !confirmed ==> player == old(player) && enemy == old(enemy) && saves == old(saves)
      ensures log == old(log)
    {
      if confirmed {
        player := Empty();
        enemy := Empty();
        saves := saves + 1;
      }
    }
  }
}
