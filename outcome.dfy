// What a search (search_pokemon) or a list selection (on_list_select) comes
// to, once the query is resolved: the entry shown, the list of candidates,
// a message, or the classification of a log entry into one of the two
// histories. The output text itself is not modelled; the outcome says which
// case was taken and which entry it concerns.

module Outcomes {
  import opened Wrappers
  import opened Text
  import opened OrderedMaps
  import opened Entries
  import opened Lookup

  /** The answer of the classification dialog: "yours" or "enemy". */
  datatype Choice = ChooseYours | ChooseEnemy

  datatype Outcome =
    | Ignored                     // a selection that resolves to nothing
    | EmptyQuery                  // "Type a Pokémon name to search."
    | NotFound                    // "No matches found."
    | Ambiguous(keys: seq<string>) // "Multiple matches found:" and the keys
    | NotInLog(key: string)       // "Not found in current log."
    | Resolved(hit: Hit)          // the history entry shown
    | Classified(hit: Hit)        // the log entry copied into a history
    | Cancelled(key: string)      // "[Cancelled]"

  /** The labels on_list_select ignores. */
  const SectionPlayer: string := "--- Player History ---"
  const SectionEnemy: string := "--- Enemy History ---"
  const SectionLog: string := "--- From Log ---"

  /** The dict a resolved key is shown from: the first of the player
      history, the enemy history and the log that holds it. */
  function RoleOf(k: string, s: Store): Role {
    if k in s.player.items then Player
    else if k in s.enemy.items then Enemy
    else Log
  }

  /** A log entry that is in the log: shown from a history that already
      holds its key, otherwise classified as the dialog answers, or left
      alone when the dialog is dismissed. */
  function Settle(key: string, s: Store, choice: Option<Choice>): Outcome {
    if key in s.player.items then Resolved(Hit(Player, key))
    else if key in s.enemy.items then Resolved(Hit(Enemy, key))
    else
      match choice
      case None => Cancelled(key)
      case Some(ChooseYours) => Classified(Hit(Player, key))
      case Some(ChooseEnemy) => Classified(Hit(Enemy, key))
  }

  /** The end of search_pokemon once a role and a key are known: a history
      entry is shown; a log key whose entry is missing or empty (falsy) is
      reported; any other log key is settled. */
  function ShowHit(h: Hit, s: Store, choice: Option<Choice>): Outcome {
    match h.role
    case Player => Resolved(h)
    case Enemy => Resolved(h)
    case Log =>
      if h.key !in s.log.items || s.log.items[h.key].keys == [] then NotInLog(h.key)
      else Settle(h.key, s, choice)
  }

  /** How a non-empty query resolves, before anything is shown. */
  datatype Resolution = NoMatch | Several(keys: seq<string>) | One(hit: Hit)

  /** The decision of search_pokemon given the exact hit h and the
      deduplicated substring matches m: the exact hit when it has a key
      (the empty key is falsy), otherwise no match, several, or the single
      match taken from the first dict holding it. */
  function Resolve(h: Option<Hit>, m: seq<string>, s: Store): Resolution {
    if h.Some? && h.value.key != [] then One(h.value)
    else if m == [] then NoMatch
    else if |m| > 1 then Several(m)
    else One(Hit(RoleOf(m[0], s), m[0]))
  }

  /** The lookup part of search_pokemon: the exact lookup first, then the
      substring search. */
  function ResolveQuery(q: string, s: Store): Resolution {
    Resolve(FindExact(q, s), Matches(q, s), s)
  }

  /** What search_pokemon shows once the query is resolved. */
  function Decide(r: Resolution, s: Store, choice: Option<Choice>): Outcome {
    match r
    case NoMatch => NotFound
    case Several(ks) => Ambiguous(ks)
    case One(h) => ShowHit(h, s, choice)
  }

  /** search_pokemon on the stripped, lowercased query. */
  function SearchOutcome(text: string, s: Store, choice: Option<Choice>): Outcome {
    var q := Lower(Strip(text));
    if q == [] then EmptyQuery else Decide(ResolveQuery(q, s), s, choice)
  }

  /** A resolution names a key of the dict it names, when the exact hit and
      the matches are keys of the dicts. */
  lemma ResolveHolds(h: Option<Hit>, m: seq<string>, s: Store)
    requires h.Some? ==> h.value.key in In(s, h.value.role).items
    requires forall k :: k in m ==> k in s.player.items || k in s.enemy.items || k in s.log.items
    requires Resolve(h, m, s).One?
    ensures var r := Resolve(h, m, s).hit; r.key in In(s, r.role).items
  {
    if !(h.Some? && h.value.key != []) {
      assert m[0] in m;
    }
  }

  /** A query resolves to a key of the dict it names. */
  lemma ResolveQueryHolds(q: string, s: Store)
    requires ResolveQuery(q, s).One?
    ensures var h := ResolveQuery(q, s).hit; h.key in In(s, h.role).items
  {
    FindExactHolds(q, s);
    forall k | k in Matches(q, s)
      ensures k in s.player.items || k in s.enemy.items || k in s.log.items
    {
      MatchesHeld(q, s, k);
    }
    ResolveHolds(FindExact(q, s), Matches(q, s), s);
  }

  /** What on_list_select does with the resolved key: the empty key (or
      none) is ignored, a history entry is shown, a log entry is settled. */
  function Pick(h: Option<Hit>, s: Store, choice: Option<Choice>): Outcome {
    match h
    case None => Ignored
    case Some(h) =>
      if h.key == [] then Ignored
      else if h.role == Log then Settle(h.key, s, choice)
      else Resolved(h)
  }

  /** on_list_select: section labels and unresolved text are ignored;
      otherwise the key the text resolves to is picked. */
  function SelectOutcome(display: string, s: Store, choice: Option<Choice>): Outcome {
    if display == SectionPlayer || display == SectionEnemy || display == SectionLog then Ignored
    else Pick(KeyFromDisplay(display, s), s, choice)
  }

  /** The dicts after an outcome: a classification stores a copy of the log
      entry under the same key in the chosen history; nothing else changes
      anything. */
  function After(o: Outcome, s: Store): Store {
    match o
    case Classified(Hit(Player, k)) =>
      if k in s.log.items then Store(Put(s.player, k, s.log.items[k]), s.enemy, s.log) else s
    case Classified(Hit(Enemy, k)) =>
      if k in s.log.items then Store(s.player, Put(s.enemy, k, s.log.items[k]), s.log) else s
    case _ => s
  }

  /** No key is in both histories. */
  ghost predicate Disjoint(s: Store) {
    forall k :: k in s.player.items ==> k !in s.enemy.items
  }

  /** The case in which a key may be classified: it is in the log and in
      neither history, the dialog was answered, and the answer names the
      history. */
  ghost predicate Classifiable(h: Hit, s: Store, choice: Option<Choice>) {
    && h.key in s.log.items
    && h.key !in s.player.items && h.key !in s.enemy.items
    && choice.Some?
    && h.role == (if choice.value == ChooseYours then Player else Enemy)
  }

  /** An outcome classifies only a key that is in the log and in neither
      history, into the history the dialog names, and is cancelled only
      when the dialog is dismissed for such a key. */
  ghost predicate AsksOnlyForNew(o: Outcome, s: Store, choice: Option<Choice>) {
    && (o.Classified? ==> Classifiable(o.hit, s, choice))
    && (o.Cancelled? ==>
          && o.key in s.log.items && o.key !in s.player.items
          && o.key !in s.enemy.items && choice.None?)
  }

  /** Showing a hit of a dict asks only for new keys. */
  lemma ShowHitClassifies(h: Hit, s: Store, choice: Option<Choice>)
    requires h.key in In(s, h.role).items
    ensures AsksOnlyForNew(ShowHit(h, s, choice), s, choice)
  {
  }

  lemma DecideClassifies(r: Resolution, s: Store, choice: Option<Choice>)
    requires r.One? ==> r.hit.key in In(s, r.hit.role).items
    ensures AsksOnlyForNew(Decide(r, s, choice), s, choice)
  {
    if r.One? {
      ShowHitClassifies(r.hit, s, choice);
    }
  }

  /** A search classifies only a key that is in the log and in neither
      history, into the history the dialog names; it is cancelled only when
      the dialog is dismissed for such a key. */
  lemma SearchClassifies(text: string, s: Store, choice: Option<Choice>)
    ensures AsksOnlyForNew(SearchOutcome(text, s, choice), s, choice)
  {
    var q := Lower(Strip(text));
    if q != [] {
      var r := ResolveQuery(q, s);
      if r.One? {
        ResolveQueryHolds(q, s);
      }
      DecideClassifies(r, s, choice);
    }
  }

  lemma PickClassifies(h: Option<Hit>, s: Store, choice: Option<Choice>)
    requires h.Some? ==> h.value.key in In(s, h.value.role).items
    ensures AsksOnlyForNew(Pick(h, s, choice), s, choice)
  {
  }

  /** A selection classifies only a key that is in the log and in neither
      history, into the history the dialog names; it is cancelled only when
      the dialog is dismissed for such a key. */
  lemma SelectClassifies(display: string, s: Store, choice: Option<Choice>)
    ensures AsksOnlyForNew(SelectOutcome(display, s, choice), s, choice)
  {
    FirstHitHolds(s, ShownIn(s, Lower(Strip(display))));
    PickClassifies(KeyFromDisplay(display, s), s, choice);
  }

  /** A classification keeps the histories disjoint, leaves the log as it
      is, and stores in the chosen history exactly the log entry. */
  lemma ClassifyKeepsDisjoint(h: Hit, s: Store, choice: Option<Choice>)
    requires Disjoint(s) && Classifiable(h, s, choice)
    ensures var s' := After(Classified(h), s);
      && Disjoint(s')
      && s'.log == s.log
      && h.key in In(s', h.role).items && In(s', h.role).items[h.key] == s.log.items[h.key]
      && (forall k :: k in s'.player.items <==> k in s.player.items || (h.role == Player && k == h.key))
      && (forall k :: k in s'.enemy.items <==> k in s.enemy.items || (h.role == Enemy && k == h.key))
  {
  }

  /** A query whose exact hit has a key resolves to that hit. */
  lemma ResolveExact(q: string, s: Store, h: Hit)
    requires FindExact(q, s) == Some(h) && h.key != []
    ensures ResolveQuery(q, s) == One(h)
  {
  }

  /** A search that resolves to a history entry shows that entry. */
  lemma SearchShowsHistory(text: string, s: Store, choice: Option<Choice>, h: Hit)
    requires Lower(Strip(text)) != [] && ResolveQuery(Lower(Strip(text)), s) == One(h)
    requires h.role != Log
    ensures SearchOutcome(text, s, choice) == Resolved(h)
  {
  }

  /** Once classified, a key is found in its history by the exact lookup,
      and a search for it shows it from there without asking again. */
  lemma ClassifiedThenResolved(h: Hit, s: Store, choice: Option<Choice>, text: string, choice': Option<Choice>)
    requires Classifiable(h, s, choice)
    requires Lower(Strip(text)) == h.key && h.key != []
    ensures FindExact(h.key, After(Classified(h), s)) == Some(h)
    ensures SearchOutcome(text, After(Classified(h), s), choice') == Resolved(h)
  {
    var s' := After(Classified(h), s);
    assert h.key in In(s', h.role).items;
    assert h.role == Enemy ==> h.key !in s'.player.items;
    FindExactKeyFirst(h.key, s', h.role);
    ResolveExact(h.key, s', h);
    SearchShowsHistory(text, s', choice', h);
  }

  /** An outcome that asks only for new keys keeps the log as it is and
      keeps disjoint histories disjoint. */
  lemma AfterKeeps(o: Outcome, s: Store, choice: Option<Choice>)
    requires AsksOnlyForNew(o, s, choice)
    ensures After(o, s).log == s.log
    ensures Disjoint(s) ==> Disjoint(After(o, s))
  {
    if o.Classified? && Disjoint(s) {
      ClassifyKeepsDisjoint(o.hit, s, choice);
    }
  }

  /** A search never changes the log and never puts a key in both
      histories. */
  lemma SearchKeeps(text: string, s: Store, choice: Option<Choice>)
    ensures After(SearchOutcome(text, s, choice), s).log == s.log
    ensures Disjoint(s) ==> Disjoint(After(SearchOutcome(text, s, choice), s))
  {
    SearchClassifies(text, s, choice);
    AfterKeeps(SearchOutcome(text, s, choice), s, choice);
  }

  /** A selection never changes the log and never puts a key in both
      histories. */
  lemma SelectKeeps(display: string, s: Store, choice: Option<Choice>)
    ensures After(SelectOutcome(display, s, choice), s).log == s.log
    ensures Disjoint(s) ==> Disjoint(After(SelectOutcome(display, s, choice), s))
  {
    SelectClassifies(display, s, choice);
    AfterKeeps(SelectOutcome(display, s, choice), s, choice);
  }

  /** A query resolves to nothing exactly when no key of any dict holds it
      in its NAME or in itself: whatever the exact lookup finds is also a
      substring match. */
  lemma ResolveNoMatch(q: string, s: Store)
    ensures ResolveQuery(q, s).NoMatch? <==> MatchesNowhere(q, s)
  {
    MatchesEmpty(q, s);
    if FindExact(q, s).Some? {
      ExactIsMatch(q, s);
    }
  }

  lemma DecideNotFound(r: Resolution, s: Store, choice: Option<Choice>)
    ensures Decide(r, s, choice) == NotFound <==> r.NoMatch?
  {
  }

  /** A search answers "No matches found." exactly when no key of any dict
      holds the query in its NAME or in itself. */
  lemma SearchNotFound(text: string, s: Store, choice: Option<Choice>)
    requires Lower(Strip(text)) != []
    ensures SearchOutcome(text, s, choice) == NotFound <==> MatchesNowhere(Lower(Strip(text)), s)
  {
    var q := Lower(Strip(text));
    DecideNotFound(ResolveQuery(q, s), s, choice);
    ResolveNoMatch(q, s);
  }

  /** A search lists candidates only when the exact lookup finds nothing
      and more than one key matches; the list is the deduplicated matches,
      and nothing changes. */
  lemma SearchAmbiguous(text: string, s: Store, choice: Option<Choice>)
    requires SearchOutcome(text, s, choice).Ambiguous?
    ensures var q, h := Lower(Strip(text)), FindExact(Lower(Strip(text)), s);
      && !(h.Some? && h.value.key != [])
      && SearchOutcome(text, s, choice).keys == Matches(q, s)
      && |Matches(q, s)| > 1
      && After(SearchOutcome(text, s, choice), s) == s
  {
    var q := Lower(Strip(text));
    var r := ResolveQuery(q, s);
    assert SearchOutcome(text, s, choice) == Decide(r, s, choice);
    DecideSeveral(r, s, choice);
    ResolveSeveral(FindExact(q, s), Matches(q, s), s);
  }

  /** Only several matches are listed, as they are. */
  lemma DecideSeveral(r: Resolution, s: Store, choice: Option<Choice>)
    requires Decide(r, s, choice).Ambiguous?
    ensures r.Several? && Decide(r, s, choice).keys == r.keys
  {
  }

  /** Only several matches make a list, and the list is those matches. */
  lemma ResolveSeveral(h: Option<Hit>, m: seq<string>, s: Store)
    ensures Resolve(h, m, s).Several? <==> !(h.Some? && h.value.key != []) && |m| > 1
    ensures Resolve(h, m, s).Several? ==> Resolve(h, m, s).keys == m
  {
  }

  /** A single match without an exact hit resolves to the first dict
      holding it. */
  lemma ResolveSingle(h: Option<Hit>, m: seq<string>, s: Store)
    requires !(h.Some? && h.value.key != []) && |m| == 1
    requires m[0] in s.player.items || m[0] in s.enemy.items || m[0] in s.log.items
    ensures var r := Resolve(h, m, s);
      && r.One? && r.hit.key == m[0]
      && r.hit.key in In(s, r.hit.role).items
      && forall role :: Rank(role) < Rank(r.hit.role) ==> r.hit.key !in In(s, role).items
  {
  }

  /** A single substring match is shown from the first dict, in the order
      player, enemy, log, that holds it: a history takes precedence over the
      log. */
  lemma SingleMatchPrecedence(q: string, s: Store)
    requires !(FindExact(q, s).Some? && FindExact(q, s).value.key != [])
    requires |Matches(q, s)| == 1
    ensures var h := ResolveQuery(q, s);
      && h.One? && h.hit.key == Matches(q, s)[0]
      && h.hit.key in In(s, h.hit.role).items
      && forall r :: Rank(r) < Rank(h.hit.role) ==> h.hit.key !in In(s, r).items
  {
    MatchesHeld(q, s, Matches(q, s)[0]);
    ResolveSingle(FindExact(q, s), Matches(q, s), s);
  }

  /** With both histories empty, showing a resolution never shows a history
      entry. */
  lemma DecideLogOnly(r: Resolution, s: Store, choice: Option<Choice>)
    requires s.player.items == map[] && s.enemy.items == map[]
    requires r.One? ==> r.hit.key in In(s, r.hit.role).items
    ensures r.One? ==> r.hit.role == Log
    ensures !Decide(r, s, choice).Resolved?
  {
  }

  /** With both histories empty, as after clear_history, the exact lookup
      finds only log keys, and a search never shows an entry from a
      history. */
  lemma ClearedFindsLogOnly(text: string, s: Store, choice: Option<Choice>)
    requires s.player == Empty() && s.enemy == Empty()
    ensures var q := Lower(Strip(text));
      FindExact(q, s).Some? ==> FindExact(q, s).value.role == Log
    ensures !SearchOutcome(text, s, choice).Resolved?
  {
    var q := Lower(Strip(text));
    FindExactHolds(q, s);
    if q != [] {
      var r := ResolveQuery(q, s);
      if r.One? {
        ResolveQueryHolds(q, s);
      }
      DecideLogOnly(r, s, choice);
    }
  }
}
