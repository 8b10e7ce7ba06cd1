// The tracker's three dicts and the ways a query or a list entry is resolved
// to one of their keys: find_exact, the substring search with its
// first-seen deduplication, and key_from_display. Every search walks the
// dicts in the order player history, enemy history, log, and each dict in
// insertion order.

module Lookup {
  import opened Wrappers
  import opened Text
  import opened OrderedMaps
  import opened Entries

  /** Which of the three dicts a key was found in. */
  datatype Role = Player | Enemy | Log

  datatype Hit = Hit(role: Role, key: string)

  /** player_history, enemy_history and pokemon_data (the log). */
  datatype Store = Store(player: Dict<Entry>, enemy: Dict<Entry>, log: Dict<Entry>)

  function In(s: Store, r: Role): Dict<Entry> {
    match r
    case Player => s.player
    case Enemy => s.enemy
    case Log => s.log
  }

  /** The place of a dict in the search order. */
  function Rank(r: Role): nat {
    match r
    case Player => 0
    case Enemy => 1
    case Log => 2
  }

  /** The first key of d, in insertion order, that satisfies p. */
  function FirstKey(d: Dict<Entry>, p: string -> bool): Option<string> {
    FirstWhereBound(d.keys, p);
    match FirstWhere(d.keys, p)
    case None => None
    case Some(i) => Some(d.keys[i])
  }

  /** FirstKey finds a key of d that satisfies p, with no key before it
      satisfying p, and finds nothing exactly when no key satisfies p. */
  lemma FirstKeyFirst(d: Dict<Entry>, p: string -> bool)
    ensures var r := FirstKey(d, p);
      && (r.Some? ==>
            && r.value in d.items && p(r.value)
            && (forall j :: 0 <= j < IndexOf(d.keys, r.value) ==> !p(d.keys[j])))
      && (r.None? <==> forall k :: k in d.items ==> !p(k))
  {
    FirstWhereFirst(d.keys, p);
    match FirstWhere(d.keys, p)
    case None =>
      forall k | k in d.items ensures !p(k) {
        assert d.keys[IndexOf(d.keys, k)] == k;
      }
    case Some(i) =>
      IndexOfNoDup(d.keys, i);
  }

  /** The first key satisfying p(r) in the dict of role r, trying the
      player history, then the enemy history, then the log. */
  function FirstHit(s: Store, p: Role -> string -> bool): Option<Hit> {
    match FirstKey(s.player, p(Player))
    case Some(k) => Some(Hit(Player, k))
    case None =>
      match FirstKey(s.enemy, p(Enemy))
      case Some(k) => Some(Hit(Enemy, k))
      case None =>
        match FirstKey(s.log, p(Log))
        case Some(k) => Some(Hit(Log, k))
        case None => None
  }

  /** FirstHit finds nothing exactly when no key of any dict satisfies the
      predicate of its dict. */
  lemma FirstHitNone(s: Store, p: Role -> string -> bool)
    ensures FirstHit(s, p).None? <==> forall r, k :: k in In(s, r).items ==> !p(r)(k)
  {
    FirstKeyFirst(s.player, p(Player));
    FirstKeyFirst(s.enemy, p(Enemy));
    FirstKeyFirst(s.log, p(Log));
    if FirstHit(s, p).None? {
      forall r, k | k in In(s, r).items ensures !p(r)(k) {
        match r
        case Player =>
        case Enemy =>
        case Log =>
      }
    }
  }

  /** FirstHit finds a key satisfying the predicate of its dict, no earlier
      dict holds such a key and no earlier key of its own dict satisfies
      it. */
  lemma FirstHitSome(s: Store, p: Role -> string -> bool)
    requires FirstHit(s, p).Some?
    ensures var h := FirstHit(s, p).value; var d := In(s, h.role);
      && h.key in d.items && p(h.role)(h.key)
      && (forall j :: 0 <= j < IndexOf(d.keys, h.key) ==> !p(h.role)(d.keys[j]))
      && (forall r, k :: Rank(r) < Rank(h.role) && k in In(s, r).items ==> !p(r)(k))
  {
    FirstKeyFirst(s.player, p(Player));
    FirstKeyFirst(s.enemy, p(Enemy));
    FirstKeyFirst(s.log, p(Log));
  }

  /** FirstHit finds a key satisfying the predicate of its dict, no earlier
      dict holds such a key and no earlier key of its own dict satisfies it;
      it finds nothing exactly when no key of any dict does. */
  lemma FirstHitFirst(s: Store, p: Role -> string -> bool)
    ensures var h := FirstHit(s, p);
      && (h.Some? ==>
            && h.value.key in In(s, h.value.role).items
            && p(h.value.role)(h.value.key)
            && (forall j :: 0 <= j < IndexOf(In(s, h.value.role).keys, h.value.key) ==>
                  !p(h.value.role)(In(s, h.value.role).keys[j]))
            && (forall r, k :: Rank(r) < Rank(h.value.role) && k in In(s, r).items ==> !p(r)(k)))
      && (h.None? <==> forall r, k :: k in In(s, r).items ==> !p(r)(k))
  {
    FirstHitNone(s, p);
    if FirstHit(s, p).Some? {
      FirstHitSome(s, p);
    }
  }

  /** What FirstHit finds is a key of the dict it names. */
  lemma FirstHitHolds(s: Store, p: Role -> string -> bool)
    ensures var h := FirstHit(s, p); h.Some? ==> h.value.key in In(s, h.value.role).items
  {
    FirstWhereFirst(s.player.keys, p(Player));
    FirstWhereFirst(s.enemy.keys, p(Enemy));
    FirstWhereFirst(s.log.keys, p(Log));
  }

  // ---------------------------------------------------------------- find_exact

  /** The entry under k in d has the stripped, lowercased NAME q. */
  function NameIs(d: Dict<Entry>, q: string): string -> bool {
    k => k in d.items && NameKey(d.items[k]) == q
  }

  function NamedIn(s: Store, q: string): Role -> string -> bool {
    r => NameIs(In(s, r), q)
  }

  /** find_exact: q as a key of the player history, the enemy history or
      the log, in that order; failing that, the first entry whose NAME is q,
      in the same order of dicts. */
  function FindExact(q: string, s: Store): Option<Hit> {
    if q in s.player.items then Some(Hit(Player, q))
    else if q in s.enemy.items then Some(Hit(Enemy, q))
    else if q in s.log.items then Some(Hit(Log, q))
    else FirstHit(s, NamedIn(s, q))
  }

  /** q is a key of some dict, or the NAME of some entry. */
  ghost predicate Known(q: string, s: Store) {
    exists r, k :: k in In(s, r).items && (k == q || NameKey(In(s, r).items[k]) == q)
  }

  /** What find_exact finds is a key of the dict it names whose key or NAME
      is q, and it finds nothing exactly when q is neither a key nor a NAME
      anywhere. */
  lemma FindExactSound(q: string, s: Store)
    ensures var h := FindExact(q, s);
      && (h.Some? ==>
            && h.value.key in In(s, h.value.role).items
            && (h.value.key == q || NameKey(In(s, h.value.role).items[h.value.key]) == q))
      && (h.None? <==> !Known(q, s))
  {
    FirstHitFirst(s, NamedIn(s, q));
    if FindExact(q, s).None? {
      FindExactMissing(q, s);
    } else if q !in s.player.items && q !in s.enemy.items && q !in s.log.items {
      var h := FirstHit(s, NamedIn(s, q)).value;
      assert NamedIn(s, q)(h.role)(h.key);
    }
  }

  /** When q is no key and no NAME matches it, q is not known. */
  lemma FindExactMissing(q: string, s: Store)
    requires q !in s.player.items && q !in s.enemy.items && q !in s.log.items
    requires FirstHit(s, NamedIn(s, q)).None?
    ensures !Known(q, s)
  {
    var p := NamedIn(s, q);
    FirstHitNone(s, p);
    forall r, k | k in In(s, r).items
      ensures k != q && NameKey(In(s, r).items[k]) != q
    {
      assert !p(r)(k);
      assert !NameIs(In(s, r), q)(k);
    }
  }

  /** What find_exact finds is a key of the dict it names. */
  lemma FindExactHolds(q: string, s: Store)
    ensures var h := FindExact(q, s); h.Some? ==> h.value.key in In(s, h.value.role).items
  {
    FirstHitHolds(s, NamedIn(s, q));
  }

  /** A query that is a key anywhere is found as that key, in the first
      dict, in the order player, enemy, log, that holds it: a key in both a
      history and the log resolves to the history. */
  lemma FindExactKeyFirst(q: string, s: Store, r: Role)
    requires q in In(s, r).items
    ensures var h := FindExact(q, s);
      && h.Some? && h.value.key == q && Rank(h.value.role) <= Rank(r)
      && q in In(s, h.value.role).items
      && forall r' :: Rank(r') < Rank(h.value.role) ==> q !in In(s, r').items
  {
  }

  /** A query that is no key is found by NAME: in the first dict holding an
      entry with that NAME, and there as the first such entry in insertion
      order. */
  lemma FindExactNameFirst(q: string, s: Store)
    requires forall r :: q !in In(s, r).items
    requires FindExact(q, s).Some?
    ensures var h := FindExact(q, s).value; var d := In(s, h.role);
      && h.key in d.items && NameKey(d.items[h.key]) == q
      && (forall j :: 0 <= j < IndexOf(d.keys, h.key) ==> NameKey(d.items[d.keys[j]]) != q)
      && (forall r, k :: Rank(r) < Rank(h.role) && k in In(s, r).items ==>
            NameKey(In(s, r).items[k]) != q)
  {
    assert q !in In(s, Player).items && q !in In(s, Enemy).items && q !in In(s, Log).items;
    FirstHitFirst(s, NamedIn(s, q));
    var h := FindExact(q, s).value;
    var d := In(s, h.role);
    assert NamedIn(s, q)(h.role)(h.key);
    forall j | 0 <= j < IndexOf(d.keys, h.key) ensures NameKey(d.items[d.keys[j]]) != q {
      assert !NamedIn(s, q)(h.role)(d.keys[j]);
    }
    forall r, k | Rank(r) < Rank(h.role) && k in In(s, r).items ensures NameKey(In(s, r).items[k]) != q {
      assert !NamedIn(s, q)(r)(k);
    }
  }

  // ----------------------------------------------------------- key_from_display

  /** The entry under k in d is the one displayed as dn: its NAME is dn, or
      its key is. */
  function ShowsAs(d: Dict<Entry>, dn: string): string -> bool {
    k => k in d.items && (NameKey(d.items[k]) == dn || k == dn)
  }

  function ShownIn(s: Store, dn: string): Role -> string -> bool {
    r => ShowsAs(In(s, r), dn)
  }

  /** key_from_display: the stripped, lowercased text is compared with each
      entry's NAME and key together, one dict at a time, in the order
      player, enemy, log. */
  function KeyFromDisplay(display: string, s: Store): Option<Hit> {
    FirstHit(s, ShownIn(s, Lower(Strip(display))))
  }

  /** What key_from_display finds is the first entry, in the first dict
      holding one, whose NAME or key is the display text; it finds nothing
      exactly when no entry anywhere has that NAME or key. */
  lemma KeyFromDisplayFirst(display: string, s: Store)
    ensures var dn, h := Lower(Strip(display)), KeyFromDisplay(display, s);
      && (h.Some? ==>
            var d := In(s, h.value.role);
            && h.value.key in d.items
            && (NameKey(d.items[h.value.key]) == dn || h.value.key == dn)
            && (forall j :: 0 <= j < IndexOf(d.keys, h.value.key) ==>
                  NameKey(d.items[d.keys[j]]) != dn && d.keys[j] != dn)
            && (forall r, k :: Rank(r) < Rank(h.value.role) && k in In(s, r).items ==>
                  NameKey(In(s, r).items[k]) != dn && k != dn))
      && (h.None? <==> forall r, k :: k in In(s, r).items ==> NameKey(In(s, r).items[k]) != dn && k != dn)
  {
    var dn := Lower(Strip(display));
    var p := ShownIn(s, dn);
    FirstHitFirst(s, p);
    var h := KeyFromDisplay(display, s);
    if h.Some? {
      var d := In(s, h.value.role);
      assert p(h.value.role)(h.value.key);
      forall j | 0 <= j < IndexOf(d.keys, h.value.key)
        ensures NameKey(d.items[d.keys[j]]) != dn && d.keys[j] != dn
      {
        assert !p(h.value.role)(d.keys[j]);
      }
      forall r, k | Rank(r) < Rank(h.value.role) && k in In(s, r).items
        ensures NameKey(In(s, r).items[k]) != dn && k != dn
      {
        assert !p(r)(k);
      }
    } else {
      forall r, k | k in In(s, r).items ensures NameKey(In(s, r).items[k]) != dn && k != dn {
        assert !p(r)(k);
      }
    }
  }

  /** The two resolvers differ: when the first player entry is NAMEd q and
      q is a key of the enemy history only, find_exact picks the enemy key
      while key_from_display picks the player entry. */
  lemma ResolversDiffer(q: string, s: Store)
    requires Lower(Strip(q)) == q
    requires |s.player.keys| > 0 && NameKey(s.player.items[s.player.keys[0]]) == q
    requires q !in s.player.items && q in s.enemy.items
    ensures FindExact(q, s) == Some(Hit(Enemy, q))
    ensures KeyFromDisplay(q, s) == Some(Hit(Player, s.player.keys[0]))
  {
    var p := ShownIn(s, q);
    var k0 := s.player.keys[0];
    FirstWhereFirst(s.player.keys, p(Player));
    assert p(Player)(k0);
  }

  // ------------------------------------------------------------ substring search

  /** The query occurs in the entry's stripped, lowercased NAME or in its key. */
  function MatchesIn(d: Dict<Entry>, q: string): string -> bool {
    k => k in d.items && (Contains(NameKey(d.items[k]), q) || Contains(k, q))
  }

  /** collect_matches: the keys of d whose NAME or key holds q, in insertion
      order. */
  function CollectMatches(q: string, d: Dict<Entry>): seq<string> {
    Filter(d.keys, MatchesIn(d, q))
  }

  /** The matches of the three dicts, player first, then enemy, then log. */
  function AllMatches(q: string, s: Store): seq<string> {
    CollectMatches(q, s.player) + CollectMatches(q, s.enemy) + CollectMatches(q, s.log)
  }

  /** list(dict.fromkeys(matches)) */
  function Matches(q: string, s: Store): seq<string> {
    Dedup(AllMatches(q, s))
  }

  /** The first dict, in search order, in which k matches q. */
  function MatchRole(q: string, s: Store, k: string): Role {
    if MatchesIn(s.player, q)(k) then Player
    else if MatchesIn(s.enemy, q)(k) then Enemy
    else Log
  }

  /** k matches q in one of the three dicts. */
  predicate MatchesAnywhere(q: string, s: Store, k: string) {
    MatchesIn(s.player, q)(k) || MatchesIn(s.enemy, q)(k) || MatchesIn(s.log, q)(k)
  }

  /** collect_matches keeps exactly the keys that match. */
  lemma CollectMembers(q: string, d: Dict<Entry>)
    ensures forall k :: k in CollectMatches(q, d) <==> MatchesIn(d, q)(k)
  {
    FilterMembers(d.keys, MatchesIn(d, q));
  }

  /** The substring search lists every key that matches in some dict, and
      nothing else, once each. */
  lemma MatchesExact(q: string, s: Store)
    ensures forall k :: k in Matches(q, s) <==> MatchesAnywhere(q, s, k)
    ensures NoDup(Matches(q, s))
  {
    CollectMembers(q, s.player);
    CollectMembers(q, s.enemy);
    CollectMembers(q, s.log);
    DedupNoDup(AllMatches(q, s));
  }

  /** Every listed match is a key of one of the dicts. */
  lemma MatchesHeld(q: string, s: Store, k: string)
    requires k in Matches(q, s)
    ensures k in s.player.items || k in s.enemy.items || k in s.log.items
  {
    FilterMembers(s.player.keys, MatchesIn(s.player, q));
    FilterMembers(s.enemy.keys, MatchesIn(s.enemy, q));
    FilterMembers(s.log.keys, MatchesIn(s.log, q));
    assert k in AllMatches(q, s);
  }

  /** No key of d holds q in its NAME or in itself. */
  predicate NoneMatchIn(q: string, d: Dict<Entry>) {
    forall k :: k in d.items ==> !MatchesIn(d, q)(k)
  }

  /** No key of any of the three dicts holds q in its NAME or in itself. */
  predicate MatchesNowhere(q: string, s: Store) {
    NoneMatchIn(q, s.player) && NoneMatchIn(q, s.enemy) && NoneMatchIn(q, s.log)
  }

  /** collect_matches finds nothing exactly when no key of the dict
      matches. */
  lemma CollectEmpty(q: string, d: Dict<Entry>)
    ensures CollectMatches(q, d) == [] <==> NoneMatchIn(q, d)
  {
    var p := MatchesIn(d, q);
    FilterEmpty(d.keys, p);
    if forall i :: 0 <= i < |d.keys| ==> !p(d.keys[i]) {
      forall k | k in d.items ensures !p(k) {
        assert d.keys[IndexOf(d.keys, k)] == k;
      }
    }
    if NoneMatchIn(q, d) {
      forall i | 0 <= i < |d.keys| ensures !p(d.keys[i]) {
        assert d.keys[i] in d.keys;
      }
    }
  }

  /** The substring search finds nothing exactly when no key of any dict
      matches. */
  lemma MatchesEmpty(q: string, s: Store)
    ensures Matches(q, s) == [] <==> MatchesNowhere(q, s)
  {
    CollectEmpty(q, s.player);
    CollectEmpty(q, s.enemy);
    CollectEmpty(q, s.log);
    DedupNoDup(AllMatches(q, s));
  }

  /** Whatever find_exact finds also holds the query as a substring of its
      NAME or of itself. */
  lemma ExactIsMatch(q: string, s: Store)
    requires FindExact(q, s).Some?
    ensures !MatchesNowhere(q, s)
  {
    FindExactSound(q, s);
    var h := FindExact(q, s).value;
    var d := In(s, h.role);
    ContainsSelf(q);
    assert MatchesIn(d, q)(h.key);
    assert !NoneMatchIn(q, d);
  }

  /** The position of a matching key among all the matches: its place in
      the first dict it matches in, after the matches of the dicts before. */
  lemma MatchPosition(q: string, s: Store, k: string)
    requires k in AllMatches(q, s)
    ensures var a, b := CollectMatches(q, s.player), CollectMatches(q, s.enemy);
      var c, i := CollectMatches(q, s.log), IndexOf(AllMatches(q, s), k);
      match MatchRole(q, s, k)
      case Player => k in a && i == IndexOf(a, k)
      case Enemy => k in b && i == |a| + IndexOf(b, k)
      case Log => k in c && i == |a| + |b| + IndexOf(c, k)
  {
    var a, b, c := CollectMatches(q, s.player), CollectMatches(q, s.enemy), CollectMatches(q, s.log);
    CollectMembers(q, s.player);
    CollectMembers(q, s.enemy);
    CollectMembers(q, s.log);
    assert AllMatches(q, s) == (a + b) + c;
    match MatchRole(q, s, k)
    case Player =>
      IndexOfPrefix(a, b, k);
      IndexOfPrefix(a + b, c, k);
    case Enemy =>
      IndexOfSuffix(a, b, k);
      IndexOfPrefix(a + b, c, k);
    case Log =>
      assert k !in a + b;
      IndexOfSuffix(a + b, c, k);
  }

  /** A collected key's place among the matches of its dict follows its
      place in the dict. */
  lemma CollectOrder(q: string, d: Dict<Entry>, x: string, y: string)
    requires x in d.items && y in d.items
    requires x in CollectMatches(q, d) && y in CollectMatches(q, d)
    requires IndexOf(CollectMatches(q, d), x) < IndexOf(CollectMatches(q, d), y)
    ensures IndexOf(d.keys, x) < IndexOf(d.keys, y)
  {
    var f := CollectMatches(q, d);
    FilterOrdered(d.keys, MatchesIn(d, q));
    var i, j := IndexOf(f, x), IndexOf(f, y);
    assert f[i] == x && f[j] == y;
  }

  /** x comes before y when it matches in an earlier dict, or in the same
      dict at an earlier position. */
  predicate MatchBefore(q: string, s: Store, x: string, y: string) {
    var rx, ry := MatchRole(q, s, x), MatchRole(q, s, y);
    && x in In(s, rx).items && y in In(s, ry).items
    && (Rank(rx) < Rank(ry) ||
        (rx == ry && IndexOf(In(s, rx).keys, x) < IndexOf(In(s, rx).keys, y)))
  }

  /** Of two collected keys, the one collected first comes before. */
  lemma MatchPairOrder(q: string, s: Store, x: string, y: string)
    requires x in AllMatches(q, s) && y in AllMatches(q, s)
    requires IndexOf(AllMatches(q, s), x) < IndexOf(AllMatches(q, s), y)
    ensures MatchBefore(q, s, x, y)
  {
    MatchPosition(q, s, x);
    MatchPosition(q, s, y);
    var rx, ry := MatchRole(q, s, x), MatchRole(q, s, y);
    var d := In(s, rx);
    assert x in CollectMatches(q, d) && y in CollectMatches(q, In(s, ry));
    CollectMembers(q, d);
    CollectMembers(q, In(s, ry));
    if rx == ry {
      CollectOrder(q, d, x, y);
    }
  }

  /** The substring search lists the keys by the first dict they match in,
      player before enemy before log, and within one dict in insertion
      order. */
  lemma MatchesOrder(q: string, s: Store)
    ensures var m := Matches(q, s);
      forall i, j :: 0 <= i < j < |m| ==> MatchBefore(q, s, m[i], m[j])
  {
    var all, m := AllMatches(q, s), Matches(q, s);
    DedupFirstSeen(all);
    forall i, j | 0 <= i < j < |m| ensures MatchBefore(q, s, m[i], m[j]) {
      assert m[i] in m && m[j] in m;
      MatchPairOrder(q, s, m[i], m[j]);
    }
  }
}
