// The two text renderings of an entry: the full listing (format_full_info)
// and the short name-and-type card used for enemy entries
// (format_enemy_info).

module InfoFormat {
  import opened Text
  import opened OrderedMaps
  import opened Entries
  import opened Stats

  /** The fields listed first, in this order, when present. */
  const FieldOrder: seq<string> :=
    ["NUM", "NAME", "TYPE", "HP", "ATK", "DEF", "SPE", "SATK", "SDEF",
     "ABILITY1", "ABILITY2", "ABILITY3", "ITEM"]

  /** A field is listed when the entry has it and its stripped value is not
      empty. */
  predicate Shown(e: Entry, k: string) {
    k in e.items && Strip(e.items[k]) != []
  }

  function ShownIn(e: Entry): string -> bool {
    k => Shown(e, k)
  }

  /** A listed field outside the given order. */
  function ShownRest(e: Entry, order: seq<string>): string -> bool {
    k => Shown(e, k) && k !in order
  }

  /** The fields listed, in listing order: those of the given order first,
      then the entry's other fields in the entry's own order. The full
      listing uses FieldOrder. */
  function ListedKeys(e: Entry, order: seq<string>): seq<string> {
    Filter(order, ShownIn(e)) + Filter(e.keys, ShownRest(e, order))
  }

  /** f"{k}: {data[k]}", the value as stored (not stripped). */
  function InfoLine(e: Entry, k: string): string {
    k + ": " + Field(e, k)
  }

  function InfoLines(e: Entry, ks: seq<string>): (r: seq<string>)
    ensures |r| == |ks|
  {
    if ks == [] then [] else InfoLines(e, ks[..|ks| - 1]) + [InfoLine(e, ks[|ks| - 1])]
  }

  /** The i-th line is the line of the i-th field. */
  lemma {:induction false} InfoLinesAt(e: Entry, ks: seq<string>, i: nat)
    requires i < |ks|
    ensures InfoLines(e, ks)[i] == InfoLine(e, ks[i])
  {
    if i < |ks| - 1 {
      InfoLinesAt(e, ks[..|ks| - 1], i);
    }
  }

  /** The closing line with the base stat total. */
  function BstLine(total: int): string {
    "BST (Base Stat Total): " + IntToString(total)
  }

  function FullInfoLines(e: Entry): seq<string> {
    InfoLines(e, ListedKeys(e, FieldOrder)) + [BstLine(BaseStatTotal(e))]
  }

  /** "\n".join(lines) + "\n" */
  function LinesText(ls: seq<string>): string {
    Join(ls, "\n") + "\n"
  }

  function FullInfoText(e: Entry): string {
    LinesText(FullInfoLines(e))
  }

  lemma {:induction false} InfoLinesAppend(e: Entry, ks: seq<string>, ms: seq<string>)
    ensures InfoLines(e, ks + ms) == InfoLines(e, ks) + InfoLines(e, ms)
  {
    if ms == [] {
      assert ks + ms == ks;
    } else {
      var init := ms[..|ms| - 1];
      assert (ks + ms)[..|ks + ms| - 1] == ks + init;
      assert (ks + ms)[|ks + ms| - 1] == ms[|ms| - 1];
      InfoLinesAppend(e, ks, init);
    }
  }

  /** One more field considered: its line is added when it is listed. */
  lemma InfoLinesStep(e: Entry, ks: seq<string>, k: string, p: string -> bool)
    ensures InfoLines(e, Filter(ks + [k], p)) ==
      InfoLines(e, Filter(ks, p)) + (if p(k) then [InfoLine(e, k)] else [])
  {
    FilterSnoc(ks, k, p);
    var f := Filter(ks, p);
    if p(k) {
      assert (f + [k])[..|f|] == f;
    } else {
      assert f + [] == f;
    }
  }

  /** The first loop's step: the j-th field of the order adds its line when
      it is shown. */
  lemma FixedStep(e: Entry, order: seq<string>, j: nat)
    requires j < |order|
    ensures InfoLines(e, Filter(order[..j + 1], ShownIn(e))) ==
      InfoLines(e, Filter(order[..j], ShownIn(e))) +
      (if order[j] in e.items && Strip(e.items[order[j]]) != [] then [order[j] + ": " + e.items[order[j]]] else [])
  {
    assert order[..j + 1] == order[..j] + [order[j]];
    InfoLinesStep(e, order[..j], order[j], ShownIn(e));
  }

  /** The first loop of format_full_info: the fields of the given order that
      are shown, and the set of those fields. */
  method ListFixed(e: Entry, order: seq<string>) returns (lines: seq<string>, seen: set<string>)
    ensures lines == InfoLines(e, Filter(order, ShownIn(e)))
    ensures forall k :: k in seen <==> k in order && Shown(e, k)
  {
    lines, seen := [], {};
    for j := 0 to |order|
      invariant lines == InfoLines(e, Filter(order[..j], ShownIn(e)))
      invariant forall k :: k in seen <==> k in order[..j] && Shown(e, k)
    {
      var k := order[j];
      FixedStep(e, order, j);
      assert order[..j + 1] == order[..j] + [k];
      if k in e.items && Strip(e.items[k]) != [] {
        lines := lines + [k + ": " + e.items[k]];
        seen := seen + {k};
      }
    }
    assert order[..|order|] == order;
  }

  /** One more listed field adds its line. */
  lemma InfoLinesSnoc(e: Entry, ks: seq<string>, k: string)
    ensures InfoLines(e, ks + [k]) == InfoLines(e, ks) + [InfoLine(e, k)]
  {
    assert (ks + [k])[..|ks|] == ks;
  }

  /** The second loop's step: the j-th key of the entry is listed exactly
      when it is shown and was not listed by the first loop. */
  lemma RestStep(e: Entry, order: seq<string>, seen: set<string>, j: nat)
    requires forall k :: k in seen <==> k in order && Shown(e, k)
    requires j < |e.keys|
    ensures e.keys[j] in e.items
    ensures var k := e.keys[j];
      Filter(e.keys[..j + 1], ShownRest(e, order)) ==
        Filter(e.keys[..j], ShownRest(e, order)) + (if k !in seen && Strip(e.items[k]) != [] then [k] else [])
  {
    var k := e.keys[j];
    assert k in e.keys;
    assert e.keys[..j + 1] == e.keys[..j] + [k];
    FilterSnoc(e.keys[..j], k, ShownRest(e, order));
  }

  /** The second loop: the lines of the entry's other shown fields, in the
      entry's order. */
  method ListRest(e: Entry, order: seq<string>, seen: set<string>) returns (lines: seq<string>)
    requires forall k :: k in seen <==> k in order && Shown(e, k)
    ensures lines == InfoLines(e, Filter(e.keys, ShownRest(e, order)))
  {
    lines := [];
    ghost var listed: seq<string> := [];
    for j := 0 to |e.keys|
      invariant listed == Filter(e.keys[..j], ShownRest(e, order))
      invariant lines == InfoLines(e, listed)
    {
      RestStep(e, order, seen, j);
      var k := e.keys[j];
      var v := e.items[k];
      if k !in seen && Strip(v) != [] {
        InfoLinesSnoc(e, listed, k);
        lines := lines + [k + ": " + v];
        listed := listed + [k];
      }
    }
    assert e.keys[..|e.keys|] == e.keys;
  }

  /** format_full_info. */
  method FormatFullInfo(e: Entry) returns (text: string)
    ensures text == FullInfoText(e)
  {
    var lines, seen := ListFixed(e, FieldOrder);
    var rest := ListRest(e, FieldOrder, seen);
    lines := lines + rest;
    InfoLinesAppend(e, Filter(FieldOrder, ShownIn(e)), Filter(e.keys, ShownRest(e, FieldOrder)));
    var bst := CalculateBst(e);
    lines := lines + ["BST (Base Stat Total): " + IntToString(bst)];
    text := Join(lines, "\n") + "\n";
  }

  /** The fixed order lists no field twice. */
  lemma FieldOrderNoDup()
    ensures NoDup(FieldOrder)
  {
    forall i, j | 0 <= i < j < |FieldOrder| ensures FieldOrder[i] != FieldOrder[j] {
      var a, b := FieldOrder[i], FieldOrder[j];
      assert a[0] != b[0] || |a| != |b| || a[|a| - 1] != b[|b| - 1];
    }
  }

  /** Two filters, the second keeping nothing the first sequence holds,
      put one after the other, repeat nothing. */
  lemma FilterThenFilterNoDup(s: seq<string>, t: seq<string>, p: string -> bool, q: string -> bool)
    requires NoDup(s) && NoDup(t)
    requires forall k :: q(k) ==> k !in s
    ensures NoDup(Filter(s, p) + Filter(t, q))
  {
    var a, b := Filter(s, p), Filter(t, q);
    FilterOrdered(s, p);
    FilterOrdered(t, q);
    var ks := a + b;
    forall i, j | 0 <= i < j < |ks| ensures ks[i] != ks[j] {
      if i < |a| && j >= |a| {
        assert ks[i] in a && ks[j] in b;
      } else if i >= |a| {
        assert ks[i] == b[i - |a|] && ks[j] == b[j - |a|];
      }
    }
  }

  /** Two sequences put one after the other, the first drawn from s in the
      order of s, the second drawn from t outside s in the order of t. */
  lemma ConcatOrdered(s: seq<string>, t: seq<string>, a: seq<string>, b: seq<string>)
    requires forall x :: x in a ==> x in s
    requires forall x :: x in b ==> x in t && x !in s
    requires forall i, j :: 0 <= i < j < |a| ==> IndexOf(s, a[i]) < IndexOf(s, a[j])
    requires forall i, j :: 0 <= i < j < |b| ==> IndexOf(t, b[i]) < IndexOf(t, b[j])
    ensures var ks := a + b;
      && (forall i :: 0 <= i < |a| ==> ks[i] in s)
      && (forall i :: |a| <= i < |ks| ==> ks[i] !in s && ks[i] in t)
      && (forall i, j :: 0 <= i < j < |a| ==> IndexOf(s, ks[i]) < IndexOf(s, ks[j]))
      && (forall i, j :: |a| <= i < j < |ks| ==> IndexOf(t, ks[i]) < IndexOf(t, ks[j]))
  {
    var ks := a + b;
    forall i | 0 <= i < |a| ensures ks[i] in s {
      assert ks[i] == a[i];
    }
    forall i | |a| <= i < |ks| ensures ks[i] !in s && ks[i] in t {
      assert ks[i] == b[i - |a|];
    }
    forall i, j | |a| <= i < j < |ks| ensures IndexOf(t, ks[i]) < IndexOf(t, ks[j]) {
      assert ks[i] == b[i - |a|] && ks[j] == b[j - |a|];
    }
  }

  /** Every non-empty field is listed, exactly once, and nothing else is. */
  lemma ListedKeysExact(e: Entry, order: seq<string>)
    requires NoDup(order)
    ensures forall k :: k in ListedKeys(e, order) <==> Shown(e, k)
    ensures NoDup(ListedKeys(e, order))
  {
    FilterMembers(order, ShownIn(e));
    FilterMembers(e.keys, ShownRest(e, order));
    FilterThenFilterNoDup(order, e.keys, ShownIn(e), ShownRest(e, order));
  }

  /** The fields of the given order come first, in that order; the others
      follow in the entry's own order. */
  lemma ListedKeysOrder(e: Entry, order: seq<string>)
    requires NoDup(order)
    ensures var ks, n := ListedKeys(e, order), |Filter(order, ShownIn(e))|;
      && n <= |ks|
      && (forall i :: 0 <= i < n ==> ks[i] in order)
      && (forall i :: n <= i < |ks| ==> ks[i] !in order && ks[i] in e.keys)
      && (forall i, j :: 0 <= i < j < n ==> IndexOf(order, ks[i]) < IndexOf(order, ks[j]))
      && (forall i, j :: n <= i < j < |ks| ==> IndexOf(e.keys, ks[i]) < IndexOf(e.keys, ks[j]))
  {
    var a, b := Filter(order, ShownIn(e)), Filter(e.keys, ShownRest(e, order));
    FilterOrdered(order, ShownIn(e));
    FilterOrdered(e.keys, ShownRest(e, order));
    ConcatOrdered(order, e.keys, a, b);
  }

  /** Text made of lines, one more line at the end. */
  lemma LinesTextSnoc(ls: seq<string>, x: string)
    ensures LinesText(ls + [x]) == (if ls == [] then "" else LinesText(ls)) + x + "\n"
  {
    if ls != [] {
      JoinSnoc(ls, x, "\n");
    }
  }

  /** The text is the listed fields' lines, then the BST line, and ends with
      a newline. */
  lemma FullInfoTextEnds(e: Entry)
    ensures var ls := InfoLines(e, ListedKeys(e, FieldOrder));
      FullInfoText(e) ==
        (if ls == [] then "" else LinesText(ls)) + BstLine(BaseStatTotal(e)) + "\n"
  {
    LinesTextSnoc(InfoLines(e, ListedKeys(e, FieldOrder)), BstLine(BaseStatTotal(e)));
  }

  /** The BST line holds no newline. */
  lemma BstLineOneLine(total: int)
    ensures '\n' !in BstLine(total)
  {
    var d := NatToString(if total < 0 then -total else total);
    forall i | 0 <= i < |d| ensures d[i] != '\n' {
      assert IsDigit(d[i]);
    }
    assert IntToString(total) == (if total < 0 then "-" else "") + d;
  }

  /** When no listed field's name or value holds a newline, splitting the
      text (without its final newline) on newlines gives back the lines. */
  lemma FullInfoTextSplits(e: Entry)
    requires forall k :: Shown(e, k) ==> '\n' !in k && '\n' !in e.items[k]
    ensures var t := FullInfoText(e);
      |t| > 0 && t[|t| - 1] == '\n' && Split(t[..|t| - 1], '\n') == FullInfoLines(e)
  {
    var ls := FullInfoLines(e);
    var ks := ListedKeys(e, FieldOrder);
    FieldOrderNoDup();
    ListedKeysExact(e, FieldOrder);
    BstLineOneLine(BaseStatTotal(e));
    forall i | 0 <= i < |ls| ensures '\n' !in ls[i] {
      if i < |ks| {
        var k := ks[i];
        assert k in ks;
        InfoLinesAt(e, ks, i);
        assert ls[i] == k + ": " + e.items[k];
      }
    }
    SplitJoin(ls, '\n');
    var t := FullInfoText(e);
    assert t[..|t| - 1] == Join(ls, "\n");
  }

  /** format_enemy_info: the stripped NAME, then "Type: " and the stripped
      TYPE ("Unknown" when the entry has no TYPE), each on its own line. */
  function EnemyInfoText(e: Entry): string {
    var name := Strip(GetOr(e, "NAME", ""));
    var typ := Strip(GetOr(e, "TYPE", "Unknown"));
    name + "\nType: " + typ + "\n"
  }

  /** The type line holds no newline when the type holds none. */
  lemma TypeLineOneLine(typ: string)
    requires '\n' !in typ
    ensures '\n' !in "Type: " + typ
  {
    var t := "Type: " + typ;
    forall i | 0 <= i < |t| ensures t[i] != '\n' {
      if i >= 6 {
        assert t[i] == typ[i - 6];
      }
    }
  }

  /** Two separator-free lines, each ended by the separator, split into
      those lines and an empty last part. */
  lemma TwoLines(a: string, b: string, sep: char)
    requires sep !in a && sep !in b
    ensures Split(a + [sep] + b + [sep], sep) == [a, b, ""]
  {
    assert a + [sep] + b + [sep] == a + [sep] + (b + [sep] + []);
    SplitPrefix(a, sep, b + [sep] + []);
    SplitPrefix(b, sep, []);
  }

  /** A name and a type free of newlines make a card of exactly two lines,
      each ended by a newline. */
  lemma CardLines(name: string, typ: string)
    requires '\n' !in name && '\n' !in typ
    ensures Split(name + "\nType: " + typ + "\n", '\n') == [name, "Type: " + typ, ""]
  {
    TypeLineOneLine(typ);
    CardText(name, typ);
    TwoLines(name, "Type: " + typ, '\n');
  }

  /** The card's text, as the name and the type line each followed by a
      newline. */
  lemma CardText(name: string, typ: string)
    ensures name + "\nType: " + typ + "\n" == name + ['\n'] + ("Type: " + typ) + ['\n']
  {
    assert "\nType: " == ['\n'] + "Type: ";
  }

  /** The card is exactly two lines, the stripped name and the stripped
      type, when neither holds a newline itself. */
  lemma EnemyInfoLines(e: Entry)
    requires '\n' !in Strip(GetOr(e, "NAME", "")) && '\n' !in Strip(GetOr(e, "TYPE", "Unknown"))
    ensures Split(EnemyInfoText(e), '\n') ==
      [Strip(GetOr(e, "NAME", "")), "Type: " + Strip(GetOr(e, "TYPE", "Unknown")), ""]
  {
    CardLines(Strip(GetOr(e, "NAME", "")), Strip(GetOr(e, "TYPE", "Unknown")));
  }
}
