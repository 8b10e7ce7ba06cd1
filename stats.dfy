// calculate_bst: the base stat total of an entry, the sum of its six stat
// fields read as integers, where a field that is not an integer adds 0.

module Stats {
  import opened Wrappers
  import opened Text
  import opened OrderedMaps
  import opened Entries

  /** The stat fields, in the order they are added up. */
  const StatFields: seq<string> := ["HP", "ATK", "DEF", "SPE", "SATK", "SDEF"]

  /** The guard before int(): v.isdigit() or (v and v.replace("-", "").isdigit()). */
  predicate LooksNumeric(v: string) {
    IsDigits(v) || (v != [] && IsDigits(RemoveAll(v, '-')))
  }

  /** What one stat field adds: the integer value of the stripped field when
      the guard lets it through and int() accepts it; 0 when the guard
      rejects it; nothing (so 0) when int() raises. */
  function StatValue(e: Entry, k: string): int {
    StatOf(Field(e, k))
  }

  /** What a stat field's text adds. */
  function StatOf(text: string): int {
    var v := Strip(text);
    if LooksNumeric(v) then
      match IntLiteral(v)
      case Some(n) => n
      case None => 0
    else 0
  }

  /** The stat values of the fields ks, added up. */
  function StatSum(e: Entry, ks: seq<string>): int {
    if ks == [] then 0 else StatSum(e, ks[..|ks| - 1]) + StatValue(e, ks[|ks| - 1])
  }

  /** The base stat total. */
  function BaseStatTotal(e: Entry): int {
    StatSum(e, StatFields)
  }

  /** calculate_bst, adding the fields one at a time. */
  method CalculateBst(e: Entry) returns (total: int)
    ensures total == BaseStatTotal(e)
  {
    total := 0;
    for j := 0 to |StatFields|
      invariant total == StatSum(e, StatFields[..j])
    {
      StatSumStep(e, StatFields, j);
      var v := Strip(Field(e, StatFields[j]));
      if IsDigits(v) || (v != [] && IsDigits(RemoveAll(v, '-'))) {
        var n := IntLiteral(v);
        if n.Some? {
          total := total + n.value;
        }
        // otherwise int() raised ValueError and nothing is added
      }
    }
    assert StatFields[..|StatFields|] == StatFields;
  }

  /** Removing '-' from a string of digits changes nothing. */
  lemma DigitsHaveNoDash(s: string)
    requires IsDigits(s)
    ensures RemoveAll(s, '-') == s
  {
    forall i | 0 <= i < |s| ensures s[i] != '-' {
      assert IsDigit(s[i]);
    }
    RemoveAllAbsent(s, '-');
  }

  /** The guard lets through every string of ASCII digits and '-' that
      int() accepts, so a stat adds exactly the integer value of its
      stripped text, and 0 when that is not an optional '-' followed by
      digits. */
  lemma StatOfIsInteger(text: string)
    ensures StatOf(text) ==
      match IntLiteral(Strip(text))
      case Some(n) => n
      case None => 0
  {
    var v := Strip(text);
    if IntLiteral(v).Some? && !IsDigits(v) {
      assert v == "-" + v[1..];
      assert RemoveAll(v, '-') == RemoveAll(v[1..], '-');
      DigitsHaveNoDash(v[1..]);
    }
  }

  /** A stat whose stripped text is str(n), for any integer n, adds n. */
  lemma StatOfInt(text: string, n: int)
    requires Strip(text) == IntToString(n)
    ensures StatOf(text) == n
  {
    StatOfIsInteger(text);
    IntLiteralIntToString(n);
  }

  /** A stat whose stripped text is not an optional '-' followed by digits
      ("" and a lone "-" included) adds 0: int() rejects it, or it holds a
      '+' or '_' that the guard turns away first. */
  lemma StatOfMalformed(text: string)
    requires IntLiteral(Strip(text)).None?
    ensures StatOf(text) == 0
  {
    StatOfIsInteger(text);
  }


  /** Only the six stat fields count: entries that agree on them have the
      same total. */
  lemma {:induction false} StatSumOnlyStats(e1: Entry, e2: Entry, ks: seq<string>)
    requires forall k :: k in ks ==> Field(e1, k) == Field(e2, k)
    ensures StatSum(e1, ks) == StatSum(e2, ks)
  {
    if ks != [] {
      StatSumOnlyStats(e1, e2, ks[..|ks| - 1]);
      assert ks[|ks| - 1] in ks;
    }
  }

  /** Adding one more field to the sum. */
  lemma StatSumSnoc(e: Entry, ks: seq<string>, k: string)
    ensures StatSum(e, ks + [k]) == StatSum(e, ks) + StatValue(e, k)
  {
    assert (ks + [k])[..|ks|] == ks;
  }

  /** Adding the j-th field of ks to the sum of those before it. */
  lemma StatSumStep(e: Entry, ks: seq<string>, j: nat)
    requires j < |ks|
    ensures StatSum(e, ks[..j + 1]) == StatSum(e, ks[..j]) + StatValue(e, ks[j])
  {
    assert ks[..j + 1][..j] == ks[..j];
  }

  /** The total is the six stat values added up. */
  lemma BaseStatTotalSix(e: Entry)
    ensures BaseStatTotal(e) ==
      StatValue(e, "HP") + StatValue(e, "ATK") + StatValue(e, "DEF") +
      StatValue(e, "SPE") + StatValue(e, "SATK") + StatValue(e, "SDEF")
  {
    StatSumSix(e, StatFields);
  }

  /** Six fields add up to their six values. */
  lemma StatSumSix(e: Entry, ks: seq<string>)
    requires |ks| == 6
    ensures StatSum(e, ks) ==
      StatValue(e, ks[0]) + StatValue(e, ks[1]) + StatValue(e, ks[2]) +
      StatValue(e, ks[3]) + StatValue(e, ks[4]) + StatValue(e, ks[5])
  {
    assert ks[..0] == [];
    StatSumStep(e, ks, 0);
    StatSumStep(e, ks, 1);
    StatSumStep(e, ks, 2);
    StatSumStep(e, ks, 3);
    StatSumStep(e, ks, 4);
    StatSumStep(e, ks, 5);
    assert ks[..6] == ks;
  }

  /** An entry with the six stats as given. */
  function StatEntry(hp: string, atk: string, def: string, spe: string, satk: string, sdef: string): Entry {
    Put(Put(Put(Put(Put(Put(Empty(), "HP", hp), "ATK", atk), "DEF", def), "SPE", spe), "SATK", satk), "SDEF", sdef)
  }

  /** The total of such an entry is the six texts' values added up. */
  lemma StatEntryTotal(hp: string, atk: string, def: string, spe: string, satk: string, sdef: string)
    ensures BaseStatTotal(StatEntry(hp, atk, def, spe, satk, sdef)) ==
      StatOf(hp) + StatOf(atk) + StatOf(def) + StatOf(spe) + StatOf(satk) + StatOf(sdef)
  {
    var e := StatEntry(hp, atk, def, spe, satk, sdef);
    assert Field(e, "HP") == hp && Field(e, "ATK") == atk && Field(e, "DEF") == def;
    assert Field(e, "SPE") == spe && Field(e, "SATK") == satk && Field(e, "SDEF") == sdef;
    BaseStatTotalSix(e);
  }

  /** A stat holding str(n) for a natural number n adds n. */
  lemma StatOfNat(n: nat)
    ensures StatOf(NatToString(n)) == n
  {
    var s := NatToString(n);
    assert IsDigit(s[0]) && IsDigit(s[|s| - 1]);
    StatOfInt(s, n);
  }

  /** Bulbasaur's stats 45, 49, 49, 45, 65 and 65 total 318. */
  lemma BulbasaurTotal()
    ensures BaseStatTotal(StatEntry(NatToString(45), NatToString(49), NatToString(49),
                                    NatToString(45), NatToString(65), NatToString(65))) == 318
  {
    StatOfNat(45);
    StatOfNat(49);
    StatOfNat(65);
    StatEntryTotal(NatToString(45), NatToString(49), NatToString(49),
                   NatToString(45), NatToString(65), NatToString(65));
  }

  /** Text that is not an integer fails the guard and adds nothing. */
  lemma NonNumericStatsAddNothing()
    ensures !LooksNumeric("abc") && StatOf("abc") == 0
    ensures !LooksNumeric("") && StatOf("") == 0
  {
    assert Strip("abc") == "abc";
    assert RemoveAll("abc", '-') == "abc";
    assert !IsDigit("abc"[0]);
    StatOfMalformed("abc");
  }

  /** "+5" and "1_000", which int() would read as 5 and 1000, fail the guard
      and add nothing. */
  lemma SignedOrGroupedStatsAddNothing()
    ensures !LooksNumeric("+5") && StatOf("+5") == 0
    ensures !LooksNumeric("1_000") && StatOf("1_000") == 0
  {
    assert Strip("+5") == "+5";
    assert RemoveAll("+5", '-') == "+5";
    assert !IsDigit("+5"[0]);
    assert Strip("1_000") == "1_000";
    assert RemoveAll("1_000", '-') == "1_000";
    assert !IsDigit("1_000"[1]);
  }

  /** "1-2" and "--5" pass the guard, but int() raises on them and they add
      nothing. */
  lemma GuardedStatsAddNothing()
    ensures LooksNumeric("1-2") && StatOf("1-2") == 0
    ensures LooksNumeric("--5") && StatOf("--5") == 0
  {
    assert Strip("1-2") == "1-2";
    assert RemoveAll("1-2", '-') == "12";
    assert !IsDigit("1-2"[1]);
    StatOfMalformed("1-2");
    assert Strip("--5") == "--5";
    assert RemoveAll("--5", '-') == "5";
    assert !IsDigit("--5"[1..][0]);
    StatOfMalformed("--5");
  }
}
