// The randomizer log parser (load_pokemon_data): pipe-delimited lines after a
// "NUM|NAME..." header become entries keyed by their lower-case NAME.
// The file itself is not read here: the parser takes the file's lines.

module LogParser {
  import opened Wrappers
  import opened Text
  import opened OrderedMaps
  import opened Entries

  /** What the upper-cased header line starts with. */
  const HeaderPrefix: string := "NUM|NAME"

  /** Fields every parsed entry has, set to "" when the header lacks them. */
  const DefaultFields: seq<string> := ["TYPE", "NUM", "HP", "ATK", "DEF", "SPE", "SATK", "SDEF"]

  /** The default fields are distinct, so each is added at most once. */
  lemma DefaultFieldsNoDup()
    ensures NoDup(DefaultFields)
  {
    forall i, j | 0 <= i < j < |DefaultFields| ensures DefaultFields[i] != DefaultFields[j] {
      var a, b := DefaultFields[i], DefaultFields[j];
      assert a[0] != b[0] || |a| != |b| || a[|a| - 1] != b[|b| - 1];
    }
  }

  /** The stripped line, upper-cased, starts with "NUM|NAME". */
  predicate IsHeaderLine(raw: string) {
    StartsWith(Upper(Strip(raw)), HeaderPrefix)
  }

  /** The header's field names: each pipe-separated part stripped and
      upper-cased. `line` is the already stripped line. */
  function HeaderFields(line: string): (hs: seq<string>)
    ensures |hs| == |Split(line, '|')|
  {
    var parts := Split(line, '|');
    seq(|parts|, i requires 0 <= i < |parts| => Upper(Strip(parts[i])))
  }

  /** A data line's values: each pipe-separated part stripped. */
  function RowParts(line: string): (ps: seq<string>)
    ensures |ps| == |Split(line, '|')|
  {
    var parts := Split(line, '|');
    seq(|parts|, i requires 0 <= i < |parts| => Strip(parts[i]))
  }

  /** The position of the last occurrence of k in hs. */
  function LastIndexOf(hs: seq<string>, k: string): (i: nat)
    requires k in hs
    ensures i < |hs| && hs[i] == k
    ensures forall j :: i < j < |hs| ==> hs[j] != k
  {
    if hs[|hs| - 1] == k then |hs| - 1 else LastIndexOf(hs[..|hs| - 1], k)
  }

  /** dict(zip(hs, ps)): a repeated header takes the value of its last
      column, at the place of its first. */
  function Zip(hs: seq<string>, ps: seq<string>): Entry
    requires |hs| == |ps|
  {
    if hs == [] then Empty()
    else Put(Zip(hs[..|hs| - 1], ps[..|hs| - 1]), hs[|hs| - 1], ps[|hs| - 1])
  }

  /** The zipped row has exactly the header's fields, each with the value of
      the last column of that name. */
  lemma {:induction false} ZipFields(hs: seq<string>, ps: seq<string>)
    requires |hs| == |ps|
    ensures forall k :: k in Zip(hs, ps).items <==> k in hs
    ensures forall k :: k in hs ==> Zip(hs, ps).items[k] == ps[LastIndexOf(hs, k)]
  {
    if hs != [] {
      var n := |hs| - 1;
      assert hs == hs[..n] + [hs[n]];
      ZipFields(hs[..n], ps[..n]);
    }
  }

  /** dict(zip(hs, ps)) lists a repeated header field once, at its first
      column: the fields come in the order of their first occurrence. */
  lemma {:induction false} ZipOrder(hs: seq<string>, ps: seq<string>)
    requires |hs| == |ps|
    ensures Zip(hs, ps).keys == Dedup(hs)
  {
    if hs != [] {
      var n := |hs| - 1;
      ZipOrder(hs[..n], ps[..n]);
    }
  }

  /** row.setdefault(k, "") for each k of ks in turn. */
  function WithDefaults(row: Entry, ks: seq<string>): Entry {
    if ks == [] then row
    else
      var r := WithDefaults(row, ks[..|ks| - 1]);
      var k := ks[|ks| - 1];
      if k in r.items then r else Put(r, k, "")
  }

  /** setdefault adds the missing fields as "" and keeps the present ones. */
  lemma {:induction false} WithDefaultsFields(row: Entry, ks: seq<string>)
    ensures var r := WithDefaults(row, ks);
      forall k :: k in r.items <==> k in row.items || k in ks
    ensures var r := WithDefaults(row, ks);
      forall k :: k in row.items ==> r.items[k] == row.items[k]
    ensures var r := WithDefaults(row, ks);
      forall k :: k in ks && k !in row.items ==> r.items[k] == ""
  {
    if ks != [] {
      var n := |ks| - 1;
      assert ks == ks[..n] + [ks[n]];
      WithDefaultsFields(row, ks[..n]);
    }
  }

  /** setdefault leaves a field outside ks as it was. */
  lemma WithDefaultsKeeps(row: Entry, ks: seq<string>, k: string)
    requires k !in ks
    ensures Field(WithDefaults(row, ks), k) == Field(row, k)
  {
    WithDefaultsFields(row, ks);
  }

  /** Those of ks that are not among the given keys. */
  function NotIn(ks: seq<string>): string -> bool {
    k => k !in ks
  }

  /** setdefault appends the fields it adds after the present ones, in the
      order of ks. */
  lemma {:induction false} WithDefaultsOrder(row: Entry, ks: seq<string>)
    requires NoDup(ks)
    ensures WithDefaults(row, ks).keys == row.keys + Filter(ks, NotIn(row.keys))
  {
    if ks != [] {
      var n := |ks| - 1;
      var init, k := ks[..n], ks[n];
      assert NoDup(init) && k !in init by {
        assert forall i :: 0 <= i < n ==> init[i] == ks[i];
      }
      WithDefaultsOrder(row, init);
      var r := WithDefaults(row, init);
      WithDefaultsHas(row, init, k);
      var f := Filter(init, NotIn(row.keys));
      if k in row.keys {
        assert WithDefaults(row, ks) == r;
        assert Filter(ks, NotIn(row.keys)) == f;
      } else {
        assert WithDefaults(row, ks) == Put(r, k, "");
        assert Filter(ks, NotIn(row.keys)) == f + [k];
      }
    }
  }

  /** A field is present after setdefault exactly when it was before or is
      one of ks. */
  lemma WithDefaultsHas(row: Entry, ks: seq<string>, k: string)
    ensures k in WithDefaults(row, ks).items <==> k in row.keys || k in ks
  {
    WithDefaultsFields(row, ks);
  }

  /** Every default field is present. */
  ghost predicate HasDefaults(e: Entry) {
    forall k :: k in DefaultFields ==> k in e.items
  }

  /** The key a data line's values would be filed under: its NAME value,
      lower-cased (empty when the header has no NAME). */
  function RowKey(hs: seq<string>, ps: seq<string>): string
    requires |ps| == |hs|
  {
    NameKey(Zip(hs, ps))
  }

  /** The entry a kept data line becomes: the header's fields with the line's
      stripped values, then the default fields the header lacked, as "". */
  function RowEntry(hs: seq<string>, ps: seq<string>): Entry
    requires |ps| == |hs|
  {
    WithDefaults(Zip(hs, ps), DefaultFields)
  }

  /** The entry holds the header's fields with the values of their last
      columns and the missing default fields as "". */
  lemma RowEntryFields(hs: seq<string>, ps: seq<string>)
    requires |ps| == |hs|
    ensures var e := RowEntry(hs, ps);
      forall k :: k in e.items <==> k in hs || k in DefaultFields
    ensures var e := RowEntry(hs, ps);
      forall k :: k in hs ==> e.items[k] == ps[LastIndexOf(hs, k)]
    ensures var e := RowEntry(hs, ps);
      forall k :: k in DefaultFields && k !in hs ==> e.items[k] == ""
  {
    var row := Zip(hs, ps);
    ZipFields(hs, ps);
    WithDefaultsFields(row, DefaultFields);
  }

  /** The entry lists the header's fields in the order of their first
      column, then the default fields the header lacks, in their own order. */
  lemma RowEntryOrder(hs: seq<string>, ps: seq<string>)
    requires |ps| == |hs|
    ensures RowEntry(hs, ps).keys == Dedup(hs) + Filter(DefaultFields, NotIn(hs))
  {
    ZipOrder(hs, ps);
    DefaultFieldsNoDup();
    WithDefaultsOrder(Zip(hs, ps), DefaultFields);
    FilterSame(DefaultFields, NotIn(Dedup(hs)), NotIn(hs));
  }

  /** The entry has every default field, and its NAME gives the row's key. */
  lemma RowEntryName(hs: seq<string>, ps: seq<string>)
    requires |ps| == |hs|
    ensures HasDefaults(RowEntry(hs, ps))
    ensures NameKey(RowEntry(hs, ps)) == RowKey(hs, ps)
  {
    var row := Zip(hs, ps);
    forall k | k in DefaultFields ensures k in RowEntry(hs, ps).items {
      WithDefaultsHas(row, DefaultFields, k);
    }
    assert "NAME" !in DefaultFields;
    WithDefaultsKeeps(row, DefaultFields, "NAME");
  }

  /** A kept data line: the key it is filed under and its entry. */
  datatype Row = Row(key: string, entry: Entry)

  /** A data line after the header. It is dropped (None) when it is blank,
      when its field count differs from the header's, or when its NAME is
      empty; otherwise it becomes an entry filed under its lower-cased NAME. */
  function LineRow(hs: seq<string>, raw: string): Option<Row>
  {
    var line := Strip(raw);
    if line == [] then None
    else
      var ps := RowParts(line);
      if |ps| != |hs| then None
      else
        var key := RowKey(hs, ps);
        if key == [] then None else Some(Row(key, RowEntry(hs, ps)))
  }

  /** A kept line is not blank, has as many fields as the header, and is
      filed under the non-empty lower-cased NAME of its entry, which has the
      default fields. */
  lemma LineRowKept(hs: seq<string>, raw: string)
    requires LineRow(hs, raw).Some?
    ensures Strip(raw) != [] && |RowParts(Strip(raw))| == |hs|
    ensures var r := LineRow(hs, raw).value;
      r.key != [] && r.key == NameKey(r.entry) && HasDefaults(r.entry)
    ensures LineRow(hs, raw).value.entry == RowEntry(hs, RowParts(Strip(raw)))
  {
    RowEntryName(hs, RowParts(Strip(raw)));
  }

  /** pk[key] = entry for a kept line; nothing for a dropped one. */
  function FileRow(pk: Dict<Entry>, r: Option<Row>): Dict<Entry> {
    match r
    case None => pk
    case Some(row) => Put(pk, row.key, row.entry)
  }

  /** The kept lines filed one after the other into an empty dict. */
  function FileRows(rs: seq<Option<Row>>): Dict<Entry> {
    if rs == [] then Empty()
    else FileRow(FileRows(rs[..|rs| - 1]), rs[|rs| - 1])
  }

  /** The position of the header line: the first line that is one. */
  function FindHeader(lines: seq<string>): Option<nat> {
    FirstWhere(lines, IsHeaderLine)
  }

  /** Each data line after the header, read against it. */
  function LineRows(hs: seq<string>, rows: seq<string>): (rs: seq<Option<Row>>)
    ensures |rs| == |rows|
    ensures forall i :: 0 <= i < |rows| ==> rs[i] == LineRow(hs, rows[i])
  {
    seq(|rows|, i requires 0 <= i < |rows| => LineRow(hs, rows[i]))
  }

  /** Reading two runs of lines one after the other. */
  lemma LineRowsAppend(hs: seq<string>, a: seq<string>, b: seq<string>)
    ensures LineRows(hs, a + b) == LineRows(hs, a) + LineRows(hs, b)
  {
    var l, r := LineRows(hs, a + b), LineRows(hs, a) + LineRows(hs, b);
    forall i | 0 <= i < |l| ensures l[i] == r[i] {
      if i < |a| {
        assert (a + b)[i] == a[i];
      } else {
        assert (a + b)[i] == b[i - |a|];
      }
    }
  }

  /** One data line after the header. */
  function ParseLine(pk: Dict<Entry>, hs: seq<string>, raw: string): Dict<Entry> {
    FileRow(pk, LineRow(hs, raw))
  }

  /** The entries the data lines after the header give. */
  function ParseRows(hs: seq<string>, rows: seq<string>): Dict<Entry> {
    FileRows(LineRows(hs, rows))
  }

  lemma ParseRowsSnoc(hs: seq<string>, rows: seq<string>, raw: string)
    ensures ParseRows(hs, rows + [raw]) == ParseLine(ParseRows(hs, rows), hs, raw)
  {
    var rs := LineRows(hs, rows + [raw]);
    assert rs[..|rows|] == LineRows(hs, rows);
  }

  /** The whole log: nothing without a header line; otherwise the rows after
      the first header line, read against that header. */
  function Parse(lines: seq<string>): Dict<Entry> {
    FirstWhereFirst(lines, IsHeaderLine);
    match FindHeader(lines)
    case None => Empty()
    case Some(h) => ParseRows(HeaderFields(Strip(lines[h])), lines[h + 1..])
  }

  /** setdefault for one more field of ks. */
  lemma WithDefaultsSnoc(row: Entry, ks: seq<string>, j: nat)
    requires j < |ks|
    ensures var r := WithDefaults(row, ks[..j]);
      WithDefaults(row, ks[..j + 1]) == if ks[j] in r.items then r else Put(r, ks[j], "")
  {
    assert ks[..j + 1][..j] == ks[..j];
  }

  /** The `row.setdefault(k, "")` loop over the default fields. */
  method SetDefaults(row0: Entry) returns (row: Entry)
    ensures row == WithDefaults(row0, DefaultFields)
  {
    row := row0;
    for j := 0 to |DefaultFields|
      invariant row == WithDefaults(row0, DefaultFields[..j])
    {
      var k := DefaultFields[j];
      WithDefaultsSnoc(row0, DefaultFields, j);
      if k !in row.items {
        row := Put(row, k, "");
      }
    }
    assert DefaultFields[..|DefaultFields|] == DefaultFields;
  }

  /** One data line after the header, given the line and its stripped form:
      split on '|', kept only when the field count matches and NAME is not
      empty, completed with the default fields and filed under its key. */
  method ReadRow(pk0: Dict<Entry>, headers: seq<string>, raw: string, line: string)
    returns (pk: Dict<Entry>)
    requires line == Strip(raw) && line != []
    ensures pk == ParseLine(pk0, headers, raw)
  {
    pk := pk0;
    var parts := RowParts(line);
    if |parts| == |headers| {
      var row := Zip(headers, parts);
      var nameKey := NameKey(row);
      if nameKey != [] {
        row := SetDefaults(row);
        pk := Put(pk, nameKey, row);
      }
    }
  }

  /** Where the reading stands after some lines: whether the header was
      seen, its field names, and the lines after it. */
  datatype ScanState = ScanState(headerFound: bool, headers: seq<string>, rows: seq<string>)

  /** One line of the file. Before the header only a header line counts;
      after it every line is a data line, a second header line included. */
  function Step(st: ScanState, raw: string): ScanState {
    if !st.headerFound then
      if IsHeaderLine(raw) then ScanState(true, HeaderFields(Strip(raw)), []) else st
    else st.(rows := st.rows + [raw])
  }

  /** Where the reading stands after the given lines. */
  function Scan(lines: seq<string>): ScanState {
    if lines == [] then ScanState(false, [], [])
    else Step(Scan(lines[..|lines| - 1]), lines[|lines| - 1])
  }

  /** Reading line by line finds the first header line, keeps its field
      names, and collects every line after it. */
  lemma {:induction false} ScanHeader(lines: seq<string>)
    ensures Scan(lines).headerFound == FindHeader(lines).Some?
    ensures FindHeader(lines).Some? ==>
      var h := FindHeader(lines).value;
      h < |lines| &&
      Scan(lines).headers == HeaderFields(Strip(lines[h])) &&
      Scan(lines).rows == lines[h + 1..]
  {
    if lines != [] {
      var n := |lines| - 1;
      var init, raw := lines[..n], lines[n];
      assert lines == init + [raw];
      FirstWhereBound(init, IsHeaderLine);
      match FindHeader(init)
      case Some(h) =>
        assert lines[h + 1..] == init[h + 1..] + [raw];
        FirstWhereSnoc(init, raw, IsHeaderLine);
        ScanHeader(init);
      case None =>
        assert lines[n + 1..] == [];
        FirstWhereSnoc(init, raw, IsHeaderLine);
        ScanHeader(init);
    }
  }

  /** The line-by-line reading computes Parse. */
  lemma ScanIsParse(lines: seq<string>)
    ensures Parse(lines) ==
      if Scan(lines).headerFound then ParseRows(Scan(lines).headers, Scan(lines).rows) else Empty()
  {
    ScanHeader(lines);
  }

  /** load_pokemon_data, reading the lines one at a time. */
  method LoadPokemonData(lines: seq<string>) returns (pk: Dict<Entry>)
    ensures pk == Parse(lines)
  {
    pk := Empty();
    var headerFound := false;
    var headers: seq<string> := [];
    var i := 0;
    while i < |lines|
      invariant 0 <= i <= |lines|
      invariant headerFound == Scan(lines[..i]).headerFound
      invariant headers == Scan(lines[..i]).headers
      invariant pk == if headerFound then ParseRows(headers, Scan(lines[..i]).rows) else Empty()
    {
      assert lines[..i + 1][..i] == lines[..i];
      ghost var rows := Scan(lines[..i]).rows;
      var line := Strip(lines[i]);
      if line == [] {
        // a blank line
        assert !IsHeaderLine(lines[i]) && LineRow(headers, lines[i]).None?;
        if headerFound {
          ParseRowsSnoc(headers, rows, lines[i]);
        }
      } else if !headerFound && StartsWith(Upper(line), HeaderPrefix) {
        headers := HeaderFields(line);
        headerFound := true;
      } else if headerFound {
        ParseRowsSnoc(headers, rows, lines[i]);
        pk := ReadRow(pk, headers, lines[i], line);
      }
      i := i + 1;
    }
    assert lines[..i] == lines;
    ScanIsParse(lines);
  }

  /** The keys filed are exactly those of the kept lines, and each key holds
      the entry of one of them. */
  lemma {:induction false} FileRowsKeys(rs: seq<Option<Row>>)
    ensures forall k :: k in FileRows(rs).items <==>
      exists i :: 0 <= i < |rs| && rs[i].Some? && rs[i].value.key == k
    ensures forall k :: k in FileRows(rs).items ==>
      exists i :: 0 <= i < |rs| && rs[i] == Some(Row(k, FileRows(rs).items[k]))
  {
    if rs != [] {
      var n := |rs| - 1;
      FileRowsKeys(rs[..n]);
      assert forall i :: 0 <= i < n ==> rs[..n][i] == rs[i];
    }
  }

  /** A key holds the entry of the last kept line filed under it. */
  lemma {:induction false} FileRowsLastWins(rs: seq<Option<Row>>, i: nat)
    requires i < |rs| && rs[i].Some?
    requires forall j :: i < j < |rs| ==> rs[j].None? || rs[j].value.key != rs[i].value.key
    ensures rs[i].value.key in FileRows(rs).items
    ensures FileRows(rs).items[rs[i].value.key] == rs[i].value.entry
  {
    var n := |rs| - 1;
    if i < n {
      assert rs[..n][i] == rs[i];
      FileRowsLastWins(rs[..n], i);
    }
  }

  /** Filing one more line files it into the dict filed so far. */
  lemma FileRowsSnoc(rs: seq<Option<Row>>, r: Option<Row>)
    ensures FileRows(rs + [r]) == FileRow(FileRows(rs), r)
  {
    assert (rs + [r])[..|rs|] == rs;
  }

  /** A dropped line changes nothing, wherever it stands. */
  lemma {:induction false} FileRowsDropped(xs: seq<Option<Row>>, ys: seq<Option<Row>>)
    ensures FileRows(xs + [None] + ys) == FileRows(xs + ys)
  {
    if ys == [] {
      assert xs + [None] + ys == xs + [None];
      assert xs + ys == xs;
      FileRowsSnoc(xs, None);
    } else {
      var n := |ys| - 1;
      var init, last := ys[..n], ys[n];
      assert xs + [None] + ys == (xs + [None] + init) + [last];
      assert xs + ys == (xs + init) + [last];
      FileRowsDropped(xs, init);
      FileRowsSnoc(xs + [None] + init, last);
      FileRowsSnoc(xs + init, last);
    }
  }

  /** The keys of the kept lines in file order, repeats included. */
  function KeptKeys(rs: seq<Option<Row>>): seq<string> {
    if rs == [] then []
    else KeptKeys(rs[..|rs| - 1]) + (match rs[|rs| - 1] case Some(r) => [r.key] case None => [])
  }

  /** A re-filed key keeps the place where it was first filed: the keys come
      in the order of their first kept line. */
  lemma {:induction false} FileRowsOrder(rs: seq<Option<Row>>)
    ensures FileRows(rs).keys == Dedup(KeptKeys(rs))
  {
    if rs != [] {
      var n := |rs| - 1;
      FileRowsOrder(rs[..n]);
      if rs[n].Some? {
        DedupSnoc(KeptKeys(rs[..n]), rs[n].value.key);
      } else {
        assert KeptKeys(rs) == KeptKeys(rs[..n]);
      }
    }
  }

  /** A data line is kept and filed under k. */
  predicate KeptUnder(hs: seq<string>, raw: string, k: string) {
    LineRow(hs, raw).Some? && LineRow(hs, raw).value.key == k
  }

  /** The keys read from the rows are exactly the keys of the kept lines. */
  lemma ParseRowsDomain(hs: seq<string>, rows: seq<string>, k: string)
    ensures k in ParseRows(hs, rows).items <==>
      exists i :: 0 <= i < |rows| && KeptUnder(hs, rows[i], k)
  {
    var rs := LineRows(hs, rows);
    FileRowsKeys(rs);
    if k in ParseRows(hs, rows).items {
      var i :| 0 <= i < |rs| && rs[i].Some? && rs[i].value.key == k;
      assert KeptUnder(hs, rows[i], k);
    }
    if i :| 0 <= i < |rows| && KeptUnder(hs, rows[i], k) {
      assert rs[i].Some? && rs[i].value.key == k;
    }
  }

  /** Each key read from the rows is non-empty and is the lower-cased NAME of
      its entry, and each entry has the default fields. */
  lemma ParseRowsEntries(hs: seq<string>, rows: seq<string>, k: string)
    requires k in ParseRows(hs, rows).items
    ensures var e := ParseRows(hs, rows).items[k];
      k != [] && NameKey(e) == k && HasDefaults(e)
  {
    var rs := LineRows(hs, rows);
    FileRowsKeys(rs);
    var i :| 0 <= i < |rs| && rs[i] == Some(Row(k, ParseRows(hs, rows).items[k]));
    assert rs[i] == LineRow(hs, rows[i]);
    LineRowKept(hs, rows[i]);
  }

  /** Later rows replace earlier ones: a key holds the entry of the last kept
      line filed under it. */
  lemma ParseRowsLastWins(hs: seq<string>, rows: seq<string>, i: nat)
    requires i < |rows| && LineRow(hs, rows[i]).Some?
    requires forall j :: i < j < |rows| ==>
      LineRow(hs, rows[j]).None? || LineRow(hs, rows[j]).value.key != LineRow(hs, rows[i]).value.key
    ensures var r := LineRow(hs, rows[i]).value;
      r.key in ParseRows(hs, rows).items &&
      ParseRows(hs, rows).items[r.key] == RowEntry(hs, RowParts(Strip(rows[i])))
  {
    FileRowsLastWins(LineRows(hs, rows), i);
  }

  /** The log lists its keys in the order of the first data line kept under
      each: a later line for a key already read replaces its entry but not
      its place. */
  lemma ParseRowsOrder(hs: seq<string>, rows: seq<string>)
    ensures ParseRows(hs, rows).keys == Dedup(KeptKeys(LineRows(hs, rows)))
    ensures var ks := KeptKeys(LineRows(hs, rows));
      forall i, j :: 0 <= i < j < |ParseRows(hs, rows).keys| ==>
        IndexOf(ks, ParseRows(hs, rows).keys[i]) < IndexOf(ks, ParseRows(hs, rows).keys[j])
  {
    FileRowsOrder(LineRows(hs, rows));
    DedupFirstSeen(KeptKeys(LineRows(hs, rows)));
  }

  /** A dropped data line (blank, with the wrong number of fields, or with an
      empty NAME) changes nothing, wherever it stands. */
  lemma ParseRowsDropped(hs: seq<string>, a: seq<string>, raw: string, b: seq<string>)
    requires LineRow(hs, raw).None?
    ensures ParseRows(hs, a + [raw] + b) == ParseRows(hs, a + b)
  {
    LineRowsAppend(hs, a + [raw], b);
    LineRowsAppend(hs, a, [raw]);
    LineRowsAppend(hs, a, b);
    assert LineRows(hs, [raw]) == [None];
    FileRowsDropped(LineRows(hs, a), LineRows(hs, b));
  }

  /** A blank line is never kept. */
  lemma BlankLineDropped(hs: seq<string>, raw: string)
    requires forall i :: 0 <= i < |raw| ==> IsSpace(raw[i])
    ensures LineRow(hs, raw).None?
    ensures !IsHeaderLine(raw)
  {
    StripAllSpace(raw);
  }

  /** Without a header line the log holds nothing. */
  lemma ParseNoHeader(lines: seq<string>)
    requires forall i :: 0 <= i < |lines| ==> !IsHeaderLine(lines[i])
    ensures Parse(lines) == Empty()
  {
    FirstWhereFirst(lines, IsHeaderLine);
  }

  /** Lines before the first header line are ignored, and every line after
      it is read against it, later header lines included. */
  lemma ParseFirstHeader(pre: seq<string>, header: string, rows: seq<string>)
    requires forall i :: 0 <= i < |pre| ==> !IsHeaderLine(pre[i])
    requires IsHeaderLine(header)
    ensures Parse(pre + [header] + rows) == ParseRows(HeaderFields(Strip(header)), rows)
  {
    var lines := pre + [header] + rows;
    assert lines[|pre|] == header;
    assert lines[|pre| + 1..] == rows;
    assert forall i :: 0 <= i < |pre| ==> lines[i] == pre[i];
    FirstWhereAt(lines, IsHeaderLine, |pre|);
  }
}
