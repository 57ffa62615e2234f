/**
 * What Statement::init() does with a response once it has passed check()
 * (src/Statement.php:203-279), as functions of the decoded body: the six
 * format tests, the copy of the keys a JSON body carries, the four parsing
 * branches and the rule that a result must carry meta.
 */
module StatementDecode {
  import opened Outcomes
  import opened PhpText
  import opened PhpValues
  import opened StatementErrors

  // ---------------------------------------------------------------- the fields init() fills in

  /** The statement's decoded fields: meta, totals, extremes, rows,
      rows_before_limit_at_least, statistics, array_data and _rawData. */
  datatype Fields = Fields(
    meta: Value,
    totals: Value,
    extremes: Value,
    rows: Value,
    rowsBeforeLimit: Value,
    statistics: Value,
    arrayData: Value,
    raw: Value)

  /** The fields of a statement that has not decoded anything. */
  const Initial: Fields := Fields(Null, Null, Null, Null, Bool(false), Null, Arr([]), Null)

  /** The keys init() copies from a decoded body, in the order it copies them. */
  const CopiedKeys: seq<string> := ["meta", "totals", "extremes", "rows", "rows_before_limit_at_least", "statistics"]

  /** $this->{$key} = $v for one of the copied keys. */
  function SetField(f: Fields, key: string, v: Value): Fields {
    if key == "meta" then f.(meta := v)
    else if key == "totals" then f.(totals := v)
    else if key == "extremes" then f.(extremes := v)
    else if key == "rows" then f.(rows := v)
    else if key == "rows_before_limit_at_least" then f.(rowsBeforeLimit := v)
    else if key == "statistics" then f.(statistics := v)
    else f
  }

  /** One round of the foreach: the key, when the body sets it, replaces its field. */
  function CopyOne(f: Fields, payload: Value, key: string): Fields {
    match Isset(payload, key)
    case Some(v) => SetField(f, key, v)
    case None => f
  }

  /** The foreach over keys, one round per key. */
  function CopyKeys(f: Fields, payload: Value, keys: seq<string>): Fields
    decreases |keys|
  {
    if keys == [] then f
    else CopyOne(CopyKeys(f, payload, keys[..|keys| - 1]), payload, keys[|keys| - 1])
  }

  /** The body's entry for key when isset() holds, otherwise what the field held. */
  function Pick(payload: Value, key: string, current: Value): Value {
    match Isset(payload, key)
    case Some(v) => v
    case None => current
  }

  /** Each of the six fields takes the body's entry when it is set and keeps
      its value otherwise; array_data and the raw body are not touched. */
  lemma CopyAll(f: Fields, payload: Value)
    ensures CopyKeys(f, payload, CopiedKeys) == f.(
      meta := Pick(payload, "meta", f.meta),
      totals := Pick(payload, "totals", f.totals),
      extremes := Pick(payload, "extremes", f.extremes),
      rows := Pick(payload, "rows", f.rows),
      rowsBeforeLimit := Pick(payload, "rows_before_limit_at_least", f.rowsBeforeLimit),
      statistics := Pick(payload, "statistics", f.statistics))
  {
    CopyUnrolled(f, payload);
    var f3 := CopyOne(CopyOne(CopyOne(f, payload, "meta"), payload, "totals"), payload, "extremes");
    assert f3 == f.(meta := Pick(payload, "meta", f.meta), totals := Pick(payload, "totals", f.totals),
      extremes := Pick(payload, "extremes", f.extremes));
  }

  /** The foreach over the six keys is six rounds, one per key. */
  lemma CopyUnrolled(f: Fields, payload: Value)
    ensures CopyKeys(f, payload, CopiedKeys) ==
      CopyOne(CopyOne(CopyOne(CopyOne(CopyOne(CopyOne(f, payload, "meta"), payload, "totals"),
        payload, "extremes"), payload, "rows"), payload, "rows_before_limit_at_least"), payload, "statistics")
  {
    var ks := CopiedKeys;
    CopyPrefix(f, payload, ks, 1);
    CopyPrefix(f, payload, ks, 2);
    CopyPrefix(f, payload, ks, 3);
    CopyPrefix(f, payload, ks, 4);
    CopyPrefix(f, payload, ks, 5);
    CopyPrefix(f, payload, ks, 6);
    assert ks[..0] == [];
    assert ks[..6] == ks;
  }

  /** The first n rounds are the first n - 1 rounds and one more. */
  lemma CopyPrefix(f: Fields, payload: Value, keys: seq<string>, n: nat)
    requires 0 < n <= |keys|
    ensures CopyKeys(f, payload, keys[..n]) == CopyOne(CopyKeys(f, payload, keys[..n - 1]), payload, keys[n - 1])
  {
    assert keys[..n][..n - 1] == keys[..n - 1];
  }

  /** A body that is not an array sets none of the six fields. */
  lemma {:induction false} CopyNothing(f: Fields, payload: Value, keys: seq<string>)
    requires !payload.Arr?
    ensures CopyKeys(f, payload, keys) == f
    decreases |keys|
  {
    if keys != [] {
      CopyNothing(f, payload, keys[..|keys| - 1]);
    }
  }

  // ---------------------------------------------------------------- the six format tests

  /** The results of the six case-insensitive tests, in the order init() makes them. */
  datatype FormatTests = FormatTests(
    tsvWithNames: bool,
    tsvWithNamesAndTypes: bool,
    csvWithNames: bool,
    jsonEachRow: bool,
    csv: bool,
    tsv: bool)

  /** The format as text: a null format concatenates and searches as "". */
  function FormatText(format: Option<string>): string {
    if format.Some? then format.value else ""
  }

  const NamesList: string := "TSVWithNames|" + "TabSeparatedWithNames|"
  const NamesAndTypesList: string := "TSVWithNamesAndTypes|" + "TabSeparatedWithNamesAndTypes|"
  const TsvList: string := "TabSeparated|" + "TSV|"

  /** Three tests look the format, followed by `|`, up in a `|`-terminated
      list; three look for a name inside the format. */
  function Tests(format: Option<string>): FormatTests {
    var f := FormatText(format);
    FormatTests(
      ContainsIgnoreCase(NamesList, f + "|"),
      ContainsIgnoreCase(NamesAndTypesList, f + "|"),
      ContainsIgnoreCase(f, "CSVWithNames"),
      ContainsIgnoreCase(f, "JSONEachRow"),
      ContainsIgnoreCase(f, "CSV"),
      ContainsIgnoreCase(TsvList, f + "|"))
  }

  /** A needle longer than the haystack is not in it. */
  lemma LongerNotContained(haystack: string, needle: string)
    requires |needle| > |haystack|
    ensures !ContainsIgnoreCase(haystack, needle)
  {
  }

  /** Every text is in itself. */
  lemma ContainsItself(s: string)
    ensures ContainsIgnoreCase(s, s)
  {
    assert OccursAt(s, s, 0);
  }

  /** A null format, searched as "|", is found in all three lists, so it
      counts as TSVWithNames, TSVWithNamesAndTypes and TabSeparated at once. */
  lemma NullFormatTests()
    ensures Tests(None) == FormatTests(true, true, false, false, false, true)
  {
    BarInList(NamesList, 12);
    BarInList(NamesAndTypesList, 20);
    BarInList(TsvList, 12);
    LongerNotContained("", "CSVWithNames");
    LongerNotContained("", "JSONEachRow");
    LongerNotContained("", "CSV");
  }

  lemma BarInList(list: string, i: nat)
    requires i < |list| && list[i] == '|'
    ensures ContainsIgnoreCase(list, "" + "|")
  {
    assert OccursAt(list, "" + "|", i);
  }

  /** In a `|`-terminated list, an ending of a listed name, in any letter
      case and followed by `|`, is found: the search has no anchor at the
      start of a name. The entry e is the name followed by its `|`. */
  lemma SuffixBeforeBar(list: string, a: string, e: string, b: string, f: string)
    requires list == a + e + b && e != [] && e[|e| - 1] == '|'
    requires |f| < |e| && EqualsIgnoreCase(f, e[|e| - 1 - |f|..|e| - 1])
    ensures ContainsIgnoreCase(list, f + "|")
  {
    var w := f + "|";
    var i := |a| + |e| - 1 - |f|;
    forall k | 0 <= k < |w|
      ensures Lower(list[i + k]) == Lower(w[k])
    {
      if k < |f| {
        assert list[i + k] == e[|e| - 1 - |f|..|e| - 1][k];
      } else {
        assert list[i + k] == e[|e| - 1];
      }
    }
    assert OccursAt(list, w, i);
  }

  /** Any ending of TSVWithNames or TabSeparatedWithNames (the entry e
      without its `|`), in any letter case, passes the TSVWithNames test. */
  lemma NamesSuffixMatches(f: string, e: string)
    requires e == "TSVWithNames|" || e == "TabSeparatedWithNames|"
    requires |f| < |e| && EqualsIgnoreCase(f, e[|e| - 1 - |f|..|e| - 1])
    ensures Tests(Some(f)).tsvWithNames
  {
    if e == "TSVWithNames|" {
      SuffixBeforeBar(NamesList, "", e, "TabSeparatedWithNames|", f);
    } else {
      SuffixBeforeBar(NamesList, "TSVWithNames|", e, "", f);
    }
  }

  /** Any ending of TSVWithNamesAndTypes or TabSeparatedWithNamesAndTypes
      passes the TSVWithNamesAndTypes test. */
  lemma NamesAndTypesSuffixMatches(f: string, e: string)
    requires e == "TSVWithNamesAndTypes|" || e == "TabSeparatedWithNamesAndTypes|"
    requires |f| < |e| && EqualsIgnoreCase(f, e[|e| - 1 - |f|..|e| - 1])
    ensures Tests(Some(f)).tsvWithNamesAndTypes
  {
    if e == "TSVWithNamesAndTypes|" {
      SuffixBeforeBar(NamesAndTypesList, "", e, "TabSeparatedWithNamesAndTypes|", f);
    } else {
      SuffixBeforeBar(NamesAndTypesList, "TSVWithNamesAndTypes|", e, "", f);
    }
  }

  /** Any ending of TabSeparated or TSV passes the TabSeparated test. */
  lemma TsvSuffixMatches(f: string, e: string)
    requires e == "TabSeparated|" || e == "TSV|"
    requires |f| < |e| && EqualsIgnoreCase(f, e[|e| - 1 - |f|..|e| - 1])
    ensures Tests(Some(f)).tsv
  {
    if e == "TabSeparated|" {
      SuffixBeforeBar(TsvList, "", e, "TSV|", f);
    } else {
      SuffixBeforeBar(TsvList, "TabSeparated|", e, "", f);
    }
  }

  /** For instance "names", an ending of TSVWithNames, counts as TSVWithNames. */
  lemma NamesEndingMatches(f: string)
    requires EqualsIgnoreCase(f, "Names")
    ensures Tests(Some(f)).tsvWithNames
  {
    var e := "TSVWithNames|";
    assert e[7..12] == "Names";
    NamesSuffixMatches(f, e);
  }

  /** Neither J nor C, in either case, occurs in the three lists. */
  lemma NamesListLacks()
    ensures forall i :: 0 <= i < |NamesList| ==> Lower(NamesList[i]) != 'j' && Lower(NamesList[i]) != 'c'
  {
    NamesEntryLacks("TSVWithNames|");
    NamesEntryLacks("TabSeparatedWithNames|");
    ConcatLacks("TSVWithNames|", "TabSeparatedWithNames|");
  }

  lemma NamesAndTypesListLacks()
    ensures forall i :: 0 <= i < |NamesAndTypesList| ==>
      Lower(NamesAndTypesList[i]) != 'j' && Lower(NamesAndTypesList[i]) != 'c'
  {
    NamesAndTypesEntryLacks("TSVWithNamesAndTypes|");
    NamesAndTypesEntryLacks("TabSeparatedWithNamesAndTypes|");
    ConcatLacks("TSVWithNamesAndTypes|", "TabSeparatedWithNamesAndTypes|");
  }

  lemma TsvListLacks()
    ensures forall i :: 0 <= i < |TsvList| ==> Lower(TsvList[i]) != 'j' && Lower(TsvList[i]) != 'c'
  {
    TsvEntryLacks("TabSeparated|");
    TsvEntryLacks("TSV|");
    ConcatLacks("TabSeparated|", "TSV|");
  }

  lemma NamesEntryLacks(a: string)
    requires a == "TSVWithNames|" || a == "TabSeparatedWithNames|"
    ensures forall i :: 0 <= i < |a| ==> Lower(a[i]) != 'j' && Lower(a[i]) != 'c'
  {
  }

  lemma NamesAndTypesEntryLacks(a: string)
    requires a == "TSVWithNamesAndTypes|" || a == "TabSeparatedWithNamesAndTypes|"
    ensures forall i :: 0 <= i < |a| ==> Lower(a[i]) != 'j' && Lower(a[i]) != 'c'
  {
  }

  lemma TsvEntryLacks(a: string)
    requires a == "TabSeparated|" || a == "TSV|"
    ensures forall i :: 0 <= i < |a| ==> Lower(a[i]) != 'j' && Lower(a[i]) != 'c'
  {
  }

  lemma ConcatLacks(a: string, b: string)
    requires forall i :: 0 <= i < |a| ==> Lower(a[i]) != 'j' && Lower(a[i]) != 'c'
    requires forall i :: 0 <= i < |b| ==> Lower(b[i]) != 'j' && Lower(b[i]) != 'c'
    ensures forall i :: 0 <= i < |a + b| ==> Lower((a + b)[i]) != 'j' && Lower((a + b)[i]) != 'c'
  {
  }

  /** A format starting with J or C is in none of the three lists. */
  lemma NotInLists(f: string)
    requires f != [] && (f[0] == 'J' || f[0] == 'C')
    ensures !ContainsIgnoreCase(NamesList, f + "|")
    ensures !ContainsIgnoreCase(NamesAndTypesList, f + "|")
    ensures !ContainsIgnoreCase(TsvList, f + "|")
  {
    var w := f + "|";
    assert Lower(w[0]) == 'j' || Lower(w[0]) == 'c';
    NamesListLacks();
    NamesAndTypesListLacks();
    TsvListLacks();
    MissingCharNotContained(NamesList, w, 0);
    MissingCharNotContained(NamesAndTypesList, w, 0);
    MissingCharNotContained(TsvList, w, 0);
  }

  /** JSON passes none of the six tests. */
  lemma JsonFormatTests(f: string)
    requires f == "JSON"
    ensures Tests(Some(f)) == FormatTests(false, false, false, false, false, false)
  {
    NotInLists(f);
    assert !ContainsIgnoreCase(f, "CSVWithNames") by { LongerNotContained(f, "CSVWithNames"); }
    assert !ContainsIgnoreCase(f, "JSONEachRow") by { LongerNotContained(f, "JSONEachRow"); }
    assert !ContainsIgnoreCase(f, "CSV") by { MissingCharNotContained(f, "CSV", 0); }
  }

  /** CSV passes only the CSV test. */
  lemma CsvFormatTests(f: string)
    requires f == "CSV"
    ensures Tests(Some(f)) == FormatTests(false, false, false, false, true, false)
  {
    NotInLists(f);
    assert !ContainsIgnoreCase(f, "CSVWithNames") by { LongerNotContained(f, "CSVWithNames"); }
    assert !ContainsIgnoreCase(f, "JSONEachRow") by { LongerNotContained(f, "JSONEachRow"); }
    assert ContainsIgnoreCase(f, "CSV") by { ContainsItself(f); }
  }

  /** CSVWithNames passes the CSVWithNames and CSV tests only. */
  lemma CsvWithNamesFormatTests(f: string)
    requires f == "CSVWithNames"
    ensures Tests(Some(f)) == FormatTests(false, false, true, false, true, false)
  {
    NotInLists(f);
    assert ContainsIgnoreCase(f, "CSVWithNames") by { ContainsItself(f); }
    assert !ContainsIgnoreCase(f, "JSONEachRow") by { MissingCharNotContained(f, "JSONEachRow", 0); }
    assert OccursAt(f, "CSV", 0);
  }

  /** JSONEachRow passes the JSONEachRow test only. */
  lemma JsonEachRowFormatTests(f: string)
    requires f == "JSONEachRow"
    ensures Tests(Some(f)) == FormatTests(false, false, false, true, false, false)
  {
    NotInLists(f);
    assert !ContainsIgnoreCase(f, "CSVWithNames") by { LongerNotContained(f, "CSVWithNames"); }
    assert ContainsIgnoreCase(f, "JSONEachRow") by { ContainsItself(f); }
    assert !ContainsIgnoreCase(f, "CSV") by { MissingCharNotContained(f, "CSV", 2); }
  }

  // ---------------------------------------------------------------- the branches

  /** One of the three tests that make the first line a header passes. */
  predicate HasHeader(t: FormatTests) {
    t.tsvWithNames || t.tsvWithNamesAndTypes || t.csvWithNames
  }

  /** The parsing branch init() takes, tried in this order. */
  datatype Branch = NamesHeader | EachRow | Lines | DataKey | NoBranch

  /** The branch for a body that is not falsy. The source also asks that the
      body not be empty before JSONEachRow, which a body that is not falsy
      always satisfies. */
  function ChooseBranch(t: FormatTests, payload: Value): (b: Branch)
    ensures b == NamesHeader <==> HasHeader(t)
    ensures b == EachRow <==> !HasHeader(t) && t.jsonEachRow
    ensures b == Lines <==> !HasHeader(t) && !t.jsonEachRow && (t.csv || t.tsv)
    ensures b == DataKey <==> !HasHeader(t) && !t.jsonEachRow && !(t.csv || t.tsv) && Isset(payload, "data").Some?
  {
    if t.tsvWithNames || t.tsvWithNamesAndTypes || t.csvWithNames then NamesHeader
    else if t.jsonEachRow then EachRow
    else if t.csv || t.tsv then Lines
    else if Isset(payload, "data").Some? then DataKey
    else NoBranch
  }

  /** The text trim() sees: scalars convert, an array is a TypeError. */
  function TextOf(v: Value): (r: Option<string>)
    ensures r.None? <==> v.Arr?
    ensures v.Str? ==> r == Some(v.s)
  {
    match v
    case Null => Some("")
    case Bool(b) => Some(if b then "1" else "")
    case Int(i) => Some(IntToString(i))
    case Str(s) => Some(s)
    case Arr(_) => None
  }

  /** explode("\n", trim($body)) */
  function BodyLines(text: string): (lines: seq<string>)
    ensures lines != []
  {
    Split(Trim(text), '\n')
  }

  /** ['name' => trim($v, '"')] */
  function NameColumn(name: string): Value {
    Arr([Entry("name", Str(Strip(name, {'"'})))])
  }

  /** The columns of the names line. */
  function NameColumns(names: seq<string>): (cols: seq<Value>)
    ensures |cols| == |names| && forall i :: 0 <= i < |names| ==> cols[i] == NameColumn(names[i])
  {
    seq(|names|, i requires 0 <= i < |names| => NameColumn(names[i]))
  }

  /** array_map over the name columns and the types line: PHP pads the shorter
      list with null, so a column past the last type gets the type "" and a
      type past the last name becomes a column with a type and no name. */
  function TypedColumns(names: seq<string>, types: seq<string>): (cols: seq<Value>)
    ensures |cols| == if |names| >= |types| then |names| else |types|
    ensures forall i :: 0 <= i < |cols| ==> cols[i] == TypedColumn(names, types, i)
  {
    var n := if |names| >= |types| then |names| else |types|;
    seq(n, i requires 0 <= i < n => TypedColumn(names, types, i))
  }

  /** Column i of array_map over the names and the types. */
  function TypedColumn(names: seq<string>, types: seq<string>, i: nat): Value {
    var t := Entry("type", Str(if i < |types| then Strip(types[i], {'\t'}) else ""));
    if i < |names| then Arr([Entry("name", Str(Strip(names[i], {'"'}))), t]) else Arr([t])
  }

  /** The names-header branch: the first line names the columns, the second
      gives their types for the AndTypes formats, and the remaining lines,
      unsplit, are the rows. The raw body is dropped. */
  function DecodeNames(f: Fields, text: string, t: FormatTests): Fields {
    var lines := BodyLines(text);
    var data := DataLines(lines, t);
    f.(meta := List(HeaderColumns(lines, t)), rows := Int(|data|), arrayData := List(Texts(data)), raw := Null)
  }

  /** The columns the header lines describe: the names of the first line,
      paired with the types of the second for the AndTypes formats. */
  function HeaderColumns(lines: seq<string>, t: FormatTests): seq<Value>
    requires lines != []
  {
    var sep := if t.csvWithNames then ',' else '\t';
    var names := Split(lines[0], sep);
    if t.tsvWithNamesAndTypes
    then TypedColumns(names, Split(if |lines| > 1 then lines[1] else "", sep))
    else NameColumns(names)
  }

  /** The lines after the header: one header line, or two for the AndTypes
      formats when there is a second line. */
  function DataLines(lines: seq<string>, t: FormatTests): seq<string>
    requires lines != []
  {
    lines[if t.tsvWithNamesAndTypes && |lines| > 1 then 2 else 1..]
  }

  /** ['name' => $key] for each key of the first row's object. */
  function KeyColumns(keys: seq<Value>): (cols: seq<Value>)
    ensures |cols| == |keys| && forall i :: 0 <= i < |keys| ==> cols[i] == Arr([Entry("name", keys[i])])
  {
    seq(|keys|, i requires 0 <= i < |keys| => Arr([Entry("name", keys[i])]))
  }

  /** One step of init(): the fields it leaves and the exception it raises, if any. */
  datatype Step = Step(fields: Fields, failure: Option<Failure>)

  /** The JSONEachRow branch: meta from the keys of the first line's object,
      every line a row; a first line that is not an object raises. */
  function DecodeEachRow(f: Fields, text: string, keysOfRow: string -> Option<seq<Value>>): Step {
    var lines := BodyLines(text);
    match keysOfRow(lines[0])
    case None => Step(f.(raw := Null), Some(NotArray))
    case Some(keys) =>
      Step(f.(raw := Null, meta := List(KeyColumns(keys)), arrayData := List(Texts(lines)), rows := Int(|lines|)), None)
  }

  /** The branch itself. keysOfRow is json_decode of a line followed by
      array_keys: the keys of the object, or None when the line does not
      decode to an array. */
  function DecodeBranch(f: Fields, payload: Value, t: FormatTests, keysOfRow: string -> Option<seq<Value>>): Step {
    match ChooseBranch(t, payload)
    case NamesHeader =>
      (match TextOf(payload)
       case None => Step(f, Some(NotText))
       case Some(text) => Step(DecodeNames(f, text, t), None))
    case EachRow =>
      (match TextOf(payload)
       case None => Step(f, Some(NotText))
       case Some(text) => DecodeEachRow(f, text, keysOfRow))
    case Lines =>
      (match TextOf(payload)
       case None => Step(f, Some(NotText))
       case Some(text) =>
         var lines := BodyLines(text);
         Step(f.(raw := Null, arrayData := List(Texts(lines)), rows := Int(|lines|)), None))
    case DataKey => Step(f.(arrayData := Isset(payload, "data").value, raw := Null), None)
    case NoBranch => Step(f, None)
  }

  /** init() after check() on a body that is not falsy: keep the body, copy
      its keys, take the branch, then insist on meta unless the format is CSV
      or TSV. */
  function DecodePayload(f: Fields, payload: Value, format: Option<string>, keysOfRow: string -> Option<seq<Value>>): Step {
    var t := Tests(format);
    var s := DecodeBranch(CopyKeys(f.(raw := payload), payload, CopiedKeys), payload, t, keysOfRow);
    if s.failure.None? && Empty(s.fields.meta) && !(t.csv || t.tsv)
    then Step(s.fields, Some(MissingMeta))
    else s
  }

  /** What a call of init() leaves: its result (false when there was nothing
      to do, true when it decoded, or the exception), whether the statement
      now counts as initialised, and the fields. */
  datatype Outcome = Outcome(result: Result<bool, Failure>, initialised: bool, fields: Fields)

  /** init() on a statement that has not been initialised. */
  function InitEffect(resp: Response, sql: string, format: Option<string>,
                      keysOfRow: string -> Option<seq<Value>>, f: Fields): Outcome
  {
    match CheckOutcome(resp, sql)
    case Some(e) => Outcome(Failure(e), false, f)
    case None =>
      if Empty(resp.payload) then Outcome(Success(false), true, f.(raw := resp.payload))
      else
        var s := DecodePayload(f, resp.payload, format, keysOfRow);
        Outcome(if s.failure.Some? then Failure(s.failure.value) else Success(true), true, s.fields)
  }

  // ---------------------------------------------------------------- what init() promises

  /** check() comes first: without a response, or with an error response,
      init() raises before reading the body and stays uninitialised, so the
      next call checks again. */
  lemma CheckComesFirst(resp: Response, sql: string, format: Option<string>,
                        keysOfRow: string -> Option<seq<Value>>, f: Fields)
    requires !resp.present || IsError(resp)
    ensures var o := InitEffect(resp, sql, format, keysOfRow, f);
      && !o.initialised && o.fields == f
      && o.result == Failure(if resp.present then ErrorOutcome(resp, sql).value else NoResponse)
  {
  }

  /** A falsy body marks the statement initialised and sets no field except
      the raw body; no meta is demanded. */
  lemma EmptyBodyExempt(resp: Response, sql: string, format: Option<string>,
                        keysOfRow: string -> Option<seq<Value>>, f: Fields)
    requires resp.present && !IsError(resp) && Empty(resp.payload)
    ensures InitEffect(resp, sql, format, keysOfRow, f) == Outcome(Success(false), true, f.(raw := resp.payload))
  {
  }

  /** A JSON body without meta raises "Can`t find meta", but the statement
      counts as initialised with the keys it did copy. */
  lemma MissingMetaRaised(resp: Response, sql: string, format: string,
                          keysOfRow: string -> Option<seq<Value>>, f: Fields)
    requires resp.present && !IsError(resp) && resp.payload.Arr? && resp.payload.entries != []
    requires format == "JSON" && Empty(f.meta) && Isset(resp.payload, "meta").None?
    ensures var o := InitEffect(resp, sql, Some(format), keysOfRow, f);
      o.result == Failure(MissingMeta) && o.initialised
      && o.fields.meta == f.meta
      && o.fields.totals == Pick(resp.payload, "totals", f.totals)
  {
    var p := resp.payload;
    JsonFormatTests(format);
    CopyAll(f.(raw := p), p);
  }

  /** For every format, a decode that raises nothing has meta unless the
      format is CSV or TSV, and "Can`t find meta" is raised only with an
      empty meta outside those formats. */
  lemma MetaDemanded(resp: Response, sql: string, format: Option<string>,
                     keysOfRow: string -> Option<seq<Value>>, f: Fields)
    ensures var o := InitEffect(resp, sql, format, keysOfRow, f); var t := Tests(format);
      && (o.result == Success(true) ==> !Empty(o.fields.meta) || t.csv || t.tsv)
      && (o.result == Failure(MissingMeta) ==> Empty(o.fields.meta) && !(t.csv || t.tsv))
  {
  }

  /** A decoded JSON body with meta and data: the keys are copied, the rows
      are the data entry, the raw body is dropped and nothing is raised. */
  lemma JsonBodyDecoded(payload: Value, format: string, keysOfRow: string -> Option<seq<Value>>, f: Fields)
    requires format == "JSON" && payload.Arr?
    requires Isset(payload, "meta").Some? && !Empty(Isset(payload, "meta").value)
    requires Isset(payload, "data").Some?
    ensures var s := DecodePayload(f, payload, Some(format), keysOfRow);
      && s.failure == None
      && s.fields == CopyKeys(f, payload, CopiedKeys).(arrayData := Isset(payload, "data").value, raw := Null)
      && s.fields.meta == Isset(payload, "meta").value
  {
    JsonFormatTests(format);
    CopyAll(f.(raw := payload), payload);
    CopyAll(f, payload);
  }

  /** The names header round trip: a body made of a header naming the
      columns, separated by a comma for CSVWithNames and by a tab otherwise,
      and some lines gives those names as meta, those lines as the rows and
      their number as the count. */
  lemma NamesHeaderRoundTrip(f: Fields, t: FormatTests, sep: char, names: seq<string>, lines: seq<string>, text: string)
    requires !t.tsvWithNamesAndTypes && sep == (if t.csvWithNames then ',' else '\t')
    requires names != [] && forall i :: 0 <= i < |names| ==> sep !in names[i] && '\n' !in names[i]
    requires forall i :: 0 <= i < |names| ==> names[i] == [] || (names[i][0] != '"' && names[i][|names[i]| - 1] != '"')
    requires forall i :: 0 <= i < |lines| ==> '\n' !in lines[i]
    requires text == Join([Join(names, sep)] + lines, '\n') && Trim(text) == text
    ensures DecodeNames(f, text, t) ==
      f.(meta := List(NameColumns(names)), rows := Int(|lines|), arrayData := List(Texts(lines)), raw := Null)
    ensures forall i :: 0 <= i < |names| ==> NameColumns(names)[i] == Arr([Entry("name", Str(names[i]))])
  {
    var all := [Join(names, sep)] + lines;
    JoinedLines(names, sep, lines, text);
    NamesLineColumns(all, t, sep, names);
    assert DataLines(all, t) == lines;
  }

  /** A body joined from a header line and lines splits back into them. */
  lemma JoinedLines(names: seq<string>, sep: char, lines: seq<string>, text: string)
    requires sep != '\n' && names != [] && forall i :: 0 <= i < |names| ==> '\n' !in names[i]
    requires forall i :: 0 <= i < |lines| ==> '\n' !in lines[i]
    requires text == Join([Join(names, sep)] + lines, '\n') && Trim(text) == text
    ensures BodyLines(text) == [Join(names, sep)] + lines
  {
    JoinFree(names, sep, '\n');
    SplitJoin([Join(names, sep)] + lines, '\n');
  }

  /** A names line joined with the format's separator gives one column per name. */
  lemma NamesLineColumns(all: seq<string>, t: FormatTests, sep: char, names: seq<string>)
    requires names != [] && forall i :: 0 <= i < |names| ==> sep !in names[i]
    requires all != [] && all[0] == Join(names, sep)
    requires !t.tsvWithNamesAndTypes && sep == (if t.csvWithNames then ',' else '\t')
    requires forall i :: 0 <= i < |names| ==> names[i] == [] || (names[i][0] != '"' && names[i][|names[i]| - 1] != '"')
    ensures HeaderColumns(all, t) == NameColumns(names)
    ensures forall i :: 0 <= i < |names| ==> NameColumns(names)[i] == Arr([Entry("name", Str(names[i]))])
  {
    SplitJoin(names, sep);
    forall i | 0 <= i < |names|
      ensures Strip(names[i], {'"'}) == names[i]
    {
      StripNothing(names[i], {'"'});
    }
  }

  /** Joining pieces free of a character other than the separator gives text free of it. */
  lemma {:induction false} JoinFree(parts: seq<string>, sep: char, c: char)
    requires parts != [] && c != sep
    requires forall i :: 0 <= i < |parts| ==> c !in parts[i]
    ensures c !in Join(parts, sep)
    decreases |parts|
  {
    if |parts| > 1 {
      JoinFree(parts[1..], sep, c);
    }
  }

  /** Text that neither starts nor ends with a strippable character strips to itself. */
  lemma StripNothing(s: string, cs: set<char>)
    requires s == [] || (s[0] !in cs && s[|s| - 1] !in cs)
    ensures Strip(s, cs) == s
  {
    if s != [] {
      StripPadded([], s, [], cs);
      assert [] + s + [] == s;
    }
  }

  /** With types: the columns pair each name with the type in the same
      position, and the rows start after the second line. */
  lemma NamesAndTypesPaired(f: Fields, t: FormatTests, text: string, lines: seq<string>, i: nat)
    requires t.tsvWithNamesAndTypes
    requires lines == BodyLines(text) && |lines| > 1
    requires i < |Split(lines[0], if t.csvWithNames then ',' else '\t')|
    requires i < |Split(lines[1], if t.csvWithNames then ',' else '\t')|
    ensures var sep := if t.csvWithNames then ',' else '\t';
      DecodeNames(f, text, t).meta == List(TypedColumns(Split(lines[0], sep), Split(lines[1], sep)))
    ensures var sep := if t.csvWithNames then ',' else '\t';
      DecodeNames(f, text, t).meta.entries[i].val ==
        Arr([Entry("name", Str(Strip(Split(lines[0], sep)[i], {'"'}))),
             Entry("type", Str(Strip(Split(lines[1], sep)[i], {'\t'})))])
    ensures DecodeNames(f, text, t).rows == Int(|lines| - 2)
    ensures DecodeNames(f, text, t).arrayData == List(Texts(lines[2..]))
  {
    var sep := if t.csvWithNames then ',' else '\t';
    var cols := TypedColumns(Split(lines[0], sep), Split(lines[1], sep));
    TypedHeader(lines, t, i);
    assert DecodeNames(f, text, t).meta == List(cols);
    assert List(cols).entries[i].val == cols[i];
  }

  /** The header lines of an AndTypes body: typed columns, data from the third line. */
  lemma TypedHeader(lines: seq<string>, t: FormatTests, i: nat)
    requires t.tsvWithNamesAndTypes && |lines| > 1
    requires i < |Split(lines[0], if t.csvWithNames then ',' else '\t')|
    requires i < |Split(lines[1], if t.csvWithNames then ',' else '\t')|
    ensures var sep := if t.csvWithNames then ',' else '\t';
      HeaderColumns(lines, t) == TypedColumns(Split(lines[0], sep), Split(lines[1], sep))
    ensures DataLines(lines, t) == lines[2..]
    ensures var sep := if t.csvWithNames then ',' else '\t';
      var names := Split(lines[0], sep); var types := Split(lines[1], sep);
      TypedColumns(names, types)[i] ==
        Arr([Entry("name", Str(Strip(names[i], {'"'}))),
             Entry("type", Str(Strip(types[i], {'\t'})))])
  {
    var sep := if t.csvWithNames then ',' else '\t';
    var names := Split(lines[0], sep);
    var types := Split(lines[1], sep);
    assert TypedColumns(names, types)[i] == TypedColumn(names, types, i);
  }

  /** JSONEachRow: meta names the first row's keys in order, every line is a
      row, and the count is the number of lines. */
  lemma EachRowDecoded(f: Fields, payload: Value, t: FormatTests, keysOfRow: string -> Option<seq<Value>>,
                       text: string, lines: seq<string>, keys: seq<Value>)
    requires ChooseBranch(t, payload) == EachRow && TextOf(payload) == Some(text)
    requires lines == BodyLines(text) && keysOfRow(lines[0]) == Some(keys)
    ensures DecodeBranch(f, payload, t, keysOfRow).failure.None?
    ensures DecodeBranch(f, payload, t, keysOfRow).fields.meta == List(KeyColumns(keys))
    ensures |DecodeBranch(f, payload, t, keysOfRow).fields.meta.entries| == |keys|
    ensures forall i :: 0 <= i < |keys| ==>
      DecodeBranch(f, payload, t, keysOfRow).fields.meta.entries[i].val == Arr([Entry("name", keys[i])])
    ensures DecodeBranch(f, payload, t, keysOfRow).fields.arrayData == List(Texts(lines))
    ensures DecodeBranch(f, payload, t, keysOfRow).fields.rows == Int(|lines|)
    ensures DecodeBranch(f, payload, t, keysOfRow).fields.raw == Null
  {
    var s := DecodeBranch(f, payload, t, keysOfRow);
    assert s == DecodeEachRow(f, text, keysOfRow);
    assert s.fields == f.(raw := Null, meta := List(KeyColumns(keys)), arrayData := List(Texts(lines)), rows := Int(|lines|));
  }

  /** The branches that split the body into lines keep the count equal to the
      number of rows stored, and drop the raw body. */
  lemma LinesCounted(f: Fields, payload: Value, t: FormatTests, keysOfRow: string -> Option<seq<Value>>)
    requires ChooseBranch(t, payload) in {NamesHeader, EachRow, Lines}
    requires DecodeBranch(f, payload, t, keysOfRow).failure.None?
    ensures var g := DecodeBranch(f, payload, t, keysOfRow).fields;
      g.rows == Int(Count(g.arrayData)) && g.raw == Null
  {
  }

  /** A bare CSV body: every line is a row, no meta is set and none is
      demanded, and the raw body is dropped. */
  lemma CsvBodyDecoded(payload: Value, format: string, keysOfRow: string -> Option<seq<Value>>, f: Fields)
    requires format == "CSV" && payload.Str? && !Empty(payload)
    ensures var s := DecodePayload(f, payload, Some(format), keysOfRow); var lines := BodyLines(payload.s);
      s == Step(f.(raw := Null, arrayData := List(Texts(lines)), rows := Int(|lines|)), None)
  {
    CsvFormatTests(format);
    CopyNothing(f.(raw := payload), payload, CopiedKeys);
  }

  /** Whatever branch is taken, the raw body is kept only when no branch
      applied or the body was not text. */
  lemma RawDropped(f: Fields, payload: Value, format: Option<string>, keysOfRow: string -> Option<seq<Value>>)
    requires !Empty(payload)
    ensures var s := DecodePayload(f, payload, format, keysOfRow);
      s.fields.raw == Null || s.fields.raw == payload
    ensures var s := DecodePayload(f, payload, format, keysOfRow);
      s.fields.raw == payload <==> ChooseBranch(Tests(format), payload) == NoBranch || s.failure == Some(NotText)
  {
    CopyRaw(f.(raw := payload), payload, CopiedKeys);
  }

  /** The copy of the keys leaves the raw body and array_data alone. */
  lemma {:induction false} CopyRaw(f: Fields, payload: Value, keys: seq<string>)
    ensures CopyKeys(f, payload, keys).raw == f.raw
    ensures CopyKeys(f, payload, keys).arrayData == f.arrayData
    decreases |keys|
  {
    if keys != [] {
      CopyRaw(f, payload, keys[..|keys| - 1]);
    }
  }
}
