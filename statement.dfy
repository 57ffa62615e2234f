/**
 * Statement (src/Statement.php): one request and its response, decoded
 * lazily. The first accessor to run calls init(), which checks the response,
 * decodes the body and records that it has done so; later calls read the
 * fields it left. The transport is an input record fixed at construction.
 */
module Statements {
  import opened Outcomes
  import opened PhpText
  import opened PhpValues
  import opened StatementErrors
  import opened StatementDecode
  import StatementTree

  /** The result of an accessor: the exception init() raised, or the value read. */
  function Then(o: Outcome, v: Value): (r: Result<Value, Failure>)
    ensures r.Failure? <==> o.result.Failure?
    ensures r.Failure? ==> r.error == o.result.error
    ensures r.Success? ==> r.value == v
  {
    if o.result.Failure? then Failure(o.result.error) else Success(v)
  }

  /** extremesMin()/extremesMax(): the entry of extremes, or [] when it is
      missing or empty (or extremes is not an array). */
  function ExtremesPart(extremes: Value, which: string): (r: Value)
    ensures extremes.Arr? && Get(extremes.entries, which).Some? && !Empty(Get(extremes.entries, which).value) ==>
      r == Get(extremes.entries, which).value
    ensures !(extremes.Arr? && Get(extremes.entries, which).Some? && !Empty(Get(extremes.entries, which).value)) ==>
      r == Arr([])
  {
    if !extremes.Arr? then Arr([])
    else
      match Get(extremes.entries, which)
      case Some(x) => if Empty(x) then Arr([]) else x
      case None => Arr([])
  }

  /** statistics($key): all statistics when the key is false or falsy;
      otherwise the entry for the key, or null when statistics is not an
      array or has no such entry. */
  function StatisticsOf(stats: Value, key: Option<string>): (r: Value)
    ensures key.None? || IsFalsyString(key.value) ==> r == stats
    ensures key.Some? && !IsFalsyString(key.value) && !stats.Arr? ==> r == Null
    ensures key.Some? && !IsFalsyString(key.value) && stats.Arr? ==>
      r == match Get(stats.entries, key.value) case Some(x) => x case None => Null
  {
    if key.None? || IsFalsyString(key.value) then stats
    else
      match Isset(stats, key.value)
      case Some(x) => x
      case None => Null
  }

  /** fetchOne($key): the first row, or its entry for a non-empty key; null
      when there is no first row or the row has no such entry. A row, or the
      rows themselves, may be a string: isset() and the read then take a
      character at an integer offset. */
  function FetchOneOf(arrayData: Value, key: string): (r: Value)
    ensures IssetDim(arrayData, "0").None? ==> r == Null
    ensures IssetDim(arrayData, "0").Some? && IsFalsyString(key) ==> r == IssetDim(arrayData, "0").value
    ensures IssetDim(arrayData, "0").Some? && !IsFalsyString(key) ==>
      r == match IssetDim(IssetDim(arrayData, "0").value, key) case Some(x) => x case None => Null
  {
    match IssetDim(arrayData, "0")
    case None => Null
    case Some(first) =>
      if IsFalsyString(key) then first
      else
        match IssetDim(first, key)
        case Some(x) => x
        case None => Null
  }

  /** fetchOne() on the rows the line branches store is the first line, or
      null when there is none. */
  lemma FetchOneOfLines(lines: seq<string>)
    ensures FetchOneOf(List(Texts(lines)), "") == if lines == [] then Null else Str(lines[0])
  {
    ListFirst(Texts(lines));
  }

  /** fetchOne("i") on those rows is the i-th character of the first line,
      or null past its end, as a string offset of the line. */
  lemma FetchOneOfLineOffset(lines: seq<string>, i: nat)
    requires lines != [] && 1 <= i <= LongMax
    ensures FetchOneOf(List(Texts(lines)), NatToString(i)) ==
      if i < |lines[0]| then Str([lines[0][i]]) else Null
  {
    ListFirst(Texts(lines));
    OffsetFromStart(lines[0], i);
    assert DigitsValue("0") == 0;
  }

  /** fetchOne() on rows that are a non-empty string is its first character. */
  lemma FetchOneOfString(s: string)
    requires s != []
    ensures FetchOneOf(Str(s), "") == Str([s[0]])
  {
    OffsetFromStart(s, 0);
  }

  /** fetchOne($key) on decoded JSON rows is the first row's entry for key. */
  lemma FetchOneOfRows(rows: seq<Value>, key: string)
    requires rows != [] && rows[0].Arr? && !IsFalsyString(key)
    requires Get(rows[0].entries, key).Some? && Get(rows[0].entries, key).value != Null
    ensures FetchOneOf(List(rows), key) == Get(rows[0].entries, key).value
  {
    ListFirst(rows);
  }

  /** A failed check() leaves the statement as it was, so calling init()
      again checks again and raises the same exception. */
  lemma RetryRaisesAgain(resp: Response, sql: string, format: Option<string>,
                         keysOfRow: string -> Option<seq<Value>>, f: Fields)
    ensures var o := InitEffect(resp, sql, format, keysOfRow, f);
      !o.initialised ==> o.fields == f && o.result.Failure? && InitEffect(resp, sql, format, keysOfRow, o.fields) == o
  {
  }

  /** After "Can`t find meta" the statement counts as initialised, so the
      next accessor returns the fields without raising. */
  lemma MissingMetaOnce(resp: Response, sql: string, format: Option<string>,
                        keysOfRow: string -> Option<seq<Value>>, f: Fields)
    ensures var o := InitEffect(resp, sql, format, keysOfRow, f);
      o.result == Failure(MissingMeta) ==> o.initialised
  {
  }

  class Statement {
    /** The transport's answer to the request. */
    const response: Response
    /** The format the request asked for, as the query settled it. */
    const format: Option<string>
    const sql: string
    /** json_decode($line, true) followed by array_keys: the keys of the
        decoded object, or None when it does not decode to an array. */
    const keysOfRow: string -> Option<seq<Value>>

    /** _init */
    var initialised: bool
    var meta: Value
    var totals: Value
    var extremes: Value
    var rows: Value
    var rowsBeforeLimit: Value
    var statistics: Value
    var arrayData: Value
    /** _rawData; unset() leaves null. */
    var raw: Value

    function Decoded(): Fields
      reads this
    {
      Fields(meta, totals, extremes, rows, rowsBeforeLimit, statistics, arrayData, raw)
    }

    /** What a call of init() made now would leave: nothing new once the
        statement is initialised. */
    function Pending(): Outcome
      reads this
    {
      if initialised then Outcome(Success(false), true, Decoded())
      else InitEffect(response, sql, format, keysOfRow, Decoded())
    }

    constructor (response: Response, format: Option<string>, sql: string, keysOfRow: string -> Option<seq<Value>>)
      ensures this.response == response && this.format == format && this.sql == sql && this.keysOfRow == keysOfRow
      ensures !initialised && Decoded() == Initial
    {
      this.response := response;
      this.format := format;
      this.sql := sql;
      this.keysOfRow := keysOfRow;
      initialised := false;
      meta, totals, extremes, rows := Null, Null, Null, Null;
      rowsBeforeLimit, statistics, arrayData, raw := Bool(false), Null, Arr([]), Null;
    }

    /** $this->{$key} = $v */
    method Assign(key: string, v: Value)
      modifies this
      ensures Decoded() == SetField(old(Decoded()), key, v)
      ensures initialised == old(initialised)
    {
      if key == "meta" {
        meta := v;
      } else if key == "totals" {
        totals := v;
      } else if key == "extremes" {
        extremes := v;
      } else if key == "rows" {
        rows := v;
      } else if key == "rows_before_limit_at_least" {
        rowsBeforeLimit := v;
      } else if key == "statistics" {
        statistics := v;
      }
    }

    /** init(): a second call does nothing; otherwise check(), keep the
        body, and decode it unless it is falsy. */
    method Init() returns (r: Result<bool, Failure>)
      modifies this
      ensures Outcome(r, initialised, Decoded()) == old(Pending())
    {
      if initialised {
        return Success(false);
      }
      var failed := CheckOutcome(response, sql);
      if failed.Some? {
        return Failure(failed.value);
      }
      var payload := response.payload;
      raw := payload;
      initialised := true;
      if Empty(payload) {
        return Success(false);
      }
      CopyKeysIn(payload);
      var t := Tests(format);
      var failure := DecodeBranchIn(payload, t);
      if failure.Some? {
        return Failure(failure.value);
      }
      if Empty(meta) && !(t.csv || t.tsv) {
        return Failure(MissingMeta);
      }
      return Success(true);
    }

    /** The foreach over the keys a decoded body may set. */
    method CopyKeysIn(payload: Value)
      modifies this
      ensures Decoded() == CopyKeys(old(Decoded()), payload, CopiedKeys)
      ensures initialised == old(initialised)
    {
      ghost var start := Decoded();
      for i := 0 to |CopiedKeys|
        invariant Decoded() == CopyKeys(start, payload, CopiedKeys[..i])
        invariant initialised == old(initialised)
      {
        assert CopiedKeys[..i + 1][..i] == CopiedKeys[..i];
        var key := CopiedKeys[i];
        var v := Isset(payload, key);
        if v.Some? {
          Assign(key, v.value);
        }
      }
      assert CopiedKeys[..|CopiedKeys|] == CopiedKeys;
    }

    /** The parsing branch the format and the body select. The line
        formats trim the body as text, which an array body is not. */
    method DecodeBranchIn(payload: Value, t: FormatTests) returns (failure: Option<Failure>)
      modifies this
      ensures Step(Decoded(), failure) == DecodeBranch(old(Decoded()), payload, t, keysOfRow)
      ensures initialised == old(initialised)
    {
      var branch := ChooseBranch(t, payload);
      match branch
      case DataKey =>
        arrayData := Isset(payload, "data").value;
        raw := Null;
        failure := None;
      case NoBranch =>
        failure := None;
      case NamesHeader =>
        var text := TextOf(payload);
        if text.None? {
          return Some(NotText);
        }
        DecodeNamesIn(text.value, t);
        failure := None;
      case EachRow =>
        var text := TextOf(payload);
        if text.None? {
          return Some(NotText);
        }
        failure := DecodeEachRowIn(text.value);
      case Lines =>
        var text := TextOf(payload);
        if text.None? {
          return Some(NotText);
        }
        DecodeLinesIn(text.value);
        failure := None;
    }

    /** The names-header formats: meta from the first line (and the types
        from the second), the other lines as rows. */
    method DecodeNamesIn(text: string, t: FormatTests)
      modifies this
      ensures Decoded() == DecodeNames(old(Decoded()), text, t)
      ensures initialised == old(initialised)
    {
      var lines := BodyLines(text);
      var sep := if t.csvWithNames then ',' else '\t';
      var names := Split(lines[0], sep);
      var columns := NameColumns(names);
      var skip := 1;
      if t.tsvWithNamesAndTypes {
        columns := TypedColumns(names, Split(if |lines| > 1 then lines[1] else "", sep));
        if |lines| > 1 {
          skip := 2;
        }
      }
      var data := lines[skip..];
      assert columns == HeaderColumns(lines, t) && data == DataLines(lines, t);
      StoreRows(columns, data);
    }

    /** Stores the columns as meta and the lines as the rows, and drops the raw body. */
    method StoreRows(columns: seq<Value>, data: seq<string>)
      modifies this
      ensures Decoded() == old(Decoded()).(meta := List(columns), rows := Int(|data|),
        arrayData := List(Texts(data)), raw := Null)
      ensures initialised == old(initialised)
    {
      meta, rows, arrayData, raw := List(columns), Int(|data|), List(Texts(data)), Null;
    }

    /** JSONEachRow: meta from the keys of the first line's object, every
        line a row. */
    method DecodeEachRowIn(text: string) returns (failure: Option<Failure>)
      modifies this
      ensures Step(Decoded(), failure) == DecodeEachRow(old(Decoded()), text, keysOfRow)
      ensures initialised == old(initialised)
    {
      ghost var f := Decoded();
      var lines := BodyLines(text);
      raw := Null;
      assert Decoded() == f.(raw := Null);
      var keys := keysOfRow(lines[0]);
      if keys.None? {
        assert DecodeEachRow(f, text, keysOfRow) == Step(f.(raw := Null), Some(NotArray));
        return Some(NotArray);
      }
      meta, arrayData, rows := List(KeyColumns(keys.value)), List(Texts(lines)), Int(|lines|);
      assert Decoded() == f.(raw := Null, meta := List(KeyColumns(keys.value)), arrayData := List(Texts(lines)), rows := Int(|lines|));
      return None;
    }

    /** CSV and TSV: every line a row, no meta. */
    method DecodeLinesIn(text: string)
      modifies this
      ensures var lines := BodyLines(text);
        Decoded() == old(Decoded()).(raw := Null, arrayData := List(Texts(lines)), rows := Int(|lines|))
      ensures initialised == old(initialised)
    {
      var lines := BodyLines(text);
      ghost var f := Decoded();
      raw := Null;
      assert Decoded() == f.(raw := Null);
      arrayData := List(Texts(lines));
      assert Decoded() == f.(raw := Null, arrayData := List(Texts(lines)));
      rows := Int(|lines|);
    }

    /** count() */
    method Count() returns (r: Result<Value, Failure>)
      modifies this
      ensures Outcome(old(Pending()).result, initialised, Decoded()) == old(Pending())
      ensures r == Then(old(Pending()), rows)
    {
      var i := Init();
      if i.Failure? {
        return Failure(i.error);
      }
      return Success(rows);
    }

    /** countAll(): rows_before_limit_at_least */
    method CountAll() returns (r: Result<Value, Failure>)
      modifies this
      ensures Outcome(old(Pending()).result, initialised, Decoded()) == old(Pending())
      ensures r == Then(old(Pending()), rowsBeforeLimit)
    {
      var i := Init();
      if i.Failure? {
        return Failure(i.error);
      }
      return Success(rowsBeforeLimit);
    }

    /** getMeta() */
    method GetMeta() returns (r: Result<Value, Failure>)
      modifies this
      ensures Outcome(old(Pending()).result, initialised, Decoded()) == old(Pending())
      ensures r == Then(old(Pending()), meta)
    {
      var i := Init();
      if i.Failure? {
        return Failure(i.error);
      }
      return Success(meta);
    }

    /** rows(): array_data */
    method Rows() returns (r: Result<Value, Failure>)
      modifies this
      ensures Outcome(old(Pending()).result, initialised, Decoded()) == old(Pending())
      ensures r == Then(old(Pending()), arrayData)
    {
      var i := Init();
      if i.Failure? {
        return Failure(i.error);
      }
      return Success(arrayData);
    }

    /** totals() */
    method Totals() returns (r: Result<Value, Failure>)
      modifies this
      ensures Outcome(old(Pending()).result, initialised, Decoded()) == old(Pending())
      ensures r == Then(old(Pending()), totals)
    {
      var i := Init();
      if i.Failure? {
        return Failure(i.error);
      }
      return Success(totals);
    }

    /** extremes() */
    method Extremes() returns (r: Result<Value, Failure>)
      modifies this
      ensures Outcome(old(Pending()).result, initialised, Decoded()) == old(Pending())
      ensures r == Then(old(Pending()), extremes)
    {
      var i := Init();
      if i.Failure? {
        return Failure(i.error);
      }
      return Success(extremes);
    }

    /** extremesMin() */
    method ExtremesMin() returns (r: Result<Value, Failure>)
      modifies this
      ensures Outcome(old(Pending()).result, initialised, Decoded()) == old(Pending())
      ensures r == Then(old(Pending()), ExtremesPart(extremes, "min"))
    {
      var i := Init();
      if i.Failure? {
        return Failure(i.error);
      }
      return Success(ExtremesPart(extremes, "min"));
    }

    /** extremesMax() */
    method ExtremesMax() returns (r: Result<Value, Failure>)
      modifies this
      ensures Outcome(old(Pending()).result, initialised, Decoded()) == old(Pending())
      ensures r == Then(old(Pending()), ExtremesPart(extremes, "max"))
    {
      var i := Init();
      if i.Failure? {
        return Failure(i.error);
      }
      return Success(ExtremesPart(extremes, "max"));
    }

    /** statistics($key) */
    method Statistics(key: Option<string>) returns (r: Result<Value, Failure>)
      modifies this
      ensures Outcome(old(Pending()).result, initialised, Decoded()) == old(Pending())
      ensures r == Then(old(Pending()), StatisticsOf(statistics, key))
    {
      var i := Init();
      if i.Failure? {
        return Failure(i.error);
      }
      return Success(StatisticsOf(statistics, key));
    }

    /** fetchOne($key) */
    method FetchOne(key: string) returns (r: Result<Value, Failure>)
      modifies this
      ensures Outcome(old(Pending()).result, initialised, Decoded()) == old(Pending())
      ensures r == Then(old(Pending()), FetchOneOf(arrayData, key))
    {
      var i := Init();
      if i.Failure? {
        return Failure(i.error);
      }
      return Success(FetchOneOf(arrayData, key));
    }

    /** rawData(): the body init() kept, or, before init(), the body read
        after check(). It does not initialise the statement. */
    method RawData() returns (r: Result<Value, Failure>)
      ensures initialised ==> r == Success(raw)
      ensures !initialised && CheckOutcome(response, sql).Some? ==> r == Failure(CheckOutcome(response, sql).value)
      ensures !initialised && CheckOutcome(response, sql).None? ==> r == Success(response.payload)
    {
      if initialised {
        return Success(raw);
      }
      var failed := CheckOutcome(response, sql);
      if failed.Some? {
        return Failure(failed.value);
      }
      return Success(response.payload);
    }

    /** getFormat(): the format of the request, without initialising. */
    method GetFormat() returns (f: Option<string>)
      ensures f == format
    {
      return format;
    }

    /** rowsAsTree($path) */
    method RowsAsTree(path: StatementTree.Path) returns (r: Result<Value, Failure>)
      modifies this
      ensures Outcome(old(Pending()).result, initialised, Decoded()) == old(Pending())
      ensures old(Pending()).result.Failure? ==> r == Failure(old(Pending()).result.error)
      ensures old(Pending()).result.Success? ==>
        match StatementTree.Forest(Values(arrayData), path)
        case Success(out) => r == Success(Arr(out))
        case Failure(e) => r == Failure(e)
    {
      var i := Init();
      if i.Failure? {
        return Failure(i.error);
      }
      r := StatementTree.RowsAsTree(arrayData, path);
    }
  }
}
