/**
 * The text of one query (src/Query/Query.php). A query refuses empty SQL, ends
 * up naming exactly one output format — either one the SQL already names in a
 * `FORMAT <name>` clause, which is then adopted, or the requested one, appended
 * as a clause — and finally runs through the caller's rewriters in order.
 *
 * The clause is found by the matcher of FormatClauses over the list below.
 */
module Queries {
  import opened Outcomes
  import opened PhpText
  import opened FormatClauses

  // ---------------------------------------------------------------- the format list

  /** The supported formats, in the order the alternation tries them. */
  const FormatNames: seq<string> := [
    "TabSeparatedWithNamesAndTypes", "TabSeparatedWithNames", "TabSeparatedRaw", "TabSeparated",
    "TSVWithNamesAndTypes", "TSVWithNames", "TSVRaw", "TSV", "TSKV",
    "JSONCompact", "JSONEachRow", "BlockTabSeparated", "CSVWithNames", "CSV", "JSON", "Vertical"]

  /** A format name as the list has it, in any letter case. */
  predicate IsListed(f: string) {
    exists j :: 0 <= j < |FormatNames| && EqualsIgnoreCase(f, FormatNames[j])
  }

  /** Every name is a word of at least three letters, none of them an f. */
  lemma NameFacts()
    ensures |FormatNames| == 16
    ensures forall j :: 0 <= j < 16 ==> |FormatNames[j]| >= 3 && IsWord(FormatNames[j])
    ensures forall j :: 0 <= j < 16 ==> forall k :: 0 <= k < |FormatNames[j]| ==> Lower(FormatNames[j][k]) != 'f'
  {
    NameLengths();
    NamesAreWords();
    NamesLackF();
  }

  lemma NameLengths()
    ensures |FormatNames| == 16 && forall j :: 0 <= j < 16 ==> |FormatNames[j]| >= 3
  {
  }

  lemma NamesAreWords()
    ensures forall j :: 0 <= j < 16 ==> IsWord(FormatNames[j])
  {
    WordsFrom0();
    WordsFrom4();
    WordsFrom8();
    WordsFrom12();
  }

  lemma WordsFrom0()
    ensures forall j :: 0 <= j < 4 ==> IsWord(FormatNames[j])
  {
  }

  lemma WordsFrom4()
    ensures forall j :: 4 <= j < 8 ==> IsWord(FormatNames[j])
  {
  }

  lemma WordsFrom8()
    ensures forall j :: 8 <= j < 12 ==> IsWord(FormatNames[j])
  {
  }

  lemma WordsFrom12()
    ensures forall j :: 12 <= j < 16 ==> IsWord(FormatNames[j])
  {
  }

  lemma NamesLackF()
    ensures forall j :: 0 <= j < 16 ==> forall k :: 0 <= k < |FormatNames[j]| ==> Lower(FormatNames[j][k]) != 'f'
  {
    LackFFrom0();
    LackFFrom4();
    LackFFrom8();
    LackFFrom12();
  }

  lemma LackFFrom0()
    ensures forall j :: 0 <= j < 4 ==> forall k :: 0 <= k < |FormatNames[j]| ==> Lower(FormatNames[j][k]) != 'f'
  {
  }

  lemma LackFFrom4()
    ensures forall j :: 4 <= j < 8 ==> forall k :: 0 <= k < |FormatNames[j]| ==> Lower(FormatNames[j][k]) != 'f'
  {
  }

  lemma LackFFrom8()
    ensures forall j :: 8 <= j < 12 ==> forall k :: 0 <= k < |FormatNames[j]| ==> Lower(FormatNames[j][k]) != 'f'
  {
  }

  lemma LackFFrom12()
    ensures forall j :: 12 <= j < 16 ==> forall k :: 0 <= k < |FormatNames[j]| ==> Lower(FormatNames[j][k]) != 'f'
  {
  }

  predicate Differs(a: string, b: string, k: nat) {
    k < |a| && k < |b| && Lower(a[k]) != Lower(b[k])
  }

  /** a is not a prefix of b, ignoring case: it is longer, or they differ early. */
  predicate Distinguished(a: string, b: string) {
    |a| > |b| || Differs(a, b, 0) || Differs(a, b, 1) || Differs(a, b, 2) || Differs(a, b, 3) || Differs(a, b, 4)
  }

  /** No name is a prefix of a name listed after it, so text that holds exactly
      a listed name is never taken for an earlier alternative. */
  lemma NamesDistinguished(i: nat)
    requires i < 16
    ensures forall j :: i < j < 16 ==> Distinguished(FormatNames[i], FormatNames[j])
  {
    if i < 4 {
      DistinguishedBelow4(i);
    } else if i < 8 {
      DistinguishedFrom4(i);
    } else if i < 12 {
      DistinguishedFrom8(i);
    } else {
      DistinguishedFrom12(i);
    }
  }

  lemma DistinguishedBelow4(i: nat)
    requires i < 4
    ensures forall j :: i < j < 16 ==> Distinguished(FormatNames[i], FormatNames[j])
  {
    match i
    case 0 =>
    case 1 =>
    case 2 =>
    case _ =>
  }

  lemma DistinguishedFrom4(i: nat)
    requires 4 <= i < 8
    ensures forall j :: i < j < 16 ==> Distinguished(FormatNames[i], FormatNames[j])
  {
    match i
    case 4 =>
    case 5 =>
    case 6 =>
    case _ =>
  }

  lemma DistinguishedFrom8(i: nat)
    requires 8 <= i < 12
    ensures forall j :: i < j < 16 ==> Distinguished(FormatNames[i], FormatNames[j])
  {
    match i
    case 8 =>
    case 9 =>
    case 10 =>
    case _ =>
  }

  lemma DistinguishedFrom12(i: nat)
    requires 12 <= i < 16
    ensures forall j :: i < j < 16 ==> Distinguished(FormatNames[i], FormatNames[j])
  {
    match i
    case 12 =>
    case 13 =>
    case 14 =>
    case _ =>
  }

  /** The list satisfies what the matcher relies on. */
  lemma FormatNamesLike()
    ensures NamesLike(FormatNames)
  {
    NameFacts();
  }

  lemma FormatNamesPrefixFree()
    ensures PrefixFree(FormatNames)
  {
    forall i, j | 0 <= i < j < |FormatNames|
      ensures !PrefixIgnoreCase(FormatNames[i], FormatNames[j])
    {
      NameLengths();
      NamesDistinguished(i);
      DistinguishedNotPrefix(FormatNames[i], FormatNames[j]);
    }
  }

  lemma DistinguishedNotPrefix(a: string, b: string)
    requires Distinguished(a, b)
    ensures !PrefixIgnoreCase(a, b)
  {
    if |a| <= |b| {
      assert forall k :: 0 <= k < |a| ==> b[..|a|][k] == b[k];
    }
  }

  // ---------------------------------------------------------------- applyFormatQuery

  /** applyFormatQuery with a format set: adopt the format the SQL names, or
      append a clause naming the requested one. Result: (sql, format). */
  function ApplyFormat(sql: string, format: string): (r: (string, string))
    ensures FindClause(FormatNames, sql).None? ==> r == (sql + " FORMAT " + format, format)
    ensures FindClause(FormatNames, sql).Some? ==> r.0 == sql
    ensures FindClause(FormatNames, sql).Some? ==>
      var (p, c) := FindClause(FormatNames, sql).value;
      (forall k :: p + 6 <= k < p + 6 + c.gap ==> sql[k] != '\U{C}') ==>
        r.1 == WrittenName(FormatNames, sql, p, c)
  {
    match FindClause(FormatNames, sql)
    case None => (sql + " FORMAT " + format, format)
    case Some((p, c)) =>
      AdoptedFound(sql, p, c);
      (sql, Adopted(FormatNames, sql, p, c))
  }

  /** The format adopted from the leftmost clause is the name as the SQL writes it. */
  lemma AdoptedFound(sql: string, p: nat, c: Clause)
    requires FindClause(FormatNames, sql) == Some((p, c))
    ensures (forall k :: p + 6 <= k < p + 6 + c.gap ==> sql[k] != '\U{C}') ==>
      Adopted(FormatNames, sql, p, c) == WrittenName(FormatNames, sql, p, c)
  {
    if forall k :: p + 6 <= k < p + 6 + c.gap ==> sql[k] != '\U{C}' {
      FormatNamesLike();
      AdoptedIsWrittenName(FormatNames, sql, p, c);
    }
  }

  /** Appending the clause for a listed format makes it the clause found, and
      the format adopted from it is the format itself. */
  lemma AppendedClauseAdopted(sql: string, f: string, j: nat)
    requires FindClause(FormatNames, sql).None?
    requires j < |FormatNames| && EqualsIgnoreCase(f, FormatNames[j])
    ensures FindClause(FormatNames, sql + " FORMAT " + f) == Some((|sql| + 1, Clause(1, j)))
    ensures ApplyFormat(sql + " FORMAT " + f, f) == (sql + " FORMAT " + f, f)
  {
    FormatNamesLike();
    FormatNamesPrefixFree();
    ListedNameFirst(FormatNames, f, j);
    ClauseAfter(FormatNames, sql, f, j);
    AdoptedAfterKeyword(FormatNames, sql, f, j);
    assert f[..|f|] == f;
  }

  // ---------------------------------------------------------------- examples

  /** SQL that names a format only in a trailing ` FORMAT <rest>` clause keeps
      its text and adopts the name as written there, whatever format was set. */
  lemma AdoptsTrailingName(u: string, rest: string, j: nat, requested: string)
    requires FindClause(FormatNames, u).None?
    requires j < |FormatNames| && OccursAt(rest, FormatNames[j], 0)
    requires forall i :: 0 <= i < j ==> !OccursAt(rest, FormatNames[i], 0)
    ensures ApplyFormat(u + " FORMAT " + rest, requested) == (u + " FORMAT " + rest, rest[..|FormatNames[j]|])
  {
    FormatNamesLike();
    ClauseAfter(FormatNames, u, rest, j);
    AdoptedAfterKeyword(FormatNames, u, rest, j);
  }

  /** `FORMAT JSONStrings` is read as the format JSON: nothing requires the
      name to end where the word does. */
  lemma ExampleNoWordBoundary(u: string, rest: string, requested: string)
    requires FindClause(FormatNames, u).None? && rest == "JSONStrings"
    ensures ApplyFormat(u + " FORMAT " + rest, requested) == (u + " FORMAT " + rest, "JSON")
  {
    JSONStringsStartsWithJSON(rest);
    AdoptsTrailingName(u, rest, 14, requested);
  }

  lemma JSONStringsStartsWithJSON(rest: string)
    requires rest == "JSONStrings"
    ensures |FormatNames| == 16 && OccursAt(rest, FormatNames[14], 0) && rest[..|FormatNames[14]|] == "JSON"
    ensures forall i :: 0 <= i < 14 ==> !OccursAt(rest, FormatNames[i], 0)
  {
    assert rest[0..4] == "JSON";
    forall i | 0 <= i < 14
      ensures !OccursAt(rest, FormatNames[i], 0)
    {
      NotBeforeJSON(rest, i);
    }
  }

  /** No name listed before JSON occurs at the front of text starting "JSONS". */
  lemma NotBeforeJSON(rest: string, i: nat)
    requires |rest| >= 5 && rest[..5] == "JSONS"
    requires i < 14
    ensures !OccursAt(rest, FormatNames[i], 0)
  {
    NameLengths();
    var a := FormatNames[i];
    if |a| <= |rest| {
      var t := rest[0..|a|];
      assert t[0] == rest[..5][0] == 'J';
      if |a| >= 5 {
        assert t[4] == rest[..5][4] == 'S';
      }
      assert Lower(a[0]) != 'j' || (|a| >= 5 && Lower(a[4]) != 's');
    }
  }

  /** The longer alternative wins at one position: TSVWithNamesAndTypes is
      adopted whole rather than as TSVWithNames or TSV. */
  lemma ExampleLongerFirst(u: string, rest: string, requested: string)
    requires FindClause(FormatNames, u).None? && rest == "TSVWithNamesAndTypes"
    ensures ApplyFormat(u + " FORMAT " + rest, requested) == (u + " FORMAT " + rest, rest)
  {
    LongestTSVName(rest);
    FormatNamesPrefixFree();
    ListedNameFirst(FormatNames, rest, 4);
    AdoptsTrailingName(u, rest, 4, requested);
  }

  lemma LongestTSVName(rest: string)
    requires rest == "TSVWithNamesAndTypes"
    ensures |FormatNames| == 16 && EqualsIgnoreCase(rest, FormatNames[4]) && rest[..|FormatNames[4]|] == rest
  {
  }

  // ---------------------------------------------------------------- the rewriters

  /** An entry of the rewriter list: a Degeneration with its text rewrite, or
      anything else, which the query ignores. */
  datatype Rewriter = Degeneration(process: string -> string) | NotDegeneration

  /** The SQL after each Degeneration of rs, in order, rewrote the previous text. */
  function Rewrite(sql: string, rs: seq<Rewriter>): string
    decreases |rs|
  {
    if rs == [] then sql
    else
      var prior := Rewrite(sql, rs[..|rs| - 1]);
      match rs[|rs| - 1]
      case Degeneration(process) => process(prior)
      case NotDegeneration => prior
  }

  /** Rewriting runs left to right: rewriting by a + b is rewriting by a, then by b. */
  lemma {:induction false} RewriteSequential(sql: string, a: seq<Rewriter>, b: seq<Rewriter>)
    ensures Rewrite(sql, a + b) == Rewrite(Rewrite(sql, a), b)
    decreases |b|
  {
    if b == [] {
      assert a + b == a;
    } else {
      assert (a + b)[..|a + b| - 1] == a + b[..|b| - 1];
      RewriteSequential(sql, a, b[..|b| - 1]);
    }
  }

  /** A list without Degenerations leaves the SQL as it is. */
  lemma {:induction false} RewriteSkipsOthers(sql: string, rs: seq<Rewriter>)
    requires forall i :: 0 <= i < |rs| ==> rs[i].NotDegeneration?
    ensures Rewrite(sql, rs) == sql
    decreases |rs|
  {
    if rs != [] {
      RewriteSkipsOthers(sql, rs[..|rs| - 1]);
    }
  }

  // ---------------------------------------------------------------- the query

  /** new Query($sql) fails on SQL that trims to a falsy string. */
  predicate IsEmptyQuery(sql: string) {
    IsFalsyString(Trim(sql))
  }

  /** The SQL rejected as empty is exactly: only trimmable characters, or a
      single "0" surrounded by them. */
  lemma EmptyQueryExactly(sql: string)
    ensures IsEmptyQuery(sql) <==> AllTrimmable(sql) || LoneZero(sql)
  {
    TrimmedEmpty(sql);
    TrimmedZero(sql);
  }

  predicate AllTrimmable(s: string) {
    forall k :: 0 <= k < |s| ==> s[k] in TrimSet
  }

  /** s is "0" with trimmable characters around it. */
  predicate LoneZero(s: string) {
    exists k :: 0 <= k < |s| && s[k] == '0' && forall i :: 0 <= i < |s| && i != k ==> s[i] in TrimSet
  }

  lemma TrimmedEmpty(sql: string)
    ensures Trim(sql) == "" <==> AllTrimmable(sql)
  {
    if AllTrimmable(sql) {
      StripAll(sql, TrimSet);
    }
    if Trim(sql) == "" {
      var l := TrimLeft(sql, TrimSet);
      TrimLeftDrops(sql, TrimSet);
      TrimRightDrops(l, TrimSet);
      forall i | 0 <= i < |sql|
        ensures sql[i] in TrimSet
      {
        if i >= |sql| - |l| {
          assert sql[i] == l[i - (|sql| - |l|)];
        }
      }
    }
  }

  lemma TrimmedZero(sql: string)
    ensures Trim(sql) == "0" <==> LoneZero(sql)
  {
    if LoneZero(sql) {
      LoneZeroTrims(sql);
    }
    if Trim(sql) == "0" {
      TrimsToLoneZero(sql);
    }
  }

  lemma LoneZeroTrims(sql: string)
    requires LoneZero(sql)
    ensures Trim(sql) == "0"
  {
    var k :| 0 <= k < |sql| && sql[k] == '0' && forall i :: 0 <= i < |sql| && i != k ==> sql[i] in TrimSet;
    assert sql[..k] + "0" + sql[k + 1..] == sql;
    StripPadded(sql[..k], "0", sql[k + 1..], TrimSet);
  }

  lemma TrimsToLoneZero(sql: string)
    requires Trim(sql) == "0"
    ensures LoneZero(sql)
  {
    var l := TrimLeft(sql, TrimSet);
    var k := |sql| - |l|;
    TrimLeftDrops(sql, TrimSet);
    TrimRightDrops(l, TrimSet);
    assert TrimRight(l, TrimSet) == "0";
    assert l[0] == '0';
    assert sql[k] == '0';
    forall i | 0 <= i < |sql| && i != k
      ensures sql[i] in TrimSet
    {
      if i > k {
        assert sql[i] == l[i - k];
      }
    }
  }

  datatype QueryError = EmptyQuery

  /** The effect of toSql on (sql, format): the format step when a format is
      set, then the rewriters. */
  function ToSqlEffect(sql: string, format: Option<string>, rs: seq<Rewriter>): (r: (string, Option<string>))
    ensures format.None? ==> r == (Rewrite(sql, rs), None)
    ensures format.Some? ==> r.1.Some?
  {
    if format.None? then (Rewrite(sql, rs), None)
    else
      var (s, f) := ApplyFormat(sql, format.value);
      (Rewrite(s, rs), Some(f))
  }

  /** Calling toSql a second time changes nothing when there are no rewriters
      and the format is unset or a listed one: the clause appended the first
      time is found the second time, so none is added twice. */
  lemma ToSqlIdempotent(sql: string, format: Option<string>, rs: seq<Rewriter>)
    requires forall i :: 0 <= i < |rs| ==> rs[i].NotDegeneration?
    requires format.None? || IsListed(format.value)
    ensures var (s, f) := ToSqlEffect(sql, format, rs); ToSqlEffect(s, f, rs) == (s, f)
  {
    RewriteSkipsOthers(sql, rs);
    if format.Some? {
      var (s, f) := ApplyFormat(sql, format.value);
      RewriteSkipsOthers(s, rs);
      if FindClause(FormatNames, sql).None? {
        var j :| 0 <= j < |FormatNames| && EqualsIgnoreCase(format.value, FormatNames[j]);
        AppendedClauseAdopted(sql, format.value, j);
      }
    }
  }

  class Query {
    var sql: string
    var format: Option<string>
    const degenerations: seq<Rewriter>

    /** The assignments that follow the emptiness check. */
    constructor Init(sql0: string, degenerations0: seq<Rewriter>)
      requires !IsEmptyQuery(sql0)
      ensures sql == sql0 && format.None? && degenerations == degenerations0
    {
      sql := sql0;
      format := None;
      degenerations := degenerations0;
    }

    /** new Query($sql, $degenerations): throws "Empty Query" on empty SQL. */
    static method New(sql0: string, degenerations0: seq<Rewriter>) returns (r: Result<Query, QueryError>)
      ensures r.Failure? <==> IsEmptyQuery(sql0)
      ensures r.Success? ==> fresh(r.value) && r.value.sql == sql0 && r.value.format.None?
      ensures r.Success? ==> r.value.degenerations == degenerations0
    {
      if IsEmptyQuery(sql0) {
        return Failure(EmptyQuery);
      }
      var q := new Query.Init(sql0, degenerations0);
      return Success(q);
    }

    method SetFormat(f: Option<string>)
      modifies this
      ensures format == f && sql == old(sql)
    {
      format := f;
    }

    method GetFormat() returns (f: Option<string>)
      ensures f == format
    {
      f := format;
    }

    /** Adopts the format the SQL names, or appends a clause naming the set
      one; does nothing without a format. */
    method ApplyFormatQuery()
      modifies this
      ensures old(format).None? ==> sql == old(sql) && format == old(format)
      ensures old(format).Some? ==> format.Some? && (sql, format.value) == ApplyFormat(old(sql), old(format).value)
    {
      if format.None? {
        return;
      }
      var found := FindClause(FormatNames, sql);
      if found.Some? {
        var (p, c) := found.value;
        format := Some(Adopted(FormatNames, sql, p, c));
      } else {
        sql := sql + " FORMAT " + format.value;
      }
    }

    /** Builds the final SQL, keeping it as the query's SQL. */
    method ToSql() returns (s: string)
      modifies this
      ensures (sql, format) == ToSqlEffect(old(sql), old(format), degenerations)
      ensures s == sql
    {
      if format.Some? {
        ApplyFormatQuery();
      }
      ghost var start := sql;
      ghost var adopted := format;
      var i := 0;
      while i < |degenerations|
        invariant 0 <= i <= |degenerations|
        invariant sql == Rewrite(start, degenerations[..i])
        invariant format == adopted
      {
        assert degenerations[..i + 1][..i] == degenerations[..i];
        match degenerations[i] {
          case Degeneration(process) => sql := process(sql);
          case NotDegeneration =>
        }
        i := i + 1;
      }
      assert degenerations[..i] == degenerations;
      s := sql;
    }

    /** __toString is toSql. */
    method ToString() returns (s: string)
      modifies this
      ensures (sql, format) == ToSqlEffect(old(sql), old(format), degenerations)
      ensures s == sql
    {
      s := ToSql();
    }
  }
}
