/**
 * Statement::rowsAsTree and Statement::array_to_tree
 * (src/Statement.php:444-455, src/Statement.php:528-561): each row is nested
 * under the values it holds for a list of keys, and the per-row trees are
 * merged with array_replace_recursive, the rows seen first winning.
 */
module StatementTree {
  import opened Outcomes
  import opened PhpText
  import opened PhpValues
  import opened StatementErrors

  /** The path argument: an array of keys, or a string of keys joined by dots
      (a null path explodes as the empty string). */
  datatype Path = KeyList(keys: seq<Value>) | Dotted(text: string)

  /** The keys array_to_tree pops. */
  function PathKeys(path: Path): seq<Value> {
    match path
    case KeyList(ks) => ks
    case Dotted(text) => Texts(Split(text, '.'))
  }

  /** The key one level of the tree gets for a key of the path: the row's
      value for that key when it is set, the key itself otherwise. An array
      used as a key, either way, is an illegal offset. */
  function LevelKey(row: Value, key: Value): Option<string> {
    match KeyOf(key)
    case None => None
    case Some(k) =>
      var val := match Isset(row, k) case Some(x) => x case None => key;
      KeyOf(val)
  }

  /** keys, first key outermost, wrapped around inner. */
  function NestAround(row: Value, keys: seq<Value>, inner: Value): (r: Result<Value, Failure>)
    ensures r.Failure? ==> r.error == IllegalOffset
    ensures r.Success? && keys != [] ==> r.value.Arr? && |r.value.entries| == 1
    decreases |keys|
  {
    if keys == [] then Success(inner)
    else
      match LevelKey(row, keys[0])
      case None => Failure(IllegalOffset)
      case Some(k) =>
        match NestAround(row, keys[1..], inner)
        case Failure(e) => Failure(e)
        case Success(t) => Success(Arr([Entry(k, t)]))
  }

  /** array_to_tree($row, $path): the row nested under its keys, or [] when
      there are no keys and the row is not an array. */
  function TreeOf(row: Value, path: Path): (r: Result<Value, Failure>)
    ensures r.Success? ==> r.value.Arr?
    ensures r.Failure? ==> r.error == IllegalOffset
  {
    match NestAround(row, PathKeys(path), row)
    case Failure(e) => Failure(e)
    case Success(t) => if t.Arr? then Success(t) else Success(Arr([]))
  }

  /** Popping the last key wraps it innermost. */
  lemma {:induction false} NestAroundLast(row: Value, keys: seq<Value>, inner: Value)
    requires keys != []
    ensures NestAround(row, keys, inner) ==
      match LevelKey(row, keys[|keys| - 1])
      case None => Failure(IllegalOffset)
      case Some(k) => NestAround(row, keys[..|keys| - 1], Arr([Entry(k, inner)]))
    decreases |keys|
  {
    if |keys| > 1 {
      NestAroundLast(row, keys[1..], inner);
      assert keys[1..][..|keys| - 2] == keys[..|keys| - 1][1..];
      assert keys[1..][|keys| - 2] == keys[|keys| - 1];
    }
  }

  /** array_to_tree: pops the keys from the right, wrapping the tree one level
      per key. */
  method ArrayToTree(row: Value, path: Path) returns (r: Result<Value, Failure>)
    ensures r == TreeOf(row, path)
  {
    var keys := PathKeys(path);
    var tree := row;
    while |keys| > 0
      invariant NestAround(row, keys, tree) == NestAround(row, PathKeys(path), row)
      decreases |keys|
    {
      var key := keys[|keys| - 1];
      NestAroundLast(row, keys, tree);
      keys := keys[..|keys| - 1];
      match LevelKey(row, key) {
        case None =>
          return Failure(IllegalOffset);
        case Some(k) =>
          tree := Arr([Entry(k, tree)]);
      }
    }
    if !tree.Arr? {
      return Success(Arr([]));
    }
    return Success(tree);
  }

  /** The row sits in its own tree at the path of the level keys. */
  lemma {:induction false} RowAtItsPath(row: Value, keys: seq<Value>, inner: Value, p: seq<string>)
    requires |p| == |keys| && forall i :: 0 <= i < |keys| ==> LevelKey(row, keys[i]) == Some(p[i])
    ensures NestAround(row, keys, inner).Success?
    ensures At(NestAround(row, keys, inner).value, p) == Some(inner)
    decreases |keys|
  {
    if keys != [] {
      RowAtItsPath(row, keys[1..], inner, p[1..]);
      var t := NestAround(row, keys[1..], inner).value;
      assert Get([Entry(p[0], t)], p[0]) == Some(t) by {
        GetFirst([Entry(p[0], t)], p[0], 0);
      }
    }
  }

  /** A dotted path whose keys hold no dot uses exactly those keys. */
  lemma DottedKeys(names: seq<string>)
    requires names != [] && forall i :: 0 <= i < |names| ==> '.' !in names[i]
    ensures PathKeys(Dotted(Join(names, '.'))) == Texts(names)
  {
    SplitJoin(names, '.');
  }

  /** Each level of the tree of an array row is the row's value for that
      key when it is a text or integer, and the key itself when the row does
      not set it. */
  lemma LevelKeyChoice(row: Value, key: string)
    requires row.Arr?
    ensures Isset(row, key).None? ==> LevelKey(row, Str(key)) == Some(key)
    ensures Isset(row, key).Some? && Isset(row, key).value.Str? ==>
      LevelKey(row, Str(key)) == Some(Isset(row, key).value.s)
    ensures Isset(row, key).Some? && Isset(row, key).value.Int? ==>
      LevelKey(row, Str(key)) == Some(IntToString(Isset(row, key).value.i))
    ensures Isset(row, key).Some? && Isset(row, key).value.Arr? ==> LevelKey(row, Str(key)) == None
  {
  }

  // ---------------------------------------------------------------- rowsAsTree

  /** The entries of each row's tree, in order. */
  function Trees(rows: seq<Value>, path: Path): (ts: seq<Result<seq<Entry>, Failure>>)
    ensures |ts| == |rows|
    ensures forall i :: 0 <= i < |rows| ==> ts[i] == TreeEntries(TreeOf(rows[i], path))
  {
    seq(|rows|, i requires 0 <= i < |rows| => TreeEntries(TreeOf(rows[i], path)))
  }

  /** A tree's top-level entries, or its failure. */
  function TreeEntries(t: Result<Value, Failure>): Result<seq<Entry>, Failure> {
    match t
    case Success(v) => Success(if v.Arr? then v.entries else [])
    case Failure(e) => Failure(e)
  }

  /** The merge of the trees, in order, each new tree being the base that
      the trees so far replace into; the first tree that fails stops it. */
  function Merge(ts: seq<Result<seq<Entry>, Failure>>): Result<seq<Entry>, Failure>
    decreases |ts|
  {
    if ts == [] then Success([])
    else
      match Merge(ts[..|ts| - 1])
      case Failure(e) => Failure(e)
      case Success(out) =>
        match ts[|ts| - 1]
        case Failure(e) => Failure(e)
        case Success(d) => Success(ReplaceRecursive(d, out))
  }

  /** What rowsAsTree returns for the rows: the merge of their trees. */
  function Forest(rows: seq<Value>, path: Path): Result<seq<Entry>, Failure> {
    Merge(Trees(rows, path))
  }

  /** rowsAsTree over the rows init() stored: a foreach over array_data. */
  method RowsAsTree(arrayData: Value, path: Path) returns (r: Result<Value, Failure>)
    ensures r.Success? <==> Forest(Values(arrayData), path).Success?
    ensures r.Success? ==> r.value == Arr(Forest(Values(arrayData), path).value)
    ensures r.Failure? ==> r == Failure(IllegalOffset) && Forest(Values(arrayData), path) == Failure(r.error)
  {
    var rows := Values(arrayData);
    ghost var ts := Trees(rows, path);
    var out: seq<Entry> := [];
    for i := 0 to |rows|
      invariant Merge(ts[..i]) == Success(out)
    {
      var d := ArrayToTree(rows[i], path);
      if d.Failure? {
        MergeStopsAt(ts, i, out, d.error);
        return Failure(d.error);
      }
      MergeGoesOn(ts, i, out, d.value.entries);
      out := ReplaceRecursive(d.value.entries, out);
    }
    assert ts[..|rows|] == ts;
    return Success(Arr(out));
  }

  /** A tree that succeeds is laid over the merge of those before it. */
  lemma MergeGoesOn(ts: seq<Result<seq<Entry>, Failure>>, i: nat, out: seq<Entry>, d: seq<Entry>)
    requires i < |ts| && Merge(ts[..i]) == Success(out) && ts[i] == Success(d)
    ensures Merge(ts[..i + 1]) == Success(ReplaceRecursive(d, out))
  {
    assert ts[..i + 1][..i] == ts[..i];
  }

  /** A tree that fails makes the whole merge fail with its error. */
  lemma MergeStopsAt(ts: seq<Result<seq<Entry>, Failure>>, i: nat, out: seq<Entry>, e: Failure)
    requires i < |ts| && Merge(ts[..i]) == Success(out) && ts[i] == Failure(e)
    ensures Merge(ts) == Failure(e)
  {
    assert ts[..i + 1][..i] == ts[..i];
    assert Merge(ts[..i + 1]) == Failure(e);
    MergeFailsOnward(ts, i + 1);
  }

  /** Once the merge of the first trees fails, the merge of all of them fails
      the same way. */
  lemma {:induction false} MergeFailsOnward(ts: seq<Result<seq<Entry>, Failure>>, i: nat)
    requires i <= |ts| && Merge(ts[..i]).Failure?
    ensures Merge(ts) == Merge(ts[..i])
    decreases |ts| - i
  {
    if i < |ts| {
      assert ts[..i + 1][..i] == ts[..i];
      MergeFailsOnward(ts, i + 1);
    } else {
      assert ts[..i] == ts;
    }
  }

  /** A merge that succeeds had every tree succeed. */
  lemma {:induction false} MergeTreesSucceed(ts: seq<Result<seq<Entry>, Failure>>)
    requires Merge(ts).Success?
    ensures forall i :: 0 <= i < |ts| ==> ts[i].Success?
    decreases |ts|
  {
    if ts != [] {
      var front := ts[..|ts| - 1];
      assert Merge(front).Success? && ts[|ts| - 1].Success?;
      MergeTreesSucceed(front);
      assert forall i :: 0 <= i < |front| ==> front[i] == ts[i];
    }
  }

  /** Some tree has k as a top-level key. */
  predicate SomeTreeHas(ts: seq<Result<seq<Entry>, Failure>>, k: string) {
    exists i :: 0 <= i < |ts| && ts[i].Success? && k in Keys(ts[i].value)
  }

  /** The top-level keys of the merge are those of the trees. */
  lemma {:induction false} MergeKeys(ts: seq<Result<seq<Entry>, Failure>>, k: string)
    requires Merge(ts).Success?
    ensures k in Keys(Merge(ts).value) <==> SomeTreeHas(ts, k)
    decreases |ts|
  {
    if ts != [] {
      var front := ts[..|ts| - 1];
      MergeKeys(front, k);
      ReplaceKeys(ts[|ts| - 1].value, Merge(front).value, k);
      SomeTreeSplit(ts, k);
    }
  }

  lemma SomeTreeSplit(ts: seq<Result<seq<Entry>, Failure>>, k: string)
    requires ts != [] && ts[|ts| - 1].Success?
    ensures SomeTreeHas(ts, k) <==> SomeTreeHas(ts[..|ts| - 1], k) || k in Keys(ts[|ts| - 1].value)
  {
    var front := ts[..|ts| - 1];
    if SomeTreeHas(ts, k) {
      var i :| 0 <= i < |ts| && ts[i].Success? && k in Keys(ts[i].value);
      if i < |front| {
        assert front[i] == ts[i];
      }
    }
    if SomeTreeHas(front, k) {
      var i :| 0 <= i < |front| && front[i].Success? && k in Keys(front[i].value);
      assert front[i] == ts[i];
    }
  }

  /** The trees of well-formed rows are well formed. */
  lemma {:induction false} NestWellFormed(row: Value, keys: seq<Value>, inner: Value)
    requires WellFormed(inner) && NestAround(row, keys, inner).Success?
    ensures WellFormed(NestAround(row, keys, inner).value)
    decreases |keys|
  {
    if keys != [] {
      NestWellFormed(row, keys[1..], inner);
    }
  }

  /** The tree of a well-formed row is well formed. */
  lemma TreeWellFormed(row: Value, path: Path)
    requires WellFormed(row) && TreeOf(row, path).Success?
    ensures WellFormed(TreeOf(row, path).value)
  {
    NestWellFormed(row, PathKeys(path), row);
  }

  /** Trees that are well formed merge into a well-formed array. */
  lemma {:induction false} MergeWellFormed(ts: seq<Result<seq<Entry>, Failure>>)
    requires forall i :: 0 <= i < |ts| && ts[i].Success? ==> WellFormed(Arr(ts[i].value))
    requires Merge(ts).Success?
    ensures WellFormed(Arr(Merge(ts).value))
    decreases |ts|
  {
    if ts != [] {
      var front := ts[..|ts| - 1];
      assert forall i :: 0 <= i < |front| ==> front[i] == ts[i];
      MergeWellFormed(front);
      ReplaceWellFormed(ts[|ts| - 1].value, Merge(front).value);
    }
  }

  /** The trees of well-formed rows are well formed. */
  lemma TreesWellFormed(rows: seq<Value>, path: Path)
    requires forall i :: 0 <= i < |rows| ==> WellFormed(rows[i])
    ensures forall i :: 0 <= i < |rows| && Trees(rows, path)[i].Success? ==> WellFormed(Arr(Trees(rows, path)[i].value))
  {
    forall i | 0 <= i < |rows| && Trees(rows, path)[i].Success?
      ensures WellFormed(Arr(Trees(rows, path)[i].value))
    {
      TreeWellFormed(rows[i], path);
    }
  }

  /** The merge of well-formed rows is well formed. */
  lemma ForestWellFormed(rows: seq<Value>, path: Path)
    requires forall i :: 0 <= i < |rows| ==> WellFormed(rows[i])
    requires Forest(rows, path).Success?
    ensures WellFormed(Arr(Forest(rows, path).value))
  {
    TreesWellFormed(rows, path);
    MergeWellFormed(Trees(rows, path));
  }

  /** Conflict policy: a scalar the merge of the first trees holds at some
      path stays there whatever trees follow. */
  lemma {:induction false} MergeEarlierWin(ts: seq<Result<seq<Entry>, Failure>>, i: nat, p: seq<string>, x: Value)
    requires forall j :: 0 <= j < |ts| && ts[j].Success? ==> WellFormed(Arr(ts[j].value))
    requires i <= |ts| && Merge(ts).Success? && Merge(ts[..i]).Success?
    requires At(Arr(Merge(ts[..i]).value), p) == Some(x) && !x.Arr?
    ensures At(Arr(Merge(ts).value), p) == Some(x)
    decreases |ts| - i
  {
    if i == |ts| {
      assert ts[..i] == ts;
    } else {
      MergeEarlierStep(ts, i, p, x);
      MergeEarlierWin(ts, i + 1, p, x);
    }
  }

  /** One step of the above: laying tree i over the merge keeps the scalar. */
  lemma MergeEarlierStep(ts: seq<Result<seq<Entry>, Failure>>, i: nat, p: seq<string>, x: Value)
    requires forall j :: 0 <= j < |ts| && ts[j].Success? ==> WellFormed(Arr(ts[j].value))
    requires i < |ts| && Merge(ts).Success? && Merge(ts[..i]).Success?
    requires At(Arr(Merge(ts[..i]).value), p) == Some(x) && !x.Arr?
    ensures Merge(ts[..i + 1]).Success? && At(Arr(Merge(ts[..i + 1]).value), p) == Some(x)
  {
    MergeNextStep(ts, i);
    assert forall j :: 0 <= j < i ==> ts[..i][j] == ts[j];
    MergeWellFormed(ts[..i]);
    ReplaceKeepsLeaves(ts[i].value, Merge(ts[..i]).value, p, x);
  }

  /** Within a merge that succeeds, the merge of the first i + 1 trees lays
      tree i over the merge of the first i. */
  lemma MergeNextStep(ts: seq<Result<seq<Entry>, Failure>>, i: nat)
    requires i < |ts| && Merge(ts).Success? && Merge(ts[..i]).Success?
    ensures ts[i].Success? && Merge(ts[..i + 1]).Success?
    ensures Merge(ts[..i + 1]).value == ReplaceRecursive(ts[i].value, Merge(ts[..i]).value)
  {
    var next := ts[..i + 1];
    assert next[..i] == ts[..i];
    assert next[i] == ts[i];
    if Merge(next).Failure? {
      MergeFailsOnward(ts, i + 1);
    }
  }

  /** The same for rows: a scalar the merge of the first rows holds at some
      path stays there whatever rows follow, so the rows seen first win. */
  lemma EarlierRowsWin(rows: seq<Value>, path: Path, i: nat, p: seq<string>, x: Value)
    requires forall j :: 0 <= j < |rows| ==> WellFormed(rows[j])
    requires i <= |rows| && Forest(rows, path).Success? && Forest(rows[..i], path).Success?
    requires At(Arr(Forest(rows[..i], path).value), p) == Some(x) && !x.Arr?
    ensures At(Arr(Forest(rows, path).value), p) == Some(x)
  {
    var ts := Trees(rows, path);
    assert Trees(rows[..i], path) == ts[..i];
    TreesWellFormed(rows, path);
    MergeEarlierWin(ts, i, p, x);
  }
}
