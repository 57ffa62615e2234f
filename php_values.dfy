/**
 * PHP values as the decoder handles them. A PHP array is an ordered list of
 * key/value entries; keys are kept as text, an integer key being its decimal
 * text (so the list [a, b] has keys "0" and "1", and $a[1] and $a["1"] are the
 * same entry, as in PHP). Floats are not modelled.
 */
module PhpValues {
  import opened Outcomes
  import opened PhpText

  datatype Value = Null | Bool(b: bool) | Int(i: int) | Str(s: string) | Arr(entries: seq<Entry>)

  datatype Entry = Entry(key: string, val: Value)

  /** empty($v), which is also !$v */
  predicate Empty(v: Value) {
    match v
    case Null => true
    case Bool(b) => !b
    case Int(i) => i == 0
    case Str(s) => IsFalsyString(s)
    case Arr(es) => es == []
  }

  function Keys(es: seq<Entry>): (ks: seq<string>)
    ensures |ks| == |es| && forall i :: 0 <= i < |es| ==> ks[i] == es[i].key
  {
    seq(|es|, i requires 0 <= i < |es| => es[i].key)
  }

  /** What json_decode and PHP's own arrays guarantee: no key twice at any level. */
  predicate DistinctKeys(es: seq<Entry>) {
    forall i, j :: 0 <= i < j < |es| ==> es[i].key != es[j].key
  }

  predicate WellFormed(v: Value) {
    match v
    case Arr(es) => DistinctKeys(es) && forall i :: 0 <= i < |es| ==> WellFormed(es[i].val)
    case _ => true
  }

  /** The position of the first entry with the given key. */
  function Find(es: seq<Entry>, key: string): (r: Option<nat>)
    ensures r.Some? ==> r.value < |es| && es[r.value].key == key
    ensures r.Some? ==> forall j :: 0 <= j < r.value ==> es[j].key != key
    ensures r.None? ==> forall j :: 0 <= j < |es| ==> es[j].key != key
  {
    if es == [] then None
    else if es[0].key == key then Some(0)
    else
      match Find(es[1..], key)
      case None => None
      case Some(i) => Some(i + 1)
  }

  /** array_key_exists($key, $a) ? $a[$key] : (absent) */
  function Get(es: seq<Entry>, key: string): (r: Option<Value>)
    ensures r.Some? <==> key in Keys(es)
  {
    match Find(es, key)
    case Some(i) => assert Keys(es)[i] == key; Some(es[i].val)
    case None => None
  }

  /** Get finds the first entry carrying the key. */
  lemma GetFirst(es: seq<Entry>, key: string, i: nat)
    requires i < |es| && es[i].key == key
    requires forall j :: 0 <= j < i ==> es[j].key != key
    ensures Get(es, key) == Some(es[i].val)
  {
    var k := Find(es, key).value;
    assert k <= i;
  }

  lemma GetDistinct(es: seq<Entry>, i: nat)
    requires DistinctKeys(es) && i < |es|
    ensures Get(es, es[i].key) == Some(es[i].val)
  {
    GetFirst(es, es[i].key, i);
  }

  /** isset($v[$key]) ? $v[$key] : (unset). Only arrays have entries here, and
      an entry holding null is not set. */
  function Isset(v: Value, key: string): (r: Option<Value>)
    ensures r.Some? ==> r.value != Null && v.Arr? && Get(v.entries, key) == r
  {
    match v
    case Arr(es) =>
      (match Get(es, key)
       case Some(x) => if x == Null then None else Some(x)
       case None => None)
    case _ => None
  }

  // ---------------------------------------------------------------- string offsets

  const LongMin: int := -0x8000_0000_0000_0000
  const LongMax: int := 0x7FFF_FFFF_FFFF_FFFF

  /** The integer a string key denotes as a string offset, when PHP reads it
      as an integer: optional white space, an optional sign, decimal digits
      and optional white space, with a value that fits in 64 bits. Any other
      key (a letter, a decimal point, an exponent, an overflow) is no offset. */
  function IntegerString(k: string): (r: Option<int>)
    ensures r.Some? ==> LongMin <= r.value <= LongMax
  {
    var a := SpaceRun(k, 0);
    var signed := a < |k| && (k[a] == '-' || k[a] == '+');
    var b := if signed then a + 1 else a;
    var d := DigitRun(k, b);
    if d == 0 || b + d + SpaceRun(k, b + d) != |k| then None
    else
      DigitRunDigits(k, b);
      var n := DigitsValue(k[b..b + d]);
      var v: int := if signed && k[a] == '-' then -(n as int) else n;
      if LongMin <= v <= LongMax then Some(v) else None
  }

  /** isset($s[$key]) ? $s[$key] : (unset) on a string: the one-character
      string at the offset, counted from the end when negative. */
  function StringOffset(s: string, key: string): (r: Option<Value>)
    ensures r.Some? ==> IntegerString(key).Some? && r.value.Str? && |r.value.s| == 1
  {
    match IntegerString(key)
    case None => None
    case Some(o) =>
      var i: int := if o < 0 then o + |s| else o;
      if 0 <= i < |s| then Some(Str([s[i]])) else None
  }

  /** isset($v[$key]) ? $v[$key] : (unset) for any value: an entry of an
      array, a character of a string, and nothing for other values. */
  function IssetDim(v: Value, key: string): (r: Option<Value>)
    ensures !v.Str? ==> r == Isset(v, key)
    ensures v.Str? ==> r == StringOffset(v.s, key)
  {
    if v.Str? then StringOffset(v.s, key) else Isset(v, key)
  }

  /** A digit run that reaches the end is the rest of the text. */
  lemma {:induction false} DigitRunToEnd(s: string, q: nat)
    requires q <= |s| && forall k :: q <= k < |s| ==> IsDigit(s[k])
    ensures DigitRun(s, q) == |s| - q
    decreases |s| - q
  {
    if q < |s| {
      DigitRunToEnd(s, q + 1);
    }
  }

  /** The decimal text of a number in range reads back as that number. */
  lemma IntegerStringOfNat(n: nat)
    requires n <= LongMax
    ensures IntegerString(NatToString(n)) == Some(n)
  {
    var k := NatToString(n);
    assert !IsSpace(k[0]);
    DigitRunToEnd(k, 0);
    assert k[0..|k|] == k;
  }

  /** A minus sign before the decimal text gives the negative number. */
  lemma IntegerStringOfNegative(n: nat)
    requires 1 <= n <= -LongMin
    ensures IntegerString("-" + NatToString(n)) == Some(-(n as int))
  {
    var d := NatToString(n);
    var k := "-" + d;
    assert !IsSpace(k[0]) && k[0] == '-';
    DigitRunToEnd(k, 1);
    assert k[1..|k|] == d;
  }

  /** A key without digits is no offset. */
  lemma NoDigitNoOffset(s: string, key: string)
    requires forall k :: 0 <= k < |key| ==> !IsDigit(key[k])
    ensures StringOffset(s, key) == None
  {
    var a := SpaceRun(key, 0);
    var b := if a < |key| && (key[a] == '-' || key[a] == '+') then a + 1 else a;
    assert b < |key| ==> !IsDigit(key[b]);
  }

  /** The offset "i" of a string is its i-th character, or nothing past its end. */
  lemma OffsetFromStart(s: string, i: nat)
    requires i <= LongMax
    ensures StringOffset(s, NatToString(i)) == if i < |s| then Some(Str([s[i]])) else None
  {
    IntegerStringOfNat(i);
  }

  /** The offset "-j" of a string counts j characters back from its end. */
  lemma OffsetFromEnd(s: string, j: nat)
    requires 1 <= j <= |s| && j <= -LongMin
    ensures StringOffset(s, "-" + NatToString(j)) == Some(Str([s[|s| - j]]))
  {
    IntegerStringOfNegative(j);
  }

  /** A PHP list: the values with keys 0, 1, 2, ... */
  function List(vs: seq<Value>): (v: Value)
    ensures v.Arr? && |v.entries| == |vs|
    ensures forall i :: 0 <= i < |vs| ==> v.entries[i] == Entry(NatToString(i), vs[i])
  {
    Arr(seq(|vs|, i requires 0 <= i < |vs| => Entry(NatToString(i), vs[i])))
  }

  /** $list[0] of a list is its first value. */
  lemma ListFirst(vs: seq<Value>)
    ensures Get(List(vs).entries, "0") == if vs == [] then None else Some(vs[0])
  {
    var es := List(vs).entries;
    if vs != [] {
      assert es[0].key == NatToString(0) == "0";
      GetFirst(es, "0", 0);
    }
  }

  /** Texts as PHP strings. */
  function Texts(lines: seq<string>): (vs: seq<Value>)
    ensures |vs| == |lines| && forall i :: 0 <= i < |lines| ==> vs[i] == Str(lines[i])
  {
    seq(|lines|, i requires 0 <= i < |lines| => Str(lines[i]))
  }

  /** The values a foreach over v visits, in order; a non-array visits none. */
  function Values(v: Value): (vs: seq<Value>)
    ensures v.Arr? ==> |vs| == |v.entries| && forall i :: 0 <= i < |vs| ==> vs[i] == v.entries[i].val
    ensures !v.Arr? ==> vs == []
  {
    if v.Arr? then seq(|v.entries|, i requires 0 <= i < |v.entries| => v.entries[i].val) else []
  }

  /** count($v) for an array. */
  function Count(v: Value): nat {
    if v.Arr? then |v.entries| else 0
  }

  /** The key a value becomes when used as an array key: integers become their
      decimal text, booleans 0/1, null the empty string; an array is an illegal
      offset. */
  function KeyOf(v: Value): Option<string> {
    match v
    case Null => Some("")
    case Bool(b) => Some(if b then "1" else "0")
    case Int(i) => Some(IntToString(i))
    case Str(s) => Some(s)
    case Arr(_) => None
  }

  /** r is es after $es[$key] = $v: the key now holds v, every other key
      holds what it held, an existing key keeps its place and a new one goes
      last, and no entry appears that was not there or is not the new one. */
  ghost predicate Assigned(es: seq<Entry>, key: string, v: Value, r: seq<Entry>) {
    && Get(r, key) == Some(v)
    && (forall k :: k != key ==> Get(r, k) == Get(es, k))
    && (key in Keys(es) ==> Keys(r) == Keys(es))
    && (key !in Keys(es) ==> Keys(r) == Keys(es) + [key])
    && (DistinctKeys(es) ==> DistinctKeys(r))
    && (forall j :: 0 <= j < |r| ==> r[j] == Entry(key, v) || (j < |es| && r[j] == es[j]))
  }

  /** $a[$key] = $v */
  function Put(es: seq<Entry>, key: string, v: Value): seq<Entry> {
    match Find(es, key)
    case Some(i) => es[i := Entry(key, v)]
    case None => es + [Entry(key, v)]
  }

  /** Assignment sets the key, leaves every other key alone, appends a new
      key at the end and keeps keys distinct. */
  lemma PutAssigned(es: seq<Entry>, key: string, v: Value)
    ensures Assigned(es, key, v, Put(es, key, v))
  {
    match Find(es, key)
    case Some(i) => PutAt(es, key, v, i);
    case None => PutEnd(es, key, v);
  }

  lemma PutAt(es: seq<Entry>, key: string, v: Value, i: nat)
    requires Find(es, key) == Some(i)
    ensures Assigned(es, key, v, es[i := Entry(key, v)])
  {
    var r := es[i := Entry(key, v)];
    assert Keys(r) == Keys(es) by {
      assert forall j :: 0 <= j < |r| ==> r[j].key == es[j].key;
    }
    assert Get(r, key) == Some(v) by {
      GetFirst(r, key, i);
    }
    ReplaceAtOthers(es, i, Entry(key, v));
    assert DistinctKeys(es) ==> DistinctKeys(r) by {
      assert forall j :: 0 <= j < |r| ==> r[j].key == es[j].key;
    }
    assert forall j :: 0 <= j < |r| ==> r[j] == Entry(key, v) || (j < |es| && r[j] == es[j]);
  }

  /** Overwriting the entry at i with one of the same key leaves Get of every other key alone. */
  lemma ReplaceAtOthers(es: seq<Entry>, i: nat, e: Entry)
    requires i < |es| && es[i].key == e.key
    ensures forall k :: k != e.key ==> Get(es[i := e], k) == Get(es, k)
  {
    forall k | k != e.key ensures Get(es[i := e], k) == Get(es, k) {
      SameFind(es, es[i := e], k);
    }
  }

  lemma PutEnd(es: seq<Entry>, key: string, v: Value)
    requires Find(es, key) == None
    ensures Assigned(es, key, v, es + [Entry(key, v)])
  {
    var r := es + [Entry(key, v)];
    assert Keys(r) == Keys(es) + [key];
    assert key !in Keys(es) by {
      assert forall j :: 0 <= j < |es| ==> Keys(es)[j] != key;
    }
    assert Get(r, key) == Some(v) by {
      GetFirst(r, key, |es|);
    }
    AppendOthers(es, Entry(key, v));
    AppendDistinct(es, Entry(key, v));
    assert forall j :: 0 <= j < |r| ==> r[j] == Entry(key, v) || (j < |es| && r[j] == es[j]);
  }

  /** Appending an entry leaves Get of every other key alone. */
  lemma AppendOthers(es: seq<Entry>, e: Entry)
    ensures forall k :: k != e.key ==> Get(es + [e], k) == Get(es, k)
  {
    forall k | k != e.key ensures Get(es + [e], k) == Get(es, k) {
      PrefixFind(es, es + [e], k);
    }
  }

  /** Appending an entry with a new key keeps the keys distinct. */
  lemma AppendDistinct(es: seq<Entry>, e: Entry)
    requires Find(es, e.key) == None
    ensures DistinctKeys(es) ==> DistinctKeys(es + [e])
  {
    var r := es + [e];
    if DistinctKeys(es) {
      forall i, j | 0 <= i < j < |r| ensures r[i].key != r[j].key {
        if j == |es| {
          assert r[i] == es[i];
        }
      }
    }
  }

  /** Two entry lists that agree wherever the key k is concerned agree on Get(_, k). */
  lemma SameFind(a: seq<Entry>, b: seq<Entry>, k: string)
    requires |a| == |b|
    requires forall j :: 0 <= j < |a| ==> (a[j].key == k <==> b[j].key == k)
    requires forall j :: 0 <= j < |a| && a[j].key == k ==> a[j].val == b[j].val
    ensures Get(a, k) == Get(b, k)
  {
    match Find(a, k)
    case None =>
      assert forall j :: 0 <= j < |b| ==> b[j].key != k;
    case Some(i) => GetFirst(b, k, i);
  }

  /** Appending entries with other keys does not change Get(_, k) of the front part. */
  lemma PrefixFind(a: seq<Entry>, b: seq<Entry>, k: string)
    requires |a| <= |b| && b[..|a|] == a
    requires forall j :: |a| <= j < |b| ==> b[j].key != k
    ensures Get(a, k) == Get(b, k)
  {
    match Find(a, k)
    case None =>
      assert forall j :: 0 <= j < |a| ==> b[j] == a[j];
      assert forall j :: 0 <= j < |b| ==> b[j].key != k;
    case Some(i) =>
      assert b[i] == a[i];
      GetFirst(b, k, i);
  }

  // ---------------------------------------------------------------- array_replace_recursive

  function Size(v: Value): nat {
    if v.Arr? then 1 + EntriesSize(v.entries) else 1
  }

  function EntriesSize(es: seq<Entry>): nat {
    if es == [] then 0 else 1 + Size(es[0].val) + EntriesSize(es[1..])
  }

  /** array_replace_recursive($base, $repl): each entry of repl, in order,
      replaces the entry of base with its key, except that two arrays under the
      same key are merged the same way, recursively. Values of repl win. */
  function ReplaceRecursive(base: seq<Entry>, repl: seq<Entry>): seq<Entry>
    decreases EntriesSize(repl)
  {
    if repl == [] then base
    else
      var e := repl[0];
      assert EntriesSize(repl) == 1 + Size(e.val) + EntriesSize(repl[1..]);
      ReplaceRecursive(Put(base, e.key, Merged(base, e)), repl[1..])
  }

  /** The entry base would hold for e after the first step of the merge. */
  function Merged(base: seq<Entry>, e: Entry): Value
    decreases Size(e.val)
  {
    var prior := Get(base, e.key);
    if e.val.Arr? && prior.Some? && prior.value.Arr?
    then Arr(ReplaceRecursive(prior.value.entries, e.val.entries))
    else e.val
  }

  /** base's keys keep their order at the front of the merge. */
  lemma {:induction false} ReplaceKeepsOrder(base: seq<Entry>, repl: seq<Entry>)
    ensures var r := ReplaceRecursive(base, repl);
      |r| >= |base| && Keys(r)[..|base|] == Keys(base)
    decreases |repl|
  {
    if repl != [] {
      var b1 := Put(base, repl[0].key, Merged(base, repl[0]));
      ReplaceKeepsOrder(b1, repl[1..]);
      assert Keys(b1)[..|base|] == Keys(base);
    }
  }

  /** The merge holds exactly the keys of base and of repl. */
  lemma {:induction false} ReplaceKeys(base: seq<Entry>, repl: seq<Entry>, k: string)
    ensures k in Keys(ReplaceRecursive(base, repl)) <==> k in Keys(base) || k in Keys(repl)
    decreases |repl|
  {
    if repl != [] {
      var e := repl[0];
      var b1 := Put(base, e.key, Merged(base, e));
      ReplaceStep(base, repl);
      ReplaceKeys(b1, repl[1..], k);
      PutKeys(base, e.key, Merged(base, e), k);
      KeysTail(repl, k);
    }
  }

  /** The first step of the merge. */
  lemma ReplaceStep(base: seq<Entry>, repl: seq<Entry>)
    requires repl != []
    ensures ReplaceRecursive(base, repl) == ReplaceRecursive(Put(base, repl[0].key, Merged(base, repl[0])), repl[1..])
  {
  }

  lemma KeysTail(es: seq<Entry>, k: string)
    requires es != []
    ensures k in Keys(es) <==> k == es[0].key || k in Keys(es[1..])
  {
    assert Keys(es) == [es[0].key] + Keys(es[1..]);
  }

  lemma PutKeys(es: seq<Entry>, key: string, v: Value, k: string)
    ensures k in Keys(Put(es, key, v)) <==> k in Keys(es) || k == key
  {
    var r := Put(es, key, v);
    PutAssigned(es, key, v);
    if k != key {
      assert Get(r, k) == Get(es, k);
    }
  }

  /** A key repl does not have is left as base has it. */
  lemma {:induction false} ReplaceOutside(base: seq<Entry>, repl: seq<Entry>, k: string)
    requires k !in Keys(repl)
    ensures Get(ReplaceRecursive(base, repl), k) == Get(base, k)
    decreases |repl|
  {
    if repl != [] {
      var e := repl[0];
      assert Keys(repl) == [e.key] + Keys(repl[1..]);
      PutAssigned(base, e.key, Merged(base, e));
      ReplaceOutside(Put(base, e.key, Merged(base, e)), repl[1..], k);
    }
  }

  /** A key repl has takes repl's value, or the recursive merge when both sides hold arrays. */
  lemma {:induction false} ReplaceInside(base: seq<Entry>, repl: seq<Entry>, i: nat)
    requires DistinctKeys(repl) && i < |repl|
    ensures Get(ReplaceRecursive(base, repl), repl[i].key) == Some(Merged(base, repl[i]))
    decreases |repl|
  {
    if i == 0 {
      ReplaceFirst(base, repl);
    } else {
      var b1 := Put(base, repl[0].key, Merged(base, repl[0]));
      assert repl[1..][i - 1] == repl[i];
      RestDistinct(repl);
      ReplaceInside(b1, repl[1..], i - 1);
      ReplaceLater(base, repl, i);
    }
  }

  /** A later key of repl is settled by the rest of the merge, as if the
      first step had not happened. */
  lemma ReplaceLater(base: seq<Entry>, repl: seq<Entry>, i: nat)
    requires DistinctKeys(repl) && 0 < i < |repl|
    requires var b1 := Put(base, repl[0].key, Merged(base, repl[0]));
      Get(ReplaceRecursive(b1, repl[1..]), repl[i].key) == Some(Merged(b1, repl[i]))
    ensures Get(ReplaceRecursive(base, repl), repl[i].key) == Some(Merged(base, repl[i]))
  {
    var e := repl[0];
    var b1 := Put(base, e.key, Merged(base, e));
    var d := repl[i];
    assert Get(b1, d.key) == Get(base, d.key) by {
      PutAssigned(base, e.key, Merged(base, e));
      assert d.key != e.key;
    }
    assert Merged(b1, d) == Merged(base, d);
    assert ReplaceRecursive(base, repl) == ReplaceRecursive(b1, repl[1..]);
  }

  lemma RestDistinct(repl: seq<Entry>)
    requires DistinctKeys(repl) && repl != []
    ensures DistinctKeys(repl[1..])
    ensures repl[0].key !in Keys(repl[1..])
  {
    var rest := repl[1..];
    assert forall j :: 0 <= j < |rest| ==> rest[j] == repl[j + 1];
  }

  /** The first key of repl is settled by the first step and left alone after. */
  lemma ReplaceFirst(base: seq<Entry>, repl: seq<Entry>)
    requires DistinctKeys(repl) && repl != []
    ensures Get(ReplaceRecursive(base, repl), repl[0].key) == Some(Merged(base, repl[0]))
  {
    var e := repl[0];
    var b1 := Put(base, e.key, Merged(base, e));
    var rest := repl[1..];
    RestDistinct(repl);
    PutAssigned(base, e.key, Merged(base, e));
    ReplaceOutside(b1, rest, e.key);
    assert ReplaceRecursive(base, repl) == ReplaceRecursive(b1, rest);
  }

  /** array_replace_recursive keeps arrays well formed. */
  lemma {:induction false} ReplaceWellFormed(base: seq<Entry>, repl: seq<Entry>)
    requires WellFormed(Arr(base)) && WellFormed(Arr(repl))
    ensures WellFormed(Arr(ReplaceRecursive(base, repl)))
    decreases EntriesSize(repl)
  {
    if repl != [] {
      var e := repl[0];
      assert EntriesSize(repl) == 1 + Size(e.val) + EntriesSize(repl[1..]);
      MergedWellFormed(base, e);
      var b1 := Put(base, e.key, Merged(base, e));
      PutAssigned(base, e.key, Merged(base, e));
      assert WellFormed(Arr(repl[1..])) by {
        assert forall i :: 0 <= i < |repl| - 1 ==> repl[1..][i] == repl[i + 1];
      }
      ReplaceWellFormed(b1, repl[1..]);
    }
  }

  lemma {:induction false} MergedWellFormed(base: seq<Entry>, e: Entry)
    requires WellFormed(Arr(base)) && WellFormed(e.val)
    ensures WellFormed(Merged(base, e))
    decreases Size(e.val)
  {
    var prior := Get(base, e.key);
    if e.val.Arr? && prior.Some? && prior.value.Arr? {
      assert prior.value == base[Find(base, e.key).value].val;
      ReplaceWellFormed(prior.value.entries, e.val.entries);
    }
  }

  /** The value found by following a path of keys from v. */
  function At(v: Value, path: seq<string>): Option<Value>
    decreases |path|
  {
    if path == [] then Some(v)
    else if !v.Arr? then None
    else
      match Get(v.entries, path[0])
      case None => None
      case Some(x) => At(x, path[1..])
  }

  /** Conflict policy: every scalar that repl holds at some path, the merge
      holds at the same path. */
  lemma {:induction false} ReplaceKeepsLeaves(base: seq<Entry>, repl: seq<Entry>, path: seq<string>, x: Value)
    requires WellFormed(Arr(repl))
    requires At(Arr(repl), path) == Some(x) && !x.Arr?
    ensures At(Arr(ReplaceRecursive(base, repl)), path) == Some(x)
    decreases |path|, 0
  {
    var k := path[0];
    var i := Find(repl, k).value;
    assert Get(ReplaceRecursive(base, repl), k) == Some(Merged(base, repl[i])) by {
      GetDistinct(repl, i);
      ReplaceInside(base, repl, i);
    }
    assert At(repl[i].val, path[1..]) == Some(x) by {
      GetDistinct(repl, i);
    }
    MergedKeepsLeaves(base, repl[i], path[1..], x);
  }

  /** The same for the value one entry of repl leaves in the merge. */
  lemma {:induction false} MergedKeepsLeaves(base: seq<Entry>, e: Entry, path: seq<string>, x: Value)
    requires WellFormed(e.val)
    requires At(e.val, path) == Some(x) && !x.Arr?
    ensures At(Merged(base, e), path) == Some(x)
    decreases |path|, 1
  {
    var prior := Get(base, e.key);
    if e.val.Arr? && prior.Some? && prior.value.Arr? {
      ReplaceKeepsLeaves(prior.value.entries, e.val.entries, path, x);
    }
  }
}
