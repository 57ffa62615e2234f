/**
 * The clause matcher of src/Query/Query.php: the pattern
 * `FORMAT\s+(n0|n1|…)` over a list of names — case-insensitive, unanchored,
 * the alternatives tried in list order at each position, `\s+` greedy — the
 * first match in a text, and the format taken from that match. The list is a
 * parameter here; what the matcher relies on about it is stated as
 * predicates (NamesLike, PrefixFree), which the query's own list satisfies.
 */
module FormatClauses {
  import opened Outcomes
  import opened PhpText

  // ---------------------------------------------------------------- names

  predicate IsLetter(c: char) {
    'A' <= c <= 'Z' || 'a' <= c <= 'z'
  }

  /** Text made of ASCII letters only, like the keyword and every format name. */
  predicate IsWord(p: string) {
    forall k :: 0 <= k < |p| ==> IsLetter(p[k])
  }

  /** Characters equal, ignoring case, to a letter are letters, hence neither
      white space nor anything trim() strips. */
  lemma LowerLetter(c: char, d: char)
    requires IsLetter(d) && Lower(c) == Lower(d)
    ensures IsLetter(c) && !IsSpace(c) && c !in TrimSet
  {
  }

  /** What the matcher relies on about a name: at least three letters, none
      of them an f. */
  predicate NameLike(name: string) {
    |name| >= 3 && IsWord(name) && forall k :: 0 <= k < |name| ==> Lower(name[k]) != 'f'
  }

  predicate NamesLike(names: seq<string>) {
    forall j :: 0 <= j < |names| ==> NameLike(names[j])
  }

  /** a begins b, ignoring ASCII case. */
  predicate PrefixIgnoreCase(a: string, b: string) {
    |a| <= |b| && EqualsIgnoreCase(b[..|a|], a)
  }

  /** No name begins a name listed after it, ignoring case. */
  predicate PrefixFree(names: seq<string>) {
    forall i, j :: 0 <= i < j < |names| ==> !PrefixIgnoreCase(names[i], names[j])
  }

  // ---------------------------------------------------------------- the matcher

  /** The first name, from position `from` of the list on, that occurs at q. */
  function FirstName(names: seq<string>, s: string, q: nat, from: nat): (r: Option<nat>)
    requires from <= |names|
    ensures r.Some? ==> from <= r.value < |names|
    decreases |names| - from
  {
    if from == |names| then None
    else if OccursAt(s, names[from], q) then Some(from)
    else FirstName(names, s, q, from + 1)
  }

  /** FirstName finds a name that occurs at q, with none listed between
      `from` and it occurring there, and finds nothing only when none occurs. */
  lemma {:induction false} FirstNameFound(names: seq<string>, s: string, q: nat, from: nat)
    requires from <= |names|
    ensures var r := FirstName(names, s, q, from);
      (r.Some? ==> OccursAt(s, names[r.value], q)) &&
      (r.Some? ==> forall i :: from <= i < r.value ==> !OccursAt(s, names[i], q)) &&
      (r.None? ==> forall i :: from <= i < |names| ==> !OccursAt(s, names[i], q))
    decreases |names| - from
  {
    if from < |names| && !OccursAt(s, names[from], q) {
      FirstNameFound(names, s, q, from + 1);
    }
  }

  /** The other direction: a name that occurs at q, with none listed between
      `from` and it occurring there, is the one FirstName finds. */
  lemma {:induction false} FirstNameIs(names: seq<string>, s: string, q: nat, from: nat, j: nat)
    requires from <= j < |names| && OccursAt(s, names[j], q)
    requires forall i :: from <= i < j ==> !OccursAt(s, names[i], q)
    ensures FirstName(names, s, q, from) == Some(j)
    decreases j - from
  {
    if from < j {
      FirstNameIs(names, s, q, from + 1, j);
    }
  }

  /** Two positions at which the same names occur give the same first name. */
  lemma {:induction false} FirstNameSame(names: seq<string>, s: string, q: nat, t: string, q': nat, from: nat)
    requires from <= |names|
    requires forall i :: from <= i < |names| ==> (OccursAt(s, names[i], q) <==> OccursAt(t, names[i], q'))
    ensures FirstName(names, s, q, from) == FirstName(names, t, q', from)
    decreases |names| - from
  {
    if from < |names| {
      FirstNameSame(names, s, q, t, q', from + 1);
    }
  }

  /** A match of the clause: `gap` white-space characters after the keyword,
      then the name names[name]. */
  datatype Clause = Clause(gap: nat, name: nat)

  function ClauseLength(names: seq<string>, c: Clause): nat
    requires c.name < |names|
  {
    6 + c.gap + |names[c.name]|
  }

  /** The clause that matches at the front of w, if any. `\s+` takes the whole
      run of white space, since no name begins with white space. */
  function ClauseAtFront(names: seq<string>, w: string): (r: Option<Clause>)
    ensures r.Some? ==> r.value.name < |names| && ClauseLength(names, r.value) <= |w| && r.value.gap >= 1
  {
    if !OccursAt(w, "FORMAT", 0) then None
    else
      var n := SpaceRun(w, 6);
      if n == 0 then None
      else
        match FirstName(names, w, 6 + n, 0)
        case None => None
        case Some(j) =>
          FirstNameFound(names, w, 6 + n, 0);
          Some(Clause(n, j))
  }

  /** A clause found at the front of w is the keyword, the whole run of white
      space after it, and the first name that occurs there. */
  lemma ClauseAtFrontMatches(names: seq<string>, w: string)
    requires ClauseAtFront(names, w).Some?
    ensures var c := ClauseAtFront(names, w).value;
      OccursAt(w, "FORMAT", 0) && c.gap == SpaceRun(w, 6) &&
      (forall k :: 6 <= k < 6 + c.gap ==> IsSpace(w[k])) &&
      OccursAt(w, names[c.name], 6 + c.gap) &&
      (forall i :: 0 <= i < c.name ==> !OccursAt(w, names[i], 6 + c.gap))
  {
    SpaceRunSpaces(w, 6);
    FirstNameFound(names, w, 6 + SpaceRun(w, 6), 0);
  }

  /** A name can only follow the keyword after the whole white-space run. */
  lemma GapIsWholeRun(w: string, g: nat, name: string)
    requires 6 + g <= |w| && forall k :: 6 <= k < 6 + g ==> IsSpace(w[k])
    requires name != [] && IsLetter(name[0]) && OccursAt(w, name, 6 + g)
    ensures g == SpaceRun(w, 6)
  {
    assert w[6 + g..6 + g + |name|][0] == w[6 + g];
    LowerLetter(w[6 + g], name[0]);
    SpaceRunSpaces(w, 6);
  }

  /** The other direction of ClauseAtFront: when it finds nothing, no choice of
      white space and name matches at the front. */
  lemma NoClauseAtFront(names: seq<string>, w: string, g: nat, j: nat)
    requires NamesLike(names) && ClauseAtFront(names, w).None?
    requires g >= 1 && 6 + g <= |w| && forall k :: 6 <= k < 6 + g ==> IsSpace(w[k])
    requires j < |names|
    ensures !(OccursAt(w, "FORMAT", 0) && OccursAt(w, names[j], 6 + g))
  {
    if OccursAt(w, "FORMAT", 0) && OccursAt(w, names[j], 6 + g) {
      assert NameLike(names[j]);
      GapIsWholeRun(w, g, names[j]);
      FirstNameFound(names, w, 6 + g, 0);
    }
  }

  /** The leftmost position from `from` on at which the clause matches, and the match there. */
  function FindClauseFrom(names: seq<string>, s: string, from: nat): (r: Option<(nat, Clause)>)
    requires from <= |s|
    ensures r.Some? ==> from <= r.value.0 <= |s| && ClauseAtFront(names, s[r.value.0..]) == Some(r.value.1)
    ensures r.Some? ==> forall p :: from <= p < r.value.0 ==> ClauseAtFront(names, s[p..]).None?
    ensures r.None? ==> forall p :: from <= p <= |s| ==> ClauseAtFront(names, s[p..]).None?
    decreases |s| - from
  {
    match ClauseAtFront(names, s[from..])
    case Some(c) => Some((from, c))
    case None => if from == |s| then None else FindClauseFrom(names, s, from + 1)
  }

  /** The leftmost position at which the clause matches: the first match
      preg_match_all reports. */
  function FindClause(names: seq<string>, s: string): (r: Option<(nat, Clause)>)
    ensures r.Some? ==> r.value.0 <= |s| && ClauseAtFront(names, s[r.value.0..]) == Some(r.value.1)
    ensures r.Some? ==> forall p :: 0 <= p < r.value.0 ==> ClauseAtFront(names, s[p..]).None?
    ensures r.None? ==> forall p :: 0 <= p <= |s| ==> ClauseAtFront(names, s[p..]).None?
  {
    FindClauseFrom(names, s, 0)
  }

  /** The text of the clause found at p. */
  function Matched(names: seq<string>, s: string, p: nat, c: Clause): string
    requires p <= |s| && ClauseAtFront(names, s[p..]) == Some(c)
  {
    s[p..p + ClauseLength(names, c)]
  }

  /** The format taken from a clause: trim(str_ireplace('format', '', $match)). */
  function Adopted(names: seq<string>, s: string, p: nat, c: Clause): string
    requires p <= |s| && ClauseAtFront(names, s[p..]) == Some(c)
  {
    Trim(RemoveIgnoreCase(Matched(names, s, p, c), "format"))
  }

  // ---------------------------------------------------------------- what is adopted

  /** The name as the text writes it: what follows the keyword and the white space. */
  function WrittenName(names: seq<string>, s: string, p: nat, c: Clause): string
    requires p <= |s| && ClauseAtFront(names, s[p..]) == Some(c)
  {
    s[p + 6 + c.gap..p + ClauseLength(names, c)]
  }

  /** The format adopted from a clause is the name as the text writes it — any
      letter case of the listed name — unless the white space before it holds a
      form feed, which `\s` accepts but trim() keeps. */
  lemma AdoptedIsWrittenName(names: seq<string>, s: string, p: nat, c: Clause)
    requires NamesLike(names)
    requires p <= |s| && ClauseAtFront(names, s[p..]) == Some(c)
    requires forall k :: p + 6 <= k < p + 6 + c.gap ==> s[k] != '\U{C}'
    ensures Adopted(names, s, p, c) == s[p + 6 + c.gap..p + ClauseLength(names, c)]
    ensures Adopted(names, s, p, c) == WrittenName(names, s, p, c)
    ensures EqualsIgnoreCase(Adopted(names, s, p, c), names[c.name])
  {
    var tail := Matched(names, s, p, c)[6 + c.gap..];
    assert Adopted(names, s, p, c) == tail by {
      AdoptedIsNameTail(names, s, p, c);
    }
    assert tail == s[p + 6 + c.gap..p + ClauseLength(names, c)] && EqualsIgnoreCase(tail, names[c.name]) by {
      MatchedParts(names, s, p, c);
    }
  }

  /** The adopted format is what follows the keyword and the white space. */
  lemma AdoptedIsNameTail(names: seq<string>, s: string, p: nat, c: Clause)
    requires NamesLike(names)
    requires p <= |s| && ClauseAtFront(names, s[p..]) == Some(c)
    requires forall k :: p + 6 <= k < p + 6 + c.gap ==> s[k] != '\U{C}'
    ensures Adopted(names, s, p, c) == Matched(names, s, p, c)[6 + c.gap..]
  {
    MatchedShape(names, s, p, c);
    AdoptedFromParts(Matched(names, s, p, c), c.gap, names[c.name]);
  }

  /** A matched clause m: the keyword, g white-space characters none of which
      is a form feed, then the name as written. */
  predicate ClauseShape(m: string, g: nat, name: string) {
    NameLike(name) && |m| == 6 + g + |name| &&
    EqualsIgnoreCase(m[..6], "format") &&
    (forall k :: 6 <= k < 6 + g ==> IsSpace(m[k]) && m[k] != '\U{C}') &&
    EqualsIgnoreCase(m[6 + g..], name)
  }

  lemma MatchedShape(names: seq<string>, s: string, p: nat, c: Clause)
    requires NamesLike(names)
    requires p <= |s| && ClauseAtFront(names, s[p..]) == Some(c)
    requires forall k :: p + 6 <= k < p + 6 + c.gap ==> s[k] != '\U{C}'
    ensures ClauseShape(Matched(names, s, p, c), c.gap, names[c.name])
  {
    MatchedParts(names, s, p, c);
    MatchedGap(names, s, p, c);
  }

  lemma MatchedGap(names: seq<string>, s: string, p: nat, c: Clause)
    requires p <= |s| && ClauseAtFront(names, s[p..]) == Some(c)
    requires forall k :: p + 6 <= k < p + 6 + c.gap ==> s[k] != '\U{C}'
    ensures var m := Matched(names, s, p, c); forall k :: 6 <= k < 6 + c.gap ==> IsSpace(m[k]) && m[k] != '\U{C}'
  {
    var m := Matched(names, s, p, c);
    MatchedParts(names, s, p, c);
    forall k | 6 <= k < 6 + c.gap
      ensures m[k] != '\U{C}'
    {
      assert m[k] == s[p..][k] == s[p + k];
    }
  }

  /** The three parts of a matched clause: the keyword, white space, a name. */
  lemma MatchedParts(names: seq<string>, s: string, p: nat, c: Clause)
    requires p <= |s| && ClauseAtFront(names, s[p..]) == Some(c)
    ensures var m := Matched(names, s, p, c);
      |m| == 6 + c.gap + |names[c.name]| &&
      EqualsIgnoreCase(m[..6], "format") &&
      (forall k :: 6 <= k < 6 + c.gap ==> IsSpace(m[k])) &&
      EqualsIgnoreCase(m[6 + c.gap..], names[c.name])
  {
    var w := s[p..];
    var m := Matched(names, s, p, c);
    ClauseAtFrontMatches(names, w);
    OccursAtSlice(w, "FORMAT", 0);
    OccursAtSlice(w, names[c.name], 6 + c.gap);
    assert m == w[..ClauseLength(names, c)];
    assert m[..6] == w[0..6];
    assert m[6 + c.gap..] == w[6 + c.gap..6 + c.gap + |names[c.name]|];
  }

  /** trim(str_ireplace('format', '', m)) on a matched clause is the name as written. */
  lemma AdoptedFromParts(m: string, g: nat, name: string)
    requires ClauseShape(m, g, name)
    ensures Trim(RemoveIgnoreCase(m, "format")) == m[6 + g..]
  {
    RemoveKeyword(m, g, name);
    TrimAfterKeyword(m, g, name);
  }

  /** What follows the keyword of a matched clause — white space without form
      feeds, then a name — trims to the name as written. */
  lemma TrimAfterKeyword(m: string, g: nat, name: string)
    requires NameLike(name) && |m| == 6 + g + |name|
    requires forall k :: 6 <= k < 6 + g ==> IsSpace(m[k]) && m[k] != '\U{C}'
    requires EqualsIgnoreCase(m[6 + g..], name)
    ensures Trim(m[6..]) == m[6 + g..]
  {
    var gap := m[6..6 + g];
    var written := m[6 + g..];
    assert m[6..] == gap + written;
    assert forall k :: 0 <= k < |gap| ==> gap[k] == m[6 + k];
    TrimGap(gap, written, name);
  }

  /** str_ireplace('format', '', m) on a clause removes just the keyword. */
  lemma RemoveKeyword(m: string, g: nat, name: string)
    requires 6 + g <= |m| && NameLike(name)
    requires EqualsIgnoreCase(m[..6], "format")
    requires forall k :: 6 <= k < 6 + g ==> IsSpace(m[k])
    requires EqualsIgnoreCase(m[6 + g..], name)
    ensures RemoveIgnoreCase(m, "format") == m[6..]
  {
    assert RemoveIgnoreCase(m, "format") == RemoveIgnoreCase(m[6..], "format");
    NoFAfterKeyword(m, g, name);
    RemoveAbsentF(m[6..]);
  }

  /** What follows the keyword in a clause holds no f. */
  lemma NoFAfterKeyword(m: string, g: nat, name: string)
    requires 6 + g <= |m| && NameLike(name)
    requires forall k :: 6 <= k < 6 + g ==> IsSpace(m[k])
    requires EqualsIgnoreCase(m[6 + g..], name)
    ensures forall k :: 0 <= k < |m[6..]| ==> Lower(m[6..][k]) != 'f'
  {
    var rest := m[6..];
    forall k | 0 <= k < |rest|
      ensures Lower(rest[k]) != 'f'
    {
      if k < g {
        assert rest[k] == m[6 + k];
      } else {
        assert rest[k] == m[6 + g..][k - g];
      }
    }
  }

  lemma RemoveAbsentF(rest: string)
    requires forall k :: 0 <= k < |rest| ==> Lower(rest[k]) != 'f'
    ensures RemoveIgnoreCase(rest, "format") == rest
  {
    assert Lower("format"[0]) == 'f';
    RemoveAbsent(rest, "format");
  }

  /** trim() of white space without form feeds followed by a name is the name. */
  lemma TrimGap(gap: string, written: string, name: string)
    requires forall k :: 0 <= k < |gap| ==> IsSpace(gap[k]) && gap[k] != '\U{C}'
    requires NameLike(name) && EqualsIgnoreCase(written, name)
    ensures Trim(gap + written) == written
  {
    LowerLetter(written[0], name[0]);
    LowerLetter(written[|written| - 1], name[|name| - 1]);
    StripPadded(gap, written, [], TrimSet);
    assert gap + written + [] == gap + written;
  }

  // ---------------------------------------------------------------- text placed after other text

  /** A word that crosses from u into a tail starting with a space is not there. */
  lemma OccursAcross(u: string, tail: string, pat: string, q: nat)
    requires q <= |u| && tail != [] && tail[0] == ' ' && IsWord(pat)
    ensures OccursAt(u + tail, pat, q) == OccursAt(u, pat, q)
  {
    var w := u + tail;
    if q + |pat| <= |u| {
      assert w[q..q + |pat|] == u[q..q + |pat|];
    } else if q + |pat| <= |w| {
      assert w[q..q + |pat|][|u| - q] == ' ';
      assert Lower(pat[|u| - q]) != ' ';
    }
  }

  /** Appending ` FORMAT …` (or any tail that starts with a space and then an f)
      creates no match at a position before it. */
  lemma ClauseAcross(names: seq<string>, u: string, tail: string)
    requires NamesLike(names)
    requires |tail| >= 2 && tail[0] == ' ' && Lower(tail[1]) == 'f'
    ensures ClauseAtFront(names, u + tail) == ClauseAtFront(names, u)
  {
    KeywordAcross(u, tail);
    if OccursAt(u, "FORMAT", 0) {
      if 6 + SpaceRun(u, 6) < |u| {
        NameAcrossInside(names, u, tail);
        SameClause(names, u + tail, u);
      } else {
        NameAcrossEnd(names, u, tail);
        NoClauseAcrossEnd(names, u, tail);
      }
    }
  }

  /** Texts that agree on the keyword, the white-space run after it and the
      first name after that run hold the same clause at their front. */
  lemma SameClause(names: seq<string>, w: string, u: string)
    requires OccursAt(w, "FORMAT", 0) && OccursAt(u, "FORMAT", 0)
    requires SpaceRun(w, 6) == SpaceRun(u, 6)
    requires FirstName(names, w, 6 + SpaceRun(u, 6), 0) == FirstName(names, u, 6 + SpaceRun(u, 6), 0)
    ensures ClauseAtFront(names, w) == ClauseAtFront(names, u)
  {
  }

  /** When the white-space run of u reaches its end, neither u nor u + tail
      holds a clause at its front. */
  lemma NoClauseAcrossEnd(names: seq<string>, u: string, tail: string)
    requires OccursAt(u, "FORMAT", 0) && OccursAt(u + tail, "FORMAT", 0)
    requires 6 + SpaceRun(u, 6) == |u|
    requires SpaceRun(u + tail, 6) == SpaceRun(u, 6) + 1
    requires FirstName(names, u + tail, |u| + 1, 0).None? && FirstName(names, u, |u|, 0).None?
    ensures ClauseAtFront(names, u + tail).None? && ClauseAtFront(names, u).None?
  {
  }

  lemma KeywordAcross(u: string, tail: string)
    requires tail != [] && tail[0] == ' '
    ensures OccursAt(u + tail, "FORMAT", 0) == OccursAt(u, "FORMAT", 0)
  {
    OccursAcross(u, tail, "FORMAT", 0);
  }

  /** When the white space after the keyword ends inside u, the tail changes
      neither the run nor the name after it. */
  lemma NameAcrossInside(names: seq<string>, u: string, tail: string)
    requires NamesLike(names)
    requires |tail| >= 2 && tail[0] == ' '
    requires 6 <= |u| && 6 + SpaceRun(u, 6) < |u|
    ensures SpaceRun(u + tail, 6) == SpaceRun(u, 6)
    ensures FirstName(names, u + tail, 6 + SpaceRun(u, 6), 0) == FirstName(names, u, 6 + SpaceRun(u, 6), 0)
  {
    var w := u + tail;
    var n := SpaceRun(u, 6);
    GapRunSame(w, u, 6);
    forall i | 0 <= i < |names|
      ensures OccursAt(w, names[i], 6 + n) <==> OccursAt(u, names[i], 6 + n)
    {
      assert NameLike(names[i]);
      OccursAcross(u, tail, names[i], 6 + n);
    }
    FirstNameSame(names, w, 6 + n, u, 6 + n, 0);
  }

  /** When the white space after the keyword runs to the end of u, the tail's
      space extends it and its f cannot begin a name; u has no room for one. */
  lemma NameAcrossEnd(names: seq<string>, u: string, tail: string)
    requires NamesLike(names)
    requires |tail| >= 2 && tail[0] == ' ' && Lower(tail[1]) == 'f'
    requires 6 <= |u| && 6 + SpaceRun(u, 6) == |u|
    ensures SpaceRun(u + tail, 6) == SpaceRun(u, 6) + 1
    ensures FirstName(names, u + tail, |u| + 1, 0).None?
    ensures FirstName(names, u, |u|, 0).None?
  {
    var w := u + tail;
    assert w[|u|] == ' ' && w[|u| + 1] == tail[1];
    GapRunSame(w, u, 6);
    forall i | 0 <= i < |names|
      ensures !OccursAt(w, names[i], |u| + 1) && !OccursAt(u, names[i], |u|)
    {
      assert NameLike(names[i]);
      if |u| + 1 + |names[i]| <= |w| {
        assert w[|u| + 1..|u| + 1 + |names[i]|][0] == tail[1];
      }
    }
    NoFirstName(names, w, |u| + 1, 0);
    NoFirstName(names, u, |u|, 0);
  }

  /** FirstName finds nothing where no name occurs. */
  lemma {:induction false} NoFirstName(names: seq<string>, s: string, q: nat, from: nat)
    requires from <= |names|
    requires forall i :: from <= i < |names| ==> !OccursAt(s, names[i], q)
    ensures FirstName(names, s, q, from).None?
    decreases |names| - from
  {
    if from < |names| {
      NoFirstName(names, s, q, from + 1);
    }
  }

  /** Two texts that agree up to the first non-space character after q have
      the same white-space run at q. */
  lemma {:induction false} GapRunSame(w: string, u: string, q: nat)
    requires q <= |u| <= |w|
    requires forall k :: 0 <= k < |u| ==> w[k] == u[k]
    requires q + SpaceRun(u, q) < |u| || (|u| + 1 < |w| && w[|u|] == ' ' && !IsSpace(w[|u| + 1]))
    ensures q + SpaceRun(u, q) < |u| ==> SpaceRun(w, q) == SpaceRun(u, q)
    ensures q + SpaceRun(u, q) == |u| ==> SpaceRun(w, q) == SpaceRun(u, q) + 1
    decreases |u| - q
  {
    if q < |u| && IsSpace(u[q]) {
      GapRunSame(w, u, q + 1);
    }
  }

  /** No clause starts before a position where, up to it, no character is an f. */
  lemma NoClauseBefore(names: seq<string>, s: string, bound: nat)
    requires bound <= |s|
    requires forall k :: 0 <= k < bound ==> Lower(s[k]) != 'f'
    ensures forall p :: 0 <= p < bound ==> ClauseAtFront(names, s[p..]).None?
  {
    forall p | 0 <= p < bound
      ensures !OccursAt(s[p..], "FORMAT", 0)
    {
      if 6 <= |s[p..]| {
        assert s[p..][0 + 0] == s[p] && Lower("FORMAT"[0]) == 'f';
      }
    }
  }

  /** Text without the letter f holds no clause. */
  lemma NoClauseWithoutF(names: seq<string>, u: string)
    requires forall k :: 0 <= k < |u| ==> Lower(u[k]) != 'f'
    ensures FindClause(names, u).None?
  {
    NoClauseBefore(names, u, |u|);
    assert !OccursAt(u[|u|..], "FORMAT", 0);
  }

  /** The clause ` FORMAT <rest>` placed after text u is the one found, when u
      has no clause of its own and rest starts with the name names[j] and with
      no name listed before it. */
  lemma ClauseAfter(names: seq<string>, u: string, rest: string, j: nat)
    requires NamesLike(names) && FindClause(names, u).None?
    requires j < |names| && OccursAt(rest, names[j], 0)
    requires forall i :: 0 <= i < j ==> !OccursAt(rest, names[i], 0)
    ensures FindClause(names, u + " FORMAT " + rest) == Some((|u| + 1, Clause(1, j)))
  {
    var s := u + " FORMAT " + rest;
    assert s[|u| + 1..] == "FORMAT " + rest;
    KeywordClause(names, rest, j);
    forall p | 0 <= p <= |u|
      ensures ClauseAtFront(names, s[p..]).None?
    {
      assert s[p..] == u[p..] + (" FORMAT " + rest);
      ClauseAcross(names, u[p..], " FORMAT " + rest);
    }
    FoundAt(names, s, |u| + 1, Clause(1, j));
  }

  /** The clause found is the one at the first position that holds one. */
  lemma {:induction false} FoundAt(names: seq<string>, s: string, p: nat, c: Clause)
    requires p <= |s| && ClauseAtFront(names, s[p..]) == Some(c)
    requires forall i :: 0 <= i < p ==> ClauseAtFront(names, s[i..]).None?
    ensures FindClause(names, s) == Some((p, c))
  {
    FoundFrom(names, s, 0, p, c);
  }

  lemma {:induction false} FoundFrom(names: seq<string>, s: string, from: nat, p: nat, c: Clause)
    requires from <= p <= |s| && ClauseAtFront(names, s[p..]) == Some(c)
    requires forall i :: from <= i < p ==> ClauseAtFront(names, s[i..]).None?
    ensures FindClauseFrom(names, s, from) == Some((p, c))
    decreases p - from
  {
    if from < p {
      FoundFrom(names, s, from + 1, p, c);
    }
  }

  /** `FORMAT <rest>` with one space matches at its front, taking the first
      name rest starts with. */
  lemma KeywordClause(names: seq<string>, rest: string, j: nat)
    requires NamesLike(names)
    requires j < |names| && OccursAt(rest, names[j], 0)
    requires forall i :: 0 <= i < j ==> !OccursAt(rest, names[i], 0)
    ensures ClauseAtFront(names, "FORMAT " + rest) == Some(Clause(1, j))
  {
    var w := "FORMAT " + rest;
    assert w[..6] == "FORMAT";
    assert NameLike(names[j]);
    assert rest[0..|names[j]|][0] == rest[0];
    LowerLetter(rest[0], names[j][0]);
    assert SpaceRun(w, 6) == 1 by {
      assert w[6] == ' ' && w[7] == rest[0];
    }
    NameAfterKeyword(names, rest);
    FirstNameIs(names, rest, 0, 0, j);
    FirstNameSame(names, w, 7, rest, 0, 0);
  }

  lemma NameAfterKeyword(names: seq<string>, rest: string)
    ensures forall i :: 0 <= i < |names| ==>
      (OccursAt("FORMAT " + rest, names[i], 7) <==> OccursAt(rest, names[i], 0))
  {
    var w := "FORMAT " + rest;
    forall i | 0 <= i < |names|
      ensures OccursAt(w, names[i], 7) <==> OccursAt(rest, names[i], 0)
    {
      if 7 + |names[i]| <= |w| {
        assert w[7..7 + |names[i]|] == rest[0..|names[i]|];
      }
    }
  }

  /** Text that holds just a listed name (in any case) starts with that name
      and with no name listed before it. */
  lemma ListedNameFirst(names: seq<string>, f: string, j: nat)
    requires PrefixFree(names)
    requires j < |names| && EqualsIgnoreCase(f, names[j])
    ensures OccursAt(f, names[j], 0)
    ensures forall i :: 0 <= i < j ==> !OccursAt(f, names[i], 0)
  {
    assert f[0..|f|] == f;
    forall i | 0 <= i < j
      ensures !OccursAt(f, names[i], 0)
    {
      var a := names[i];
      assert !PrefixIgnoreCase(a, names[j]);
      if |a| <= |f| {
        assert forall k :: 0 <= k < |a| ==> f[0..|a|][k] == f[k] && names[j][..|a|][k] == names[j][k];
      }
    }
  }

  /** The clause ` FORMAT <rest>` after u, with its one space, adopts the
      name as rest writes it. */
  lemma AdoptedAfterKeyword(names: seq<string>, u: string, rest: string, j: nat)
    requires NamesLike(names) && j < |names|
    requires ClauseAtFront(names, (u + " FORMAT " + rest)[|u| + 1..]) == Some(Clause(1, j))
    ensures |names[j]| <= |rest|
    ensures Adopted(names, u + " FORMAT " + rest, |u| + 1, Clause(1, j)) == rest[..|names[j]|]
  {
    KeywordText(u, rest);
    AdoptedBeforeRest(names, u + " FORMAT " + rest, |u| + 1, j, rest);
  }

  /** The same, for any text s whose clause at p has one space and rest after it. */
  lemma AdoptedBeforeRest(names: seq<string>, s: string, p: nat, j: nat, rest: string)
    requires NamesLike(names) && j < |names|
    requires p + 7 <= |s| && s[p + 6] == ' ' && s[p + 7..] == rest
    requires ClauseAtFront(names, s[p..]) == Some(Clause(1, j))
    ensures |names[j]| <= |rest|
    ensures Adopted(names, s, p, Clause(1, j)) == rest[..|names[j]|]
  {
    var c := Clause(1, j);
    AdoptedAfterSpace(names, s, p, c);
    assert s[p + 7..p + ClauseLength(names, c)] == s[p + 7..][..ClauseLength(names, c) - 7];
  }

  /** The text of ` FORMAT <rest>` after u. */
  lemma KeywordText(u: string, rest: string)
    ensures var s := u + " FORMAT " + rest;
      |s| == |u| + 8 + |rest| && s[|u| + 7] == ' ' && s[|u| + 8..] == rest
  {
  }

  /** A clause whose white space is one space adopts the name right after it. */
  lemma AdoptedAfterSpace(names: seq<string>, s: string, p: nat, c: Clause)
    requires NamesLike(names)
    requires p <= |s| && ClauseAtFront(names, s[p..]) == Some(c)
    requires c.gap == 1 && s[p + 6] == ' '
    ensures Adopted(names, s, p, c) == s[p + 7..p + ClauseLength(names, c)]
  {
    AdoptedIsNameTail(names, s, p, c);
    assert Matched(names, s, p, c)[7..] == s[p + 7..p + ClauseLength(names, c)];
  }
}
