/**
 * How a statement turns a failed response into an exception
 * (src/Statement.php:130-197): the transport result is an input record, the
 * server's error text is parsed by a hand-written matcher for the one pattern
 * the client uses, and the outcome is the exception the client would raise.
 */
module StatementErrors {
  import opened Outcomes
  import opened PhpText
  import opened PhpValues

  /** What the transport reports about one request. */
  datatype Response = Response(
    present: bool,     // isResponseExists()
    httpCode: int,     // http_code()
    errorNo: int,      // error_no(), the transport's error number
    errorText: string, // error(), the transport's error message
    body: string,      // body()
    payload: Value)    // rawDataOrJson($format): the body, or the decoded JSON

  /** The exceptions a statement raises. */
  datatype Failure =
    | NoResponse                                 // QueryException::noResponse()
    | QueryFailed(code: int, message: string)    // QueryException($message, $code)
    | DatabaseFailed(code: int, message: string) // DatabaseException($message, $code)
    | MissingMeta                                // QueryException('Can`t find meta')
    | NotText                                    // trim() of a decoded array: a TypeError
    | NotArray                                   // array_keys() of a non-array: a TypeError
    | IllegalOffset                              // an array used as an array key: a TypeError

  // ---------------------------------------------------------------- parseErrorClickHouse

  /** Where the message starts when the header
      `Code: <digits>,<one \s>e.displayText() =\s*DB::Exception\s*:\s*`
      matches at p, with the digits. */
  function HeaderAt(s: string, p: nat): (r: Option<(string, nat)>)
    requires p <= |s|
    ensures r.Some? ==> p + 6 + |r.value.0| < r.value.1 <= |s|
    ensures r.Some? ==> r.value.0 != [] && forall k :: 0 <= k < |r.value.0| ==> IsDigit(r.value.0[k])
    ensures r.Some? ==> OccursAt(s, "code: ", p) && s[p + 6..p + 6 + |r.value.0|] == r.value.0
  {
    if !OccursAt(s, "code: ", p) then None else CodeAt(s, p + 6)
  }

  /** The digits and where the message starts when
      `<digits>,<one \s>e.displayText() =\s*DB::Exception\s*:\s*` matches at q. */
  function CodeAt(s: string, q: nat): (r: Option<(string, nat)>)
    requires q <= |s|
    ensures r.Some? ==> q + |r.value.0| < r.value.1 <= |s|
    ensures r.Some? ==> r.value.0 != [] && forall k :: 0 <= k < |r.value.0| ==> IsDigit(r.value.0[k])
    ensures r.Some? ==> s[q..q + |r.value.0|] == r.value.0
  {
    DigitRunDigits(s, q);
    var d := DigitRun(s, q);
    if d == 0 then None
    else
      match CommaAt(s, q + d)
      case None => None
      case Some(m) => Some((s[q..q + d], m))
  }

  /** Where the message starts when
      `,<one \s>e.displayText() =\s*DB::Exception\s*:\s*` matches at c. */
  function CommaAt(s: string, c: nat): (r: Option<nat>)
    requires c <= |s|
    ensures r.Some? ==> c < r.value <= |s|
  {
    if c + 1 >= |s| || s[c] != ',' || !IsSpace(s[c + 1]) then None
    else HeaderTail(s, c + 2)
  }

  /** Where the message starts when `e.displayText() =\s*DB::Exception\s*:\s*`
      matches at i. */
  function HeaderTail(s: string, i: nat): (r: Option<nat>)
    requires i <= |s|
    ensures r.Some? ==> i < r.value <= |s|
  {
    if !OccursAt(s, "e.displaytext() =", i) then None
    else AfterDisplayText(s, i + 17 + SpaceRun(s, i + 17))
  }

  /** Where the message starts when `DB::Exception\s*:\s*` matches at j. */
  function AfterDisplayText(s: string, j: nat): (r: Option<nat>)
    requires j <= |s|
    ensures r.Some? ==> j < r.value <= |s|
  {
    if !OccursAt(s, "db::exception", j) then None
    else ColonAt(s, j + 13 + SpaceRun(s, j + 13))
  }

  /** Where the message starts when `:\s*` matches at k. */
  function ColonAt(s: string, k: nat): (r: Option<nat>)
    requires k <= |s|
    ensures r.Some? ==> k < r.value <= |s|
  {
    if k >= |s| || s[k] != ':' then None
    else Some(k + 1 + SpaceRun(s, k + 1))
  }

  /** A comma at q followed by `\s*e.what`, which may end the message. */
  predicate WhatAt(s: string, q: nat) {
    q < |s| && s[q] == ',' && OccursAt(s, "e.what", q + 1 + SpaceRun(s, q + 1))
  }

  /** The last q with m <= q < hi that may end the message: `(.*)` is greedy. */
  function LastWhat(s: string, m: nat, hi: nat): (r: Option<nat>)
    requires hi <= |s|
    ensures r.Some? ==> m <= r.value < hi
    decreases hi
  {
    if hi <= m then None
    else if WhatAt(s, hi - 1) then Some(hi - 1)
    else LastWhat(s, m, hi - 1)
  }

  /** LastWhat finds a position that may end the message with none after it,
      and finds nothing only when no position from m on may end it. */
  lemma LastWhatFound(s: string, m: nat, hi: nat)
    requires hi <= |s|
    ensures var r := LastWhat(s, m, hi);
      (r.Some? ==> WhatAt(s, r.value) && forall q :: r.value < q < hi ==> !WhatAt(s, q)) &&
      (r.None? ==> forall q :: m <= q < hi ==> !WhatAt(s, q))
  {
    if LastWhat(s, m, hi).Some? {
      LastWhatIsLast(s, m, hi);
    } else {
      LastWhatNone(s, m, hi);
    }
  }

  lemma {:induction false} LastWhatIsLast(s: string, m: nat, hi: nat)
    requires hi <= |s| && LastWhat(s, m, hi).Some?
    ensures WhatAt(s, LastWhat(s, m, hi).value)
    ensures forall q :: LastWhat(s, m, hi).value < q < hi ==> !WhatAt(s, q)
    decreases hi
  {
    if !WhatAt(s, hi - 1) {
      LastWhatIsLast(s, m, hi - 1);
    }
  }

  lemma {:induction false} LastWhatNone(s: string, m: nat, hi: nat)
    requires hi <= |s| && LastWhat(s, m, hi).None?
    ensures forall q :: m <= q < hi ==> !WhatAt(s, q)
    decreases hi
  {
    if m < hi {
      LastWhatNone(s, m, hi - 1);
    }
  }

  /** A match that starts at the front of u: the code's digits and the message. */
  function MatchFront(u: string): (r: Option<(string, string)>)
    ensures r.Some? ==> r.value.0 != [] && forall k :: 0 <= k < |r.value.0| ==> IsDigit(r.value.0[k])
  {
    match HeaderAt(u, 0)
    case None => None
    case Some((digits, m)) =>
      match LastWhat(u, m, |u|)
      case None => None
      case Some(q) => Some((digits, u[m..q]))
  }

  /** The leftmost match from p on: the code's digits and the message. */
  function ParseFrom(s: string, p: nat): (r: Option<(string, string)>)
    requires p <= |s|
    ensures r.Some? ==> r.value.0 != [] && forall k :: 0 <= k < |r.value.0| ==> IsDigit(r.value.0[k])
    decreases |s| - p
  {
    match MatchFront(s[p..])
    case Some(found) => Some(found)
    case None => if p == |s| then None else ParseFrom(s, p + 1)
  }

  /** parseErrorClickHouse($body): the code's digits and the message, or false. */
  function ParseErrorClickHouse(body: string): (r: Option<(string, string)>)
    ensures r.Some? ==> r.value.0 != [] && forall k :: 0 <= k < |r.value.0| ==> IsDigit(r.value.0[k])
  {
    ParseFrom(Trim(body), 0)
  }

  /** The text the server sends for an exception, as in the examples the
      parser was written for. */
  function Render(code: nat, message: string): string {
    RenderDigits(NatToString(code), message)
  }

  /** The same text, for a code already written as decimal digits. */
  function RenderDigits(d: string, message: string): string {
    RenderHead(d) + message + RenderTail()
  }

  function RenderHead(d: string): string {
    "Code: " + d + ", " + DisplayText + " " + DbException + ": "
  }

  function RenderTail(): string {
    ", " + What + "() = " + DbException
  }

  const DisplayText: string := "e.displayText() ="
  const DbException: string := "DB::Exception"
  const What: string := "e.what"

  /** A non-empty run of decimal digits. */
  predicate IsDigits(d: string) {
    d != [] && forall k :: 0 <= k < |d| ==> IsDigit(d[k])
  }

  /** Parsing a server error gives back its code and its message — the whole
      message, up to the last `, e.what`, even when the message itself holds
      one — provided the message does not start with white space, which the
      pattern's `\s*` would take. */
  lemma ParseRendered(code: nat, message: string)
    requires message == [] || !IsSpace(message[0])
    ensures ParseErrorClickHouse(Render(code, message)) == Some((NatToString(code), message))
  {
    ParseRenderedDigits(NatToString(code), message);
  }

  lemma ParseRenderedDigits(d: string, message: string)
    requires IsDigits(d)
    requires message == [] || !IsSpace(message[0])
    ensures ParseErrorClickHouse(RenderDigits(d, message)) == Some((d, message))
  {
    var n, w := |d| + 41, |d| + 41 + |message|;
    RenderedIsTrimmed(d, message);
    RenderedHeader(d, message);
    RenderedLastWhat(d, message, n, w);
    ParseTrimmed(RenderDigits(d, message), d, n, w, message);
  }

  /** Text that trim() leaves alone, with the header at its front ending at m
      and the message running from there to the last comma that may end it,
      parses to the header's digits and that message. */
  lemma ParseTrimmed(s: string, digits: string, m: nat, q: nat, message: string)
    requires ParseErrorClickHouse(s) == ParseFrom(s, 0)
    requires HeaderAt(s, 0) == Some((digits, m))
    requires m <= q <= |s| && s[m..q] == message
    requires LastWhat(s, m, |s|) == Some(q)
    ensures ParseErrorClickHouse(s) == Some((digits, message))
  {
    ParseAtStart(s, digits, m, q);
  }

  /** A match at the front: the header ends at m, and the message runs from
      there to the last comma that may end it, at q. */
  lemma ParseAtStart(s: string, digits: string, m: nat, q: nat)
    requires HeaderAt(s, 0) == Some((digits, m))
    requires m <= q <= |s|
    requires LastWhat(s, m, |s|) == Some(q)
    ensures ParseFrom(s, 0) == Some((digits, s[m..q]))
  {
    assert s[0..] == s;
  }

  /** The message of a rendered error runs up to the comma of its tail. */
  lemma RenderedLastWhat(d: string, message: string, n: nat, w: nat)
    requires n == |d| + 41 && w == n + |message|
    ensures w < |RenderDigits(d, message)|
    ensures RenderDigits(d, message)[n..w] == message
    ensures LastWhat(RenderDigits(d, message), n, |RenderDigits(d, message)|) == Some(w)
  {
    assert |RenderHead(d)| == n;
    PieceAt(RenderDigits(d, message), RenderHead(d), message, RenderTail());
    RenderTailShape();
    LastWhatBeforeTail(RenderHead(d) + message, RenderTail(), RenderDigits(d, message), n);
  }

  /** The tail starts with the comma that may end the message and holds no other comma. */
  lemma RenderTailShape()
    ensures |RenderTail()| >= 8 && RenderTail()[..8] == ", " + What
    ensures ',' !in RenderTail()[1..]
  {
  }

  /** Before a tail shaped like the rendered one, the message ends where the tail starts. */
  lemma LastWhatBeforeTail(front: string, tail: string, s: string, m: nat)
    requires s == front + tail && m <= |front|
    requires |tail| >= 8 && tail[..8] == ", " + What
    requires ',' !in tail[1..]
    ensures LastWhat(s, m, |s|) == Some(|front|)
  {
    var q := |front|;
    assert s[q..q + 8] == tail[..8];
    WhatMatches();
    assert s[q] == ',' && s[q + 1] == ' ' && s[q + 2] == 'e';
    assert SpaceRun(s, q + 1) == 1;
    assert s[q + 2..q + 8] == What;
    assert s[q + 1..] == tail[1..];
    LastWhatAt(s, m, q);
  }

  /** A rendered error has nothing for trim() to strip. */
  lemma RenderedIsTrimmed(d: string, message: string)
    ensures ParseErrorClickHouse(RenderDigits(d, message)) == ParseFrom(RenderDigits(d, message), 0)
  {
    var s := RenderDigits(d, message);
    assert s[0] == 'C';
    assert s[|s| - 1] == DbException[12] == 'n';
    StripPadded([], s, [], TrimSet);
    assert [] + s + [] == s;
  }

  lemma DisplayTextMatches()
    ensures EqualsIgnoreCase(DisplayText, "e.displaytext() =")
  {
  }

  lemma DbExceptionMatches()
    ensures EqualsIgnoreCase(DbException, "db::exception")
  {
  }

  lemma CodeMatches()
    ensures EqualsIgnoreCase("Code: ", "code: ")
  {
  }

  lemma WhatMatches()
    ensures EqualsIgnoreCase(What, "e.what")
  {
  }

  /** The header of a match at 0, from the facts about each of its parts. */
  lemma HeaderFromParts(s: string, n: nat, m: nat)
    requires n > 0 && n + 41 <= m <= |s|
    requires OccursAt(s, "code: ", 0) && DigitRun(s, 6) == n
    requires s[6 + n] == ',' && IsSpace(s[7 + n])
    requires OccursAt(s, "e.displaytext() =", n + 8) && SpaceRun(s, n + 25) == 1
    requires OccursAt(s, "db::exception", n + 26) && SpaceRun(s, n + 39) == 0
    requires s[n + 39] == ':' && n + 40 + SpaceRun(s, n + 40) == m
    ensures HeaderAt(s, 0) == Some((s[6..6 + n], m))
  {
  }

  /** s holds w at i. */
  lemma PieceAt(s: string, a: string, w: string, c: string)
    requires s == a + w + c
    ensures s[|a|..|a| + |w|] == w
  {
  }

  lemma RenderedHeader(d: string, message: string)
    requires IsDigits(d)
    requires message == [] || !IsSpace(message[0])
    ensures HeaderAt(RenderDigits(d, message), 0) == Some((d, |d| + 41))
  {
    var after := message + RenderTail();
    assert !IsSpace(after[0]);
    assert RenderDigits(d, message) == RenderHead(d) + after;
    HeaderOf(d, after, RenderDigits(d, message));
  }

  /** The header matches at the front of a rendered error, whatever follows it. */
  lemma HeaderOf(d: string, after: string, s: string)
    requires IsDigits(d)
    requires after != [] && !IsSpace(after[0])
    requires s == "Code: " + d + ", " + DisplayText + " " + DbException + ": " + after
    ensures HeaderAt(s, 0) == Some((d, |d| + 41))
  {
    var n := |d|;
    HeaderCode(d, after, s);
    HeaderDisplay(d, after, s);
    HeaderDb(d, after, s);
    HeaderFromParts(s, n, n + 41);
  }

  /** The code part of the rendered header. */
  lemma HeaderCode(d: string, after: string, s: string)
    requires IsDigits(d)
    requires s == "Code: " + d + ", " + DisplayText + " " + DbException + ": " + after
    ensures |s| >= |d| + 41
    ensures OccursAt(s, "code: ", 0) && DigitRun(s, 6) == |d| && s[6..6 + |d|] == d && s[6 + |d|] == ','
  {
    var b := ", " + DisplayText + " " + DbException + ": " + after;
    Regroup6("Code: " + d, ", ", DisplayText, " ", DbException, ": ", after);
    CodePart(d, b, s);
  }

  /** The display-text part of the rendered header. */
  lemma HeaderDisplay(d: string, after: string, s: string)
    requires s == "Code: " + d + ", " + DisplayText + " " + DbException + ": " + after
    ensures IsSpace(s[|d| + 7]) && OccursAt(s, "e.displaytext() =", |d| + 8) && SpaceRun(s, |d| + 25) == 1
  {
    var a1 := "Code: " + d + ", ";
    var c := " " + DbException + ": " + after;
    Regroup4(a1 + DisplayText, " ", DbException, ": ", after);
    DisplayPart(a1, c, s);
  }

  /** The exception-name part of the rendered header. */
  lemma HeaderDb(d: string, after: string, s: string)
    requires after != [] && !IsSpace(after[0])
    requires s == "Code: " + d + ", " + DisplayText + " " + DbException + ": " + after
    ensures OccursAt(s, "db::exception", |d| + 26) && SpaceRun(s, |d| + 39) == 0
    ensures s[|d| + 39] == ':' && SpaceRun(s, |d| + 40) == 1
  {
    var a2 := "Code: " + d + ", " + DisplayText + " ";
    var c := ": " + after;
    DbPart(a2, c, s);
  }

  lemma Regroup4(p: string, a: string, b: string, c: string, e: string)
    ensures p + a + b + c + e == p + (a + b + c + e)
  {
  }

  lemma Regroup6(p: string, a: string, b: string, c: string, e: string, g: string, h: string)
    ensures p + a + b + c + e + g + h == p + (a + b + c + e + g + h)
  {
  }

  lemma CodePart(d: string, b: string, s: string)
    requires d != [] && forall k :: 0 <= k < |d| ==> IsDigit(d[k])
    requires |b| >= 2 && b[0] == ','
    requires s == "Code: " + d + b
    ensures OccursAt(s, "code: ", 0) && DigitRun(s, 6) == |d| && s[6..6 + |d|] == d
    ensures s[6 + |d|] == ','
  {
    PieceAt(s, [], "Code: ", d + b);
    CodeMatches();
    PieceAt(s, "Code: ", d, b);
    DigitRunStops(s, 6, |d|);
  }

  lemma DisplayPart(a: string, c: string, s: string)
    requires |a| >= 8 && a[|a| - 2] == ',' && a[|a| - 1] == ' '
    requires |c| >= 2 && c[0] == ' ' && c[1] == 'D'
    requires s == a + DisplayText + c
    ensures IsSpace(s[|a| - 1])
    ensures OccursAt(s, "e.displaytext() =", |a|) && SpaceRun(s, |a| + 17) == 1
  {
    PieceAt(s, a, DisplayText, c);
    DisplayTextMatches();
    assert s[|a| + 17] == ' ' && s[|a| + 18] == 'D';
  }

  lemma DbPart(a: string, c: string, s: string)
    requires |a| >= 1 && a[|a| - 1] == ' '
    requires |c| >= 3 && c[0] == ':' && c[1] == ' ' && !IsSpace(c[2])
    requires s == a + DbException + c
    ensures OccursAt(s, "db::exception", |a|) && SpaceRun(s, |a| + 13) == 0
    ensures s[|a| + 13] == ':' && SpaceRun(s, |a| + 14) == 1
  {
    PieceAt(s, a, DbException, c);
    DbExceptionMatches();
    assert s[|a| + 13] == ':' && s[|a| + 14] == ' ' && s[|a| + 15] == c[2];
  }

  /** A run of digits ended by a non-digit is the whole digit run. */
  lemma DigitRunStops(s: string, q: nat, n: nat)
    requires q + n < |s|
    requires forall k :: q <= k < q + n ==> IsDigit(s[k])
    requires !IsDigit(s[q + n])
    ensures DigitRun(s, q) == n
    decreases n
  {
    if n > 0 {
      DigitRunStops(s, q + 1, n - 1);
    }
  }

  lemma LastWhatAt(s: string, m: nat, q: nat)
    requires m <= q < |s| && WhatAt(s, q)
    requires ',' !in s[q + 1..]
    ensures LastWhat(s, m, |s|) == Some(q)
  {
    forall r | q < r < |s|
      ensures !WhatAt(s, r)
    {
      assert s[r] == s[q + 1..][r - q - 1];
    }
    LastWhatDown(s, m, q, |s|);
  }

  lemma {:induction false} LastWhatDown(s: string, m: nat, q: nat, hi: nat)
    requires m <= q < hi <= |s| && WhatAt(s, q)
    requires forall r :: q < r < hi ==> !WhatAt(s, r)
    ensures LastWhat(s, m, hi) == Some(q)
    decreases hi
  {
    if hi - 1 != q {
      LastWhatDown(s, m, q, hi - 1);
    }
  }

  // ---------------------------------------------------------------- an unanchored, case-insensitive search

  /** s with every ASCII capital letter made small: strtolower. */
  function Folded(s: string): seq<char> {
    seq(|s|, i requires 0 <= i < |s| => Lower(s[i]))
  }

  /** s and t are the same text up to ASCII letter case. */
  predicate Alike(s: string, t: string) {
    Folded(s) == Folded(t)
  }

  /** Texts equal up to case in the sense of stripos are alike. */
  lemma IgnoreCaseAlike(a: string, b: string)
    requires EqualsIgnoreCase(a, b)
    ensures Alike(a, b)
  {
    forall i | 0 <= i < |a|
      ensures Folded(a)[i] == Folded(b)[i]
    {
    }
  }

  lemma AlikeLength(s: string, t: string)
    requires Alike(s, t)
    ensures |s| == |t|
  {
    assert |Folded(s)| == |s|;
  }

  /** Characters equal up to case are equal unless both are letters. */
  lemma SameUnlessLetters(c: char, d: char)
    requires Lower(c) == Lower(d)
    ensures c == d || (('A' <= c <= 'Z' || 'a' <= c <= 'z') && ('A' <= d <= 'Z' || 'a' <= d <= 'z'))
  {
  }

  /** Alike texts have characters equal up to case at the same place. */
  lemma AlikeChar(s: string, t: string, i: nat)
    requires Alike(s, t) && i < |s|
    ensures i < |t| && Lower(s[i]) == Lower(t[i])
  {
    AlikeLength(s, t);
    assert Folded(s)[i] == Folded(t)[i];
  }

  /** Alike texts have white space at the same places. */
  lemma AlikeSpace(s: string, t: string, i: nat)
    requires Alike(s, t) && i < |s|
    ensures i < |t| && (IsSpace(s[i]) <==> IsSpace(t[i]))
  {
    AlikeChar(s, t, i);
    SameUnlessLetters(s[i], t[i]);
  }

  /** Alike texts have the same digits at the same places. */
  lemma AlikeDigit(s: string, t: string, i: nat)
    requires Alike(s, t) && i < |s|
    ensures i < |t| && (IsDigit(s[i]) <==> IsDigit(t[i]))
    ensures IsDigit(s[i]) ==> t[i] == s[i]
  {
    AlikeChar(s, t, i);
    SameUnlessLetters(s[i], t[i]);
  }

  /** Alike texts have a given mark that is not a letter at the same places. */
  lemma AlikeMark(s: string, t: string, i: nat, c: char)
    requires Alike(s, t) && i < |s|
    requires !('A' <= c <= 'Z' || 'a' <= c <= 'z')
    ensures i < |t| && (s[i] == c <==> t[i] == c)
  {
    AlikeChar(s, t, i);
    SameUnlessLetters(s[i], t[i]);
  }

  /** The same stretch of alike texts is equal up to case. */
  lemma AlikeSlice(s: string, t: string, i: nat, j: nat)
    requires Alike(s, t) && i <= j <= |s|
    ensures j <= |t| && EqualsIgnoreCase(s[i..j], t[i..j])
  {
    AlikeLength(s, t);
    var a, b := s[i..j], t[i..j];
    forall k | 0 <= k < j - i
      ensures Lower(a[k]) == Lower(b[k])
    {
      AlikeChar(s, t, i + k);
    }
  }

  lemma AlikeOccurs(s: string, t: string, pat: string, i: nat)
    requires Alike(s, t)
    ensures OccursAt(s, pat, i) == OccursAt(t, pat, i)
  {
    AlikeLength(s, t);
    if i + |pat| <= |s| {
      forall k | 0 <= k < |pat|
        ensures Lower(s[i + k]) == Lower(pat[k]) <==> Lower(t[i + k]) == Lower(pat[k])
      {
        AlikeChar(s, t, i + k);
      }
    }
  }

  lemma {:induction false} AlikeSpaceRun(s: string, t: string, i: nat)
    requires Alike(s, t) && i <= |s|
    ensures i <= |t| && SpaceRun(s, i) == SpaceRun(t, i)
    decreases |s| - i
  {
    AlikeLength(s, t);
    if i < |s| {
      AlikeSpace(s, t, i);
      if IsSpace(s[i]) {
        AlikeSpaceRun(s, t, i + 1);
      }
    }
  }

  lemma {:induction false} AlikeDigitRun(s: string, t: string, i: nat)
    requires Alike(s, t) && i <= |s|
    ensures i <= |t| && DigitRun(s, i) == DigitRun(t, i)
    ensures s[i..i + DigitRun(s, i)] == t[i..i + DigitRun(s, i)]
    decreases |s| - i
  {
    AlikeLength(s, t);
    if i < |s| {
      AlikeDigit(s, t, i);
      if IsDigit(s[i]) {
        AlikeDigitRun(s, t, i + 1);
        var n := DigitRun(s, i + 1);
        assert s[i..i + 1 + n] == [s[i]] + s[i + 1..i + 1 + n];
        assert t[i..i + 1 + n] == [t[i]] + t[i + 1..i + 1 + n];
      }
    }
  }

  /** The part of the header after the comma and the white-space character
      matches alike texts at the same place, ending at the same place. */
  lemma AlikeHeaderTail(s: string, t: string, i: nat)
    requires Alike(s, t) && i <= |s|
    ensures i <= |t| && HeaderTail(s, i) == HeaderTail(t, i)
  {
    AlikeLength(s, t);
    AlikeOccurs(s, t, "e.displaytext() =", i);
    if OccursAt(s, "e.displaytext() =", i) {
      AlikeSpaceRun(s, t, i + 17);
      AlikeAfterDisplayText(s, t, i + 17 + SpaceRun(s, i + 17));
    }
  }

  lemma AlikeAfterDisplayText(s: string, t: string, j: nat)
    requires Alike(s, t) && j <= |s|
    ensures j <= |t| && AfterDisplayText(s, j) == AfterDisplayText(t, j)
  {
    AlikeLength(s, t);
    AlikeOccurs(s, t, "db::exception", j);
    if OccursAt(s, "db::exception", j) {
      AlikeSpaceRun(s, t, j + 13);
      AlikeColon(s, t, j + 13 + SpaceRun(s, j + 13));
    }
  }

  lemma AlikeColon(s: string, t: string, k: nat)
    requires Alike(s, t) && k <= |s|
    ensures k <= |t| && ColonAt(s, k) == ColonAt(t, k)
  {
    AlikeLength(s, t);
    if k < |s| {
      AlikeMark(s, t, k, ':');
      AlikeSpaceRun(s, t, k + 1);
    }
  }

  /** The header matches alike texts at the same place, with the same digits. */
  lemma AlikeHeader(s: string, t: string, i: nat)
    requires Alike(s, t) && i <= |s|
    ensures i <= |t| && HeaderAt(s, i) == HeaderAt(t, i)
  {
    AlikeLength(s, t);
    AlikeOccurs(s, t, "code: ", i);
    if OccursAt(s, "code: ", i) {
      AlikeCode(s, t, i + 6);
    }
  }

  lemma AlikeCode(s: string, t: string, q: nat)
    requires Alike(s, t) && q <= |s|
    ensures q <= |t| && CodeAt(s, q) == CodeAt(t, q)
  {
    AlikeLength(s, t);
    AlikeDigitRun(s, t, q);
    AlikeComma(s, t, q + DigitRun(s, q));
  }

  lemma AlikeComma(s: string, t: string, c: nat)
    requires Alike(s, t) && c <= |s|
    ensures c <= |t| && CommaAt(s, c) == CommaAt(t, c)
  {
    AlikeLength(s, t);
    if c + 1 < |s| {
      AlikeMark(s, t, c, ',');
      AlikeSpace(s, t, c + 1);
      AlikeHeaderTail(s, t, c + 2);
    }
  }

  lemma AlikeWhat(s: string, t: string, i: nat)
    requires Alike(s, t) && i < |s|
    ensures WhatAt(s, i) == WhatAt(t, i)
  {
    AlikeMark(s, t, i, ',');
    AlikeAfterSpace(s, t, i + 1, "e.what");
  }

  /** pat after white space from q on occurs in both alike texts or in neither. */
  lemma AlikeAfterSpace(s: string, t: string, q: nat, pat: string)
    requires Alike(s, t) && q <= |s|
    ensures q <= |t| && OccursAt(s, pat, q + SpaceRun(s, q)) == OccursAt(t, pat, q + SpaceRun(t, q))
  {
    AlikeSpaceRun(s, t, q);
    AlikeOccurs(s, t, pat, q + SpaceRun(s, q));
  }

  /** The message ends at the same place of alike texts. */
  lemma {:induction false} AlikeLastWhat(s: string, t: string, m: nat, hi: nat)
    requires Alike(s, t) && hi <= |s|
    ensures hi <= |t| && LastWhat(s, m, hi) == LastWhat(t, m, hi)
    decreases hi
  {
    AlikeLength(s, t);
    if m < hi {
      AlikeWhat(s, t, hi - 1);
      AlikeLastWhat(s, t, m, hi - 1);
    }
  }

  /** A match does not depend on letter case: alike texts both match or both
      do not, with the same code and messages equal up to case. */
  lemma AlikeMatchFront(s: string, t: string)
    requires Alike(s, t)
    ensures MatchFront(s).None? <==> MatchFront(t).None?
    ensures MatchFront(s).Some? ==> MatchFront(t).value.0 == MatchFront(s).value.0
    ensures MatchFront(s).Some? ==> EqualsIgnoreCase(MatchFront(s).value.1, MatchFront(t).value.1)
  {
    AlikeLength(s, t);
    AlikeHeader(s, t, 0);
    if HeaderAt(s, 0).Some? {
      var m := HeaderAt(s, 0).value.1;
      AlikeLastWhat(s, t, m, |s|);
      if LastWhat(s, m, |s|).Some? {
        AlikeSlice(s, t, m, LastWhat(s, m, |s|).value);
      }
    }
  }

  /** No match starts where `code: ` does not, in any letter case. */
  lemma NoCodeNoMatch(s: string, k: nat)
    requires k <= |s| && !OccursAt(s, "code: ", k)
    ensures MatchFront(s[k..]).None?
  {
    if 6 <= |s| - k {
      assert s[k..][0..6] == s[k..k + 6];
    }
  }

  /** The search is unanchored: positions where no `code: ` starts are passed over. */
  lemma {:induction false} ParseSkips(s: string, i: nat, p: nat)
    requires i <= p <= |s|
    requires forall k :: i <= k < p ==> !OccursAt(s, "code: ", k)
    ensures ParseFrom(s, i) == ParseFrom(s, p)
    decreases p - i
  {
    if i < p {
      NoCodeNoMatch(s, i);
      ParseSkips(s, i + 1, p);
    }
  }

  /** A server error is found anywhere in the body and in any letter case:
      after text in which no `Code: ` starts, an error written like the
      rendered one up to letter case parses to its code and to the text at
      the message's place, from n to w. */
  lemma ParseFoundAnywhere(pre: string, text: string, code: nat, message: string) returns (n: nat, w: nat)
    requires Alike(Render(code, message), text)
    requires message == [] || !IsSpace(message[0])
    requires forall k :: 0 <= k < |pre| ==> !OccursAt(pre + text, "code: ", k)
    ensures n == |NatToString(code)| + 41 && w == n + |message| && w <= |text|
    ensures EqualsIgnoreCase(text[n..w], message)
    ensures ParseErrorClickHouse(pre + text) == Some((NatToString(code), text[n..w]))
  {
    var d := NatToString(code);
    var r := RenderDigits(d, message);
    n := |d| + 41;
    w := n + |message|;
    RenderedAt(d, message, n, w);
    MatchInText(r, text, d, message, n, w);
    RenderedEnds(d, message);
    TextEnds(text, r);
    ParseAfterFront(pre, text);
  }

  /** After text in which no `Code: ` starts, the first match is the one at
      the front of a text that trim() does not cut into. */
  lemma ParseAfterFront(pre: string, text: string)
    requires text != [] && text[0] !in TrimSet && text[|text| - 1] !in TrimSet
    requires forall k :: 0 <= k < |pre| ==> !OccursAt(pre + text, "code: ", k)
    requires MatchFront(text).Some?
    ensures ParseErrorClickHouse(pre + text) == MatchFront(text)
  {
    var b := pre + text;
    var off := TrimmedFront(pre, text);
    var s := b[off..];
    var front := |pre| - off;
    forall k | 0 <= k < front
      ensures !OccursAt(s, "code: ", k)
    {
      NoCodeAfterTrim(b, off, k);
    }
    ParseSkips(s, 0, front);
    assert s[front..] == text;
  }

  /** trim() of text before a text that starts and ends with no character
      trim() strips drops at most the front: b[off..] for an off within pre. */
  lemma TrimmedFront(pre: string, text: string) returns (off: nat)
    requires text != [] && text[0] !in TrimSet && text[|text| - 1] !in TrimSet
    ensures off <= |pre| && Trim(pre + text) == (pre + text)[off..]
  {
    var b := pre + text;
    assert b[|pre|] == text[0];
    assert b[|b| - 1] == text[|text| - 1];
    off := StripFrom(b, |pre|, TrimSet);
  }

  /** Dropping a front of b moves every occurrence by the same amount. */
  lemma NoCodeAfterTrim(b: string, off: nat, k: nat)
    requires off + k < |b| && !OccursAt(b, "code: ", off + k)
    ensures !OccursAt(b[off..], "code: ", k)
  {
    if k + 6 <= |b| - off {
      assert b[off..][k..k + 6] == b[off + k..off + k + 6];
    }
  }

  /** A rendered error starts with `C` and ends with `n`. */
  lemma RenderedEnds(d: string, message: string)
    ensures |RenderDigits(d, message)| > 0
    ensures RenderDigits(d, message)[0] == 'C'
    ensures RenderDigits(d, message)[|RenderDigits(d, message)| - 1] == 'n'
  {
    var s := RenderDigits(d, message);
    assert s[0] == 'C';
    assert s[|s| - 1] == DbException[12] == 'n';
  }

  /** Text alike to one that starts with `C` and ends with `n` starts and
      ends with a letter, which trim() keeps. */
  lemma TextEnds(text: string, r: string)
    requires Alike(r, text) && |r| > 0 && r[0] == 'C' && r[|r| - 1] == 'n'
    ensures text != [] && text[0] !in TrimSet && text[|text| - 1] !in TrimSet
  {
    AlikeChar(r, text, 0);
    AlikeChar(r, text, |r| - 1);
    SameUnlessLetters(r[0], text[0]);
    SameUnlessLetters(r[|r| - 1], text[|text| - 1]);
  }

  /** Text alike to a text that matches at its front with the message from
      n to w, matches with the same code and the text from n to w. */
  lemma MatchInText(r: string, text: string, d: string, message: string, n: nat, w: nat)
    requires Alike(r, text)
    requires HeaderAt(r, 0) == Some((d, n)) && LastWhat(r, n, |r|) == Some(w)
    requires n <= w <= |r| && r[n..w] == message
    ensures w <= |text|
    ensures MatchFront(text) == Some((d, text[n..w]))
    ensures EqualsIgnoreCase(text[n..w], message)
  {
    MatchAlike(r, text, d, n, w);
    AlikeSlice(r, text, n, w);
    EqualsIgnoreCaseSymmetric(r[n..w], text[n..w]);
  }

  /** The facts about a rendered error, with its message from n to w. */
  lemma RenderedAt(d: string, message: string, n: nat, w: nat)
    requires IsDigits(d) && (message == [] || !IsSpace(message[0]))
    requires n == |d| + 41 && w == n + |message|
    ensures var r := RenderDigits(d, message);
      HeaderAt(r, 0) == Some((d, n)) && LastWhat(r, n, |r|) == Some(w) &&
      w <= |r| && r[n..w] == message
  {
    RenderedHeader(d, message);
    RenderedLastWhat(d, message, n, w);
  }

  /** Where one text matches at its front, an alike text matches with the
      same code and the text at the same place. */
  lemma MatchAlike(r: string, text: string, d: string, n: nat, w: nat)
    requires Alike(r, text)
    requires HeaderAt(r, 0) == Some((d, n)) && LastWhat(r, n, |r|) == Some(w)
    ensures n <= w <= |text| && MatchFront(text) == Some((d, text[n..w]))
  {
    AlikeLength(r, text);
    AlikeHeader(r, text, 0);
    AlikeLastWhat(r, text, n, |r|);
  }

  lemma EqualsIgnoreCaseSymmetric(a: string, b: string)
    requires EqualsIgnoreCase(a, b)
    ensures EqualsIgnoreCase(b, a)
  {
  }

  // ---------------------------------------------------------------- isError, error, check

  /** isError(): the HTTP code is not 200, or the transport failed. */
  predicate IsError(resp: Response) {
    resp.httpCode != 200 || resp.errorNo != 0
  }

  /** error(): false for a response that is not an error, otherwise the
      exception it raises. */
  function ErrorOutcome(resp: Response, sql: string): (r: Option<Failure>)
    ensures r.Some? <==> IsError(resp)
    ensures r.Some? ==> r.value.QueryFailed? || r.value.DatabaseFailed?
    ensures r.Some? && (resp.errorNo != 0 || !IsFalsyString(resp.errorText)) ==>
      r.value == QueryFailed(resp.errorNo, resp.errorText)
  {
    if !IsError(resp) then None
    else if resp.errorNo == 0 && IsFalsyString(resp.errorText) then
      match ParseErrorClickHouse(resp.body)
      case Some((digits, message)) => Some(DatabaseFailed(DigitsValue(digits), message + "\nIN:" + sql))
      case None => Some(QueryFailed(resp.httpCode,
                     "HttpCode:" + IntToString(resp.httpCode) + " ; " + resp.errorText + " ;" + resp.body))
    else Some(QueryFailed(resp.errorNo, resp.errorText))
  }

  /** A server error reported over HTTP without a transport failure becomes a
      DatabaseException with the server's code, and its message names the SQL. */
  lemma ServerErrorRaised(resp: Response, sql: string, code: nat, message: string)
    requires resp.httpCode != 200 && resp.errorNo == 0 && IsFalsyString(resp.errorText)
    requires resp.body == Render(code, message)
    requires message == [] || !IsSpace(message[0])
    ensures ErrorOutcome(resp, sql) == Some(DatabaseFailed(code, message + "\nIN:" + sql))
  {
    ParseRendered(code, message);
  }

  /** An HTTP failure whose body is not a server error becomes a QueryException
      carrying the HTTP code. */
  lemma HttpErrorRaised(resp: Response, sql: string)
    requires resp.httpCode != 200 && resp.errorNo == 0 && IsFalsyString(resp.errorText)
    requires ParseErrorClickHouse(resp.body).None?
    ensures ErrorOutcome(resp, sql).Some? && ErrorOutcome(resp, sql).value.QueryFailed?
    ensures ErrorOutcome(resp, sql).value.code == resp.httpCode
  {
  }

  /** check(): no response at all, or an error response, raises; otherwise
      nothing happens. */
  function CheckOutcome(resp: Response, sql: string): (r: Option<Failure>)
    ensures !resp.present ==> r == Some(NoResponse)
    ensures resp.present ==> r == ErrorOutcome(resp, sql)
    ensures r.None? <==> resp.present && !IsError(resp)
  {
    if !resp.present then Some(NoResponse) else ErrorOutcome(resp, sql)
  }
}
