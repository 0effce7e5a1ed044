/** The Python string primitives the SMS tool relies on, on `string` (a `seq<char>`):
    `str.isspace`, `str.strip`, `sub in s`, `str.startswith`, `str.split(sep)`,
    `str.splitlines` and `int(s)`. */
module PyText {

  datatype Option<+T> = None | Some(value: T)

  /** Python's `str.isspace` on one character. */
  predicate IsSpace(c: char) {
    || ('\t' <= c <= '\r')
    || ('\U{1C}' <= c <= ' ')
    || c == '\U{85}' || c == '\U{A0}' || c == '\U{1680}'
    || ('\U{2000}' <= c <= '\U{200A}')
    || c == '\U{2028}' || c == '\U{2029}' || c == '\U{202F}' || c == '\U{205F}' || c == '\U{3000}'
  }

  /** The characters at which `str.splitlines` breaks a line. */
  predicate IsLineBreak(c: char) {
    || ('\n' <= c <= '\r')
    || ('\U{1C}' <= c <= '\U{1E}')
    || c == '\U{85}' || c == '\U{2028}' || c == '\U{2029}'
  }

  predicate IsDigit(c: char) {
    '0' <= c <= '9'
  }

  // ---------------------------------------------------------------------------
  // strip

  /** The index of the first character at or after `i` that is not whitespace (`|s|` if none). */
  function SkipSpaces(s: string, i: nat): (j: nat)
    requires i <= |s|
    ensures i <= j <= |s|
    ensures forall k :: i <= k < j ==> IsSpace(s[k])
    ensures j < |s| ==> !IsSpace(s[j])
    decreases |s| - i
  {
    if i < |s| && IsSpace(s[i]) then SkipSpaces(s, i + 1) else i
  }

  /** The index just past the last character of `s[lo..j]` that is not whitespace (`lo` if none). */
  function SkipSpacesBack(s: string, lo: nat, j: nat): (e: nat)
    requires lo <= j <= |s|
    ensures lo <= e <= j
    ensures forall k :: e <= k < j ==> IsSpace(s[k])
    ensures e > lo ==> !IsSpace(s[e - 1])
    decreases j
  {
    if j > lo && IsSpace(s[j - 1]) then SkipSpacesBack(s, lo, j - 1) else j
  }

  /** `s.strip()`: what lies between the leading and the trailing whitespace. */
  function Strip(s: string): string {
    var a := SkipSpaces(s, 0);
    s[a..SkipSpacesBack(s, a, |s|)]
  }

  /** `s.strip()` is a slice of `s` with only whitespace around it, and neither starts nor ends
      with whitespace. */
  lemma StripTrims(s: string)
    ensures var a := SkipSpaces(s, 0); var e := SkipSpacesBack(s, a, |s|);
      && Strip(s) == s[a..e]
      && (forall j :: 0 <= j < a ==> IsSpace(s[j]))
      && (forall j :: e <= j < |s| ==> IsSpace(s[j]))
      && (a < e ==> !IsSpace(s[a]) && !IsSpace(s[e - 1]))
  {
  }

  /** Stripping leaves a string without surrounding whitespace as it is. */
  lemma StripUnpadded(s: string)
    requires s != [] ==> !IsSpace(s[0]) && !IsSpace(s[|s| - 1])
    ensures Strip(s) == s
  {
  }

  /** Stripping twice strips no more than stripping once. */
  lemma StripIdempotent(s: string)
    ensures Strip(Strip(s)) == Strip(s)
  {
    var r := Strip(s);
    StripTrims(s);
    if r != [] {
      assert r[0] == s[SkipSpaces(s, 0)];
    }
    StripUnpadded(r);
  }

  // ---------------------------------------------------------------------------
  // searching

  /** `sub` occurs in `s` at position `i`. */
  predicate OccursAt(s: string, sub: string, i: nat) {
    i + |sub| <= |s| && s[i..i + |sub|] == sub
  }

  /** The leftmost occurrence of `sub` in `s` at or after `from`: the search behind `sub in s`
      and `s.split(sub)`. */
  function FindFrom(s: string, sub: string, from: nat): (r: Option<nat>)
    ensures r.Some? ==> from <= r.value && OccursAt(s, sub, r.value)
    decreases |s| - from
  {
    if from + |sub| > |s| then None
    else if s[from..from + |sub|] == sub then Some(from)
    else FindFrom(s, sub, from + 1)
  }

  /** `FindFrom` passes over no occurrence: there is none between `from` and what it finds, nor
      after `from` when it finds nothing. */
  lemma {:induction false} FindFromSkips(s: string, sub: string, from: nat)
    ensures forall j: nat :: from <= j && (FindFrom(s, sub, from).None? || j < FindFrom(s, sub, from).value) ==>
              !OccursAt(s, sub, j)
    decreases |s| - from
  {
    if from + |sub| <= |s| && s[from..from + |sub|] != sub {
      FindFromSkips(s, sub, from + 1);
    }
  }

  /** Python's `sub in s`. */
  predicate Contains(s: string, sub: string) {
    FindFrom(s, sub, 0).Some?
  }

  /** `sub in s` holds exactly when `sub` occurs somewhere in `s`. */
  lemma ContainsOccurs(s: string, sub: string)
    ensures Contains(s, sub) <==> exists j: nat :: OccursAt(s, sub, j)
  {
    FindFromSkips(s, sub, 0);
    if Contains(s, sub) {
      assert OccursAt(s, sub, FindFrom(s, sub, 0).value);
    }
  }

  /** A one-character string occurs exactly where its character stands. */
  lemma OccursAtChar(s: string, c: char, j: nat)
    ensures OccursAt(s, [c], j) <==> j < |s| && s[j] == c
  {
    if j < |s| && s[j] == c {
      assert s[j..j + 1] == [c];
    }
    if OccursAt(s, [c], j) {
      assert s[j..j + 1][0] == s[j];
    }
  }

  /** A string none of whose characters is `c` does not hold `c`. */
  lemma WithoutChar(s: string, c: char)
    requires forall i :: 0 <= i < |s| ==> s[i] != c
    ensures !Contains(s, [c])
  {
    forall j: nat
      ensures !OccursAt(s, [c], j)
    {
      OccursAtChar(s, c, j);
    }
  }

  /** A character is found first where it first stands. */
  lemma FindCharFirst(s: string, c: char, from: nat, k: nat)
    requires from <= k < |s| && s[k] == c
    requires forall i :: from <= i < k ==> s[i] != c
    ensures FindFrom(s, [c], from) == Some(k)
  {
    OccursAtChar(s, c, k);
    forall j: nat | from <= j < k
      ensures !OccursAt(s, [c], j)
    {
      OccursAtChar(s, c, j);
    }
    FindFromFirst(s, [c], from, k);
  }

  /** A character is not found where it does not stand. */
  lemma FindCharNone(s: string, c: char, from: nat)
    requires forall i :: from <= i < |s| ==> s[i] != c
    ensures FindFrom(s, [c], from).None?
  {
    forall j: nat | from <= j
      ensures !OccursAt(s, [c], j)
    {
      OccursAtChar(s, c, j);
    }
    FindFromNone(s, [c], from);
  }

  /** Python's `s.startswith(prefix)`. */
  predicate StartsWith(s: string, prefix: string) {
    |prefix| <= |s| && s[..|prefix|] == prefix
  }

  lemma SliceOfSlice(s: string, i: nat, j: nat, a: nat, b: nat)
    requires i <= j <= |s| && a <= b <= j - i
    ensures s[i..j][a..b] == s[i + a..i + b]
  {
    forall t | 0 <= t < b - a
      ensures s[i..j][a..b][t] == s[i + a..i + b][t]
    {
      assert s[i..j][a..b][t] == s[i..j][a + t] == s[i + a + t];
    }
  }

  /** The slice `s[i..j]` holds `sub` only where `s` holds it between `i` and `j`. */
  lemma NoOccurrenceBetween(s: string, sub: string, i: nat, j: nat)
    requires i <= j <= |s|
    requires forall k: nat :: i <= k && k + |sub| <= j ==> !OccursAt(s, sub, k)
    ensures !Contains(s[i..j], sub)
  {
    forall k: nat
      ensures !OccursAt(s[i..j], sub, k)
    {
      if k + |sub| <= j - i {
        SliceOfSlice(s, i, j, k, k + |sub|);
        assert !OccursAt(s, sub, i + k);
      }
    }
  }

  /** A string without `sub` has no slice with `sub` either. */
  lemma SliceKeepsAbsence(s: string, sub: string, i: nat, j: nat)
    requires i <= j <= |s| && !Contains(s, sub)
    ensures !Contains(s[i..j], sub)
  {
    FindFromSkips(s, sub, 0);
    NoOccurrenceBetween(s, sub, i, j);
  }

  /** Stripping cannot bring in a substring that was not there. */
  lemma StripKeepsAbsence(s: string, sub: string)
    requires !Contains(s, sub)
    ensures !Contains(Strip(s), sub)
  {
    var a := SkipSpaces(s, 0);
    SliceKeepsAbsence(s, sub, a, SkipSpacesBack(s, a, |s|));
  }

  // ---------------------------------------------------------------------------
  // split

  /** `sep.join(parts)`. */
  function Join(parts: seq<string>, sep: string): string
    requires |parts| >= 1
  {
    if |parts| == 1 then parts[0] else parts[0] + sep + Join(parts[1..], sep)
  }

  /** The pieces of `s[from..]` between the occurrences of `sep`, found left to right. */
  function SplitFrom(s: string, sep: string, from: nat): (parts: seq<string>)
    requires sep != [] && from <= |s|
    ensures |parts| >= 1
    decreases |s| - from
  {
    match FindFrom(s, sep, from)
    case None => [s[from..]]
    case Some(k) => [s[from..k]] + SplitFrom(s, sep, k + |sep|)
  }

  /** `s.split(sep)` for a non-empty separator. */
  function Split(s: string, sep: string): (parts: seq<string>)
    requires sep != []
    ensures |parts| >= 1
  {
    SplitFrom(s, sep, 0)
  }

  lemma JoinCons(x: string, rest: seq<string>, sep: string)
    requires |rest| >= 1
    ensures Join([x] + rest, sep) == x + sep + Join(rest, sep)
  {
    assert ([x] + rest)[1..] == rest;
  }

  /** `sep.join(s.split(sep)) == s`: splitting loses nothing. */
  lemma {:induction false} SplitJoin(s: string, sep: string, from: nat)
    requires sep != [] && from <= |s|
    ensures Join(SplitFrom(s, sep, from), sep) == s[from..]
    decreases |s| - from
  {
    match FindFrom(s, sep, from)
    case None =>
      SplitFromLast(s, sep, from);
    case Some(k) =>
      SplitJoin(s, sep, k + |sep|);
      SplitJoinStep(s, sep, from, k);
  }

  /** One step of `SplitJoin`: the piece before the separator, the separator and the joined
      rest make up the text again. */
  lemma SplitJoinStep(s: string, sep: string, from: nat, k: nat)
    requires sep != [] && from <= |s| && FindFrom(s, sep, from) == Some(k)
    requires Join(SplitFrom(s, sep, k + |sep|), sep) == s[k + |sep|..]
    ensures Join(SplitFrom(s, sep, from), sep) == s[from..]
  {
    var rest := SplitFrom(s, sep, k + |sep|);
    SplitFromStep(s, sep, from, k);
    JoinCons(s[from..k], rest, sep);
    SliceThree(s, from, k, k + |sep|);
  }

  /** No piece of a split holds the separator. */
  lemma {:induction false} SplitPiecesFree(s: string, sep: string, from: nat)
    requires sep != [] && from <= |s|
    ensures forall i :: 0 <= i < |SplitFrom(s, sep, from)| ==> !Contains(SplitFrom(s, sep, from)[i], sep)
    decreases |s| - from
  {
    FindFromSkips(s, sep, from);
    match FindFrom(s, sep, from)
    case None =>
      SplitFromLast(s, sep, from);
      NoOccurrenceBetween(s, sep, from, |s|);
      assert s[from..|s|] == s[from..];
    case Some(k) =>
      SplitFromStep(s, sep, from, k);
      NoOccurrenceBetween(s, sep, from, k);
      SplitPiecesFree(s, sep, k + |sep|);
      ConsFree(s[from..k], SplitFrom(s, sep, k + |sep|), sep);
  }

  lemma ConsFree(x: string, rest: seq<string>, sep: string)
    requires !Contains(x, sep)
    requires forall i :: 0 <= i < |rest| ==> !Contains(rest[i], sep)
    ensures forall i :: 0 <= i < |[x] + rest| ==> !Contains(([x] + rest)[i], sep)
  {
    forall i | 1 <= i < 1 + |rest|
      ensures !Contains(([x] + rest)[i], sep)
    {
      assert ([x] + rest)[i] == rest[i - 1];
    }
  }

  /** `sep.join(parts).split(sep) == parts` when no part holds a one-character separator:
      splitting undoes joining. */
  lemma SplitOfJoin(parts: seq<string>, sep: string)
    requires |sep| == 1 && |parts| >= 1
    requires forall k :: 0 <= k < |parts| ==> !Contains(parts[k], sep)
    ensures Split(Join(parts, sep), sep) == parts
  {
    var s := Join(parts, sep);
    assert s[0..] == s;
    SplitFromOfJoin(s, parts, sep, 0, 0);
  }

  /** Splitting the join of the parts from `i` on gives back those parts. */
  lemma {:induction false} SplitFromOfJoin(s: string, parts: seq<string>, sep: string, i: nat, from: nat)
    requires |sep| == 1 && i < |parts| && from <= |s| && s[from..] == Join(parts[i..], sep)
    requires forall k :: 0 <= k < |parts| ==> !Contains(parts[k], sep)
    ensures SplitFrom(s, sep, from) == parts[i..]
    decreases |parts| - i
  {
    JoinFrom(parts, i, sep);
    if i + 1 == |parts| {
      SplitOfFreeSuffix(s, sep, from);
      LastSlice(parts, i);
    } else {
      var end := from + |parts[i]|;
      JoinStep(s, sep, from, parts[i], Join(parts[i + 1..], sep));
      SplitFromOfJoin(s, parts, sep, i + 1, end + 1);
      SliceCons(parts, i);
      SplitFromCons(s, sep, from, end, parts[i], parts[i + 1..], parts[i..]);
    }
  }

  /** The split from `from` is the piece before the separator found there, then the split
      after that separator. */
  lemma SplitFromCons(s: string, sep: string, from: nat, end: nat, p: string, rest: seq<string>,
                      parts: seq<string>)
    requires |sep| == 1 && from <= |s| && FindFrom(s, sep, from) == Some(end)
    requires s[from..end] == p && SplitFrom(s, sep, end + 1) == rest && parts == [p] + rest
    ensures SplitFrom(s, sep, from) == parts
  {
    SplitFromStep(s, sep, from, end);
  }

  /** A suffix free of a one-character separator is split into itself alone. */
  lemma SplitOfFreeSuffix(s: string, sep: string, from: nat)
    requires |sep| == 1 && from <= |s| && !Contains(s[from..], sep)
    ensures SplitFrom(s, sep, from) == [s[from..]]
  {
    NoSeparatorInPiece(s, s[from..], sep, from);
    FindFromNone(s, sep, from);
    SplitFromLast(s, sep, from);
  }

  /** Where `s[from..]` is a piece free of a one-character separator, the separator and a
      tail, the search from `from` finds the separator just after the piece. */
  lemma JoinStep(s: string, sep: string, from: nat, p: string, tail: string)
    requires |sep| == 1 && from <= |s| && s[from..] == p + (sep + tail) && !Contains(p, sep)
    ensures from + |p| + 1 <= |s|
    ensures FindFrom(s, sep, from) == Some(from + |p|)
    ensures s[from..from + |p|] == p && s[from + |p| + 1..] == tail
  {
    var end := from + |p|;
    SuffixParts(s, from, p, sep + tail);
    SuffixParts(s, end, sep, tail);
    NoSeparatorInPiece(s, p, sep, from);
    FindFromFirst(s, sep, from, end);
  }

  /** Where `s[from..]` is `a + b`, `a` stands at `from` and `b` follows it. */
  lemma SuffixParts<T>(s: seq<T>, from: nat, a: seq<T>, b: seq<T>)
    requires from <= |s| && s[from..] == a + b
    ensures s[from..from + |a|] == a && s[from + |a|..] == b
  {
    assert s[from..from + |a|] == (a + b)[..|a|];
    assert s[from + |a|..] == (a + b)[|a|..];
  }

  lemma SliceThree<T>(s: seq<T>, a: nat, b: nat, c: nat)
    requires a <= b <= c <= |s|
    ensures s[a..] == s[a..b] + s[b..c] + s[c..]
  {
  }

  /** The join of the parts from `i` on: the part at `i`, then the separator and the join of
      the parts after it, if any. */
  lemma JoinFrom(parts: seq<string>, i: nat, sep: string)
    requires i < |parts|
    ensures i + 1 == |parts| ==> Join(parts[i..], sep) == parts[i]
    ensures i + 1 < |parts| ==> Join(parts[i..], sep) == parts[i] + (sep + Join(parts[i + 1..], sep))
  {
    assert parts[i..][0] == parts[i];
    assert parts[i..][1..] == parts[i + 1..];
    if i + 1 < |parts| {
      var rest := Join(parts[i + 1..], sep);
      assert parts[i] + sep + rest == parts[i] + (sep + rest);
    }
  }

  /** The suffix from the last position holds just the last element. */
  lemma LastSlice<T>(s: seq<T>, i: nat)
    requires i + 1 == |s|
    ensures s[i..] == [s[i]]
  {
  }

  /** A suffix is its first element followed by the next suffix. */
  lemma SliceCons<T>(s: seq<T>, i: nat)
    requires i < |s|
    ensures s[i..] == [s[i]] + s[i + 1..]
  {
  }

  /** A suffix that starts with `x` has `x` at its first position. */
  lemma FirstOfSuffix<T>(s: seq<T>, from: nat, x: T, t: seq<T>)
    requires from <= |s| && s[from..] == [x] + t
    ensures from < |s| && s[from] == x && s[from + 1..] == t
  {
    assert s[from] == s[from..][0];
    assert s[from + 1..] == s[from..][1..];
  }

  lemma OneElement<T>(s: seq<T>)
    requires |s| == 1
    ensures s == [s[0]]
  {
  }

  /** Where `s[from..]` starts with a piece free of the separator, no separator starts inside
      that piece. */
  lemma NoSeparatorInPiece(s: string, p: string, sep: string, from: nat)
    requires |sep| == 1 && from + |p| <= |s| && s[from..from + |p|] == p && !Contains(p, sep)
    ensures forall j: nat :: from <= j < from + |p| ==> !OccursAt(s, sep, j)
  {
    FindFromSkips(p, sep, 0);
    forall j: nat | from <= j < from + |p|
      ensures !OccursAt(s, sep, j)
    {
      assert !OccursAt(p, sep, j - from);
      SliceOfSlice(s, from, from + |p|, j - from, j - from + 1);
    }
  }

  /** A split yields one piece exactly when the separator does not occur. */
  lemma SplitSingle(s: string, sep: string)
    requires sep != []
    ensures |Split(s, sep)| == 1 <==> !Contains(s, sep)
    ensures !Contains(s, sep) ==> Split(s, sep) == [s]
  {
    match FindFrom(s, sep, 0)
    case None =>
      SplitFromLast(s, sep, 0);
      assert s[0..] == s;
    case Some(k) =>
      SplitFromStep(s, sep, 0, k);
  }

  /** One step of a split: the piece before the next occurrence, then the pieces after it. */
  lemma SplitFromStep(s: string, sep: string, from: nat, k: nat)
    requires sep != [] && from <= |s| && FindFrom(s, sep, from) == Some(k)
    ensures SplitFrom(s, sep, from) == [s[from..k]] + SplitFrom(s, sep, k + |sep|)
  {
  }

  /** The last step of a split: no occurrence is left, and the rest is one piece. */
  lemma SplitFromLast(s: string, sep: string, from: nat)
    requires sep != [] && from <= |s| && FindFrom(s, sep, from).None?
    ensures SplitFrom(s, sep, from) == [s[from..]]
  {
  }

  /** `s.split(sep)[1]`: the text from the end of the first separator up to the next one, or
      to the end of `s`. */
  lemma SecondPiece(s: string, sep: string, start: nat, end: nat)
    requires sep != [] && Contains(s, sep)
    requires start == FindFrom(s, sep, 0).value + |sep|
    requires end == if FindFrom(s, sep, start).Some? then FindFrom(s, sep, start).value else |s|
    ensures start <= end <= |s| && |Split(s, sep)| >= 2 && Split(s, sep)[1] == s[start..end]
  {
    SplitFromStep(s, sep, 0, start - |sep|);
    if FindFrom(s, sep, start).Some? {
      SplitFromStep(s, sep, start, end);
    } else {
      SplitFromLast(s, sep, start);
      assert s[start..|s|] == s[start..];
    }
  }

  /** `s.split(sep)[-1]`: what follows the last occurrence of `sep` (all of `s` if there is none). */
  function LastPiece(s: string, sep: string): string
    requires sep != []
  {
    var parts := Split(s, sep);
    parts[|parts| - 1]
  }

  /** The last piece holds no separator, and is all of `s` when `s` holds none. */
  lemma LastPieceFree(s: string, sep: string)
    requires sep != []
    ensures !Contains(LastPiece(s, sep), sep)
    ensures !Contains(s, sep) ==> LastPiece(s, sep) == s
  {
    SplitPiecesFree(s, sep, 0);
  }

  /** When a one-character separator occurs at `m - 1` and never from `m` on, the last piece
      of a split is everything from `m` on. */
  lemma LastPieceAfterLastSeparator(s: string, sep: string, m: nat)
    requires |sep| == 1 && 1 <= m <= |s| && OccursAt(s, sep, m - 1)
    requires forall j: nat :: m <= j ==> !OccursAt(s, sep, j)
    ensures LastPiece(s, sep) == s[m..]
  {
    FindFromNone(s, sep, m);
    LastOfSplitFrom(s, sep, 0, m);
  }

  lemma {:induction false} LastOfSplitFrom(s: string, sep: string, from: nat, m: nat)
    requires |sep| == 1 && from < m <= |s| && OccursAt(s, sep, m - 1)
    requires FindFrom(s, sep, m).None?
    ensures SplitFrom(s, sep, from)[|SplitFrom(s, sep, from)| - 1] == s[m..]
    decreases m - from
  {
    var k := FindFromAtMost(s, sep, from, m - 1);
    if k == m - 1 {
      LastOfSplitAtLast(s, sep, from, k);
    } else {
      LastOfSplitFrom(s, sep, k + 1, m);
      LastOfSplitStep(s, sep, from, k, s[m..]);
    }
  }

  /** A split whose first separator is its last one ends with what follows that separator. */
  lemma LastOfSplitAtLast(s: string, sep: string, from: nat, k: nat)
    requires |sep| == 1 && from <= |s| && FindFrom(s, sep, from) == Some(k)
    requires k + 1 <= |s| && FindFrom(s, sep, k + 1).None?
    ensures var parts := SplitFrom(s, sep, from); parts[|parts| - 1] == s[k + 1..]
  {
    SplitFromStep(s, sep, from, k);
    SplitFromLast(s, sep, k + 1);
  }

  /** A split ends with the piece the split after its first separator ends with. */
  lemma LastOfSplitStep(s: string, sep: string, from: nat, k: nat, last: string)
    requires |sep| == 1 && from <= |s| && FindFrom(s, sep, from) == Some(k)
    requires k + 1 <= |s| && var rest := SplitFrom(s, sep, k + 1); rest[|rest| - 1] == last
    ensures var parts := SplitFrom(s, sep, from); parts[|parts| - 1] == last
  {
    SplitFromStep(s, sep, from, k);
    LastOfCons(SplitFrom(s, sep, from), s[from..k], SplitFrom(s, sep, k + 1));
  }

  /** A search from `from` stops at the latest at an occurrence at `m`. */
  lemma FindFromAtMost(s: string, sub: string, from: nat, m: nat) returns (k: nat)
    requires from <= m && OccursAt(s, sub, m)
    ensures FindFrom(s, sub, from) == Some(k) && k <= m
  {
    FindFromSkips(s, sub, from);
    var r := FindFrom(s, sub, from);
    assert r.Some?;
    k := r.value;
  }

  lemma LastOfCons<T>(parts: seq<T>, x: T, rest: seq<T>)
    requires parts == [x] + rest && rest != []
    ensures parts[|parts| - 1] == rest[|rest| - 1]
  {
  }

  /** `FindFrom` returns the first occurrence at or after `from`, whatever way it is found. */
  lemma {:induction false} FindFromFirst(s: string, sub: string, from: nat, k: nat)
    requires from <= k && OccursAt(s, sub, k)
    requires forall j: nat :: from <= j < k ==> !OccursAt(s, sub, j)
    ensures FindFrom(s, sub, from) == Some(k)
    decreases k - from
  {
    if from < k {
      FindFromFirst(s, sub, from + 1, k);
    }
  }

  /** `FindFrom` finds nothing where nothing occurs. */
  lemma {:induction false} FindFromNone(s: string, sub: string, from: nat)
    requires forall j: nat :: from <= j ==> !OccursAt(s, sub, j)
    ensures FindFrom(s, sub, from).None?
    decreases |s| - from
  {
    if from + |sub| <= |s| {
      assert !OccursAt(s, sub, from);
      FindFromNone(s, sub, from + 1);
    }
  }

  // ---------------------------------------------------------------------------
  // splitlines

  /** The first line break at or after `from`. */
  function BreakFrom(s: string, from: nat): (r: Option<nat>)
    ensures r.Some? ==> from <= r.value < |s| && IsLineBreak(s[r.value])
    ensures forall j :: from <= j < |s| && (r.None? || j < r.value) ==> !IsLineBreak(s[j])
    decreases |s| - from
  {
    if from >= |s| then None
    else if IsLineBreak(s[from]) then Some(from)
    else BreakFrom(s, from + 1)
  }

  /** Where the line that ends at the break `k` is followed by the next one: after `\r\n`,
      or after the one break character. */
  function NextLineStart(s: string, k: nat): (next: nat)
    requires k < |s| && IsLineBreak(s[k])
    ensures k < next <= |s|
    ensures forall j :: k <= j < next ==> IsLineBreak(s[j])
  {
    if s[k] == '\r' && k + 1 < |s| && s[k + 1] == '\n' then k + 2 else k + 1
  }

  /** The lines of `s[from..]`. */
  function LinesFrom(s: string, from: nat): (lines: seq<string>)
    requires from <= |s|
    ensures lines == [] <==> from == |s|
    decreases |s| - from
  {
    if from == |s| then []
    else match BreakFrom(s, from)
      case None => [s[from..]]
      case Some(k) => [s[from..k]] + LinesFrom(s, NextLineStart(s, k))
  }

  /** `s.splitlines()`: the lines of `s`, split at every line break, with `\r\n` as a single
      break and no empty line after a final break. */
  function SplitLines(s: string): seq<string> {
    LinesFrom(s, 0)
  }

  /** No line of `s.splitlines()` holds a line break. */
  lemma {:induction false} LinesHaveNoBreaks(s: string, from: nat)
    requires from <= |s|
    ensures forall k, i :: 0 <= k < |LinesFrom(s, from)| && 0 <= i < |LinesFrom(s, from)[k]| ==>
      !IsLineBreak(LinesFrom(s, from)[k][i])
    decreases |s| - from
  {
    if from < |s| {
      match BreakFrom(s, from)
      case None =>
      case Some(k) =>
        var rest := LinesFrom(s, NextLineStart(s, k));
        LinesHaveNoBreaks(s, NextLineStart(s, k));
        forall m, i | 1 <= m < 1 + |rest| && 0 <= i < |rest[m - 1]|
          ensures !IsLineBreak(([s[from..k]] + rest)[m][i])
        {
          assert ([s[from..k]] + rest)[m] == rest[m - 1];
        }
    }
  }

  /** A single line break: `\r\n`, or one line-break character. */
  predicate IsBreak(b: string) {
    || (|b| == 2 && b[0] == '\r' && b[1] == '\n')
    || (|b| == 1 && IsLineBreak(b[0]))
  }

  /** The lines, each followed by the text that ends it. */
  function Interleave(lines: seq<string>, ends: seq<string>): string
    requires |lines| == |ends|
  {
    if lines == [] then [] else lines[0] + ends[0] + Interleave(lines[1..], ends[1..])
  }

  /** `s.splitlines()` takes exactly one break between two lines: `s[from..]` is its lines, each
      followed by `\r\n` or by one line-break character; a lone `\r` is never followed by `\n`
      (lines hold no break, so the next character is `\n` only when an empty line ends in `\n`);
      only the last line may end without a break, and then it is not empty. */
  lemma {:induction false} LinesSeparatedByOneBreak(s: string, from: nat) returns (ends: seq<string>)
    requires from <= |s|
    ensures |ends| == |LinesFrom(s, from)|
    ensures Interleave(LinesFrom(s, from), ends) == s[from..]
    ensures forall k :: 0 <= k < |ends| - 1 ==> IsBreak(ends[k])
    ensures ends != [] ==>
      IsBreak(ends[|ends| - 1]) || (ends[|ends| - 1] == [] && LinesFrom(s, from)[|ends| - 1] != [])
    ensures forall k :: 0 <= k < |ends| - 1 && ends[k] == "\r" ==>
      LinesFrom(s, from)[k + 1] != [] || ends[k + 1] != "\n"
    decreases |s| - from
  {
    if from == |s| {
      ends := [];
    } else {
      match BreakFrom(s, from)
      case None =>
        ends := [[]];
        assert Interleave([s[from..]], ends) == s[from..] + [] + Interleave([], []);
      case Some(k) =>
        var next := NextLineStart(s, k);
        var rest := LinesFrom(s, next);
        var restEnds := LinesSeparatedByOneBreak(s, next);
        ends := [s[k..next]] + restEnds;
        LinesStep(s, from, k);
        TextStep(s, from, k, rest, restEnds);
        BreakOfLine(s, k);
        LineEndsCons(LinesFrom(s, from), ends, s[from..k], s[k..next], rest, restEnds);
    }
  }

  lemma LinesStep(s: string, from: nat, k: nat)
    requires from < |s| && BreakFrom(s, from) == Some(k)
    ensures LinesFrom(s, from) == [s[from..k]] + LinesFrom(s, NextLineStart(s, k))
  {
  }

  /** The line up to the break `k`, that break, then the rest of the text. */
  lemma TextStep(s: string, from: nat, k: nat, rest: seq<string>, restEnds: seq<string>)
    requires from <= k < |s| && IsLineBreak(s[k]) && |rest| == |restEnds|
    requires Interleave(rest, restEnds) == s[NextLineStart(s, k)..]
    ensures Interleave([s[from..k]] + rest, [s[k..NextLineStart(s, k)]] + restEnds) == s[from..]
  {
    var next := NextLineStart(s, k);
    InterleaveCons(s[from..k], s[k..next], rest, restEnds);
    assert s[from..] == s[from..k] + s[k..next] + s[next..];
  }

  /** The text that ends a line at the break `k` is one break, and a lone `\r` is not followed
      by `\n`. */
  lemma BreakOfLine(s: string, k: nat)
    requires k < |s| && IsLineBreak(s[k])
    ensures IsBreak(s[k..NextLineStart(s, k)])
    ensures s[k..NextLineStart(s, k)] == "\r" ==> !StartsWith(s[NextLineStart(s, k)..], "\n")
  {
    var next := NextLineStart(s, k);
    if next == k + 2 {
      assert s[k..next] == "\r\n";
    }
  }

  lemma InterleaveCons(line: string, end: string, rest: seq<string>, restEnds: seq<string>)
    requires |rest| == |restEnds|
    ensures Interleave([line] + rest, [end] + restEnds) == line + end + Interleave(rest, restEnds)
  {
    assert ([line] + rest)[1..] == rest;
    assert ([end] + restEnds)[1..] == restEnds;
  }

  /** A line with its break in front of lines that each end in one break keeps every line
      ending in one break. */
  lemma LineEndsCons(lines: seq<string>, ends: seq<string>, line: string, end: string,
                     rest: seq<string>, restEnds: seq<string>)
    requires lines == [line] + rest && ends == [end] + restEnds && |rest| == |restEnds|
    requires IsBreak(end)
    requires end == "\r" ==> !StartsWith(Interleave(rest, restEnds), "\n")
    requires forall k :: 0 <= k < |restEnds| - 1 ==> IsBreak(restEnds[k])
    requires restEnds != [] ==>
      IsBreak(restEnds[|restEnds| - 1]) || (restEnds[|restEnds| - 1] == [] && rest[|restEnds| - 1] != [])
    requires forall k :: 0 <= k < |restEnds| - 1 && restEnds[k] == "\r" ==>
      rest[k + 1] != [] || restEnds[k + 1] != "\n"
    ensures forall k :: 0 <= k < |ends| - 1 ==> IsBreak(ends[k])
    ensures ends != [] ==>
      IsBreak(ends[|ends| - 1]) || (ends[|ends| - 1] == [] && lines[|ends| - 1] != [])
    ensures forall k :: 0 <= k < |ends| - 1 && ends[k] == "\r" ==>
      lines[k + 1] != [] || ends[k + 1] != "\n"
  {
    forall k | 1 <= k < |ends|
      ensures ends[k] == restEnds[k - 1] && lines[k] == rest[k - 1]
    {
    }
    if rest != [] && rest[0] == [] {
      EmptyLineThenBreak(rest, restEnds);
    }
  }

  /** After an empty line, what follows starts with the break that ends it. */
  lemma EmptyLineThenBreak(lines: seq<string>, ends: seq<string>)
    requires |lines| == |ends| && lines != [] && lines[0] == []
    ensures ends[0] == "\n" ==> StartsWith(Interleave(lines, ends), "\n")
  {
    if ends[0] == "\n" {
      assert Interleave(lines, ends) == "\n" + Interleave(lines[1..], ends[1..]);
      assert Interleave(lines, ends)[..1] == "\n";
    }
  }

  /** `s` with its line-break characters removed. */
  function WithoutBreaks(s: string): string {
    if s == [] then [] else (if IsLineBreak(s[0]) then [] else [s[0]]) + WithoutBreaks(s[1..])
  }

  /** The lines one after another, with nothing between them. */
  function Concat(lines: seq<string>): string {
    if lines == [] then [] else lines[0] + Concat(lines[1..])
  }

  lemma {:induction false} WithoutBreaksAppend(a: string, b: string)
    ensures WithoutBreaks(a + b) == WithoutBreaks(a) + WithoutBreaks(b)
    decreases |a|
  {
    if a != [] {
      assert (a + b)[1..] == a[1..] + b;
      WithoutBreaksAppend(a[1..], b);
    } else {
      assert a + b == b;
    }
  }

  lemma {:induction false} WithoutBreaksOfLine(s: string)
    requires forall i :: 0 <= i < |s| ==> !IsLineBreak(s[i])
    ensures WithoutBreaks(s) == s
    decreases |s|
  {
    if s != [] {
      WithoutBreaksOfLine(s[1..]);
    }
  }

  lemma {:induction false} WithoutBreaksOfBreaks(s: string)
    requires forall i :: 0 <= i < |s| ==> IsLineBreak(s[i])
    ensures WithoutBreaks(s) == []
    decreases |s|
  {
    if s != [] {
      WithoutBreaksOfBreaks(s[1..]);
    }
  }

  /** `s.splitlines()` loses no character but the line breaks: the lines put back together are
      `s` without its breaks. */
  lemma {:induction false} LinesKeepText(s: string, from: nat)
    requires from <= |s|
    ensures Concat(LinesFrom(s, from)) == WithoutBreaks(s[from..])
    decreases |s| - from
  {
    if from < |s| {
      match BreakFrom(s, from)
      case None =>
        WithoutBreaksOfLine(s[from..]);
        assert Concat([s[from..]]) == s[from..] + Concat([]);
      case Some(k) =>
        var next := NextLineStart(s, k);
        var rest := LinesFrom(s, next);
        LinesKeepText(s, next);
        assert ([s[from..k]] + rest)[1..] == rest;
        OneLineOfText(s, from, k, next);
    }
  }

  lemma OneLineOfText(s: string, from: nat, k: nat, next: nat)
    requires from <= k < next <= |s|
    requires forall j :: from <= j < k ==> !IsLineBreak(s[j])
    requires forall j :: k <= j < next ==> IsLineBreak(s[j])
    ensures WithoutBreaks(s[from..]) == s[from..k] + WithoutBreaks(s[next..])
  {
    assert s[from..] == s[from..k] + s[k..next] + s[next..];
    WithoutBreaksAppend(s[from..k] + s[k..next], s[next..]);
    WithoutBreaksAppend(s[from..k], s[k..next]);
    WithoutBreaksOfLine(s[from..k]);
    WithoutBreaksOfBreaks(s[k..next]);
  }

  // ---------------------------------------------------------------------------
  // int()

  /** The body of an integer literal as `int()` reads it: digits, with single underscores
      allowed between two digits. */
  predicate IsDigitGroup(s: string) {
    && |s| > 0 && IsDigit(s[0]) && IsDigit(s[|s| - 1])
    && (forall i :: 0 <= i < |s| ==> IsDigit(s[i]) || s[i] == '_')
    && !Contains(s, "__")
  }

  /** The value of a digit group, the underscores ignored. */
  function DigitsValue(s: string): nat
    requires forall i :: 0 <= i < |s| ==> IsDigit(s[i]) || s[i] == '_'
  {
    if s == [] then 0
    else if s[|s| - 1] == '_' then DigitsValue(s[..|s| - 1])
    else 10 * DigitsValue(s[..|s| - 1]) + DigitValue(s[|s| - 1])
  }

  function DigitValue(c: char): (d: nat)
    requires IsDigit(c)
    ensures d < 10
  {
    c as int - '0' as int
  }

  /** The whitespace `int()` skips around a literal: that of `str.isspace`, except the four
      separators U+001C to U+001F, which `int()` does not skip. */
  predicate IsIntSpace(c: char) {
    IsSpace(c) && !('\U{1C}' <= c <= '\U{1F}')
  }

  function SkipIntSpaces(s: string, i: nat): (j: nat)
    requires i <= |s|
    ensures i <= j <= |s|
    ensures forall k :: i <= k < j ==> IsIntSpace(s[k])
    ensures j < |s| ==> !IsIntSpace(s[j])
    decreases |s| - i
  {
    if i < |s| && IsIntSpace(s[i]) then SkipIntSpaces(s, i + 1) else i
  }

  function SkipIntSpacesBack(s: string, lo: nat, j: nat): (e: nat)
    requires lo <= j <= |s|
    ensures lo <= e <= j
    ensures forall k :: e <= k < j ==> IsIntSpace(s[k])
    ensures e > lo ==> !IsIntSpace(s[e - 1])
    decreases j
  {
    if j > lo && IsIntSpace(s[j - 1]) then SkipIntSpacesBack(s, lo, j - 1) else j
  }

  /** The text `int()` reads: `s` without the whitespace `int()` skips around it. */
  function IntStrip(s: string): string {
    var a := SkipIntSpaces(s, 0);
    s[a..SkipIntSpacesBack(s, a, |s|)]
  }

  lemma IntStripUnpadded(s: string)
    requires s != [] ==> !IsIntSpace(s[0]) && !IsIntSpace(s[|s| - 1])
    ensures IntStrip(s) == s
  {
  }

  /** What `str.strip` leaves is left as it is by the trimming of `int()`. */
  lemma IntStripOfStripped(s: string)
    ensures IntStrip(Strip(s)) == Strip(s)
  {
    var r := Strip(s);
    StripTrims(s);
    if r != [] {
      assert r[0] == s[SkipSpaces(s, 0)];
      assert r[|r| - 1] == s[SkipSpacesBack(s, SkipSpaces(s, 0), |s|) - 1];
    }
    IntStripUnpadded(r);
  }

  /** The number of digits in `s`; the underscores between them do not count. */
  function DigitCount(s: string): (n: nat)
    ensures n <= |s|
  {
    if s == [] then 0
    else DigitCount(s[..|s| - 1]) + if IsDigit(s[|s| - 1]) then 1 else 0
  }

  /** The most digits `int()` converts in base 10 (`sys.int_info.default_max_str_digits`);
      a literal with more raises `ValueError`. */
  const MaxStrDigits := 4300

  /** `int(s)` in base 10: surrounding whitespace, an optional sign, then a digit group of at
      most `MaxStrDigits` digits. */
  function ParseInt(s: string): (r: Option<int>)
    ensures r.Some? <==> var t := IntStrip(s);
      var digits := if |t| > 0 && (t[0] == '+' || t[0] == '-') then t[1..] else t;
      IsDigitGroup(digits) && DigitCount(digits) <= MaxStrDigits
    ensures r.Some? && !Contains(s, "-") ==> r.value >= 0
  {
    var t := IntStrip(s);
    var signed := |t| > 0 && (t[0] == '+' || t[0] == '-');
    var digits := if signed then t[1..] else t;
    if !IsDigitGroup(digits) || DigitCount(digits) > MaxStrDigits then None
    else if signed && t[0] == '-' then
      IntStrippedSignInSource(s);
      Some(0 - DigitsValue(digits))
    else Some(DigitsValue(digits))
  }

  /** A `-` that starts the text `int()` reads is a `-` of the text itself. */
  lemma IntStrippedSignInSource(s: string)
    requires var t := IntStrip(s); |t| > 0 && t[0] == '-'
    ensures Contains(s, "-")
  {
    FindFromSkips(s, "-", 0);
    var i := SkipIntSpaces(s, 0);
    assert s[i] == IntStrip(s)[0];
    assert s[i..i + 1] == "-";
    assert OccursAt(s, "-", i);
  }

  /** `str(n)` for a natural number: its decimal digits, most significant first. */
  function Decimal(n: nat): (r: string)
    ensures |r| > 0 && forall i :: 0 <= i < |r| ==> IsDigit(r[i])
  {
    var d := ['0' + (n % 10) as char];
    if n < 10 then d else Decimal(n / 10) + d
  }

  lemma {:induction false} DecimalValue(n: nat)
    ensures DigitsValue(Decimal(n)) == n
  {
    var r := Decimal(n);
    if n >= 10 {
      DecimalValue(n / 10);
      assert r[..|r| - 1] == Decimal(n / 10);
    }
  }

  /** A bare digit group reads back as its value, unless it has more digits than `int()`
      converts. */
  lemma ParseIntDigitGroup(t: string)
    requires IsDigitGroup(t)
    ensures ParseInt(t) == if DigitCount(t) <= MaxStrDigits then Some(DigitsValue(t)) else None
  {
    IntStripUnpadded(t);
    assert !(t[0] == '+' || t[0] == '-');
  }

  lemma {:induction false} AllDigitsCount(s: string)
    requires forall i :: 0 <= i < |s| ==> IsDigit(s[i])
    ensures DigitCount(s) == |s|
  {
    if s != [] {
      AllDigitsCount(s[..|s| - 1]);
    }
  }

  lemma NoDoubleUnderscore(r: string)
    requires forall i :: 0 <= i < |r| ==> IsDigit(r[i])
    ensures !Contains(r, "__")
  {
    forall j: nat
      ensures !OccursAt(r, "__", j)
    {
      if j + 2 <= |r| {
        assert r[j..j + 2][0] == r[j];
      }
    }
  }

  /** `int(str(n)) == n` when `str(n)` has at most `MaxStrDigits` digits; with more, `int()`
      turns it away. */
  lemma ParseIntDecimal(n: nat)
    ensures ParseInt(Decimal(n)) == if |Decimal(n)| <= MaxStrDigits then Some(n) else None
  {
    var r := Decimal(n);
    DecimalValue(n);
    NoDoubleUnderscore(r);
    AllDigitsCount(r);
    ParseIntDigitGroup(r);
  }
}
