/** `parse_delete_indices`: the index specification given to `--delete`, such as `0,2,4-6`,
    read as the set of message indices it selects within `0..maxIndex`, with a warning for each
    token that is turned away. */
module IndexSpec {
  import opened PyText

  /** A warning printed for a token that selects nothing. */
  datatype Warning =
    | InvalidRange(part: string)
    | OutOfBounds(index: int, maxIndex: int)
    | InvalidIndex(part: string)

  /** What one comma-separated token of the specification is, once stripped. */
  datatype Token =
    | Empty                       // nothing but whitespace: skipped
    | Range(lo: int, hi: int)     // `a-b` with both ends integers, ends put in order
    | BadRange(text: string)      // holds `-` but is not two integers around one `-`
    | Single(n: int)              // an integer
    | BadIndex(text: string)      // neither an integer nor holding `-`

  /** How the loop body reads one token. */
  function Classify(part: string): (t: Token)
    ensures t.Range? ==> t.lo <= t.hi
  {
    var p := Strip(part);
    if p == [] then Empty
    else if Contains(p, "-") then
      var ends := Split(p, "-");
      if |ends| == 2 && ParseInt(ends[0]).Some? && ParseInt(ends[1]).Some? then
        var a, b := ParseInt(ends[0]).value, ParseInt(ends[1]).value;
        if a > b then Range(b, a) else Range(a, b)
      else BadRange(p)
    else
      match ParseInt(p)
      case Some(n) => Single(n)
      case None => BadIndex(p)
  }

  /** `i` is the index of a message: `0 <= i <= maxIndex`. */
  predicate InBounds(i: int, maxIndex: int) {
    0 <= i <= maxIndex
  }

  /** The indices a token selects: those of its range, or the integer itself, that lie within
      `0..maxIndex`. */
  function TokenIndices(t: Token, maxIndex: int): set<int> {
    match t
    case Range(lo, hi) => Clipped(lo, hi, maxIndex)
    case Single(n) => if 0 <= n <= maxIndex then {n} else {}
    case _ => {}
  }

  /** The integers from `lo` to `hi` that are indices of messages. */
  function Clipped(lo: int, hi: int, maxIndex: int): set<int> {
    set i | lo <= i <= hi && InBounds(i, maxIndex)
  }

  /** Extending a range by one integer adds that integer if it is an index. */
  lemma ClippedStep(lo: int, hi: int, maxIndex: int)
    requires lo <= hi + 1
    ensures Clipped(lo, hi + 1, maxIndex) == Clipped(lo, hi, maxIndex) + (if InBounds(hi + 1, maxIndex) then {hi + 1} else {})
  {
  }

  /** The warning a token draws, if any. An out-of-bounds range is clipped without a warning. */
  function TokenWarnings(t: Token, maxIndex: int): seq<Warning> {
    match t
    case BadRange(text) => [InvalidRange(text)]
    case Single(n) => if 0 <= n <= maxIndex then [] else [OutOfBounds(n, maxIndex)]
    case BadIndex(text) => [InvalidIndex(text)]
    case _ => []
  }

  /** The comma-separated tokens of a specification, read. The `ensures` only spells the
      comprehension out element by element, the form in which the proofs about it use it. */
  function Tokens(indexStr: string): (ts: seq<Token>)
    ensures var parts := Split(indexStr, ",");
      |ts| == |parts| && forall k :: 0 <= k < |parts| ==> ts[k] == Classify(parts[k])
  {
    var parts := Split(indexStr, ",");
    seq(|parts|, k requires 0 <= k < |parts| => Classify(parts[k]))
  }

  /** The indices selected by the tokens, token by token. */
  function SpecIndices(ts: seq<Token>, maxIndex: int): set<int> {
    if ts == [] then {}
    else SpecIndices(ts[..|ts| - 1], maxIndex) + TokenIndices(ts[|ts| - 1], maxIndex)
  }

  /** The warnings drawn by the tokens, in token order. */
  function SpecWarnings(ts: seq<Token>, maxIndex: int): seq<Warning> {
    if ts == [] then []
    else SpecWarnings(ts[..|ts| - 1], maxIndex) + TokenWarnings(ts[|ts| - 1], maxIndex)
  }

  /** The inner loop over a range token: every integer from `start` to `end` that is an index
      is added. */
  method AddRange(indices: set<int>, start: int, end: int, maxIndex: int) returns (result: set<int>)
    requires start <= end
    ensures result == indices + Clipped(start, end, maxIndex)
  {
    result := indices;
    for i := start to end + 1
      invariant result == indices + Clipped(start, i - 1, maxIndex)
    {
      ClippedStep(start, i - 1, maxIndex);
      if 0 <= i <= maxIndex {
        result := result + {i};
      }
    }
  }

  /** The body of the loop of `parse_delete_indices` for one token: strips it, skips it when
      empty, reads it as a range when it holds `-` and as an index otherwise, and adds what it
      selects or the warning it draws. */
  method ReadToken(indices: set<int>, warnings: seq<Warning>, rawPart: string, maxIndex: int)
    returns (indices': set<int>, warnings': seq<Warning>)
    ensures indices' == indices + TokenIndices(Classify(rawPart), maxIndex)
    ensures warnings' == warnings + TokenWarnings(Classify(rawPart), maxIndex)
  {
    indices', warnings' := indices, warnings;
    var part := Strip(rawPart);
    if part == [] {
      return;
    }
    if Contains(part, "-") {
      var ends := Split(part, "-");
      if |ends| == 2 && ParseInt(ends[0]).Some? && ParseInt(ends[1]).Some? {
        var start, end := ParseInt(ends[0]).value, ParseInt(ends[1]).value;
        if start > end {
          start, end := end, start;
        }
        indices' := AddRange(indices, start, end, maxIndex);
      } else {
        warnings' := warnings + [InvalidRange(part)];
      }
    } else {
      match ParseInt(part)
      case Some(index) =>
        if 0 <= index <= maxIndex {
          indices' := indices + {index};
        } else {
          warnings' := warnings + [OutOfBounds(index, maxIndex)];
        }
      case None =>
        warnings' := warnings + [InvalidIndex(part)];
    }
  }

  /** The selection and the warnings of the first `k + 1` tokens. */
  lemma SpecSnoc(ts: seq<Token>, k: nat, maxIndex: int)
    requires k < |ts|
    ensures SpecIndices(ts[..k + 1], maxIndex) == SpecIndices(ts[..k], maxIndex) + TokenIndices(ts[k], maxIndex)
    ensures SpecWarnings(ts[..k + 1], maxIndex) == SpecWarnings(ts[..k], maxIndex) + TokenWarnings(ts[k], maxIndex)
  {
    assert ts[..k + 1][..k] == ts[..k];
  }

  /** `parse_delete_indices(indexStr, maxIndex)`: the indices selected by the comma-separated
      tokens of `indexStr`, and the warnings printed along the way. */
  method ParseDeleteIndices(indexStr: string, maxIndex: int) returns (indices: set<int>, warnings: seq<Warning>)
    ensures indices == SpecIndices(Tokens(indexStr), maxIndex)
    ensures warnings == SpecWarnings(Tokens(indexStr), maxIndex)
  {
    indices := {};
    warnings := [];
    var parts := Split(indexStr, ",");
    ghost var ts := Tokens(indexStr);
    for k := 0 to |parts|
      invariant indices == SpecIndices(ts[..k], maxIndex)
      invariant warnings == SpecWarnings(ts[..k], maxIndex)
    {
      SpecSnoc(ts, k, maxIndex);
      indices, warnings := ReadToken(indices, warnings, parts[k], maxIndex);
    }
    assert ts[..|parts|] == ts;
  }

  // ---------------------------------------------------------------------------
  // Properties

  /** An index is selected exactly when some token selects it: the result is the union of what
      the tokens select, each token on its own. */
  lemma {:induction false} SelectedByAToken(ts: seq<Token>, maxIndex: int, i: int)
    ensures i in SpecIndices(ts, maxIndex) <==> exists k :: 0 <= k < |ts| && i in TokenIndices(ts[k], maxIndex)
  {
    if ts != [] {
      var n := |ts| - 1;
      var init := ts[..n];
      SelectedByAToken(init, maxIndex, i);
      if k :| 0 <= k < n && i in TokenIndices(ts[k], maxIndex) {
        assert init[k] == ts[k];
      }
      if k :| 0 <= k < n && i in TokenIndices(init[k], maxIndex) {
        assert init[k] == ts[k];
      }
    }
  }

  /** Every selected index lies in `0..maxIndex`, whatever the specification. */
  lemma SelectedInBounds(ts: seq<Token>, maxIndex: int, i: int)
    requires i in SpecIndices(ts, maxIndex)
    ensures 0 <= i <= maxIndex
  {
    SelectedByAToken(ts, maxIndex, i);
  }

  /** A token that selects nothing (empty, malformed or out of bounds) can be taken out without
      changing what the other tokens select. */
  lemma DroppedTokenChangesNothing(before: seq<Token>, bad: Token, after: seq<Token>, maxIndex: int)
    requires TokenIndices(bad, maxIndex) == {}
    ensures SpecIndices(before + [bad] + after, maxIndex) == SpecIndices(before + after, maxIndex)
  {
    var all, rest := before + [bad] + after, before + after;
    forall i
      ensures i in SpecIndices(all, maxIndex) <==> i in SpecIndices(rest, maxIndex)
    {
      SelectedByAToken(all, maxIndex, i);
      SelectedByAToken(rest, maxIndex, i);
      if k :| 0 <= k < |all| && i in TokenIndices(all[k], maxIndex) {
        if k < |before| {
          assert rest[k] == all[k];
        } else {
          assert rest[k - 1] == all[k];
        }
      }
      if k :| 0 <= k < |rest| && i in TokenIndices(rest[k], maxIndex) {
        if k < |before| {
          assert all[k] == rest[k];
        } else {
          assert all[k + 1] == rest[k];
        }
      }
    }
  }

  /** A digit group holds no `-`. */
  lemma DigitGroupHasNoMinus(x: string)
    requires IsDigitGroup(x)
    ensures forall j: nat :: !OccursAt(x, "-", j)
  {
    forall j: nat | j + 1 <= |x|
      ensures !OccursAt(x, "-", j)
    {
      assert x[j..j + 1][0] == x[j];
    }
  }

  /** In `x-y` with `x` free of `-`, the first `-` is the one after `x`. */
  lemma FirstMinusBetween(x: string, y: string)
    requires forall i :: 0 <= i < |x| ==> x[i] != '-'
    ensures FindFrom(x + "-" + y, "-", 0) == Some(|x|)
  {
    var p := x + "-" + y;
    forall i | 0 <= i < |x|
      ensures p[i] != '-'
    {
      assert p[i] == x[i];
    }
    FindCharFirst(p, '-', 0, |x|);
  }

  lemma IndexRight<T>(a: seq<T>, b: seq<T>, i: int)
    requires |a| <= i < |a| + |b|
    ensures (a + b)[i] == b[i - |a|]
  {
  }

  /** In `x-y` with `y` free of `-`, no `-` follows the one after `x`. */
  lemma NoMinusAfter(x: string, y: string)
    requires forall i :: 0 <= i < |y| ==> y[i] != '-'
    ensures FindFrom(x + "-" + y, "-", |x| + 1).None?
  {
    var p := x + "-" + y;
    forall i | |x| + 1 <= i < |p|
      ensures p[i] != '-'
    {
      IndexRight(x + "-", y, i);
    }
    FindCharNone(p, '-', |x| + 1);
  }

  /** `x-y` with `x` and `y` free of `-` splits at its `-` into `x` and `y`. */
  lemma SplitAtMinus(x: string, y: string)
    requires forall i :: 0 <= i < |x| ==> x[i] != '-'
    requires forall i :: 0 <= i < |y| ==> y[i] != '-'
    ensures var p := x + "-" + y; Contains(p, "-") && Split(p, "-") == [x, y]
  {
    var p := x + "-" + y;
    FirstMinusBetween(x, y);
    NoMinusAfter(x, y);
    SplitFromStep(p, "-", 0, |x|);
    SplitFromLast(p, "-", |x| + 1);
    assert p[0..|x|] == x && p[|x| + 1..] == y;
  }

  /** `x-y` with two digit groups splits at its `-` into `x` and `y`. */
  lemma SplitRange(x: string, y: string)
    requires IsDigitGroup(x) && IsDigitGroup(y)
    ensures var p := x + "-" + y; Strip(p) == p && Contains(p, "-") && Split(p, "-") == [x, y]
  {
    var p := x + "-" + y;
    assert Strip(p) == p by {
      StripUnpadded(p);
    }
    SplitAtMinus(x, y);
  }

  /** `x-y` with two digit groups selects the integers from the smaller value to the larger one
      that lie within bounds, in whichever order the ends are given; an end with more digits
      than `int()` converts makes it an invalid range. */
  lemma RangeSelectsBetweenEnds(x: string, y: string, maxIndex: int)
    requires IsDigitGroup(x) && IsDigitGroup(y)
    ensures DigitCount(x) <= MaxStrDigits && DigitCount(y) <= MaxStrDigits ==>
      var a, b := DigitsValue(x), DigitsValue(y);
      var lo, hi := if a < b then a else b, if a < b then b else a;
      && Classify(x + "-" + y) == Range(lo, hi)
      && TokenIndices(Classify(x + "-" + y), maxIndex) == Clipped(lo, hi, maxIndex)
    ensures DigitCount(x) > MaxStrDigits || DigitCount(y) > MaxStrDigits ==>
      Classify(x + "-" + y) == BadRange(x + "-" + y)
  {
    SplitRange(x, y);
    ParseIntDigitGroup(x);
    ParseIntDigitGroup(y);
    if DigitCount(x) <= MaxStrDigits && DigitCount(y) <= MaxStrDigits {
      ClassifyTwoEnds(x + "-" + y, x, y);
    }
  }

  lemma ClassifyTwoEnds(p: string, x: string, y: string)
    requires Strip(p) == p && p != [] && Contains(p, "-") && Split(p, "-") == [x, y]
    requires ParseInt(x).Some? && ParseInt(y).Some?
    ensures var a, b := ParseInt(x).value, ParseInt(y).value;
      Classify(p) == if a < b then Range(a, b) else Range(b, a)
  {
  }

  /** `a-b` and `b-a` are read as the same range, or are both turned away. */
  lemma ReversedRangeSelectsTheSame(x: string, y: string)
    requires IsDigitGroup(x) && IsDigitGroup(y)
    ensures DigitCount(x) <= MaxStrDigits && DigitCount(y) <= MaxStrDigits ==>
      Classify(x + "-" + y) == Classify(y + "-" + x)
    ensures DigitCount(x) > MaxStrDigits || DigitCount(y) > MaxStrDigits ==>
      Classify(x + "-" + y).BadRange? && Classify(y + "-" + x).BadRange?
  {
    RangeSelectsBetweenEnds(x, y, 0);
    RangeSelectsBetweenEnds(y, x, 0);
  }

  /** A token whose stripped text starts with `-` (a negative number, say) is read as a range
      with an empty first end, and turned away as an invalid range. */
  lemma LeadingMinusIsInvalidRange(part: string)
    requires var p := Strip(part); p != [] && p[0] == '-'
    ensures Classify(part) == BadRange(Strip(part))
  {
    var p := Strip(part);
    assert OccursAt(p, "-", 0) by {
      assert p[0..1] == "-";
    }
    FindFromFirst(p, "-", 0, 0);
    SplitFromStep(p, "-", 0, 0);
    assert Split(p, "-")[0] == [];
    assert Strip([]) == [];
  }

  /** A token without `-` that is a digit group selects that index when it lies within bounds and
      draws an out-of-bounds warning otherwise; with more digits than `int()` converts, leading
      zeros included, it is an invalid index. */
  lemma SingleIndex(x: string, maxIndex: int)
    requires IsDigitGroup(x)
    ensures DigitCount(x) <= MaxStrDigits ==> Classify(x) == Single(DigitsValue(x))
    ensures DigitCount(x) <= MaxStrDigits && DigitsValue(x) <= maxIndex ==>
      TokenIndices(Classify(x), maxIndex) == {DigitsValue(x)}
    ensures DigitCount(x) <= MaxStrDigits && DigitsValue(x) > maxIndex ==>
      TokenIndices(Classify(x), maxIndex) == {} && TokenWarnings(Classify(x), maxIndex) == [OutOfBounds(DigitsValue(x), maxIndex)]
    ensures DigitCount(x) > MaxStrDigits ==>
      TokenIndices(Classify(x), maxIndex) == {} && TokenWarnings(Classify(x), maxIndex) == [InvalidIndex(x)]
  {
    StripUnpadded(x);
    DigitGroupHasNoMinus(x);
    assert !Contains(x, "-");
    ParseIntDigitGroup(x);
  }

  // ---------------------------------------------------------------------------
  // The examples of the usage text

  lemma DigitGroupOfOneDigit(x: string)
    requires |x| == 1 && IsDigit(x[0])
    ensures IsDigitGroup(x) && DigitsValue(x) == DigitValue(x[0]) && DigitCount(x) == 1
  {
    assert !Contains(x, "__");
    assert x[..0] == [];
  }

  /** The split of `a,b,c` when no token holds a comma. */
  lemma SplitThree(a: string, b: string, c: string)
    requires !Contains(a, ",") && !Contains(b, ",") && !Contains(c, ",")
    ensures Split(a + "," + b + "," + c, ",") == [a, b, c]
  {
    var parts := [a, b, c];
    assert parts[1..] == [b, c] && parts[1..][1..] == [c];
    assert Join([c], ",") == c;
    assert Join([b, c], ",") == b + "," + c;
    assert Join(parts, ",") == a + "," + (b + "," + c);
    assert a + "," + (b + "," + c) == a + "," + b + "," + c;
    SplitOfJoin(parts, ",");
  }

  /** A one-digit token is read as that digit. */
  lemma ClassifyOneDigit(x: char)
    requires IsDigit(x)
    ensures Classify([x]) == Single(DigitValue(x))
  {
    DigitGroupOfOneDigit([x]);
    SingleIndex([x], 0);
  }

  /** A token of two digits around `-` is read as the range between them. */
  lemma ClassifyOneDigitRange(x: char, y: char)
    requires IsDigit(x) && IsDigit(y)
    ensures var a, b := DigitValue(x), DigitValue(y);
      Classify([x, '-', y]) == if a < b then Range(a, b) else Range(b, a)
  {
    DigitGroupOfOneDigit([x]);
    DigitGroupOfOneDigit([y]);
    RangeSelectsBetweenEnds([x], [y], 0);
    assert [x] + "-" + [y] == [x, '-', y];
  }

  /** Three comma-separated tokens without commas are read one by one. */
  lemma TokensOfThree(a: string, b: string, c: string)
    requires !Contains(a, ",") && !Contains(b, ",") && !Contains(c, ",")
    ensures Tokens(a + "," + b + "," + c) == [Classify(a), Classify(b), Classify(c)]
  {
    SplitThree(a, b, c);
  }

  /** `0,2,4-6` reads as the indices 0 and 2 and the range from 4 to 6. */
  lemma ExampleMixedTokens(spec: string)
    requires spec == "0,2,4-6"
    ensures Tokens(spec) == [Single(0), Single(2), Range(4, 6)]
  {
    var a, b, c := "0", "2", "4-6";
    WithoutChar(a, ',');
    WithoutChar(b, ',');
    WithoutChar(c, ',');
    assert spec == a + "," + b + "," + c;
    TokensOfThree(a, b, c);
    ClassifyOneDigit('0');
    ClassifyOneDigit('2');
    ClassifyOneDigitRange('4', '6');
  }

  /** Three tokens select what each selects, and draw their warnings in order. */
  lemma ThreeTokens(t0: Token, t1: Token, t2: Token, maxIndex: int)
    ensures SpecIndices([t0, t1, t2], maxIndex) ==
      TokenIndices(t0, maxIndex) + TokenIndices(t1, maxIndex) + TokenIndices(t2, maxIndex)
    ensures SpecWarnings([t0, t1, t2], maxIndex) ==
      TokenWarnings(t0, maxIndex) + TokenWarnings(t1, maxIndex) + TokenWarnings(t2, maxIndex)
  {
    var ts := [t0, t1, t2];
    assert ts[..2] == [t0, t1] && ts[..2][..1] == [t0] && ts[..2][..1][..0] == [];
    assert SpecIndices([t0], maxIndex) == TokenIndices(t0, maxIndex);
    assert SpecIndices([t0, t1], maxIndex) == TokenIndices(t0, maxIndex) + TokenIndices(t1, maxIndex);
    assert SpecWarnings([t0], maxIndex) == TokenWarnings(t0, maxIndex);
    assert SpecWarnings([t0, t1], maxIndex) == TokenWarnings(t0, maxIndex) + TokenWarnings(t1, maxIndex);
  }

  /** `0,2,4-6` selects 0, 2, 4, 5 and 6 from ten or more messages, with no warning. */
  lemma ExampleMixed(spec: string)
    requires spec == "0,2,4-6"
    ensures SpecIndices(Tokens(spec), 10) == {0, 2, 4, 5, 6}
    ensures SpecWarnings(Tokens(spec), 10) == []
  {
    ExampleMixedTokens(spec);
    ThreeTokens(Single(0), Single(2), Range(4, 6), 10);
    ClippedThree(4, 10);
  }

  lemma ClippedThree(lo: int, maxIndex: int)
    requires 0 <= lo && lo + 2 <= maxIndex
    ensures Clipped(lo, lo + 2, maxIndex) == {lo, lo + 1, lo + 2}
  {
    assert lo in Clipped(lo, lo + 2, maxIndex) && lo + 1 in Clipped(lo, lo + 2, maxIndex);
    assert lo + 2 in Clipped(lo, lo + 2, maxIndex);
  }

  /** One token without a comma is all the specification holds. */
  lemma OneToken(part: string, maxIndex: int)
    requires !Contains(part, ",")
    ensures Tokens(part) == [Classify(part)]
    ensures SpecIndices(Tokens(part), maxIndex) == TokenIndices(Classify(part), maxIndex)
    ensures SpecWarnings(Tokens(part), maxIndex) == TokenWarnings(Classify(part), maxIndex)
  {
    SplitSingle(part, ",");
    assert [Classify(part)][..0] == [];
  }

  /** A specification `x-y` of two digits selects the indices between them. */
  lemma OneDigitRangeSpec(x: char, y: char, maxIndex: int)
    requires IsDigit(x) && IsDigit(y)
    ensures var a, b := DigitValue(x), DigitValue(y);
      SpecIndices(Tokens([x, '-', y]), maxIndex) == if a < b then Clipped(a, b, maxIndex) else Clipped(b, a, maxIndex)
  {
    WithoutChar([x, '-', y], ',');
    OneToken([x, '-', y], maxIndex);
    ClassifyOneDigitRange(x, y);
  }

  /** `5-3` selects 3, 4 and 5: the ends of a range are put in order. */
  lemma ExampleReversed(spec: string)
    requires spec == "5-3"
    ensures SpecIndices(Tokens(spec), 10) == {3, 4, 5}
  {
    OneDigitRangeSpec('5', '3', 10);
    ClippedThree(3, 10);
  }

  /** A specification `x,y,z` of three digits is read as those three indices. */
  lemma ThreeDigitsTokens(x: char, y: char, z: char)
    requires IsDigit(x) && IsDigit(y) && IsDigit(z)
    ensures Tokens([x, ',', y, ',', z]) == [Single(DigitValue(x)), Single(DigitValue(y)), Single(DigitValue(z))]
  {
    WithoutChar([x], ',');
    WithoutChar([y], ',');
    WithoutChar([z], ',');
    assert [x, ',', y, ',', z] == [x] + "," + [y] + "," + [z];
    TokensOfThree([x], [y], [z]);
    ClassifyOneDigit(x);
    ClassifyOneDigit(y);
    ClassifyOneDigit(z);
  }

  /** `0,2,7` with six messages selects 0 and 2 and warns that 7 is out of bounds. */
  lemma ExampleOutOfBounds(spec: string)
    requires spec == "0,2,7"
    ensures SpecIndices(Tokens(spec), 5) == {0, 2}
    ensures SpecWarnings(Tokens(spec), 5) == [OutOfBounds(7, 5)]
  {
    ThreeDigitsTokens('0', '2', '7');
    ThreeTokens(Single(0), Single(2), Single(7), 5);
  }

  /** `abc` selects nothing and is reported as an invalid index. */
  lemma ExampleInvalid(spec: string)
    requires spec == "abc"
    ensures SpecIndices(Tokens(spec), 10) == {}
    ensures SpecWarnings(Tokens(spec), 10) == [InvalidIndex("abc")]
  {
    WithoutChar(spec, ',');
    WithoutChar(spec, '-');
    OneToken(spec, 10);
    StripUnpadded(spec);
    IntStripUnpadded(spec);
    assert !IsDigitGroup(spec) by {
      assert !IsDigit(spec[0]);
    }
    assert ParseInt(spec).None?;
  }

  /** `1<U+001C>-5` is an invalid range: `str.strip` and `str.split` leave the separator U+001C
      on the first end, and `int()` does not skip it. */
  lemma ExampleSeparatorInRange(spec: string)
    requires spec == "1\U{1C}-5"
    ensures SpecIndices(Tokens(spec), 10) == {}
    ensures SpecWarnings(Tokens(spec), 10) == [InvalidRange(spec)]
  {
    var first := "1\U{1C}";
    assert spec == first + "-" + "5";
    WithoutChar(spec, ',');
    OneToken(spec, 10);
    StripUnpadded(spec);
    SplitAtMinus(first, "5");
    IntStripUnpadded(first);
    assert !IsDigitGroup(first) by {
      assert !IsDigit(first[1]);
    }
    assert ParseInt(first).None?;
  }
}
