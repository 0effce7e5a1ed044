/** Reading the text that `mmcli` prints: the first modem path of a modem listing, the
    modem's own number, the SMS paths of a message listing, the key/value details of one
    SMS, the handle of a newly created SMS and the one-line preview of a message text. */
module Mmcli {
  import opened PyText

  /** The root of the object paths of ModemManager. */
  const ObjectRoot := "/org/freedesktop/ModemManager1/"
  const ModemWord := "Modem"
  const ModemPathPrefix := ObjectRoot + ModemWord + "/"
  const SmsPathPrefix := ObjectRoot + "SMS/"
  const OwnLabel := "own:"
  const UnknownNumber := "unknown"
  const PreviewLength := 50

  /** The first line, at or after `from`, that satisfies `p`. */
  function FirstLineWhere(lines: seq<string>, p: string -> bool, from: nat): (r: Option<nat>)
    requires from <= |lines|
    ensures r.Some? ==> from <= r.value < |lines| && p(lines[r.value])
    ensures forall j :: from <= j < |lines| && (r.None? || j < r.value) ==> !p(lines[j])
    decreases |lines| - from
  {
    if from == |lines| then None
    else if p(lines[from]) then Some(from)
    else FirstLineWhere(lines, p, from + 1)
  }

  // ---------------------------------------------------------------------------
  // Device paths: the regular expression `<prefix>\d+`

  /** A device path: the prefix followed by one or more ASCII digits. */
  predicate IsDevicePath(p: string, prefix: string) {
    && |p| > |prefix| && p[..|prefix|] == prefix
    && forall j :: |prefix| <= j < |p| ==> IsDigit(p[j])
  }

  /** The number of consecutive digits of `s` from position `i` on. */
  function DigitRun(s: string, i: nat): (n: nat)
    requires i <= |s|
    ensures i + n <= |s|
    ensures forall j :: i <= j < i + n ==> IsDigit(s[j])
    ensures i + n < |s| ==> !IsDigit(s[i + n])
    decreases |s| - i
  {
    if i < |s| && IsDigit(s[i]) then 1 + DigitRun(s, i + 1) else 0
  }

  /** The match of `<prefix>\d+` that starts exactly at `i`: the longest run of digits is taken. */
  function MatchAt(s: string, prefix: string, i: nat): (r: Option<string>)
    ensures r.Some? ==> i + |r.value| <= |s| && r.value == s[i..i + |r.value|]
    ensures r.Some? ==> IsDevicePath(r.value, prefix)
    ensures r.Some? ==> i + |r.value| == |s| || !IsDigit(s[i + |r.value|])
    ensures r.None? ==> !OccursAt(s, prefix, i) || i + |prefix| == |s| || !IsDigit(s[i + |prefix|])
  {
    if OccursAt(s, prefix, i) && i + |prefix| < |s| && IsDigit(s[i + |prefix|]) then
      var n := DigitRun(s, i + |prefix|);
      var m := s[i..i + |prefix| + n];
      assert m[..|prefix|] == s[i..i + |prefix|];
      Some(m)
    else None
  }

  /** `re.search`: the leftmost match at or after `from`, with the position where it starts. */
  function SearchFrom(s: string, prefix: string, from: nat): (r: Option<(nat, string)>)
    ensures r.Some? ==> from <= r.value.0 && MatchAt(s, prefix, r.value.0) == Some(r.value.1)
    ensures forall j: nat :: from <= j && (r.None? || j < r.value.0) ==> MatchAt(s, prefix, j).None?
    decreases |s| - from
  {
    if from > |s| then None
    else match MatchAt(s, prefix, from)
      case Some(m) => Some((from, m))
      case None => SearchFrom(s, prefix, from + 1)
  }

  /** `re.findall`: the non-overlapping matches at or after `from`, left to right. */
  function FindAllFrom(s: string, prefix: string, from: nat): (r: seq<string>)
    ensures forall k :: 0 <= k < |r| ==> IsDevicePath(r[k], prefix)
    decreases |s| + 1 - from
  {
    if from > |s| then []
    else match MatchAt(s, prefix, from)
      case Some(m) => [m] + FindAllFrom(s, prefix, from + |m|)
      case None => FindAllFrom(s, prefix, from + 1)
  }

  /** `re.findall` finds nothing when `re.search` finds nothing, and otherwise finds first
      the match `re.search` finds. */
  lemma {:induction false} FindAllFirst(s: string, prefix: string, from: nat)
    ensures SearchFrom(s, prefix, from).None? ==> FindAllFrom(s, prefix, from) == []
    ensures SearchFrom(s, prefix, from).Some? ==>
              FindAllFrom(s, prefix, from) != [] && FindAllFrom(s, prefix, from)[0] == SearchFrom(s, prefix, from).value.1
    decreases |s| + 1 - from
  {
    if from > |s| {
    } else if MatchAt(s, prefix, from).Some? {
      MatchTaken(s, prefix, from);
    } else {
      NoMatchSkipped(s, prefix, from);
      FindAllFirst(s, prefix, from + 1);
    }
  }

  /** Where a match starts, both searches take it. */
  lemma MatchTaken(s: string, prefix: string, from: nat)
    requires from <= |s| && MatchAt(s, prefix, from).Some?
    ensures var m := MatchAt(s, prefix, from).value;
      && SearchFrom(s, prefix, from) == Some((from, m))
      && FindAllFrom(s, prefix, from) == [m] + FindAllFrom(s, prefix, from + |m|)
  {
  }

  /** Where no match starts, both searches go on from the next position. */
  lemma NoMatchSkipped(s: string, prefix: string, from: nat)
    requires from <= |s| && MatchAt(s, prefix, from).None?
    ensures SearchFrom(s, prefix, from) == SearchFrom(s, prefix, from + 1)
    ensures FindAllFrom(s, prefix, from) == FindAllFrom(s, prefix, from + 1)
  {
  }

  // ---------------------------------------------------------------------------
  // get_modem_path

  /** The line holds the word `Modem` and a modem path. */
  predicate HasModemPath(line: string) {
    Contains(line, ModemWord) && SearchFrom(line, ModemPathPrefix, 0).Some?
  }

  /** The first modem path in the output of `mmcli -L`; `None` when the command failed or
      printed nothing. */
  function GetModemPath(output: Option<string>): (r: Option<string>)
    ensures r.Some? ==> IsDevicePath(r.value, ModemPathPrefix)
    ensures output.None? || output.value == "" ==> r.None?
  {
    if output.None? || output.value == "" then None
    else
      var lines := SplitLines(output.value);
      match FirstLineWhere(lines, HasModemPath, 0)
      case None => None
      case Some(k) => Some(SearchFrom(lines[k], ModemPathPrefix, 0).value.1)
  }

  /** The modem path is the leftmost match on the first line that holds `Modem` and a match. */
  lemma ModemPathFromFirstLine(output: string, k: nat)
    requires var lines := SplitLines(output);
      && k < |lines| && HasModemPath(lines[k])
      && forall j :: 0 <= j < k ==> !HasModemPath(lines[j])
    ensures GetModemPath(Some(output)) == Some(SearchFrom(SplitLines(output)[k], ModemPathPrefix, 0).value.1)
  {
    var lines := SplitLines(output);
    assert output != [];
    assert FirstLineWhere(lines, HasModemPath, 0) == Some(k);
  }

  /** Without a line that holds `Modem` and a match, there is no modem path. */
  lemma NoModemPath(output: string)
    requires var lines := SplitLines(output); forall j :: 0 <= j < |lines| ==> !HasModemPath(lines[j])
    ensures GetModemPath(Some(output)).None?
  {
    assert FirstLineWhere(SplitLines(output), HasModemPath, 0).None?;
  }

  /** Every line that holds a modem path also holds the word `Modem`: the word test in front of
      the regular expression never turns a line away. */
  lemma ModemPathHasModemWord(line: string)
    requires SearchFrom(line, ModemPathPrefix, 0).Some?
    ensures HasModemPath(line)
  {
    var at := SearchFrom(line, ModemPathPrefix, 0).value.0;
    var n := |ObjectRoot|;
    assert OccursAt(line, ModemPathPrefix, at);
    assert ModemPathPrefix[n..n + 5] == ModemWord;
    SliceOfSlice(line, at, at + |ModemPathPrefix|, n, n + 5);
    var first := FindFromAtMost(line, ModemWord, 0, at + n);
  }

  // ---------------------------------------------------------------------------
  // get_own_number

  predicate HasOwnLabel(line: string) {
    Contains(line, OwnLabel)
  }

  /** `line.split('own:')[1].strip()`: the text between the first label and the next one (or the
      end of the line), stripped. */
  function OwnValue(line: string): (v: string)
    requires HasOwnLabel(line)
    ensures !Contains(v, OwnLabel)
  {
    SplitPiecesFree(line, OwnLabel, 0);
    var piece := Split(line, OwnLabel)[1];
    StripKeepsAbsence(piece, OwnLabel);
    Strip(piece)
  }

  /** The own number on a line is the stripped text from the end of the first `own:` up to the
      next `own:`, or to the end of the line. */
  lemma OwnValueBetweenLabels(line: string, start: nat, end: nat)
    requires HasOwnLabel(line)
    requires start == FindFrom(line, OwnLabel, 0).value + |OwnLabel|
    requires end == if FindFrom(line, OwnLabel, start).Some? then FindFrom(line, OwnLabel, start).value else |line|
    ensures start <= end <= |line| && OwnValue(line) == Strip(line[start..end])
  {
    SecondPiece(line, OwnLabel, start, end);
  }

  /** The value on the first line that holds `own:`, or `unknown` when none does. */
  function OwnNumberInLines(lines: seq<string>): string {
    match FirstLineWhere(lines, HasOwnLabel, 0)
    case None => UnknownNumber
    case Some(k) => OwnValue(lines[k])
  }

  /** The own number comes from the first line that holds `own:`. */
  lemma OwnNumberFromFirstLabel(lines: seq<string>, k: nat)
    requires k < |lines| && HasOwnLabel(lines[k])
    requires forall j :: 0 <= j < k ==> !HasOwnLabel(lines[j])
    ensures OwnNumberInLines(lines) == OwnValue(lines[k])
  {
    var r := FirstLineWhere(lines, HasOwnLabel, 0);
    assert r.Some?;
    assert r.value == k;
  }

  /** Without a line that holds `own:`, the own number is `unknown`. */
  lemma OwnNumberWithoutLabel(lines: seq<string>)
    requires forall j :: 0 <= j < |lines| ==> !HasOwnLabel(lines[j])
    ensures OwnNumberInLines(lines) == UnknownNumber
  {
    assert FirstLineWhere(lines, HasOwnLabel, 0).None?;
  }

  /** The own number in the output of `mmcli -m <id>`: `unknown` when the command failed or
      printed nothing, otherwise what its lines give. */
  function GetOwnNumber(output: Option<string>): (r: string)
    ensures output.None? || output.value == "" ==> r == UnknownNumber
  {
    if output.None? || output.value == "" then UnknownNumber
    else OwnNumberInLines(SplitLines(output.value))
  }

  // ---------------------------------------------------------------------------
  // SMS paths of `mmcli -m <modem> --messaging-list-sms`

  /** The SMS paths of a message listing, in listing order; none when the command failed or
      printed nothing. */
  function DevicePaths(listOutput: Option<string>): (paths: seq<string>)
    ensures forall k :: 0 <= k < |paths| ==> IsDevicePath(paths[k], SmsPathPrefix)
    ensures listOutput.None? || listOutput.value == "" ==> paths == []
  {
    if listOutput.None? || listOutput.value == "" then [] else FindAllFrom(listOutput.value, SmsPathPrefix, 0)
  }

  /** A listing of SMS paths, one per line, lists exactly those paths, in the same order. */
  lemma DevicePathsOfListing(ps: seq<string>, listing: string)
    requires |ps| >= 1 && forall k :: 0 <= k < |ps| ==> IsDevicePath(ps[k], SmsPathPrefix)
    requires listing == Join(ps, "\n")
    ensures DevicePaths(Some(listing)) == ps
  {
    ListingFindsPaths(ps, listing);
    DevicePathsOfText(listing, ps);
  }

  /** `re.findall` over such a listing finds the paths, and the listing is not empty. */
  lemma ListingFindsPaths(ps: seq<string>, listing: string)
    requires |ps| >= 1 && forall k :: 0 <= k < |ps| ==> IsDevicePath(ps[k], SmsPathPrefix)
    requires listing == Join(ps, "\n")
    ensures listing != "" && FindAllFrom(listing, SmsPathPrefix, 0) == ps
  {
    assert |ps[0]| > 0;
    JoinStartsWithFirst(ps, "\n");
    SmsPathPrefixStart();
    FindAllOfListing(listing, SmsPathPrefix, '\n', ps);
  }

  /** A listing that printed something is searched as a whole. */
  lemma DevicePathsOfText(listing: string, ps: seq<string>)
    requires listing != "" && FindAllFrom(listing, SmsPathPrefix, 0) == ps
    ensures DevicePaths(Some(listing)) == ps
  {
  }

  /** The SMS path prefix starts with a slash. */
  lemma SmsPathPrefixStart()
    ensures SmsPathPrefix != [] && SmsPathPrefix[0] == '/'
  {
  }

  /** A joined text is at least as long as its first part. */
  lemma JoinStartsWithFirst(ps: seq<string>, sep: string)
    requires |ps| >= 1
    ensures |Join(ps, sep)| >= |ps[0]|
  {
  }

  /** `re.findall` over a whole text made of device paths and separators. */
  lemma FindAllOfListing(s: string, prefix: string, c: char, ps: seq<string>)
    requires prefix != [] && prefix[0] != c && !IsDigit(c)
    requires |ps| >= 1 && forall k :: 0 <= k < |ps| ==> IsDevicePath(ps[k], prefix)
    requires s == Join(ps, [c])
    ensures FindAllFrom(s, prefix, 0) == ps
  {
    assert s[0..] == s;
    assert ps[0..] == ps;
    FindAllOfJoin(s, prefix, c, ps, 0, 0);
  }

  /** `re.findall` over device paths separated by a character that neither is a digit nor
      starts the prefix finds each of the paths, in order. */
  lemma {:induction false} FindAllOfJoin(s: string, prefix: string, c: char, ps: seq<string>, i: nat, from: nat)
    requires prefix != [] && prefix[0] != c && !IsDigit(c)
    requires i < |ps| && forall k :: 0 <= k < |ps| ==> IsDevicePath(ps[k], prefix)
    requires from <= |s| && s[from..] == Join(ps[i..], [c])
    ensures FindAllFrom(s, prefix, from) == ps[i..]
    decreases |ps| - i
  {
    var p := ps[i];
    var end := from + |p|;
    JoinFrom(ps, i, [c]);
    if i + 1 == |ps| {
      MatchOfPath(s, prefix, c, p, from);
      PathTaken(s, prefix, from, p);
      NoMatchAtEnd(s, prefix);
      LastSlice(ps, i);
    } else {
      var tail := Join(ps[i + 1..], [c]);
      SuffixParts(s, from, p, [c] + tail);
      FirstOfSuffix(s, end, c, tail);
      FindAllOfJoin(s, prefix, c, ps, i + 1, end + 1);
      FindAllStep(s, prefix, c, p, from, ps[i + 1..]);
      SliceCons(ps, i);
    }
  }

  /** A device path at `from`, followed by a separator, is found first, and the search goes on
      after the separator. */
  lemma FindAllStep(s: string, prefix: string, c: char, p: string, from: nat, rest: seq<string>)
    requires prefix != [] && prefix[0] != c && !IsDigit(c) && IsDevicePath(p, prefix)
    requires from + |p| < |s| && s[from..from + |p|] == p && s[from + |p|] == c
    requires FindAllFrom(s, prefix, from + |p| + 1) == rest
    ensures FindAllFrom(s, prefix, from) == [p] + rest
  {
    MatchOfPath(s, prefix, c, p, from);
    PathTaken(s, prefix, from, p);
    NoMatchAtSeparator(s, prefix, c, from + |p|);
  }

  /** The match found at `from` comes first in `re.findall`'s result from there. */
  lemma PathTaken(s: string, prefix: string, from: nat, p: string)
    requires from <= |s| && MatchAt(s, prefix, from) == Some(p)
    ensures FindAllFrom(s, prefix, from) == [p] + FindAllFrom(s, prefix, from + |p|)
  {
    MatchTaken(s, prefix, from);
  }

  /** A device path standing at `from` and followed by the end of the text or by a character
      that is not a digit is the match found there. */
  lemma MatchOfPath(s: string, prefix: string, c: char, p: string, from: nat)
    requires IsDevicePath(p, prefix) && !IsDigit(c)
    requires from + |p| <= |s| && s[from..from + |p|] == p
    requires from + |p| == |s| || s[from + |p|] == c
    ensures MatchAt(s, prefix, from) == Some(p)
  {
    var i := from + |prefix|;
    SliceOfSlice(s, from, from + |p|, 0, |prefix|);
    assert OccursAt(s, prefix, from);
    assert s[i] == p[|prefix|];
    var n := DigitRun(s, i);
    forall j | i <= j < from + |p|
      ensures IsDigit(s[j])
    {
      assert s[j] == p[j - from];
    }
    assert n == |p| - |prefix|;
  }

  /** No match starts at the end of the text. */
  lemma NoMatchAtEnd(s: string, prefix: string)
    requires prefix != []
    ensures FindAllFrom(s, prefix, |s|) == []
  {
    assert MatchAt(s, prefix, |s|).None?;
  }

  /** No match starts at a separator character, so the search goes on from the next position. */
  lemma NoMatchAtSeparator(s: string, prefix: string, c: char, q: nat)
    requires prefix != [] && prefix[0] != c && q < |s| && s[q] == c
    ensures FindAllFrom(s, prefix, q) == FindAllFrom(s, prefix, q + 1)
  {
    assert !OccursAt(s, prefix, q) by {
      if q + |prefix| <= |s| {
        assert s[q..q + |prefix|][0] == s[q];
      }
    }
  }

  // ---------------------------------------------------------------------------
  // The details of one SMS, as `mmcli -s <path>` prints them

  /** `line.split(':', 1)`: the text before the first colon and the text after it. */
  function KeyValue(line: string): (r: Option<(string, string)>)
    ensures r.None? <==> !Contains(line, ":")
    ensures r.Some? ==> line == r.value.0 + ":" + r.value.1 && !Contains(r.value.0, ":")
  {
    match FindFrom(line, ":", 0)
    case None => None
    case Some(k) =>
      FindFromSkips(line, ":", 0);
      NoOccurrenceBetween(line, ":", 0, k);
      assert line[0..k] == line[..k];
      assert line == line[..k] + line[k..k + 1] + line[k + 1..];
      Some((line[..k], line[k + 1..]))
  }

  /** The line holds a colon, and its stripped text before the first colon is `key`. */
  predicate BindsKey(line: string, key: string) {
    KeyValue(line).Some? && Strip(KeyValue(line).value.0) == key
  }

  /** The stripped text after the first colon of a line that holds one. */
  function ValueOf(line: string): string
    requires Contains(line, ":")
  {
    Strip(KeyValue(line).value.1)
  }

  /** The dictionary built from a sequence of optional bindings: a later binding of a key
      overrides an earlier one, and `None` binds nothing. */
  function DictOf<K, V>(bs: seq<Option<(K, V)>>): map<K, V> {
    if bs == [] then map[]
    else
      var d := DictOf(bs[..|bs| - 1]);
      match bs[|bs| - 1]
      case None => d
      case Some((k, v)) => d[k := v]
  }

  /** A key is in the dictionary exactly when some binding binds it. */
  lemma {:induction false} DictKeys<K, V>(bs: seq<Option<(K, V)>>, key: K)
    ensures key in DictOf(bs) <==> exists i :: 0 <= i < |bs| && bs[i].Some? && bs[i].value.0 == key
  {
    if bs != [] {
      var n := |bs| - 1;
      var init := bs[..n];
      DictKeys(init, key);
      if key in DictOf(bs) && !(bs[n].Some? && bs[n].value.0 == key) {
        var i :| 0 <= i < n && init[i].Some? && init[i].value.0 == key;
        assert bs[i] == init[i];
      }
      if i :| 0 <= i < n && bs[i].Some? && bs[i].value.0 == key {
        assert init[i] == bs[i];
      }
    }
  }

  /** The value of a key is the one its last binding gives. */
  lemma {:induction false} DictLastBindingWins<K, V>(bs: seq<Option<(K, V)>>, i: nat)
    requires i < |bs| && bs[i].Some?
    requires forall j :: i < j < |bs| && bs[j].Some? ==> bs[j].value.0 != bs[i].value.0
    ensures bs[i].value.0 in DictOf(bs) && DictOf(bs)[bs[i].value.0] == bs[i].value.1
  {
    var n := |bs| - 1;
    if i < n {
      var init := bs[..n];
      assert init[i] == bs[i];
      forall j | i < j < n && init[j].Some?
        ensures init[j].value.0 != init[i].value.0
      {
        assert init[j] == bs[j];
      }
      DictLastBindingWins(init, i);
    }
  }

  /** What one line of details binds: its stripped key to its stripped value, if it holds a colon. */
  function Binding(line: string): Option<(string, string)> {
    match KeyValue(line)
    case None => None
    case Some((k, v)) => Some((Strip(k), Strip(v)))
  }

  /** The binding of each line. The `ensures` only spells the comprehension out element by
      element, the form in which the proofs about it use it. */
  function Bindings(lines: seq<string>): (bs: seq<Option<(string, string)>>)
    ensures |bs| == |lines| && forall i :: 0 <= i < |lines| ==> bs[i] == Binding(lines[i])
  {
    seq(|lines|, i requires 0 <= i < |lines| => Binding(lines[i]))
  }

  /** The dictionary comprehension over the lines of details. */
  function DetailsOfLines(lines: seq<string>): map<string, string> {
    DictOf(Bindings(lines))
  }

  /** A key is in the details exactly when some line holds a colon with that key, stripped,
      before its first colon. */
  lemma DetailsKeys(lines: seq<string>, key: string)
    ensures key in DetailsOfLines(lines) <==> exists i :: 0 <= i < |lines| && BindsKey(lines[i], key)
  {
    var bs := Bindings(lines);
    DictKeys(bs, key);
    if key in DetailsOfLines(lines) {
      var i :| 0 <= i < |bs| && bs[i].Some? && bs[i].value.0 == key;
      assert BindsKey(lines[i], key);
    }
    if i :| 0 <= i < |lines| && BindsKey(lines[i], key) {
      assert bs[i].Some? && bs[i].value.0 == key;
    }
  }

  /** The value of a key is the stripped text after the first colon of the last line that binds
      it, whatever colons that text holds: a later line overrides an earlier one. */
  lemma DetailsLastBindingWins(lines: seq<string>, i: nat, key: string)
    requires i < |lines| && BindsKey(lines[i], key)
    requires forall j :: i < j < |lines| ==> !BindsKey(lines[j], key)
    ensures key in DetailsOfLines(lines) && DetailsOfLines(lines)[key] == ValueOf(lines[i])
  {
    var bs := Bindings(lines);
    forall j | i < j < |bs| && bs[j].Some?
      ensures bs[j].value.0 != bs[i].value.0
    {
      assert !BindsKey(lines[j], key);
    }
    DictLastBindingWins(bs, i);
  }

  /** The details printed by `mmcli -s <path>`, as a dictionary. */
  function ParseDetails(text: string): map<string, string> {
    DetailsOfLines(SplitLines(text))
  }

  /** Python's `d.get(key, default)`. */
  function Get(d: map<string, string>, key: string, default: string): string {
    if key in d then d[key] else default
  }

  // ---------------------------------------------------------------------------
  // The handle of a created SMS

  /** `output.split(':')[-1].strip()`: the stripped text after the last colon. */
  function SmsHandle(createOutput: string): (h: string)
    ensures !Contains(h, ":")
    ensures !Contains(createOutput, ":") ==> h == Strip(createOutput)
  {
    var tail := LastPiece(createOutput, ":");
    LastPieceFree(createOutput, ":");
    StripKeepsAbsence(tail, ":");
    Strip(tail)
  }

  /** A confirmation `<message>: <path>` yields the path, whatever colons the message holds. */
  lemma SmsHandleOfConfirmation(message: string, path: string)
    requires !Contains(path, ":")
    requires path != [] ==> !IsSpace(path[0]) && !IsSpace(path[|path| - 1])
    ensures SmsHandle(message + ": " + path) == path
  {
    FindFromSkips(path, ":", 0);
    var s := message + ": " + path;
    var m := |message| + 1;
    assert s[m - 1..m] == ":";
    forall j: nat | m <= j
      ensures !OccursAt(s, ":", j)
    {
      if j + 1 <= |s| {
        if j == m {
          assert s[j] == ' ';
        } else {
          assert s[j..j + 1] == path[j - m - 1..j - m];
          assert !OccursAt(path, ":", j - m - 1);
        }
      }
    }
    LastPieceAfterLastSeparator(s, ":", m);
    assert s[m..] == " " + path;
    SpacedStrip(path);
  }

  lemma SpacedStrip(path: string)
    requires path != [] ==> !IsSpace(path[0]) && !IsSpace(path[|path| - 1])
    ensures Strip(" " + path) == path
  {
    var b := " " + path;
    assert SkipSpaces(b, 0) == 1;
    assert b[1..] == path;
  }

  // ---------------------------------------------------------------------------
  // The preview of a message text in a listing

  /** `s.replace('\n', ' ')`. */
  function NewlinesToSpaces(s: string): (r: string)
    ensures |r| == |s|
    ensures forall i :: 0 <= i < |s| ==> r[i] == (if s[i] == '\n' then ' ' else s[i])
  {
    if s == [] then [] else [if s[0] == '\n' then ' ' else s[0]] + NewlinesToSpaces(s[1..])
  }

  /** `text.replace('\n', ' ')[:50]`: at most the first 50 characters, on one line. */
  function Preview(text: string): (p: string)
    ensures |p| == if |text| < PreviewLength then |text| else PreviewLength
    ensures forall i :: 0 <= i < |p| ==> p[i] == (if text[i] == '\n' then ' ' else text[i])
  {
    var flat := NewlinesToSpaces(text);
    if |flat| <= PreviewLength then flat else flat[..PreviewLength]
  }
}
