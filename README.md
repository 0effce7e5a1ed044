# SMS manager for ModemManager: a verified model

`tools/sms.py` is a command-line SMS manager that drives a modem through `mmcli`. It does four
things:
- sends a message, after normalising the receiver number;
- logs sent and received messages to a JSON file and shows the last records of that file;
- lists the messages stored on the modem;
- deletes messages chosen by an index specification such as `0,2,4-6`.

This project models the deterministic rules under that plumbing and proves what they promise.
No `mmcli` call is made:
- a call whose output the script reads is replaced by the text it printed, or by a function from
  its argument to that text;
- the delete call, whose output only counts as success or failure, is a function
  `deleteOk(k, path)` that says whether the `k`-th delete call, on `path`, succeeded;
- the call that marks a message read is not modelled as a call, because its output is ignored;
  `SmsManager.ReceiveSms` returns the paths it marks read, in order.

The log file is a value: missing, malformed, or a list of records.

The model has six modules, one per file:

- `PyText` (`py_text.dfy`): the Python string primitives the script relies on.
  - `str.isspace` and `str.strip`.
  - `sub in s`, and the search for a substring behind it and behind `str.split`.
  - `str.split(sep)` and `sep.join`.
  - `str.splitlines`, with Python's full set of line-break characters.
  - `int(s)` in base 10, with the whitespace it skips and its limit of 4300 digits.
- `Mmcli` (`mmcli.dfy`): reading the text `mmcli` prints.
  - The first modem path of `mmcli -L`.
  - The modem's own number.
  - The SMS paths of a message listing, as `re.findall` finds them.
  - The key/value details of one message.
  - The handle of a newly created message.
  - The one-line preview of a message text.
- `IndexSpec` (`index_spec.dfy`): `parse_delete_indices`.
  - A loop over the comma-separated tokens, with a loop for each range.
  - Proved against a token-by-token specification: the set of selected indices and the
    warnings printed.
- `SmsLog` (`sms_log.dfy`): the JSON log.
  - `log_to_json` is the `Append` method of the class `JsonLog`, whose one field is the file.
  - `display_last_sms` is a function of the file and the count.
- `SmsManager` (`sms_manager.dfy`): `send_sms`, `receive_sms` and `list_modem_sms`.
- `Deletion` (`delete.dfy`): `handle_delete`, which visits the selected indices from the highest
  down and counts the deletions the modem confirms.

The receiver rule counts characters, as the code does (`len(receiver_number) == 11`). The
message the script prints calls such a receiver an "11-digit number". A rule stated in digits
would leave an international number of eleven characters such as `+1234567890` alone. The code,
and this model, prefix it with `+86` (`SmsManager.ElevenCharactersInternational`).

## Model

| member | source | states |
|---|---|---|
| PyText.StripIdempotent | tools/sms.py:169 | stripping a stripped token changes nothing |
| PyText.ContainsOccurs | tools/sms.py:171 | `sub in s` holds exactly when `sub` occurs at some position of `s` |
| PyText.FindFromSkips | tools/sms.py:171 | the search passes over no occurrence: none lies between the start and what it finds, or after the start when it finds nothing |
| PyText.FindFromFirst | tools/sms.py:171 | the search returns the first occurrence at or after its start |
| PyText.SplitJoin | tools/sms.py:167 | joining the pieces of a split with the separator gives back the text: splitting loses nothing |
| PyText.SplitPiecesFree | tools/sms.py:167 | no piece of a split holds the separator |
| PyText.SplitOfJoin | tools/sms.py:167 | splitting a join of pieces free of a one-character separator gives back the pieces |
| PyText.SplitSingle | tools/sms.py:167 | a split yields one piece, the whole text, exactly when the separator does not occur |
| PyText.SecondPiece | tools/sms.py:40 | `s.split(sep)[1]` is the text from the end of the first separator up to the next separator or the end |
| PyText.LastPieceFree | tools/sms.py:102 | the last piece of a split holds no separator, and is the whole text when there is no separator |
| PyText.LastPieceAfterLastSeparator | tools/sms.py:102 | the last piece is everything after the last occurrence of a one-character separator |
| PyText.LinesHaveNoBreaks | tools/sms.py:125 | no line of `splitlines()` holds a line break |
| PyText.LinesKeepText | tools/sms.py:125 | the lines of `splitlines()` put back together are the text without its line breaks |
| PyText.LinesSeparatedByOneBreak | tools/sms.py:125 | the text is its lines, each followed by exactly one break (`\r\n` or one line-break character, a lone `\r` never followed by `\n`); only a non-empty last line may end without a break |
| PyText.ParseInt | tools/sms.py:183 | `int(s)` succeeds exactly when `s`, without the whitespace `int()` skips (that of `str.isspace` but U+001C to U+001F), is a digit group of at most 4300 digits with an optional sign; without a `-` the value is not negative |
| PyText.ParseIntDecimal | tools/sms.py:183 | `int(str(n)) == n` when `str(n)` has at most 4300 digits, and `int()` raises `ValueError` on it otherwise |
| PyText.ParseIntDigitGroup | tools/sms.py:183 | a digit group reads as its value when it has at most 4300 digits, leading zeros included, and is rejected otherwise |
| Mmcli.FirstLineWhere | tools/sms.py:26-27 | the line found satisfies the test, and no line before it does; nothing found means no line does |
| Mmcli.MatchAt | tools/sms.py:28 | a match of `<prefix>\d+` at a position is a slice of the text, is a device path, and takes the longest run of digits |
| Mmcli.SearchFrom | tools/sms.py:28 | `re.search` returns the leftmost match, and there is no match before it |
| Mmcli.GetModemPath | tools/sms.py:22-31 | the modem path found is a device path; a failed or empty listing gives none |
| Mmcli.ModemPathFromFirstLine | tools/sms.py:26-30 | the modem path is the leftmost match on the first line that holds `Modem` and a match |
| Mmcli.NoModemPath | tools/sms.py:26-31 | without a line that holds `Modem` and a match there is no modem path |
| Mmcli.ModemPathHasModemWord | tools/sms.py:27-28 | every line holding a modem path holds the word `Modem`, so the word test never turns a line away |
| Mmcli.OwnValue | tools/sms.py:40 | the own number taken from a line holds no `own:` |
| Mmcli.OwnValueBetweenLabels | tools/sms.py:40 | the own number is the stripped text between the end of the first `own:` and the next `own:`, or the end of the line |
| Mmcli.OwnNumberFromFirstLabel | tools/sms.py:37-40 | the own number comes from the first line holding `own:` |
| Mmcli.OwnNumberWithoutLabel | tools/sms.py:37-41 | without a line holding `own:` the own number is `unknown` |
| Mmcli.GetOwnNumber | tools/sms.py:33-41 | a failed or empty command output gives `unknown` |
| Mmcli.FindAllFrom | tools/sms.py:120 | every path `re.findall` returns is a device path |
| Mmcli.FindAllFirst | tools/sms.py:120 | `re.findall` returns nothing when `re.search` finds nothing; otherwise its first path is the match `re.search` finds |
| Mmcli.DevicePaths | tools/sms.py:116-120 | every listed path is `/org/freedesktop/ModemManager1/SMS/` followed by digits; a failed or empty listing lists none |
| Mmcli.DevicePathsOfListing | tools/sms.py:116-120 | a listing of SMS paths, one per line, gives back exactly those paths, in the same order |
| Mmcli.FindAllOfJoin | tools/sms.py:120 | device paths separated by a character that is neither a digit nor the prefix's first are each found, in order |
| Mmcli.MatchOfPath | tools/sms.py:120 | a device path followed by the end of the text or by a non-digit is the match found where it starts |
| Mmcli.KeyValue | tools/sms.py:125 | `line.split(':', 1)` exists exactly when the line holds a colon; the key, a colon and the value make up the line again, and the key holds no colon |
| Mmcli.DictKeys | tools/sms.py:125 | a key is in the dictionary built from bindings exactly when some binding binds it |
| Mmcli.DictLastBindingWins | tools/sms.py:125 | the value of a key is the one its last binding gives |
| Mmcli.DetailsKeys | tools/sms.py:125 | a key is in the details exactly when some line holds a colon and that key, stripped, before its first colon |
| Mmcli.DetailsLastBindingWins | tools/sms.py:125 | the value of a key is the stripped text after the first colon of the last line binding it, colons included: a later line overrides an earlier one |
| Mmcli.SmsHandle | tools/sms.py:102 | the handle holds no colon, and is the whole stripped output when the output holds none |
| Mmcli.SmsHandleOfConfirmation | tools/sms.py:102 | a confirmation `<message>: <path>` yields the path, whatever colons the message holds |
| Mmcli.NewlinesToSpaces | tools/sms.py:158 | `replace('\n', ' ')` keeps the length, turns each newline into a space and keeps every other character |
| Mmcli.Preview | tools/sms.py:158-160 | the preview is the first 50 characters of the text (all of it when shorter), with each newline turned into a space and every other character kept |
| IndexSpec.Classify | tools/sms.py:169-175 | a range token has its ends in order: the smaller end first |
| IndexSpec.ClippedStep | tools/sms.py:176-178 | extending a range by one integer adds that integer exactly when it is an index |
| IndexSpec.AddRange | tools/sms.py:176-178 | the inner loop adds exactly the integers of the range that lie in `0..max_index` |
| IndexSpec.ReadToken | tools/sms.py:169-189 | one pass of the loop adds what the token selects and the warning it draws, and nothing else |
| IndexSpec.ParseDeleteIndices | tools/sms.py:164-190 | the result is the union of what each token selects, and the warnings are those of the tokens in order |
| IndexSpec.SelectedByAToken | tools/sms.py:166-190 | an index is selected exactly when some token selects it |
| IndexSpec.SelectedInBounds | tools/sms.py:176-185 | every selected index lies in `0..max_index`, whatever the input |
| IndexSpec.DroppedTokenChangesNothing | tools/sms.py:170-189 | an empty, malformed or out-of-range token can be taken out without changing what the other tokens select |
| IndexSpec.DigitGroupHasNoMinus | tools/sms.py:171 | a digit group holds no `-` |
| IndexSpec.FirstMinusBetween | tools/sms.py:173 | in `x-y` with two digit groups the first `-` is the one between them |
| IndexSpec.NoMinusAfter | tools/sms.py:173 | in `x-y` with two digit groups no `-` follows the one between them |
| IndexSpec.SplitRange | tools/sms.py:173 | `x-y` with two digit groups is its own strip, holds `-` and splits into `x` and `y` |
| IndexSpec.RangeSelectsBetweenEnds | tools/sms.py:171-180 | `a-b` with ends of at most 4300 digits selects exactly the integers from `min(a,b)` to `max(a,b)` that lie in bounds; with a longer end it is an invalid range |
| IndexSpec.ClassifyTwoEnds | tools/sms.py:173-175 | two integer ends around one `-` give the range with its ends in order |
| IndexSpec.ReversedRangeSelectsTheSame | tools/sms.py:174-175 | `a-b` and `b-a` are read as the same range, or are both invalid ranges |
| IndexSpec.LeadingMinusIsInvalidRange | tools/sms.py:171-180 | a token whose stripped text starts with `-` goes to the range branch and is rejected as an invalid range |
| IndexSpec.SingleIndex | tools/sms.py:181-189 | a digit group of at most 4300 digits selects its index within bounds, and selects nothing and draws an out-of-bounds warning beyond them; a longer one selects nothing and draws an invalid-index warning |
| IndexSpec.SplitThree | tools/sms.py:167 | `a,b,c` without commas in its tokens splits into the three tokens |
| IndexSpec.TokensOfThree | tools/sms.py:167-169 | three comma-separated tokens are read one by one |
| IndexSpec.OneToken | tools/sms.py:167-169 | a specification without a comma is one token |
| IndexSpec.ThreeTokens | tools/sms.py:168-189 | three tokens select what each selects, and warn in order |
| IndexSpec.ExampleMixedTokens | tools/sms.py:165 | `0,2,4-6` is read as indices 0 and 2 and the range 4 to 6 |
| IndexSpec.ExampleMixed | tools/sms.py:165 | `0,2,4-6` selects 0, 2, 4, 5 and 6 without a warning |
| IndexSpec.ExampleReversed | tools/sms.py:174-175 | `5-3` selects 3, 4 and 5 |
| IndexSpec.ExampleOutOfBounds | tools/sms.py:184-187 | `0,2,7` on six messages selects 0 and 2 and warns that 7 is out of bounds |
| IndexSpec.ExampleInvalid | tools/sms.py:188-189 | `abc` selects nothing and draws an invalid-index warning |
| IndexSpec.ExampleSeparatorInRange | tools/sms.py:171-180 | `1<U+001C>-5` selects nothing and draws an invalid-range warning, because `int()` does not skip U+001C |
| Deletion.DescendingSorts | tools/sms.py:207 | `sorted(indices, reverse=True)` lists each selected index exactly once, strictly descending |
| Deletion.PrependGreatest | tools/sms.py:207 | an index above all others, put first, keeps the order descending |
| Deletion.CountTrue | tools/sms.py:213 | the count of successes is at most the number of visits; it equals it exactly when all succeed, and is zero exactly when all fail |
| Deletion.CountTrueConcat | tools/sms.py:207-215 | successes are counted over any split of the visits: a failure stops nothing |
| Deletion.DeleteInOrder | tools/sms.py:205-215 | every index is visited in the given order, one delete call each, whatever the earlier calls gave; the count is the number of successes |
| Deletion.HandleDelete | tools/sms.py:192-216 | no messages and no selected index each end the run; otherwise each selected index is visited once, from the highest down, and the count is the number of confirmed deletions |
| SmsLog.AppendAllRecords | tools/sms.py:46-55 | after appends the log holds the prior records (none if it was missing or malformed) followed by the new ones in order |
| SmsLog.JsonLog.Append | tools/sms.py:44-55 | the new file holds the prior records, or none if it was missing or malformed, with the record at the end |
| SmsLog.SliceStart | tools/sms.py:73 | the slice `[-count:]` starts within the list |
| SmsLog.LastRecords | tools/sms.py:73 | `records[-count:]` is a suffix: the last `count` records for a positive count, all of them for zero, all but the first `-count` for a negative count |
| SmsLog.DisplayTime | tools/sms.py:78-80 | the time shown is `sent_time` unless that is `N/A` or `unknown`, and `received_time` then |
| SmsLog.DisplayLastSms | tools/sms.py:63-85 | a missing file and an unreadable file each give their message; otherwise one entry per record of `records[-count:]`, in order |
| SmsLog.LastOfAppended | tools/sms.py:73 | the last `count` records of a log ending with `count` or more new records are the last new ones |
| SmsLog.DisplayAfterAppend | tools/sms.py:55-80 | after appends, showing at most that many records shows the last appended ones in order, whatever the log held before |
| SmsManager.NormaliseReceiver | tools/sms.py:90-91 | a receiver is either unchanged or prefixed with `+86`, and it is changed exactly when it has 11 characters and does not start with `+86` |
| SmsManager.NormaliseIdempotent | tools/sms.py:90-91 | normalising twice gives what normalising once gives |
| SmsManager.NormalisedElevenHasPrefix | tools/sms.py:90-91 | a normalised receiver of 11 characters starts with `+86` |
| SmsManager.ElevenCharactersInternational | tools/sms.py:90-91 | `+1234567890`, eleven characters, becomes `+86+1234567890` |
| SmsManager.SendSms | tools/sms.py:88-111 | the send fails at creation exactly when the output is missing or lacks `created sms`; the handle is the stripped last colon piece; nothing is logged unless the send succeeds, and then exactly the sent record is appended |
| SmsManager.SentMessageDisplaysLast | tools/sms.py:109-110 | after a send, the last displayed record is the sent message with its send time |
| SmsManager.Incoming | tools/sms.py:121-127 | the selected paths are no more than the listed ones and all carry `state: received` |
| SmsManager.IncomingMembers | tools/sms.py:121-127 | a path is selected exactly when it is listed and its details say `state: received` |
| SmsManager.IncomingConcat | tools/sms.py:121-127 | the filter keeps device order: filtering two listings one after the other concatenates their results |
| SmsManager.ReceivedRecord | tools/sms.py:129 | a received record has type `received`, the own number as receiver and `unknown` as sent time; its sender is the details' `number` (or `unknown`), its content their `text` (or empty) and its received time their `timestamp` (or `N/A`), which is the time shown |
| SmsManager.ReceiveOne | tools/sms.py:122-131 | a listed message is logged and marked read exactly when its details say `state: received`; otherwise the log is unchanged |
| SmsManager.ReceiveSms | tools/sms.py:113-132 | the messages marked read are the received ones in device order, and the log gains exactly one record per such message, in the same order |
| SmsManager.ListEntryOf | tools/sms.py:155-160 | an entry carries its index and path, the details' `number` (or `Unknown`) as sender, their `state` (or `unknown`) and the preview of their `text` (or `[No Content]`), at most 50 characters with no newline |
| SmsManager.ListModemSms | tools/sms.py:136-162 | the listing returns the SMS paths in order, with one entry per path carrying its index and what that path's details print |

## Left out

- Running `mmcli` (`run_command`, tools/sms.py:11-20): each call is a parameter. A call whose
  output is read is the text the command printed, after `strip()`, or a function from the
  call's argument to that text; `None` stands for a failed command. The delete call
  (tools/sms.py:210-211) is the function `deleteOk(k, path)`, true when the `k`-th delete call,
  on `path`, succeeded (`is not None`), whatever it printed. The mark-read call (tools/sms.py:131) is not made; `SmsManager.ReceiveSms` returns
  the paths it would mark read.
- File I/O and JSON encoding: the log is a value, either absent, malformed or a list of records.
  A file that holds valid JSON other than a list of records is not modelled.
- JsonLog.Append: a failed write (`IOError`, tools/sms.py:60-61) is not modelled. The file is
  always rewritten.
- SmsManager.SendSms: the clock (`datetime.now().isoformat()`) is the parameter `now`.
- Printed messages, the usage text and the `sys.argv` dispatch of `main` (tools/sms.py:218-253):
  these are output and argument handling. `main` also passes `os.path.basename` of the modem path
  to `get_own_number`; that call is not modelled, and `Mmcli.GetOwnNumber` takes the command's
  output directly.
- PyText.ParseInt: only base 10 and ASCII digits. Python's `int()` also accepts other Unicode
  decimal digits; that is left out. The limit of 4300 digits is the default one of Python 3.11
  and later (and of the security releases that brought it to older versions); a limit changed
  with `sys.set_int_max_str_digits` or `PYTHONINTMAXSTRDIGITS`, or no limit at all on older
  versions, is not modelled.
- Mmcli.MatchAt: `\d` matches ASCII digits only. Python's `\d` also matches other Unicode
  decimal digits.
- The read-modify-write race on the log file when two runs append at once: the script has no
  locking, and the model is sequential.
- SmsManager.ListModemSms: it requires the details command to print something for every listed
  path. When it fails, the script crashes on `None.splitlines()` (tools/sms.py:155-156), and
  that crash is not modelled.
- SmsLog.DisplayLastSms: the fields of each record are all present. `record.get` on a record
  lacking `type`, a number or the content prints `None`; that is not modelled.
