/** Sending, receiving and listing messages: the receiver-number rule of `send_sms`, the filter
    of `receive_sms` and the entries of `list_modem_sms`. Each `mmcli` call whose output the
    script reads is given as the text it printed, or as a function from its argument to that
    text. The call that marks a message read is not made: its output is ignored, and
    `ReceiveSms` returns the paths it marks read instead. */
module SmsManager {
  import opened PyText
  import opened Mmcli
  import opened SmsLog

  /** The country code added to national numbers. */
  const CountryPrefix := "+86"
  /** The length of a number that gets the country code. */
  const NationalLength := 11
  /** What `mmcli` prints when it has created a message. */
  const CreatedMarker := "created sms"
  const SentKind := "sent"
  const ReceivedKind := "received"
  /** The `state` of a message that arrived on the modem. */
  const ReceivedState := "received"

  // ---------------------------------------------------------------------------
  // The receiver number

  /** Prepends the country code to a receiver number of eleven characters that does not start
      with it. The rule counts characters, not digits. */
  function NormaliseReceiver(receiver: string): (r: string)
    ensures r == receiver || r == CountryPrefix + receiver
    ensures r != receiver <==> |receiver| == NationalLength && !StartsWith(receiver, CountryPrefix)
  {
    if |receiver| == NationalLength && !StartsWith(receiver, CountryPrefix) then CountryPrefix + receiver
    else receiver
  }

  /** Normalising twice gives what normalising once gives. */
  lemma NormaliseIdempotent(receiver: string)
    ensures NormaliseReceiver(NormaliseReceiver(receiver)) == NormaliseReceiver(receiver)
  {
    var r := NormaliseReceiver(receiver);
    if r != receiver {
      assert |r| == |CountryPrefix| + NationalLength;
    }
  }

  /** A normalised number of eleven characters carries the country code: it is the receiver
      unchanged, which would otherwise have been prefixed. */
  lemma NormalisedElevenHasPrefix(receiver: string)
    requires |NormaliseReceiver(receiver)| == NationalLength
    ensures StartsWith(NormaliseReceiver(receiver), CountryPrefix)
  {
  }

  /** An international number of eleven characters, such as `+1234567890`, still gets the
      country code, since the rule counts characters rather than digits. */
  lemma ElevenCharactersInternational(receiver: string)
    requires receiver == "+1234567890"
    ensures NormaliseReceiver(receiver) == "+86+1234567890"
  {
    assert receiver[1] != CountryPrefix[1];
  }

  // ---------------------------------------------------------------------------
  // Sending

  /** How a send ends: the modem did not confirm creating the message, it did not send the
      created message, or the message was sent and logged. */
  datatype SendOutcome =
    | CreateFailed
    | SendFailed(handle: string)
    | Sent(handle: string, record: Record)

  /** The record logged for a message sent at `now`. */
  function SentRecord(ownNumber: string, receiver: string, content: string, now: string): Record {
    Record(SentKind, ownNumber, receiver, content, now, NotApplicable)
  }

  /** The creation printed a confirmation. */
  predicate Created(output: Option<string>) {
    output.Some? && output.value != "" && Contains(output.value, CreatedMarker)
  }

  /** `send_sms`: normalises the receiver, creates the message with `create(number, content)`,
      sends the created message with `send(handle)` and logs the sent message. `now` is the
      time of the send. */
  method SendSms(log: JsonLog, ownNumber: string, receiverNumber: string, content: string, now: string,
                 create: (string, string) -> Option<string>, send: string -> Option<string>)
    returns (outcome: SendOutcome)
    modifies log
    ensures outcome.CreateFailed? <==> !Created(create(NormaliseReceiver(receiverNumber), content))
    ensures !outcome.CreateFailed? ==>
              outcome.handle == SmsHandle(create(NormaliseReceiver(receiverNumber), content).value)
    ensures outcome.SendFailed? <==> !outcome.CreateFailed? && send(outcome.handle).None?
    ensures outcome.Sent? ==>
              outcome.record == SentRecord(ownNumber, NormaliseReceiver(receiverNumber), content, now)
    ensures outcome.Sent? ==> log.file == Appended(old(log.file), outcome.record)
    ensures !outcome.Sent? ==> log.file == old(log.file)
  {
    var number := NormaliseReceiver(receiverNumber);
    var output := create(number, content);
    if output.None? || output.value == "" || !Contains(output.value, CreatedMarker) {
      return CreateFailed;
    }
    var handle := SmsHandle(output.value);
    var sendOutput := send(handle);
    if sendOutput.None? {
      return SendFailed(handle);
    }
    var entry := SentRecord(ownNumber, number, content, now);
    log.Append(entry);
    return Sent(handle, entry);
  }

  /** After a send, the last record the log displays is the sent message, shown with its send
      time, whatever the log held before. */
  lemma SentMessageDisplaysLast(f: LogFile, ownNumber: string, receiver: string, content: string, now: string)
    requires now != NotApplicable && now != Unknown
    ensures DisplayLastSms(Appended(f, SentRecord(ownNumber, receiver, content, now)), 1) ==
              Shown([Entry(SentKind, ownNumber, receiver, content, now)])
  {
    var d := SentRecord(ownNumber, receiver, content, now);
    assert EntryOf(d) == Entry(SentKind, ownNumber, receiver, content, now) by {
      assert DisplayTime(d) == now;
    }
    AppendOne(f, d);
    DisplayAfterAppend(f, [d], 1);
    var entries := DisplayLastSms(Appended(f, d), 1).entries;
    OneElement(entries);
  }

  // ---------------------------------------------------------------------------
  // Receiving

  /** The details `info(path)` prints for a message, or nothing when the command failed or
      printed nothing. */
  function DetailsAt(info: string -> Option<string>, path: string): Option<map<string, string>> {
    var output := info(path);
    if output.None? || output.value == "" then None else Some(ParseDetails(output.value))
  }

  /** The message at `path` has details whose `state` is `received`. */
  predicate IsIncoming(info: string -> Option<string>, path: string) {
    var details := DetailsAt(info, path);
    details.Some? && "state" in details.value && details.value["state"] == ReceivedState
  }

  /** The paths of the received messages, in device order. */
  function Incoming(paths: seq<string>, info: string -> Option<string>): (r: seq<string>)
    ensures |r| <= |paths|
    ensures forall k :: 0 <= k < |r| ==> IsIncoming(info, r[k])
  {
    if paths == [] then []
    else
      var p := paths[|paths| - 1];
      Incoming(paths[..|paths| - 1], info) + if IsIncoming(info, p) then [p] else []
  }

  /** A path is selected exactly when it is listed and its message was received. */
  lemma {:induction false} IncomingMembers(paths: seq<string>, info: string -> Option<string>, p: string)
    ensures p in Incoming(paths, info) <==> p in paths && IsIncoming(info, p)
  {
    if paths != [] {
      var n := |paths| - 1;
      IncomingMembers(paths[..n], info, p);
      assert paths == paths[..n] + [paths[n]];
    }
  }

  /** The filter keeps device order: the selection of two listings one after the other is the
      selection of the first followed by that of the second. */
  lemma {:induction false} IncomingConcat(a: seq<string>, b: seq<string>, info: string -> Option<string>)
    ensures Incoming(a + b, info) == Incoming(a, info) + Incoming(b, info)
    decreases |b|
  {
    if b == [] {
      assert a + b == a;
    } else {
      var n := |b| - 1;
      assert (a + b)[..|a| + n] == a + b[..n];
      IncomingConcat(a, b[..n], info);
    }
  }

  /** The record logged for a received message with these details. */
  function ReceivedRecord(details: map<string, string>, ownNumber: string): (r: Record)
    ensures r.kind == ReceivedKind && r.receiver == ownNumber && r.sentTime == Unknown
    ensures r.sender == Get(details, "number", Unknown) && r.content == Get(details, "text", "")
    ensures r.receivedTime == Get(details, "timestamp", NotApplicable)
    ensures DisplayTime(r) == Get(details, "timestamp", NotApplicable)
  {
    Record(ReceivedKind, Get(details, "number", Unknown), ownNumber, Get(details, "text", ""),
           Unknown, Get(details, "timestamp", NotApplicable))
  }

  /** The records logged for the received messages at `paths`, one each, in the same order. */
  function IncomingRecords(paths: seq<string>, info: string -> Option<string>, ownNumber: string): seq<Record>
    requires forall k :: 0 <= k < |paths| ==> IsIncoming(info, paths[k])
  {
    seq(|paths|, k requires 0 <= k < |paths| && IsIncoming(info, paths[k]) =>
                   ReceivedRecord(DetailsAt(info, paths[k]).value, ownNumber))
  }

  /** The body of the loop of `receive_sms` for one listed path: logs the message if it was
      received and says whether it is to be marked read. */
  method ReceiveOne(log: JsonLog, ownNumber: string, info: string -> Option<string>, path: string)
    returns (marked: bool)
    modifies log
    ensures marked == IsIncoming(info, path)
    ensures marked ==> log.file == Appended(old(log.file), ReceivedRecord(DetailsAt(info, path).value, ownNumber))
    ensures !marked ==> log.file == old(log.file)
  {
    marked := false;
    var output := info(path);
    if output.Some? && output.value != "" {
      var details := ParseDetails(output.value);
      if "state" in details && details["state"] == ReceivedState {
        log.Append(ReceivedRecord(details, ownNumber));
        marked := true;
      }
    }
  }

  /** Selecting from one more listed path. */
  lemma IncomingSnoc(paths: seq<string>, k: nat, info: string -> Option<string>)
    requires k < |paths|
    ensures Incoming(paths[..k + 1], info) ==
              Incoming(paths[..k], info) + if IsIncoming(info, paths[k]) then [paths[k]] else []
  {
    assert paths[..k + 1][..k] == paths[..k];
  }

  /** The records for one more received message. */
  lemma IncomingRecordsSnoc(paths: seq<string>, p: string, info: string -> Option<string>, ownNumber: string)
    requires forall k :: 0 <= k < |paths| ==> IsIncoming(info, paths[k])
    requires IsIncoming(info, p)
    ensures IncomingRecords(paths + [p], info, ownNumber) ==
              IncomingRecords(paths, info, ownNumber) + [ReceivedRecord(DetailsAt(info, p).value, ownNumber)]
  {
  }

  /** `receive_sms`: logs every received message the listing names, in listing order, and
      marks each one read; returns the paths it marked read. */
  method ReceiveSms(log: JsonLog, ownNumber: string, listOutput: Option<string>, info: string -> Option<string>)
    returns (markedRead: seq<string>)
    modifies log
    ensures markedRead == Incoming(DevicePaths(listOutput), info)
    ensures log.file == AppendAll(old(log.file), IncomingRecords(markedRead, info, ownNumber))
  {
    markedRead := [];
    if listOutput.None? || listOutput.value == "" {
      return;
    }
    var paths := DevicePaths(listOutput);
    for k := 0 to |paths|
      invariant markedRead == Incoming(paths[..k], info)
      invariant log.file == AppendAll(old(log.file), IncomingRecords(markedRead, info, ownNumber))
    {
      var path := paths[k];
      IncomingSnoc(paths, k, info);
      var marked := ReceiveOne(log, ownNumber, info, path);
      if marked {
        var entry := ReceivedRecord(DetailsAt(info, path).value, ownNumber);
        IncomingRecordsSnoc(markedRead, path, info, ownNumber);
        AppendAllSnoc(old(log.file), IncomingRecords(markedRead, info, ownNumber), entry);
        markedRead := markedRead + [path];
      }
    }
    assert paths[..|paths|] == paths;
  }

  // ---------------------------------------------------------------------------
  // Listing

  /** One line of the listing: the index of a message, its path, its sender, its state and the
      start of its text. */
  datatype ListEntry = ListEntry(index: nat, path: string, sender: string, state: string, preview: string)

  /** The line `list_modem_sms` prints for the message at `index`, whose details are `info`. */
  function ListEntryOf(index: nat, path: string, info: string): (e: ListEntry)
    ensures e.index == index && e.path == path
    ensures var details := ParseDetails(info);
      && e.sender == Get(details, "number", "Unknown")
      && e.state == Get(details, "state", Unknown)
      && e.preview == Preview(Get(details, "text", "[No Content]"))
    ensures |e.preview| <= PreviewLength && forall i :: 0 <= i < |e.preview| ==> e.preview[i] != '\n'
  {
    var details := ParseDetails(info);
    ListEntry(index, path, Get(details, "number", "Unknown"), Get(details, "state", Unknown),
              Preview(Get(details, "text", "[No Content]")))
  }

  /** `list_modem_sms`: the paths the listing names, in order, and one entry per path. The
      details command must print something for every listed path. */
  function ListModemSms(listOutput: Option<string>, info: string -> Option<string>): (r: (seq<string>, seq<ListEntry>))
    requires forall k :: 0 <= k < |DevicePaths(listOutput)| ==> info(DevicePaths(listOutput)[k]).Some?
    ensures r.0 == DevicePaths(listOutput) && |r.1| == |r.0|
    ensures forall k :: 0 <= k < |r.1| ==> r.1[k].index == k && r.1[k].path == r.0[k]
    ensures forall k :: 0 <= k < |r.1| ==> r.1[k] == ListEntryOf(k, r.0[k], info(r.0[k]).value)
  {
    var paths := DevicePaths(listOutput);
    (paths, seq(|paths|, k requires 0 <= k < |paths| => ListEntryOf(k, paths[k], info(paths[k]).value)))
  }
}
