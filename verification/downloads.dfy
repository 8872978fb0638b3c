/** The curl and wget clients after the file name is chosen: the progress record of one
    download, the events of the child process, the close handler's completed/failed rule,
    and wget's progress reading. */
module Downloads {
  import opened Common
  import opened Strings
  import opened Decimal
  import opened Filenames

  datatype Status = Downloading | Completed | Failed

  /** The progress record kept for one download (speed, sizes and start time are display
      only and not part of this model). */
  datatype DownloadProgress = DownloadProgress(filename: string, url: string, progress: real, status: Status)

  /** What the file-system calls of the close handler did: `renameSync`, and in its catch
      `copyFileSync` then `unlinkSync` (each true when it did not throw). */
  datatype MoveOutcome = MoveOutcome(renamed: bool, copied: bool, unlinked: bool)

  /** What the child process reports: a chunk of standard error, its exit (code `None` when
      it ended on a signal) with what the move then did, or a process error. */
  datatype ProcessEvent = StderrChunk(chunk: string) | Close(code: Option<int>, move: MoveOutcome) | ProcessError

  /** The record, and the value the download's promise settled with, if it has. */
  datatype Download = Download(record: DownloadProgress, settled: Option<bool>)

  /** The file reached its destination: moved, or copied and the temporary file removed. */
  predicate MoveSucceeds(move: MoveOutcome)
  {
    move.renamed || (move.copied && move.unlinked)
  }

  /** The close handler: on exit code 0 move the file, and complete at 100 when the move (or
      its copy-and-unlink fallback) succeeds; anything else fails and keeps the progress. */
  function OnClose(record: DownloadProgress, code: Option<int>, move: MoveOutcome)
    : (r: (DownloadProgress, bool))
    ensures r.0.filename == record.filename && r.0.url == record.url
    ensures r.1 <==> code == Some(0) && MoveSucceeds(move)
    ensures r.1 ==> r.0.status == Completed && r.0.progress == 100.0
    ensures !r.1 ==> r.0.status == Failed && r.0.progress == record.progress
  {
    if code == Some(0) then
      if move.renamed then (record.(progress := 100.0, status := Completed), true)
      else if move.copied && move.unlinked then (record.(progress := 100.0, status := Completed), true)
      else (record.(status := Failed), false)
    else (record.(status := Failed), false)
  }

  /** A promise settles once: the first `resolve` wins. */
  function Resolve(settled: Option<bool>, value: bool): (r: Option<bool>)
    ensures r.Some?
    ensures settled.Some? ==> r == settled
    ensures settled.None? ==> r == Some(value)
  {
    if settled.Some? then settled else Some(value)
  }

  /** One event: a progress chunk updates the progress when it parses; `close` and `error`
      write the status (the last writer wins) and resolve the promise (the first wins). */
  function Step(d: Download, e: ProcessEvent, parse: string -> Option<real>): (r: Download)
    ensures r.record.filename == d.record.filename && r.record.url == d.record.url
    ensures e.StderrChunk? ==> r.settled == d.settled && r.record.status == d.record.status
    ensures d.settled.Some? ==> r.settled == d.settled
  {
    match e
    case StderrChunk(chunk) =>
      (match parse(chunk)
       case Some(p) => d.(record := d.record.(progress := p))
       case None => d)
    case Close(code, move) =>
      var (record, ok) := OnClose(d.record, code, move);
      Download(record, Resolve(d.settled, ok))
    case ProcessError =>
      Download(d.record.(status := Failed), Resolve(d.settled, false))
  }

  /** The events in the order the process reports them. */
  function Run(d: Download, events: seq<ProcessEvent>, parse: string -> Option<real>): (r: Download)
    ensures r.record.filename == d.record.filename && r.record.url == d.record.url
    decreases |events|
  {
    if events == [] then d else Run(Step(d, events[0], parse), events[1..], parse)
  }

  predicate Terminal(e: ProcessEvent)
  {
    e.Close? || e.ProcessError?
  }

  /** The value a terminal event resolves with. */
  predicate Verdict(e: ProcessEvent)
    requires Terminal(e)
  {
    e.Close? && e.code == Some(0) && MoveSucceeds(e.move)
  }

  /** A settled download stays settled with the same value. */
  lemma {:induction false} SettledStaysSettled(d: Download, events: seq<ProcessEvent>, parse: string -> Option<real>)
    requires d.settled.Some?
    ensures Run(d, events, parse).settled == d.settled
    decreases |events|
  {
    if events != [] {
      SettledStaysSettled(Step(d, events[0], parse), events[1..], parse);
    }
  }

  /** The promise settles with the verdict of the first `close` or `error`; before any,
      it has not settled. */
  lemma {:induction false} FirstTerminalEventDecides(d: Download, events: seq<ProcessEvent>, i: nat,
                                                     parse: string -> Option<real>)
    requires d.settled.None?
    requires i <= |events|
    requires forall j :: 0 <= j < i ==> !Terminal(events[j])
    ensures i < |events| && Terminal(events[i]) ==> Run(d, events, parse).settled == Some(Verdict(events[i]))
    ensures i == |events| ==> Run(d, events, parse).settled.None?
    decreases i
  {
    if events != [] {
      var d' := Step(d, events[0], parse);
      if i == 0 {
        if Terminal(events[0]) {
          SettledStaysSettled(d', events[1..], parse);
        }
      } else {
        assert forall j :: 0 <= j < i - 1 ==> events[1..][j] == events[j + 1];
        FirstTerminalEventDecides(d', events[1..], i - 1, parse);
      }
    }
  }

  /** Ending `completed` at 100, and resolving true, happens exactly when the process
      exits 0 and the file reaches its destination. */
  lemma CloseCompletesIff(d: Download, code: Option<int>, move: MoveOutcome, parse: string -> Option<real>)
    requires d.settled.None?
    ensures
      var r := Step(d, Close(code, move), parse);
      (r.record.status == Completed && r.settled == Some(true))
        <==> code == Some(0) && MoveSucceeds(move)
    ensures
      var r := Step(d, Close(code, move), parse);
      r.record.status == Completed ==> r.record.progress == 100.0
  {
  }

  /** When the copy succeeds but removing the temporary file fails, the file is at its
      destination and yet the download is reported failed. */
  lemma CopiedButNotUnlinkedFails(record: DownloadProgress)
    ensures OnClose(record, Some(0), MoveOutcome(false, true, false)).0.status == Failed
    ensures !OnClose(record, Some(0), MoveOutcome(false, true, false)).1
  {
  }

  /** The status is written by every handler but the promise only by the first: a process
      error followed by a clean exit ends `completed` with the promise settled false. */
  lemma StatusAndVerdictCanDisagree(d: Download, parse: string -> Option<real>)
    requires d.settled.None?
    ensures
      var r := Run(d, [ProcessError, Close(Some(0), MoveOutcome(true, false, false))], parse);
      r.record.status == Completed && r.settled == Some(false)
  {
    var d1 := Step(d, ProcessError, parse);
    var d2 := Step(d1, Close(Some(0), MoveOutcome(true, false, false)), parse);
    assert Run(d1, [Close(Some(0), MoveOutcome(true, false, false))], parse) == Run(d2, [], parse);
  }

  /** `/(\d+)%/` matches from `p` to `j`: digits from `p` up to a '%' at `j`. */
  ghost predicate PercentMatch(s: string, p: nat, j: nat)
  {
    p < j < |s| && AllDigits(s[p..j]) && s[j] == '%'
  }

  /** A digit run followed by '%' is the whole run starting there. */
  lemma RunEndsAtPercent(s: string, p: nat, j: nat)
    requires PercentMatch(s, p, j)
    ensures DigitRun(s[p..]) == j - p
  {
    assert s[p..] == s[p..j] + s[j..];
    DigitRunOfDigits(s[p..j], s[j..]);
  }

  /** The leftmost match of `/(\d+)%/` at or after `p`, as the range of its digits. */
  function FirstPercentFrom(s: string, p: nat): (r: Option<(nat, nat)>)
    ensures r.Some? ==> p <= r.value.0 && PercentMatch(s, r.value.0, r.value.1)
    ensures r.Some? ==> forall q, j :: p <= q < r.value.0 ==> !PercentMatch(s, q, j)
    ensures r.None? ==> forall q, j :: p <= q ==> !PercentMatch(s, q, j)
    decreases |s| - p
  {
    if p >= |s| then None
    else
      var k := DigitRun(s[p..]);
      if k > 0 && p + k < |s| && s[p + k] == '%' then
        assert s[p..p + k] == s[p..][..k];
        Some((p, p + k))
      else
        assert forall j :: !PercentMatch(s, p, j) by {
          forall j | PercentMatch(s, p, j) ensures false {
            RunEndsAtPercent(s, p, j);
          }
        }
        FirstPercentFrom(s, p + 1)
  }

  /** wget's reading of one chunk: `parseInt` of the digits of the first match, or nothing. */
  function WgetProgress(chunk: string): (r: Option<nat>)
    ensures r.None? <==> forall q, j :: !PercentMatch(chunk, q, j)
  {
    match FirstPercentFrom(chunk, 0)
    case None => None
    case Some((p, j)) => Some(DigitsValue(chunk[p..j]))
  }

  /** `parseInt` of a digit string is its decimal value, so reading the digits with
      `DigitsValue` is what wget's handler computes. */
  lemma ParseIntOfDigits(d: string)
    requires d != [] && AllDigits(d)
    ensures ParseInt(d) == Num(DigitsValue(d))
  {
    assert !IsJsWhiteSpace(d[0]) && d[0] != '-' && d[0] != '+';
    DigitRunOfDigits(d, []);
    assert d + [] == d;
    assert d[..|d|] == d;
  }

  /** A chunk whose first digits are a percentage reads as that percentage: text without
      digits, the number, '%', then anything. */
  lemma WgetProgressReadsPercent(before: string, n: nat, after: string)
    requires forall i :: 0 <= i < |before| ==> !IsAsciiDigit(before[i])
    ensures WgetProgress(before + ToDecimal(n) + "%" + after) == Some(n)
  {
    var digits := ToDecimal(n);
    var s := before + digits + "%" + after;
    var p, j := |before|, |before| + |digits|;
    assert s[p..j] == digits;
    assert s[j] == '%';
    assert PercentMatch(s, p, j);
    var m := FirstPercentFrom(s, 0).value;
    assert m.0 <= p;
    assert s[m.0..m.1][0] == s[m.0];
    assert m.0 == p;
    RunEndsAtPercent(s, p, j);
    RunEndsAtPercent(s, m.0, m.1);
    DigitsValueOfDecimal(n);
  }

  /** The progress parser of the wget client. */
  function WgetParse(chunk: string): (r: Option<real>)
    ensures r.Some? <==> WgetProgress(chunk).Some?
    ensures r.Some? ==> r.value == WgetProgress(chunk).value as real
  {
    match WgetProgress(chunk)
    case None => None
    case Some(n) => Some(n as real)
  }

  /** `isEnabled()` of the curl and wget clients: enabled and given a destination. */
  predicate DirectEnabled(enabled: bool, destinationPath: string)
  {
    enabled && destinationPath != ""
  }

  /** How a direct download ends: the value its promise settled with (`None`: it never
      settled) and the record it left, if one was created. */
  datatype DirectResult = DirectResult(settled: Option<bool>, record: Option<DownloadProgress>)

  /** `addDownload(url, filename)` of the curl or wget client at time `now`, with the
      process reporting `events` and `parse` reading its progress. */
  function AddDirectDownload(enabled: bool, destinationPath: string, url: string, filename: string,
                             now: nat, events: seq<ProcessEvent>, parse: string -> Option<real>)
    : (r: DirectResult)
    // a disabled client answers false at once and keeps no record
    ensures !DirectEnabled(enabled, destinationPath) ==> r == DirectResult(Some(false), None)
    // otherwise the record is kept under the chosen name, for the URL given
    ensures DirectEnabled(enabled, destinationPath) ==>
              r.record.Some? && r.record.value.filename == FinalFilename(filename, url, now)
              && r.record.value.url == url
  {
    if !DirectEnabled(enabled, destinationPath) then DirectResult(Some(false), None)
    else
      var start := Download(DownloadProgress(FinalFilename(filename, url, now), url, 0.0, Downloading), None);
      var d := Run(start, events, parse);
      DirectResult(d.settled, Some(d.record))
  }

  /** A direct download resolves true exactly when its first terminal event is a clean exit
      whose move succeeded, and then it was enabled. */
  lemma AddDirectDownloadSucceedsIff(enabled: bool, destinationPath: string, url: string, filename: string,
                                     now: nat, events: seq<ProcessEvent>, parse: string -> Option<real>, i: nat)
    requires i < |events| && Terminal(events[i])
    requires forall j :: 0 <= j < i ==> !Terminal(events[j])
    ensures AddDirectDownload(enabled, destinationPath, url, filename, now, events, parse).settled == Some(true)
            <==> DirectEnabled(enabled, destinationPath) && Verdict(events[i])
  {
    if DirectEnabled(enabled, destinationPath) {
      var start := Download(DownloadProgress(FinalFilename(filename, url, now), url, 0.0, Downloading), None);
      FirstTerminalEventDecides(start, events, i, parse);
    }
  }
}
