/**
 * The messages the monitor puts on its output queue and the text each becomes.
 * Status messages go through `format_message`, which prefixes
 * `<DD.MM.YYYY HH:MM:SS> `; log text (a tail line or a delta) is queued as is.
 */
module Format {
  import opened Wrappers
  import opened Text

  /** `format_message`: `"<" + timestamp + "> " + message`. The timestamp is the
      text `datetime.now().strftime("%d.%m.%Y %H:%M:%S")` would give. */
  function FormatMessage(ts: string, message: string): string {
    "<" + ts + "> " + message
  }

  /** A formatted line is the bracketed timestamp and a space, then the message. */
  lemma FormatMessageParts(ts: string, message: string)
    ensures var line := FormatMessage(ts, message);
      |line| == |ts| + |message| + 3
      && StartsWith(line, "<" + ts + "> ") && EndsWith(line, message)
  {
  }

  /** How a reader of the queue splits a formatted line back into its timestamp
      and its message: the timestamp runs from `<` to the first `>`. */
  function Unformat(line: string): Option<(string, string)>
  {
    if |line| >= 3 && line[0] == '<' && '>' in line then
      var i := IndexOf(line, '>');
      if i + 1 < |line| && line[i + 1] == ' ' then Some((line[1..i], line[i + 2..])) else None
    else None
  }

  /** A timestamp without `>` (as every `%d.%m.%Y %H:%M:%S` rendering is) can be
      split off a formatted message again, leaving the message intact. */
  lemma UnformatFormatMessage(ts: string, message: string)
    requires '>' !in ts
    ensures Unformat(FormatMessage(ts, message)) == Some((ts, message))
  {
    var line := FormatMessage(ts, message);
    assert line == ("<" + ts) + ['>'] + (" " + message);
    IndexOfAfter("<" + ts, " " + message, '>');
    assert line[1..|ts| + 1] == ts;
    assert line[|ts| + 3..] == message;
  }

  /** One element of the output queue. */
  datatype Message =
    | Header(ts: string, batch: nat)       // "Printing batch {batch_counter}"
    | Error(ts: string, reason: string)     // "Error: {e}"
    | Connected(ts: string, host: string)   // "Connected to {hostname}"
    | Stopped(ts: string)                   // "Monitoring stopped"
    | Raw(text: string)                     // a tail line or a delta, already rstripped

  const BatchPrefix := "Printing batch "

  /** The string `output_queue.put` receives for a message. */
  function Render(m: Message): string {
    match m
    case Header(ts, k) => FormatMessage(ts, BatchPrefix + Decimal(k))
    case Error(ts, reason) => FormatMessage(ts, "Error: " + reason)
    case Connected(ts, host) => FormatMessage(ts, "Connected to " + host)
    case Stopped(ts) => FormatMessage(ts, "Monitoring stopped")
    case Raw(text) => text
  }

  function RenderAll(ms: seq<Message>): (lines: seq<string>)
    ensures |lines| == |ms|
  {
    seq(|ms|, i requires 0 <= i < |ms| => Render(ms[i]))
  }

  lemma RenderAllAppend(a: seq<Message>, b: seq<Message>)
    ensures RenderAll(a + b) == RenderAll(a) + RenderAll(b)
  {
  }

  /** The rendered header of batch `k` carries the decimal number `k` after its
      fixed prefix, and reading that number back gives `k`. */
  lemma HeaderCarriesNumber(ts: string, k: nat)
    ensures var line := Render(Header(ts, k));
      var n := |ts| + 3 + |BatchPrefix|;
      n <= |line| && line[..n] == "<" + ts + "> " + BatchPrefix
      && (forall i :: n <= i < |line| ==> IsDigit(line[i]))
      && DecimalValue(line[n..]) == k
  {
    var line := Render(Header(ts, k));
    var n := |ts| + 3 + |BatchPrefix|;
    assert line == ("<" + ts + "> " + BatchPrefix) + Decimal(k);
    assert line[n..] == Decimal(k);
    DecimalRoundTrip(k);
  }

  /** The batch numbers of the headers in `ms`, in queue order. */
  function HeaderNumbers(ms: seq<Message>): seq<nat> {
    if ms == [] then []
    else (if ms[0].Header? then [ms[0].batch] else []) + HeaderNumbers(ms[1..])
  }

  lemma {:induction false} HeaderNumbersAppend(a: seq<Message>, b: seq<Message>)
    ensures HeaderNumbers(a + b) == HeaderNumbers(a) + HeaderNumbers(b)
    decreases |a|
  {
    if a != [] {
      assert (a + b)[1..] == a[1..] + b;
      HeaderNumbersAppend(a[1..], b);
    } else {
      assert a + b == b;
    }
  }

  /** The batch numbers `from + 1`, ..., `to`, in increasing order. */
  function Range(from: nat, to: nat): seq<nat>
    decreases (to as int) - from
  {
    if from >= to then [] else [from + 1] + Range(from + 1, to)
  }

  lemma {:induction false} RangeShape(from: nat, to: nat)
    requires from <= to
    ensures |Range(from, to)| == to - from
    ensures forall j :: 0 <= j < to - from ==> (Range(from, to)[j] == from + j + 1)
    decreases (to as int) - from
  {
    if from < to {
      RangeShape(from + 1, to);
    }
  }

  lemma {:induction false} RangeAppend(x: nat, y: nat, z: nat)
    requires x <= y <= z
    ensures Range(x, y) + Range(y, z) == Range(x, z)
    decreases (y as int) - x
  {
    if x < y {
      RangeAppend(x + 1, y, z);
      assert Range(x, y) + Range(y, z) == [x + 1] + (Range(x + 1, y) + Range(y, z));
    } else {
      assert Range(x, y) == [];
    }
  }

  /** `ms` holds exactly the headers of batches `from + 1` to `to`, in that order. */
  predicate Batches(ms: seq<Message>, from: nat, to: nat) {
    from <= to && HeaderNumbers(ms) == Range(from, to)
  }

  /** Consecutive runs of batches join up. */
  lemma BatchesAppend(a: seq<Message>, b: seq<Message>, x: nat, y: nat, z: nat)
    requires Batches(a, x, y) && Batches(b, y, z)
    ensures Batches(a + b, x, z)
  {
    HeaderNumbersAppend(a, b);
    RangeAppend(x, y, z);
  }

  /** The messages one tick can queue: headers, log text and download errors,
      never a session message such as "Connected to ..." or "Monitoring stopped". */
  predicate TickOutput(ms: seq<Message>) {
    forall i :: 0 <= i < |ms| ==> ms[i].Header? || ms[i].Raw? || ms[i].Error?
  }

  /** A message other than a header adds no batch. */
  lemma NoBatch(m: Message, k: nat)
    requires !m.Header?
    ensures Batches([m], k, k)
  {
    assert [m][1..] == [];
  }

  /** A header of batch `k` followed by log text is batch `k` and nothing else. */
  lemma HeaderThenRaw(ts: string, k: nat, lines: seq<Message>)
    requires k >= 1 && AllRaw(lines)
    ensures Batches([Header(ts, k)] + lines, k - 1, k) && TickOutput([Header(ts, k)] + lines)
  {
    AllRawHasNoBatches(lines, k);
    assert [Header(ts, k)][1..] == [];
    assert Range(k, k) == [];
    BatchesAppend([Header(ts, k)], lines, k - 1, k, k);
  }

  /** Log text, which never carries a header. */
  predicate AllRaw(ms: seq<Message>) {
    forall i :: 0 <= i < |ms| ==> ms[i].Raw?
  }

  lemma {:induction false} AllRawHasNoBatches(ms: seq<Message>, k: nat)
    requires AllRaw(ms)
    ensures Batches(ms, k, k)
    decreases |ms|
  {
    if ms != [] {
      AllRawHasNoBatches(ms[1..], k);
    }
  }
}
