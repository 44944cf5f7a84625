/** The signing sequence, the texts built from it, and what holds over whole runs of requests. */
module Signing {
  import opened Decimal

  /** The clock reading, or one more than the last sequence when the reading does not lead. */
  function NextSequence(last: int, reading: int): int
  {
    if last < reading then reading else last + 1
  }

  /** The sequences returned for a list of clock readings by a signer that starts at zero. */
  function Sequences(readings: seq<int>): (sequences: seq<int>)
    ensures |sequences| == |readings|
  {
    if readings == [] then [] else
    var before := Sequences(readings[..|readings| - 1]);
    before + [NextSequence(LastOf(before), readings[|readings| - 1])]
  }

  function LastOf(sequences: seq<int>): int
  {
    if sequences == [] then 0 else sequences[|sequences| - 1]
  }

  lemma SequencesOneMore(readings: seq<int>, reading: int)
    ensures Sequences(readings + [reading])
         == Sequences(readings) + [NextSequence(LastOf(Sequences(readings)), reading)]
  {
    assert (readings + [reading])[..|readings|] == readings;
  }

  // ----- optimality -----

  /** Positive, strictly increasing, and never behind the clock. */
  predicate Admissible(readings: seq<int>, sequences: seq<int>)
  {
    && |sequences| == |readings|
    && (forall i :: 0 <= i < |sequences| ==> sequences[i] > 0 && sequences[i] >= readings[i])
    && (forall i :: 0 < i < |sequences| ==> sequences[i - 1] < sequences[i])
  }

  lemma AdmissiblePrefix(readings: seq<int>, sequences: seq<int>)
    requires Admissible(readings, sequences) && readings != []
    ensures Admissible(readings[..|readings| - 1], sequences[..|readings| - 1])
  {
  }

  lemma {:induction false} SequencesAdmissible(readings: seq<int>)
    ensures Admissible(readings, Sequences(readings))
  {
    if readings != [] { SequencesAdmissible(readings[..|readings| - 1]); }
  }

  /** No admissible list is anywhere below the one that is returned. */
  lemma {:induction false} SequencesLeast(readings: seq<int>, other: seq<int>)
    requires Admissible(readings, other)
    ensures forall i :: 0 <= i < |readings| ==> Sequences(readings)[i] <= other[i]
    decreases |readings|
  {
    if readings != [] {
      var n := |readings| - 1;
      AdmissiblePrefix(readings, other);
      SequencesLeast(readings[..n], other[..n]);
      if n > 0 {
        assert Sequences(readings[..n])[n - 1] <= other[n - 1] < other[n];
      }
    }
  }

  /** Optimality: the returned sequences are the one list that is admissible and pointwise least. */
  lemma SequencesOptimal(readings: seq<int>, candidate: seq<int>)
    ensures candidate == Sequences(readings)
       <==> Admissible(readings, candidate)
            && forall other: seq<int> :: Admissible(readings, other) ==>
                 forall i :: 0 <= i < |readings| ==> candidate[i] <= other[i]
  {
    SequencesAdmissible(readings);
    if candidate == Sequences(readings) {
      forall other: seq<int> | Admissible(readings, other)
        ensures forall i :: 0 <= i < |readings| ==> candidate[i] <= other[i]
      {
        SequencesLeast(readings, other);
      }
    } else if Admissible(readings, candidate) {
      SequencesLeast(readings, candidate);
      var i :| 0 <= i < |readings| && candidate[i] != Sequences(readings)[i];
      assert Admissible(readings, Sequences(readings)) && !(candidate[i] <= Sequences(readings)[i]);
    }
  }

  /** Closed form: the sequence for reading k is the largest of k + 1 and, for each earlier reading i, that reading
      carried forward one step a call, readings[i] + (k - i). */
  lemma {:induction false} SequencesClosedForm(readings: seq<int>, k: nat)
    requires k < |readings|
    ensures var s := Sequences(readings)[k];
            && s >= k + 1
            && (forall i :: 0 <= i <= k ==> s >= readings[i] + (k - i))
            && (s == k + 1 || exists i :: 0 <= i <= k && s == readings[i] + (k - i))
    decreases |readings|
  {
    var n := |readings| - 1;
    var before := readings[..n];
    if k < n {
      SequencesClosedForm(before, k);
      assert Sequences(readings)[k] == Sequences(before)[k];
      assert forall i :: 0 <= i <= k ==> before[i] == readings[i];
    } else if n > 0 {
      SequencesClosedForm(before, n - 1);
      assert forall i :: 0 <= i <= n - 1 ==> before[i] == readings[i];
      var previous := Sequences(before)[n - 1];
      if previous < readings[n] {
        assert Sequences(readings)[n] == readings[n] + (n - n);
        assert forall i :: 0 <= i <= n - 1 ==> previous >= readings[i] + (n - 1 - i);
      } else if previous != n {
        var i :| 0 <= i <= n - 1 && previous == before[i] + (n - 1 - i);
        assert Sequences(readings)[n] == readings[i] + (n - i);
      }
    }
  }

  // ----- texts -----

  datatype Kind = SignatureMessage | RawData

  datatype Request = Request(kind: Kind, reading: int, nonce: string)

  const RAW_DATA_WIDTH := 13
  const RAW_DATA_LIMIT := 10_000_000_000_000

  lemma LimitOfWidth(width: nat)
    requires width == RAW_DATA_WIDTH
    ensures Power10(width) == RAW_DATA_LIMIT
  {
    assert Power10(3) == 1000;
    assert Power10(6) == 1000 * Power10(3);
    assert Power10(9) == 1000 * Power10(6);
    assert Power10(12) == 1000 * Power10(9);
  }

  /** What is signed: the sequence and the nonce on a line each. */
  function SignatureText(sequence: nat, nonce: string): string
  {
    Print(sequence) + "\n" + nonce + "\n"
  }

  /** The raw data of a login: the sequence padded to 13 digits, a dot, the nonce. */
  function RawDataText(sequence: nat, nonce: string): string
  {
    PrintPadded(sequence, RAW_DATA_WIDTH) + "." + nonce
  }

  function Text(kind: Kind, sequence: nat, nonce: string): string
  {
    match kind
    case SignatureMessage => SignatureText(sequence, nonce)
    case RawData => RawDataText(sequence, nonce)
  }

  /** Where the leading digits end. */
  function DigitsEnd(text: string): (n: nat)
    ensures n <= |text|
    ensures AllDigits(text[..n])
    ensures n < |text| ==> !IsDigit(text[n])
  {
    if text == [] || !IsDigit(text[0]) then 0
    else
      var n := DigitsEnd(text[1..]) + 1;
      assert text[..n] == [text[0]] + text[1..][..n - 1];
      n
  }

  lemma {:induction false} DigitsEndAfter(digits: string, separator: char, rest: string)
    requires AllDigits(digits) && !IsDigit(separator)
    ensures DigitsEnd(digits + [separator] + rest) == |digits|
  {
    var text := digits + [separator] + rest;
    if digits != [] {
      DigitsEndAfter(digits[1..], separator, rest);
      assert text[1..] == digits[1..] + [separator] + rest;
    }
  }

  /** Reads a text back: the separator that ends the digits tells its kind. */
  datatype Parsed = Malformed | Parsed(kind: Kind, sequence: nat, nonce: string)

  function ParseText(text: string): Parsed
  {
    var n := DigitsEnd(text);
    if n == |text| then Malformed
    else if text[n] == '.' then Parsed(RawData, Parse(text[..n]), text[n + 1..])
    else if text[n] == '\n' && n + 1 < |text| && text[|text| - 1] == '\n' then
      Parsed(SignatureMessage, Parse(text[..n]), text[n + 1..|text| - 1])
    else Malformed
  }

  /** Round trip: splitting either text at its first separator gives back its kind, sequence and nonce, whatever
      characters the nonce holds. */
  lemma ParseOfText(kind: Kind, sequence: nat, nonce: string)
    ensures ParseText(Text(kind, sequence, nonce)) == Parsed(kind, sequence, nonce)
  {
    var text := Text(kind, sequence, nonce);
    match kind
    case SignatureMessage =>
      var digits := Print(sequence);
      assert text == digits + ['\n'] + (nonce + "\n");
      DigitsEndAfter(digits, '\n', nonce + "\n");
      ParseOfPrint(sequence);
      assert text[..|digits|] == digits && text[|digits| + 1..|text| - 1] == nonce;
    case RawData =>
      var digits := PrintPadded(sequence, RAW_DATA_WIDTH);
      assert text == digits + ['.'] + nonce;
      DigitsEndAfter(digits, '.', nonce);
      ParseOfPrintPadded(sequence, RAW_DATA_WIDTH);
      assert text[..|digits|] == digits && text[|digits| + 1..] == nonce;
  }

  // ----- whole runs -----

  function Readings(requests: seq<Request>): (readings: seq<int>)
    ensures |readings| == |requests|
    ensures forall i :: 0 <= i < |requests| ==> readings[i] == requests[i].reading
  {
    seq(|requests|, i requires 0 <= i < |requests| => requests[i].reading)
  }

  /** The text issued for the i-th request of a run; both kinds draw on the same sequence. */
  function TextAt(requests: seq<Request>, i: nat): string
    requires i < |requests|
  {
    SequencesAdmissible(Readings(requests));
    Text(requests[i].kind, Sequences(Readings(requests))[i], requests[i].nonce)
  }

  lemma {:induction false} StrictlyIncreasing(readings: seq<int>, i: nat, j: nat)
    requires i < j < |readings|
    ensures Sequences(readings)[i] < Sequences(readings)[j]
    decreases j
  {
    SequencesAdmissible(readings);
    assert Sequences(readings)[j - 1] < Sequences(readings)[j];
    if i < j - 1 { StrictlyIncreasing(readings, i, j - 1); }
  }

  /** What is signed for a request, and nothing else: the sequence without a leading zero, a newline, the nonce and a
      newline. */
  lemma SignatureTextIff(requests: seq<Request>, i: nat, text: string)
    requires i < |requests| && requests[i].kind == SignatureMessage
    ensures var sequence, nonce := Sequences(Readings(requests))[i], requests[i].nonce;
            var n := |text| - |nonce| - 2;
            text == TextAt(requests, i)
            <==> && n > 0 && AllDigits(text[..n]) && text[0] != '0' && Parse(text[..n]) == sequence
                 && text[n..] == ['\n'] + nonce + ['\n']
  {
    var sequence, nonce := Sequences(Readings(requests))[i], requests[i].nonce;
    var n := |text| - |nonce| - 2;
    SequencesAdmissible(Readings(requests));
    assert TextAt(requests, i) == Print(sequence) + (['\n'] + nonce + ['\n']);
    if n > 0 {
      assert text == text[..n] + text[n..];
      PrintIff(sequence, text[..n]);
      PrintLeads(sequence);
    }
  }

  /** The raw data of a request, and nothing else: the sequence in 13 digits, or in as many as it needs, a dot and the
      nonce. */
  lemma RawDataTextIff(requests: seq<Request>, i: nat, text: string)
    requires i < |requests| && requests[i].kind == RawData
    ensures var sequence, nonce := Sequences(Readings(requests))[i], requests[i].nonce;
            var n := |text| - |nonce| - 1;
            text == TextAt(requests, i)
            <==> && n >= 13 && AllDigits(text[..n]) && (n == 13 || text[0] != '0') && Parse(text[..n]) == sequence
                 && text[n..] == ['.'] + nonce
  {
    var sequence, nonce := Sequences(Readings(requests))[i], requests[i].nonce;
    var n := |text| - |nonce| - 1;
    SequencesAdmissible(Readings(requests));
    PaddedToOwnLength(sequence, RAW_DATA_WIDTH);
    assert TextAt(requests, i) == PrintPadded(sequence, RAW_DATA_WIDTH) + (['.'] + nonce);
    if n >= 13 {
      assert text == text[..n] + text[n..];
      PrintPaddedIff(sequence, RAW_DATA_WIDTH, text[..n]);
    }
  }

  /** Texts never repeat: over any run that mixes both kinds, any two texts differ, even with equal clock readings and
      equal nonces. */
  lemma TextsNeverRepeat(requests: seq<Request>, i: nat, j: nat)
    requires i < j < |requests|
    ensures TextAt(requests, i) != TextAt(requests, j)
  {
    var sequences := Sequences(Readings(requests));
    SequencesAdmissible(Readings(requests));
    StrictlyIncreasing(Readings(requests), i, j);
    ParseOfText(requests[i].kind, sequences[i], requests[i].nonce);
    ParseOfText(requests[j].kind, sequences[j], requests[j].nonce);
  }

  lemma RawDataParts(sequence: nat, nonce: string, width: nat)
    requires width == RAW_DATA_WIDTH
    ensures RawDataText(sequence, nonce) == PrintPadded(sequence, width) + (['.'] + nonce)
  {
  }

  /** The number of digits the sequence of a raw data text takes: 13, or more when it needs them. */
  function DigitsOf(sequence: nat): nat
  {
    |PrintPadded(sequence, RAW_DATA_WIDTH)|
  }

  lemma RawDataOrder(m: nat, n: nat, a: string, b: string, width: nat)
    requires m < n && width == RAW_DATA_WIDTH
    ensures DigitsOf(m) <= DigitsOf(n)
    ensures Before(RawDataText(m, a), RawDataText(n, b)) <==> m <= Leading(n, DigitsOf(n) - DigitsOf(m))
  {
    PaddedOrderIff(m, n, width, '.', a, b);
    RawDataParts(m, a, width);
    RawDataParts(n, b, width);
  }

  /** No raw data text begins with one of another sequence: two of them always differ within both. */
  lemma RawDataNotPrefix(m: nat, n: nat, a: string, b: string)
    requires m != n
    ensures !(RawDataText(m, a) <= RawDataText(n, b))
  {
    var first, second := RawDataText(m, a), RawDataText(n, b);
    if first <= second {
      var rest := second[|first|..];
      assert second == first + rest == RawDataText(m, a + rest);
      ParseOfText(RawData, m, a + rest);
      ParseOfText(RawData, n, b);
    }
  }

  /** Exactly when raw data texts sort in issue order, for any two requests of any run: if and only if the earlier
      sequence does not exceed the later one cut to as many digits as the earlier one takes. */
  lemma RawDataSortsIff(requests: seq<Request>, i: nat, j: nat)
    requires i < j < |requests| && requests[i].kind == requests[j].kind == RawData
    ensures var sequences := Sequences(Readings(requests));
            && 0 < sequences[i] < sequences[j]
            && DigitsOf(sequences[i]) <= DigitsOf(sequences[j])
            && (SortsBefore(TextAt(requests, i), TextAt(requests, j))
                <==> Before(TextAt(requests, i), TextAt(requests, j)))
            && (SortsBefore(TextAt(requests, i), TextAt(requests, j))
                <==> sequences[i] <= Leading(sequences[j], DigitsOf(sequences[j]) - DigitsOf(sequences[i])))
  {
    var sequences := Sequences(Readings(requests));
    SequencesAdmissible(Readings(requests));
    StrictlyIncreasing(Readings(requests), i, j);
    RawDataNotPrefix(sequences[i], sequences[j], requests[i].nonce, requests[j].nonce);
    RawDataOrder(sequences[i], sequences[j], requests[i].nonce, requests[j].nonce, RAW_DATA_WIDTH);
  }

  lemma WithinWidth(sequence: nat, width: nat)
    requires width == RAW_DATA_WIDTH && sequence < RAW_DATA_LIMIT
    ensures DigitsOf(sequence) == RAW_DATA_WIDTH
  {
    LimitOfWidth(width);
    PaddedStep(sequence, width);
  }

  /** In particular, they sort in issue order whenever the two sequences take equally many digits, as they do while
      sequences fit in 13. */
  lemma RawDataSortsInIssueOrder(requests: seq<Request>, i: nat, j: nat)
    requires i < j < |requests| && requests[i].kind == requests[j].kind == RawData
    ensures var sequences := Sequences(Readings(requests));
            && 0 < sequences[i] < sequences[j]
            && (sequences[j] < RAW_DATA_LIMIT ==> DigitsOf(sequences[i]) == DigitsOf(sequences[j]))
            && (DigitsOf(sequences[i]) == DigitsOf(sequences[j]) ==> Before(TextAt(requests, i), TextAt(requests, j)))
  {
    var sequences := Sequences(Readings(requests));
    RawDataSortsIff(requests, i, j);
    if sequences[j] < RAW_DATA_LIMIT {
      WithinWidth(sequences[i], RAW_DATA_WIDTH);
      WithinWidth(sequences[j], RAW_DATA_WIDTH);
    }
  }

  lemma DigitsAtLimit(limit: nat, width: nat)
    requires limit == RAW_DATA_LIMIT && width == RAW_DATA_WIDTH
    ensures DigitsOf(limit - 1) == 13 && DigitsOf(limit) == 14 && Leading(limit, 1) < limit - 1
  {
    LimitOfWidth(width);
    WithinWidth(limit - 1, width);
    WidthEnds(width);
    assert Leading(limit, 1) == Leading(limit / 10, 0) == limit / 10;
  }

  /** A run in which the order breaks: two requests, one for the last millisecond of 13 digits and one for the next. */
  lemma RawDataOrderBreaks(requests: seq<Request>, limit: nat)
    requires limit == RAW_DATA_LIMIT
    requires requests == [Request(RawData, limit - 1, ""), Request(RawData, limit, "")]
    ensures !SortsBefore(TextAt(requests, 0), TextAt(requests, 1))
  {
    var readings := Readings(requests);
    assert readings == [limit - 1, limit];
    SequencesOneMore([], limit - 1);
    SequencesOneMore([limit - 1], limit);
    assert [] + [limit - 1] == [limit - 1] && [limit - 1] + [limit] == readings;
    assert Sequences(readings) == [limit - 1, limit];
    DigitsAtLimit(limit, RAW_DATA_WIDTH);
    RawDataSortsIff(requests, 0, 1);
  }
}
