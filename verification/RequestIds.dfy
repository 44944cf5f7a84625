/** Request identifiers: a 32-bit counter that wraps, printed after a fixed prefix. */
module RequestIds {
  import opened Decimal

  const COUNTERS := 0x1_0000_0000

  function IdText(counter: nat): string
  {
    "roq-" + Print(counter)
  }

  /** The text of the n-th call, counting from one. */
  function TextOfCall(n: nat): string
  {
    IdText(n % COUNTERS)
  }

  class Shared {
    var requestId: int
    var encodeBuffer: string

    ghost predicate HasIssued(calls: nat)
      reads this
    {
      requestId == calls % COUNTERS
    }

    constructor ()
      ensures HasIssued(0)
    {
      requestId, encodeBuffer := 0, [];
    }

    /** Increments the counter, wrapping at 2^32, and rewrites the buffer; the caller sees the buffer. */
    method NextRequestId(ghost calls: nat) returns (id: string)
      requires HasIssued(calls)
      modifies this
      ensures HasIssued(calls + 1)
      ensures id == encodeBuffer == TextOfCall(calls + 1)
    {
      requestId := if requestId + 1 == COUNTERS then 0 else requestId + 1;
      encodeBuffer := [];
      encodeBuffer := encodeBuffer + "roq-" + Print(requestId);
      id := encodeBuffer;
    }
  }

  /** The text of the n-th call is the prefix and then n modulo 2^32, printed without a leading zero, and no other. */
  lemma TextOfCallIff(n: nat, text: string)
    ensures text == TextOfCall(n)
       <==> && |text| > 4 && text[..4] == "roq-" && AllDigits(text[4..]) && Parse(text[4..]) == n % 0x1_0000_0000
            && (|text| == 5 || text[4] != '0')
  {
    var issued := TextOfCall(n);
    assert issued[..4] == "roq-" && issued[4..] == Print(n % COUNTERS);
    PrintIff(n % COUNTERS, issued[4..]);
    if |text| > 4 && text[..4] == "roq-" {
      PrintIff(n % COUNTERS, text[4..]);
      assert text == text[..4] + text[4..];
    }
  }

  /** Two calls return the same text if and only if a whole number of counter cycles lies between them. */
  lemma SameTextIff(m: nat, n: nat)
    requires m <= n
    ensures TextOfCall(m) == TextOfCall(n) <==> (n - m) % COUNTERS == 0
  {
    var a, b := Print(m % COUNTERS), Print(n % COUNTERS);
    if TextOfCall(m) == TextOfCall(n) {
      assert a == TextOfCall(m)[4..] && b == TextOfCall(n)[4..];
      PrintInjective(m % COUNTERS, n % COUNTERS);
    }
  }

  /** Any two calls fewer than 2^32 apart return different texts. */
  lemma NearbyTextsDiffer(m: nat, n: nat)
    requires m < n < m + COUNTERS
    ensures TextOfCall(m) != TextOfCall(n)
  {
    SameTextIff(m, n);
  }
}
