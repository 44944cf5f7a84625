/** The signer: one counter in milliseconds behind both kinds of text. */
module CryptoTools {
  import opened Decimal
  import opened Signing

  class Crypto {
    var timestamp: int

    /** This signer has served these requests. */
    ghost predicate HasServed(requests: seq<Request>)
      reads this
    {
      timestamp == LastOf(Sequences(Readings(requests)))
    }

    constructor ()
      ensures HasServed([])
    {
      timestamp := 0;
    }

    method GetSequence(reading: int) returns (sequence: int)
      modifies this
      ensures sequence == timestamp == NextSequence(old(timestamp), reading)
    {
      if timestamp < reading {
        timestamp := reading;
      } else {
        timestamp := timestamp + 1;
      }
      sequence := timestamp;
    }

    /** The message that create_signature hands to the MAC. */
    method CreateSignatureMessage(reading: int, nonce: string, ghost served: seq<Request>) returns (text: string)
      requires HasServed(served)
      modifies this
      ensures HasServed(served + [Request(SignatureMessage, reading, nonce)])
      ensures text == TextAt(served + [Request(SignatureMessage, reading, nonce)], |served|)
    {
      Served(served, Request(SignatureMessage, reading, nonce));
      var sequence := GetSequence(reading);
      text := Print(sequence) + "\n" + nonce + "\n";
    }

    method CreateRawData(reading: int, nonce: string, ghost served: seq<Request>) returns (text: string)
      requires HasServed(served)
      modifies this
      ensures HasServed(served + [Request(RawData, reading, nonce)])
      ensures text == TextAt(served + [Request(RawData, reading, nonce)], |served|)
    {
      Served(served, Request(RawData, reading, nonce));
      var sequence := GetSequence(reading);
      text := PrintPadded(sequence, RAW_DATA_WIDTH) + "." + nonce;
    }
  }

  lemma Served(served: seq<Request>, request: Request)
    ensures var all := served + [request];
            && Sequences(Readings(all))
               == Sequences(Readings(served)) + [NextSequence(LastOf(Sequences(Readings(served))), request.reading)]
            && Sequences(Readings(all))[|served|] > 0
  {
    assert Readings(served + [request]) == Readings(served) + [request.reading];
    SequencesOneMore(Readings(served), request.reading);
    SequencesAdmissible(Readings(served + [request]));
  }
}
