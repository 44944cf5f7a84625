/** The sequencer over all 64-bit numbers: what truncation to 32 bits and wrapping make of a history. */
module WideSequencing {
  import opened ByteOrder
  import opened Sequencing

  /** What the channel remembers of the last number processed. */
  function Stored(history: seq<int64>): uint32
  {
    Truncate(Last(history))
  }

  /** The number the channel awaits next. */
  function Awaited(history: seq<int64>): uint32
  {
    Truncate(Last(history) + 1)
  }

  lemma AwaitedIsStoredPlusOne(n: int)
    ensures Truncate(Truncate(n) + 1) == Truncate(n + 1)
    ensures Truncate(n + 1) != Truncate(n)
  {
    if Truncate(n) < 0xFFFF_FFFF {
      assert Truncate(n) + 1 == Truncate(n + 1);
    } else {
      assert Truncate(n + 1) == 0;
    }
  }

  /** A climb that may pass 2^32 - 1 and start over at zero: every number is the one remembered or the one awaited. */
  predicate WrappingClimb(history: seq<int64>)
  {
    forall i :: 0 <= i < |history| ==> history[i] == Stored(history[..i]) || history[i] == Awaited(history[..i])
  }

  lemma WrappingClimbOneMore(history: seq<int64>, seqNum: int64)
    ensures WrappingClimb(history + [seqNum])
       <==> WrappingClimb(history) && (seqNum == Stored(history) || seqNum == Awaited(history))
  {
    var longer := history + [seqNum];
    assert forall i :: 0 <= i < |history| ==> longer[..i] == history[..i] && longer[i] == history[i];
    assert longer[..|history|] == history && longer[|history|] == seqNum;
  }

  /** After any surviving run over any numbers, the state is read off the history: the last number truncated, and
      initialised unless the history is a wrapping climb. */
  lemma {:induction false} StateFollowsAnyHistory(history: seq<int64>)
    requires Survives(history)
    ensures After(history).sequencer == Sequencer(Stored(history), !WrappingClimb(history))
    decreases |history|
  {
    if history != [] {
      var before, seqNum := history[..|history| - 1], history[|history| - 1];
      assert history == before + [seqNum];
      AfterOneMore(before, seqNum);
      StateFollowsAnyHistory(before);
      WrappingClimbOneMore(before, seqNum);
      AwaitedIsStoredPlusOne(Last(before));
      assert Truncate(Truncate(Last(before))) == Truncate(Last(before));
    }
  }

  lemma VerdictByClimb(history: seq<int64>, seqNum: int64)
    requires Survives(history)
    ensures var climbed := WrappingClimb(history);
            && (VerdictOn(history, seqNum) == Accepted
                <==> seqNum == Awaited(history)
                     || (climbed && Stored(history) == 0 && seqNum != Stored(history)))
            && (VerdictOn(history, seqNum) == Repeat <==> seqNum == Stored(history))
            && (VerdictOn(history, seqNum) == AssertionFails
                <==> climbed && Stored(history) != 0 && seqNum != Stored(history) && seqNum != Awaited(history))
  {
    StateFollowsAnyHistory(history);
    AwaitedIsStoredPlusOne(Last(history));
  }

  /** The sequencer as a predicate on any history of 64-bit numbers. Between 0 and 2^32 - 2 it reads in plain integers:
      it accepts exactly the successor of the last number processed, or the first number of 2 or more after nothing
      but zeros, and the assertion fails exactly when numbers have climbed one by one from 1 and the next one jumps. */
  lemma VerdictFollowsAnyHistory(history: seq<int64>, seqNum: int64)
    requires Survives(history)
    ensures var climbed := WrappingClimb(history);
            && (VerdictOn(history, seqNum) == Accepted
                <==> seqNum == Awaited(history)
                     || (climbed && Stored(history) == 0 && seqNum != Stored(history)))
            && (VerdictOn(history, seqNum) == Repeat <==> seqNum == Stored(history))
            && (VerdictOn(history, seqNum) == AssertionFails
                <==> climbed && Stored(history) != 0 && seqNum != Stored(history) && seqNum != Awaited(history))
    ensures AllInRange(history) && InRange(seqNum) ==>
              && After(history).sequencer.previous == Last(history)
              && (VerdictOn(history, seqNum) == Accepted
                  <==> seqNum == Last(history) + 1 || (AllZero(history) && seqNum >= 2))
              && (VerdictOn(history, seqNum) == Repeat <==> seqNum == Last(history))
              && (VerdictOn(history, seqNum) == AssertionFails
                  <==> Climb(history) && Last(history) > 0 && seqNum != Last(history) && seqNum != Last(history) + 1)
  {
    VerdictByClimb(history, seqNum);
    if AllInRange(history) && InRange(seqNum) { VerdictFollowsHistory(history, seqNum); }
  }

  /** After a surviving packet s, over any history and any 64-bit s, packet s + 1 is accepted if and only if s lies
      between -1 and 2^32 - 2: below, the channel forgets the sign, and above, it forgets the high bits or wraps. */
  lemma SuccessorAcceptedIff(history: seq<int64>, seqNum: int64)
    requires Survives(history + [seqNum]) && seqNum < 0x7FFF_FFFF_FFFF_FFFF
    ensures VerdictOn(history + [seqNum], seqNum + 1) == Accepted <==> -1 <= seqNum <= 0xFFFF_FFFE
  {
    var longer := history + [seqNum];
    VerdictByClimb(longer, seqNum + 1);
    WrappingClimbOneMore(history, seqNum);
    assert Last(longer) == seqNum;
    assert Truncate(-1 + 1) == 0;
  }

  /** The number at i jumps away from a climb that has stored something. */
  predicate JumpsAt(history: seq<int64>, i: nat)
    requires i < |history|
  {
    var before := history[..i];
    && WrappingClimb(before) && Stored(before) != 0
    && history[i] != Stored(before) && history[i] != Awaited(before)
  }

  /** Any history of 64-bit numbers survives if and only if it never jumps away from such a climb. */
  lemma {:induction false} SurvivesIffNeverJumps(history: seq<int64>)
    ensures Survives(history) <==> forall i :: 0 <= i < |history| ==> !JumpsAt(history, i)
    decreases |history|
  {
    if history != [] {
      var n := |history| - 1;
      var before := history[..n];
      SurvivesIffNeverJumps(before);
      assert history == before + [history[n]];
      AfterOneMore(before, history[n]);
      assert forall i :: 0 <= i < n ==> before[..i] == history[..i];
      assert forall i :: 0 <= i < n ==> (JumpsAt(history, i) <==> JumpsAt(before, i));
      if Survives(before) {
        VerdictByClimb(before, history[n]);
        assert JumpsAt(history, n) <==> VerdictOn(before, history[n]) == AssertionFails;
      }
    }
  }

  /** Any history survives exactly when it never jumps after a climb; in range, exactly when it is a climb or did not
      begin with number 1. A channel that joins the feed at its first packet cannot outlive a single loss. */
  lemma SurvivesIff(history: seq<int64>)
    ensures Survives(history) <==> forall i :: 0 <= i < |history| ==> !JumpsAt(history, i)
    ensures AllInRange(history) ==> (Survives(history) <==> Climb(history) || FirstNonZero(history) != 1)
  {
    SurvivesIffNeverJumps(history);
    if AllInRange(history) { StateFollowsHistory(history); }
  }

  lemma {:induction false} WrappingClimbsSurvive(history: seq<int64>)
    requires WrappingClimb(history)
    ensures Survives(history)
    decreases |history|
  {
    if history != [] {
      var before, seqNum := history[..|history| - 1], history[|history| - 1];
      assert history == before + [seqNum];
      WrappingClimbOneMore(before, seqNum);
      WrappingClimbsSurvive(before);
      AfterOneMore(before, seqNum);
      VerdictByClimb(before, seqNum);
    }
  }

  /** Uninitialised channels with a positive previous number k come from exactly the wrapping climbs that store k; in
      range, those are the zeros, then 1 to k with immediate repeats. */
  lemma UninitializedIffClimb(history: seq<int64>, k: uint32)
    requires k > 0
    ensures Survives(history) && After(history).sequencer == Sequencer(k, false)
       <==> WrappingClimb(history) && Stored(history) == k
    ensures AllInRange(history) ==>
              (WrappingClimb(history) && Stored(history) == k <==> Climb(history) && Last(history) == k)
  {
    if WrappingClimb(history) { WrappingClimbsSurvive(history); }
    if Survives(history) { StateFollowsAnyHistory(history); }
    if AllInRange(history) {
      StateFollowsHistory(history);
      ClimbFacts(history);
    }
  }

  // ----- how a channel that began with 1 can become initialised -----

  /** The number at i follows a climb that came all the way round to zero, and is neither 0 nor 1. */
  predicate WrapsAt(history: seq<int64>, i: nat)
    requires i < |history|
  {
    var before := history[..i];
    WrappingClimb(before) && !AllZero(before) && Last(before) == 0 && history[i] != 0 && history[i] != 1
  }

  lemma {:induction false} FirstDeparture(history: seq<int64>) returns (i: nat)
    requires !WrappingClimb(history)
    ensures i < |history| && WrappingClimb(history[..i])
    ensures history[i] != Stored(history[..i]) && history[i] != Awaited(history[..i])
    decreases |history|
  {
    var n := |history| - 1;
    var before := history[..n];
    assert history == before + [history[n]];
    WrappingClimbOneMore(before, history[n]);
    if WrappingClimb(before) {
      i := n;
    } else {
      i := FirstDeparture(before);
      assert before[..i] == history[..i];
    }
  }

  /** The numbers of a wrapping climb are stored whole. */
  lemma {:induction false} ClimbStoredWhole(history: seq<int64>)
    requires WrappingClimb(history)
    ensures Last(history) == Stored(history)
    decreases |history|
  {
    if history != [] {
      var before, seqNum := history[..|history| - 1], history[|history| - 1];
      assert history == before + [seqNum];
      WrappingClimbOneMore(before, seqNum);
      assert Truncate(Stored(before)) == Stored(before) && Truncate(Awaited(before)) == Awaited(before);
    }
  }

  lemma {:induction false} FirstNonZeroAfterZeros(history: seq<int64>, i: nat)
    requires i < |history| && AllZero(history[..i]) && history[i] != 0
    ensures FirstNonZero(history) == history[i]
    decreases i
  {
    if i > 0 {
      assert history[..i][0] == 0;
      assert history[1..][..i - 1] == history[..i][1..];
      FirstNonZeroAfterZeros(history[1..], i - 1);
    }
  }

  /** A surviving channel whose first non-zero number is 1 is initialised if and only if a climb of it had come all the
      way round to zero when a number other than 0 and 1 arrived. */
  lemma WrapInitializesIff(history: seq<int64>)
    requires Survives(history) && FirstNonZero(history) == 1
    ensures After(history).sequencer.initialized <==> exists i :: 0 <= i < |history| && WrapsAt(history, i)
  {
    StateFollowsAnyHistory(history);
    if WrappingClimb(history) {
      forall i | 0 <= i < |history| ensures !WrapsAt(history, i) {
        assert history[i] == Stored(history[..i]) || history[i] == Awaited(history[..i]);
      }
    } else {
      var i := FirstDeparture(history);
      var before := history[..i];
      SurvivesIffNeverJumps(history);
      assert !JumpsAt(history, i);
      ClimbStoredWhole(before);
      if AllZero(before) { FirstNonZeroAfterZeros(history, i); }
      assert WrapsAt(history, i);
    }
  }

  /** The successor is not accepted past either end of the range: after -2, and after 2^32 - 1 once initialised. */
  lemma SuccessorRejectedAtTheEnds()
    ensures Survives([5, -2]) && VerdictOn([5, -2], -1) == Gap
    ensures Survives([5, 0xFFFF_FFFF]) && VerdictOn([5, 0xFFFF_FFFF], 0x1_0000_0000) == Gap
  {
    assert [5, -2] == [5] + [-2] && [5, 0xFFFF_FFFF] == [5] + [0xFFFF_FFFF] && [5] == [] + [5];
    AfterOneMore([], 5);
    AfterOneMore([5], -2);
    AfterOneMore([5], 0xFFFF_FFFF);
    assert Truncate(-2) == 0xFFFF_FFFE;
  }

  // ----- stretches of accepted numbers -----

  /** Every number from k on was accepted. */
  predicate AcceptedFrom(history: seq<int64>, k: nat)
  {
    && k <= |history|
    && forall i :: k <= i < |history| ==> VerdictOn(history[..i], history[i]) == Accepted
  }

  lemma AcceptedFromOneMore(history: seq<int64>, seqNum: int64, k: nat)
    requires AcceptedFrom(history, k) && VerdictOn(history, seqNum) == Accepted
    ensures AcceptedFrom(history + [seqNum], k)
  {
    var longer := history + [seqNum];
    assert longer[..|history|] == history && longer[|history|] == seqNum;
    assert forall i :: 0 <= i < |history| ==> longer[..i] == history[..i] && longer[i] == history[i];
  }

  /** The numbers count up by one and end at `last`. */
  predicate CountsUpTo(numbers: seq<int64>, last: int)
  {
    forall i :: 0 <= i < |numbers| ==> numbers[i] == last - (|numbers| - 1 - i)
  }

  /** Nothing in the stretch is truncated or wraps on the way to its successor, its last number is stored whole, and
      a zero, after which an uninitialised channel accepts anything, leads to one. */
  predicate Unwrapped(numbers: seq<int64>)
  {
    && (forall i :: 0 <= i < |numbers| - 1 ==> UnwrappedAt(numbers, i))
    && (numbers != [] ==> 0 <= numbers[|numbers| - 1] <= 0xFFFF_FFFF)
  }

  predicate UnwrappedAt(numbers: seq<int64>, i: nat)
    requires i < |numbers| - 1
  {
    -1 <= numbers[i] <= 0xFFFF_FFFE && (numbers[i] == 0 ==> numbers[i + 1] == 1)
  }

  predicate StepsAt(numbers: seq<int64>, i: nat)
    requires i < |numbers| - 1
  {
    numbers[i + 1] as int == numbers[i] as int + 1
  }

  lemma {:induction false} SurvivesBefore(history: seq<int64>, n: nat)
    requires Survives(history) && n <= |history|
    ensures Survives(history[..n])
    decreases |history|
  {
    if n == |history| {
      assert history[..n] == history;
    } else {
      SurvivesBefore(history[..|history| - 1], n);
      assert history[..|history| - 1][..n] == history[..n];
    }
  }

  /** Of two accepted numbers in a row the second is the first plus one exactly when nothing is lost in between. */
  lemma AcceptedPair(history: seq<int64>, k: nat, i: nat)
    requires Survives(history) && AcceptedFrom(history, k) && k <= i < |history| - 1
    ensures StepsAt(history, i) <==> UnwrappedAt(history, i)
    ensures history[i + 1] == Truncate(history[i] as int + 1) || history[i] == 0
  {
    var before := history[..i + 1];
    SurvivesBefore(history, i + 1);
    VerdictByClimb(before, history[i + 1]);
    assert Last(before) == history[i];
    assert before == history[..i] + [history[i]];
    WrappingClimbOneMore(history[..i], history[i]);
  }

  lemma {:induction false} StepsCount(numbers: seq<int64>, last: int)
    ensures CountsUpTo(numbers, last)
       <==> (forall i :: 0 <= i < |numbers| - 1 ==> StepsAt(numbers, i))
            && (numbers != [] ==> numbers[|numbers| - 1] == last)
    decreases |numbers|
  {
    if |numbers| > 1 {
      var n := |numbers| - 1;
      var before := numbers[..n];
      StepsCount(before, last - 1);
      assert forall i :: 0 <= i < n - 1 ==> (StepsAt(numbers, i) <==> StepsAt(before, i));
      assert CountsUpTo(numbers, last) ==> numbers[n - 1] == last - 1;
      assert StepsAt(numbers, n - 1) <==> numbers[n] as int == numbers[n - 1] as int + 1;
    }
  }

  lemma StretchSteps(history: seq<int64>, k: nat)
    requires Survives(history) && AcceptedFrom(history, k)
    ensures (forall i :: 0 <= i < |history[k..]| - 1 ==> StepsAt(history[k..], i))
       <==> (forall i :: 0 <= i < |history[k..]| - 1 ==> UnwrappedAt(history[k..], i))
  {
    var stretch := history[k..];
    forall i | 0 <= i < |stretch| - 1 ensures StepsAt(stretch, i) <==> UnwrappedAt(stretch, i) {
      AcceptedPair(history, k, k + i);
    }
  }

  /** A stretch of accepted numbers at the end of any surviving history counts up by one to the channel's previous
      number if and only if it is unwrapped. */
  lemma AcceptedStretchCounts(history: seq<int64>, k: nat)
    requires Survives(history) && AcceptedFrom(history, k)
    ensures CountsUpTo(history[k..], After(history).sequencer.previous) <==> Unwrapped(history[k..])
  {
    StateFollowsAnyHistory(history);
    StretchSteps(history, k);
    StepsCount(history[k..], Stored(history));
    if k < |history| { StoredWhole(history, history[k..]); }
  }

  lemma StoredWhole(history: seq<int64>, stretch: seq<int64>)
    requires stretch != [] && |stretch| <= |history| && stretch == history[|history| - |stretch|..]
    ensures stretch[|stretch| - 1] == Stored(history) <==> 0 <= stretch[|stretch| - 1] <= 0xFFFF_FFFF
  {
    assert Last(history) == stretch[|stretch| - 1];
  }

  predicate AllPositive(numbers: seq<int64>)
  {
    forall i :: 0 <= i < |numbers| ==> 1 <= numbers[i] <= 0xFFFF_FFFF
  }

  /** Positive 32-bit numbers, accepted in a row, are unwrapped. */
  lemma PositiveStretchUnwrapped(history: seq<int64>, k: nat)
    requires Survives(history) && AcceptedFrom(history, k) && AllPositive(history[k..])
    ensures Unwrapped(history[k..])
  {
    forall i | 0 <= i < |history[k..]| - 1 ensures UnwrappedAt(history[k..], i) {
      AcceptedPair(history, k, k + i);
      assert history[k + i + 1] >= 1;
    }
  }

  /** In particular, every stretch of accepted numbers is unwrapped when the history stays in range. */
  lemma InRangeStretchUnwrapped(history: seq<int64>, k: nat)
    requires Survives(history) && AcceptedFrom(history, k) && AllInRange(history)
    ensures Unwrapped(history[k..])
  {
    forall i | 0 <= i < |history[k..]| ensures 1 <= history[k..][i] <= 0xFFFF_FFFF {
      var before := history[..k + i];
      SurvivesBefore(history, k + i);
      assert AllInRange(before) && history[k + i] in history;
      VerdictFollowsHistory(before, history[k + i]);
      LastInRange(before);
    }
    PositiveStretchUnwrapped(history, k);
  }

  // ----- where counting fails -----

  /** A negative first number is accepted, but stored without its sign. */
  lemma NegativeFirstNumber()
    ensures Survives([-5]) && AcceptedFrom([-5], 0)
    ensures After([-5]).sequencer.previous == 0xFFFF_FFFB
    ensures !CountsUpTo([-5], After([-5]).sequencer.previous)
  {
    AfterOneMore([], -5);
    assert [-5] == [] + [-5] && [-5][..0] == [];
    assert Truncate(-5) == 0xFFFF_FFFB;
    assert [-5][0] == -5;
  }

  /** 1, 2, 3, ... in 32 bits. */
  function ClimbTo(n: nat): (history: seq<int64>)
    ensures |history| == n
  {
    seq(n, i requires 0 <= i < n => Truncate(i + 1))
  }

  lemma ClimbStep(n: nat)
    requires n > 0
    ensures Observe(Sequencer(Truncate(n - 1), false), Truncate(n))
         == Observed(Accepted, Sequencer(Truncate(n), false))
  {
    AwaitedIsStoredPlusOne(n - 1);
    assert Truncate(Truncate(n)) == Truncate(n);
  }

  lemma {:induction false} ClimbAccepted(n: nat)
    ensures After(ClimbTo(n)) == Run(Sequencer(Truncate(n), false), true)
    ensures AcceptedFrom(ClimbTo(n), 0)
  {
    if n > 0 {
      ClimbAccepted(n - 1);
      assert ClimbTo(n) == ClimbTo(n - 1) + [Truncate(n)];
      ClimbStep(n);
      AfterOneMore(ClimbTo(n - 1), Truncate(n));
      AcceptedFromOneMore(ClimbTo(n - 1), Truncate(n), 0);
    }
  }

  /** A channel that has climbed from 1 all the way round to zero accepts any number next, and only then becomes
      initialised: its accepted numbers do not count up. */
  lemma WrappedClimbJumps(seqNum: int64)
    requires seqNum != 0 && seqNum != 1
    ensures var history := ClimbTo(0x1_0000_0000) + [seqNum];
            && FirstNonZero(history) == 1
            && Survives(history) && AcceptedFrom(history, 0)
            && After(history).sequencer.initialized
            && !CountsUpTo(history, After(history).sequencer.previous)
  {
    var climb := ClimbTo(0x1_0000_0000);
    var history := climb + [seqNum];
    ClimbAccepted(0x1_0000_0000);
    AfterOneMore(climb, seqNum);
    AcceptedFromOneMore(climb, seqNum, 0);
    assert climb[0] == 1 && history[0] == 1;
    StepsCount(history, After(history).sequencer.previous);
    assert history[0xFFFF_FFFF] == 0 && history[0xFFFF_FFFE] == 0xFFFF_FFFF;
    assert !StepsAt(history, 0xFFFF_FFFE);
  }
}
