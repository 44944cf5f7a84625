/** The gap and duplicate detector of one channel, as a function of its two fields, and what its runs mean. */
module Sequencing {
  import opened ByteOrder

  datatype Sequencer = Sequencer(previous: uint32, initialized: bool)

  const INITIAL := Sequencer(0, false)

  /** AssertionFails: the packet would initialise a channel whose previous number is not zero. */
  datatype Verdict = Accepted | Repeat | Gap | AssertionFails

  datatype Observed = Observed(verdict: Verdict, next: Sequencer)

  function Truncate(n: int): (r: uint32)
    ensures 0 <= n < 0x1_0000_0000 ==> r == n
    ensures n == 0x1_0000_0000 || n == 0 ==> r == 0
  {
    n % 0x1_0000_0000
  }

  /** previous + 1 is computed in 32 bits, the comparison in 64, and the store truncates. */
  function Observe(q: Sequencer, seqNum: int64): Observed
  {
    if seqNum == Truncate(q.previous + 1) then Observed(Accepted, q.(previous := Truncate(seqNum)))
    else if seqNum == q.previous then Observed(Repeat, q)
    else if q.initialized then Observed(Gap, q.(previous := Truncate(seqNum)))
    else if q.previous == 0 then Observed(Accepted, Sequencer(Truncate(seqNum), true))
    else Observed(AssertionFails, q)
  }

  /** A run that has failed an assertion stays failed; the sequencer is then the one that failed. */
  datatype Run = Run(sequencer: Sequencer, alive: bool)

  function After(history: seq<int64>): Run
  {
    if history == [] then Run(INITIAL, true) else
    var before := After(history[..|history| - 1]);
    if !before.alive then before else
    var observed := Observe(before.sequencer, history[|history| - 1]);
    Run(observed.next, observed.verdict != AssertionFails)
  }

  predicate Survives(history: seq<int64>)
  {
    After(history).alive
  }

  function VerdictOn(history: seq<int64>, seqNum: int64): Verdict
  {
    Observe(After(history).sequencer, seqNum).verdict
  }

  lemma AfterOneMore(history: seq<int64>, seqNum: int64)
    ensures After(history + [seqNum])
         == if !Survives(history) then After(history)
            else Run(Observe(After(history).sequencer, seqNum).next, VerdictOn(history, seqNum) != AssertionFails)
  {
    assert (history + [seqNum])[..|history|] == history;
  }

  // ----- what a history means, without the state -----

  /** Numbers for which neither the 32-bit increment wraps nor the store truncates. */
  predicate InRange(seqNum: int64)
  {
    0 <= seqNum <= 0xFFFF_FFFE
  }

  predicate AllInRange(history: seq<int64>)
  {
    forall seqNum :: seqNum in history ==> InRange(seqNum)
  }

  function Last(history: seq<int64>): int64
  {
    if history == [] then 0 else history[|history| - 1]
  }

  predicate AllZero(history: seq<int64>)
  {
    forall i :: 0 <= i < |history| ==> history[i] == 0
  }

  /** Starting from zero, every number repeats the one before or is one more: zeros, then 1, 2, ..., k. */
  predicate Climb(history: seq<int64>)
  {
    forall i :: 0 <= i < |history| ==> Last(history[..i]) <= history[i] <= Last(history[..i]) + 1
  }

  /** Zero when there is none. */
  function FirstNonZero(history: seq<int64>): int64
  {
    if history == [] then 0 else if history[0] != 0 then history[0] else FirstNonZero(history[1..])
  }

  lemma ClimbOneMore(history: seq<int64>, seqNum: int64)
    ensures Climb(history + [seqNum]) <==> Climb(history) && Last(history) <= seqNum <= Last(history) + 1
  {
    var longer := history + [seqNum];
    assert forall i :: 0 <= i <= |history| ==> longer[..i] == history[..i];
    assert longer[..|history|] == history[..|history|] == history;
    if Climb(longer) {
      assert Last(longer[..|history|]) <= longer[|history|] <= Last(longer[..|history|]) + 1;
      forall i | 0 <= i < |history| ensures Last(history[..i]) <= history[i] <= Last(history[..i]) + 1 {
        assert Last(longer[..i]) <= longer[i] <= Last(longer[..i]) + 1;
      }
    }
  }

  lemma {:induction false} FirstNonZeroOneMore(history: seq<int64>, seqNum: int64)
    ensures FirstNonZero(history + [seqNum])
         == if FirstNonZero(history) != 0 then FirstNonZero(history) else seqNum
  {
    if history == [] {
      assert (history + [seqNum])[1..] == [];
    } else {
      assert (history + [seqNum])[1..] == history[1..] + [seqNum];
      FirstNonZeroOneMore(history[1..], seqNum);
    }
  }

  lemma {:induction false} NoNonZeroIffAllZero(history: seq<int64>)
    ensures FirstNonZero(history) == 0 <==> AllZero(history)
  {
    if history != [] {
      var tail := history[1..];
      NoNonZeroIffAllZero(tail);
      assert forall i :: 0 < i < |history| ==> history[i] == tail[i - 1];
    }
  }

  lemma {:induction false} ClimbFacts(history: seq<int64>)
    ensures Climb(history) ==> Last(history) >= 0
    ensures Climb(history) && Last(history) > 0 ==> FirstNonZero(history) == 1
    ensures Climb(history) && Last(history) == 0 <==> FirstNonZero(history) == 0
    decreases |history|
  {
    if history == [] {
    } else {
      var before, seqNum := history[..|history| - 1], history[|history| - 1];
      assert history == before + [seqNum];
      ClimbFacts(before);
      ClimbOneMore(before, seqNum);
      FirstNonZeroOneMore(before, seqNum);
    }
  }

  lemma LastInRange(history: seq<int64>)
    requires AllInRange(history)
    ensures InRange(Last(history))
  {
    if history != [] { assert Last(history) in history; }
  }

  /** The state after any surviving in-range run, read off the history alone. */
  lemma {:induction false} StateFollowsHistory(history: seq<int64>)
    requires AllInRange(history)
    ensures InRange(Last(history))
    ensures Survives(history) <==> Climb(history) || FirstNonZero(history) != 1
    ensures Survives(history) ==> After(history).sequencer == Sequencer(Last(history), !Climb(history))
    decreases |history|
  {
    LastInRange(history);
    if history != [] {
      var before, seqNum := history[..|history| - 1], history[|history| - 1];
      assert history == before + [seqNum];
      assert AllInRange(before);
      StateFollowsHistory(before);
      AfterOneMore(before, seqNum);
      ClimbOneMore(before, seqNum);
      FirstNonZeroOneMore(before, seqNum);
      ClimbFacts(before);
    }
  }

  /** The sequencer refines a predicate on histories: it accepts exactly the successor of the last number processed,
      or the first number of 2 or more after nothing but zeros; a repeat of the last number is a repeat; and the
      assertion fails exactly when numbers have climbed one by one from 1 and the next one jumps. */
  lemma VerdictFollowsHistory(history: seq<int64>, seqNum: int64)
    requires AllInRange(history) && InRange(seqNum) && Survives(history)
    ensures After(history).sequencer.previous == Last(history)
    ensures VerdictOn(history, seqNum) == Accepted
       <==> seqNum == Last(history) + 1 || (AllZero(history) && seqNum >= 2)
    ensures VerdictOn(history, seqNum) == Repeat <==> seqNum == Last(history)
    ensures VerdictOn(history, seqNum) == AssertionFails
       <==> Climb(history) && Last(history) > 0 && seqNum != Last(history) && seqNum != Last(history) + 1
  {
    StateFollowsHistory(history);
    NoNonZeroIffAllZero(history);
    ClimbFacts(history);
  }

  /** A concrete failure: packet 1, then packet 3. */
  lemma JumpAfterOneFails()
    ensures Survives([1]) && VerdictOn([1], 3) == AssertionFails && !Survives([1, 3])
  {
    AfterOneMore([], 1);
    AfterOneMore([1], 3);
    assert [] + [1] == [1] && [1] + [3] == [1, 3];
  }
}
