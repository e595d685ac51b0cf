/** The loading view (components/LoadingState.tsx): a message index that a
    timer advances, cycling through the loading messages. */
module Loading {
  import opened Constants

  /** The timer's update, `(prev + 1) % LOADING_MESSAGES.length`. */
  function NextIndex(i: nat): (r: nat)
    ensures r < |LoadingMessages|
    ensures i + 1 < |LoadingMessages| ==> r == i + 1
    ensures i + 1 == |LoadingMessages| ==> r == 0
  {
    (i + 1) % |LoadingMessages|
  }

  /** The index after `ticks` timer ticks from the initial 0. */
  function IndexAfter(ticks: nat): (r: nat)
    ensures r < |LoadingMessages|
  {
    if ticks == 0 then 0 else NextIndex(IndexAfter(ticks - 1))
  }

  /** After `n` ticks the index is `n` modulo the number of messages. */
  lemma {:induction false} IndexAfterIsModulo(n: nat)
    ensures IndexAfter(n) == n % |LoadingMessages|
  {
    if n > 0 {
      IndexAfterIsModulo(n - 1);
    }
  }

  /** As many ticks as there are messages bring the index back to where it was. */
  lemma {:induction false} CycleReturns(n: nat)
    ensures IndexAfter(n + |LoadingMessages|) == IndexAfter(n)
  {
    IndexAfterIsModulo(n);
    IndexAfterIsModulo(n + |LoadingMessages|);
  }

  lemma ResiduesDiffer(a: nat, b: nat)
    requires a < b < a + |LoadingMessages|
    ensures a % |LoadingMessages| != b % |LoadingMessages|
  {
  }

  /** Within any run of as many consecutive ticks as there are messages,
      every message is shown, and each once. */
  lemma {:induction false} EachMessageOncePerCycle(t: nat, j: nat)
    requires j < |LoadingMessages|
    ensures exists u :: t <= u < t + |LoadingMessages| && IndexAfter(u) == j
    ensures forall u1, u2 :: t <= u1 < u2 < t + |LoadingMessages| ==> IndexAfter(u1) != IndexAfter(u2)
  {
    var n := |LoadingMessages|;
    var u := t + (j - t % n + n) % n;
    IndexAfterIsModulo(u);
    assert u % n == j;
    forall u1, u2 | t <= u1 < u2 < t + |LoadingMessages| ensures IndexAfter(u1) != IndexAfter(u2) {
      IndexAfterIsModulo(u1);
      IndexAfterIsModulo(u2);
      ResiduesDiffer(u1, u2);
    }
  }

  class LoadingState {
    var messageIndex: nat

    ghost predicate Valid()
      reads this
    {
      messageIndex < |LoadingMessages|
    }

    constructor ()
      ensures Valid() && messageIndex == 0
    {
      messageIndex := 0;
    }

    /** One timer tick. */
    method Tick()
      modifies this
      ensures Valid()
      ensures messageIndex == NextIndex(old(messageIndex))
    {
      messageIndex := (messageIndex + 1) % |LoadingMessages|;
    }

    /** The message on screen: the lookup is in bounds whenever the index
        invariant holds, which every tick keeps. */
    function CurrentMessage(): (m: string)
      reads this
      requires Valid()
      ensures m in LoadingMessages
    {
      LoadingMessages[messageIndex]
    }
  }
}
