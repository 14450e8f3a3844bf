/**
 * The coordinator of src/index.ts: the message handler `main` installs on every worker.
 * It counts "done" messages in `finished`, collects ports in `result`, and after every
 * message prints the report and exits once `finished === threads`.
 */
module Coordinator {
  import opened Wrappers
  import opened Worker
  import opened Report

  /** The coordinator's state; `output` is what printReport wrote, `exited` the process.exit. */
  class Coordinator {
    const threads: int
    var finished: int
    var result: seq<int>
    var output: string
    var exited: bool

    constructor (threads: int)
      ensures this.threads == threads && finished == 0 && result == []
      ensures output == "" && !exited
    {
      this.threads := threads;
      finished := 0;
      result := [];
      output := "";
      exited := false;
    }

    /**
     * The handler for one message.  After process.exit no further message is handled,
     * hence the precondition.  Finalizing sorts `result` in place and writes the report.
     */
    method Receive(m: Message)
      requires !exited
      modifies this
      ensures finished == old(finished) + (if m.Done? then 1 else 0)
      ensures var received := old(result) + (if m.Port? then [m.port] else []);
        if finished == threads then
          exited && result == SortedPorts(received) && output == old(output) + ReportText(result)
        else
          !exited && result == received && output == old(output)
    {
      if m.Done? {
        finished := finished + 1;
      } else {
        result := result + [m.port];
      }
      ghost var received := result;
      assert received == old(result) + (if m.Port? then [m.port] else []);
      if finished == threads {
        Finalize();
        assert result == SortedPorts(received);
      }
    }

    /**
   * printReport(result), then process.exit.  The handler's `result` array is modelled as a
   * sequence; the array built from it here stands for that array, which printReport sorts
   * in place, and `result` afterwards holds the sorted contents.
   */
    method Finalize()
      modifies this
      ensures finished == old(finished) && exited
      ensures result == SortedPorts(old(result)) && output == old(output) + ReportText(result)
    {
      var received := result;
      var a := new int[|received|](i requires 0 <= i < |received| => received[i]);
      assert a[..] == received;
      var text := PrintReport(a);
      result := a[..];
      output := output + text;
      exited := true;
    }
  }

  // ---------------------------------------------------------------------------
  // When the coordinator finalizes
  // ---------------------------------------------------------------------------

  /**
   * The number of messages handled when the report is printed: the first k >= 1 such that
   * the first k messages hold `threads` "done" messages; None if that never happens.
   * FinalizationIs and FinalizationNever characterise it.
   */
  function Finalization(ms: seq<Message>, threads: int): (r: Option<nat>)
    ensures r.Some? ==> 1 <= r.value <= |ms|
  {
    FinalizationFrom(ms, threads, 1)
  }

  function FinalizationFrom(ms: seq<Message>, threads: int, k: nat): (r: Option<nat>)
    requires k >= 1
    ensures r.Some? ==> k <= r.value <= |ms|
    decreases |ms| + 1 - k
  {
    if k > |ms| then None
    else if DoneCount(ms[..k]) == threads then Some(k)
    else FinalizationFrom(ms, threads, k + 1)
  }

  /** A Some(k) finalization is reached on the k-th message and not before. */
  lemma FinalizationFound(ms: seq<Message>, threads: int)
    requires Finalization(ms, threads).Some?
    ensures DoneCount(ms[..Finalization(ms, threads).value]) == threads
    ensures forall j :: 1 <= j < Finalization(ms, threads).value ==> DoneCount(ms[..j]) != threads
  {
    FromFound(ms, threads, 1);
  }

  /** With no finalization, no prefix ever holds `threads` "done" messages. */
  lemma FinalizationNone(ms: seq<Message>, threads: int)
    requires Finalization(ms, threads).None?
    ensures forall j :: 1 <= j <= |ms| ==> DoneCount(ms[..j]) != threads
  {
    FromNone(ms, threads, 1);
  }

  /** Conversely, the first prefix reaching `threads` is the finalization. */
  lemma FinalizationIs(ms: seq<Message>, threads: int, k: nat)
    requires 1 <= k <= |ms| && DoneCount(ms[..k]) == threads
    requires forall j :: 1 <= j < k ==> DoneCount(ms[..j]) != threads
    ensures Finalization(ms, threads) == Some(k)
  {
    FromIs(ms, threads, 1, k);
  }

  /** And if no prefix reaches `threads`, there is no finalization. */
  lemma FinalizationNever(ms: seq<Message>, threads: int)
    requires forall j :: 1 <= j <= |ms| ==> DoneCount(ms[..j]) != threads
    ensures Finalization(ms, threads) == None
  {
    FromNever(ms, threads, 1);
  }

  lemma {:induction false} FromFound(ms: seq<Message>, threads: int, k: nat)
    requires k >= 1 && FinalizationFrom(ms, threads, k).Some?
    ensures DoneCount(ms[..FinalizationFrom(ms, threads, k).value]) == threads
    ensures forall j :: k <= j < FinalizationFrom(ms, threads, k).value ==> DoneCount(ms[..j]) != threads
    decreases |ms| + 1 - k
  {
    if DoneCount(ms[..k]) != threads {
      FromFound(ms, threads, k + 1);
    }
  }

  lemma {:induction false} FromNone(ms: seq<Message>, threads: int, k: nat)
    requires k >= 1 && FinalizationFrom(ms, threads, k).None?
    ensures forall j :: k <= j <= |ms| ==> DoneCount(ms[..j]) != threads
    decreases |ms| + 1 - k
  {
    if k <= |ms| {
      FromNone(ms, threads, k + 1);
    }
  }

  lemma {:induction false} FromIs(ms: seq<Message>, threads: int, k0: nat, k: nat)
    requires 1 <= k0 <= k <= |ms| && DoneCount(ms[..k]) == threads
    requires forall j :: k0 <= j < k ==> DoneCount(ms[..j]) != threads
    ensures FinalizationFrom(ms, threads, k0) == Some(k)
    decreases k - k0
  {
    if k0 < k {
      assert DoneCount(ms[..k0]) != threads;
      FromIs(ms, threads, k0 + 1, k);
    }
  }

  lemma {:induction false} FromNever(ms: seq<Message>, threads: int, k: nat)
    requires k >= 1
    requires forall j :: k <= j <= |ms| ==> DoneCount(ms[..j]) != threads
    ensures FinalizationFrom(ms, threads, k) == None
    decreases |ms| + 1 - k
  {
    if k <= |ms| {
      assert DoneCount(ms[..k]) != threads;
      FromNever(ms, threads, k + 1);
    }
  }

  lemma DoneCountStep(ms: seq<Message>, j: nat)
    requires j < |ms|
    ensures DoneCount(ms[..j + 1]) == DoneCount(ms[..j]) + (if ms[j].Done? then 1 else 0)
  {
    assert ms[..j + 1] == ms[..j] + [ms[j]];
    DoneCountAppend(ms[..j], [ms[j]]);
  }

  /** The count of "done" messages passes through every value up to its total. */
  lemma {:induction false} DoneCountReaches(ms: seq<Message>, t: int, j: nat)
    requires j <= |ms| && DoneCount(ms[..j]) <= t <= DoneCount(ms)
    ensures exists i :: j <= i <= |ms| && DoneCount(ms[..i]) == t
    decreases |ms| - j
  {
    assert ms[..|ms|] == ms;
    if DoneCount(ms[..j]) != t && j < |ms| {
      DoneCountStep(ms, j);
      DoneCountReaches(ms, t, j + 1);
    }
  }

  /**
   * With threads >= 1 the report is printed exactly when at least `threads` "done" messages
   * arrive, and it is printed on the arrival of the threads-th one.
   */
  lemma FinalizesOnLastDone(ms: seq<Message>, threads: int)
    requires threads >= 1
    ensures Finalization(ms, threads).Some? <==> DoneCount(ms) >= threads
    ensures Finalization(ms, threads).Some? ==> ms[Finalization(ms, threads).value - 1] == Done
  {
    match Finalization(ms, threads)
    case Some(k) =>
      FinalizationFound(ms, threads);
      FinalizedOnDone(ms, threads, k);
    case None =>
      if DoneCount(ms) >= threads {
        FinalizationNone(ms, threads);
        assert ms[..0] == [];
        DoneCountReaches(ms, threads, 0);
      }
  }

  /** The k-th message that first brings the count to threads >= 1 is a "done". */
  lemma FinalizedOnDone(ms: seq<Message>, threads: int, k: nat)
    requires threads >= 1 && 1 <= k <= |ms| && DoneCount(ms[..k]) == threads
    requires forall j :: 1 <= j < k ==> DoneCount(ms[..j]) != threads
    ensures DoneCount(ms) >= threads && ms[k - 1] == Done
  {
    DoneCountStep(ms, k - 1);
    if k - 1 >= 1 {
      assert DoneCount(ms[..k - 1]) != threads;
    } else {
      assert ms[..0] == [];
    }
    DoneCountPrefix(ms, k);
  }

  /** When the last of the messages is the threads-th "done", the report comes at the end. */
  lemma FinalizesAtEnd(ms: seq<Message>, threads: int)
    requires threads >= 1 && DoneCount(ms) == threads && ms != [] && ms[|ms| - 1] == Done
    ensures Finalization(ms, threads) == Some(|ms|)
  {
    forall j | 1 <= j < |ms|
      ensures DoneCount(ms[..j]) != threads
    {
      EarlierPrefixShort(ms, j);
    }
    assert ms[..|ms|] == ms;
    FinalizationIs(ms, threads, |ms|);
  }

  /** Before a final "done", every prefix holds fewer "done" messages than the whole. */
  lemma EarlierPrefixShort(ms: seq<Message>, k: nat)
    requires k < |ms| && ms[|ms| - 1] == Done
    ensures DoneCount(ms[..k]) < DoneCount(ms)
  {
    var front := ms[..|ms| - 1];
    DoneCountStep(ms, |ms| - 1);
    assert ms[..|ms|] == ms;
    assert front[..k] == ms[..k];
    DoneCountPrefix(front, k);
  }

  /** A prefix holds no more "done" messages than the whole. */
  lemma DoneCountPrefix(ms: seq<Message>, k: nat)
    requires k <= |ms|
    ensures DoneCount(ms[..k]) <= DoneCount(ms)
  {
    assert ms == ms[..k] + ms[k..];
    DoneCountAppend(ms[..k], ms[k..]);
  }

  lemma PortsOfStep(ms: seq<Message>, j: nat)
    requires j < |ms|
    ensures PortsOf(ms[..j + 1]) == PortsOf(ms[..j]) + (if ms[j].Port? then [ms[j].port] else [])
  {
    assert ms[..j + 1] == ms[..j] + [ms[j]];
    PortsOfAppend(ms[..j], [ms[j]]);
  }

  /**
   * The coordinator fed the messages ms in order, until it exits: the number of messages it
   * handles and the report it prints.
   */
  method Run(threads: int, ms: seq<Message>) returns (output: string, handled: nat)
    ensures match Finalization(ms, threads)
      case Some(k) => handled == k && output == ReportText(SortedPorts(PortsOf(ms[..k])))
      case None => handled == |ms| && output == ""
  {
    var c := new Coordinator(threads);
    handled := 0;
    while handled < |ms| && !c.exited
      invariant 0 <= handled <= |ms|
      invariant c.threads == threads
      invariant c.finished == DoneCount(ms[..handled])
      invariant c.exited ==> handled >= 1 && DoneCount(ms[..handled]) == threads
      invariant forall j :: 1 <= j < handled ==> DoneCount(ms[..j]) != threads
      invariant !c.exited ==> c.result == PortsOf(ms[..handled]) && c.output == ""
      invariant !c.exited ==> handled >= 1 ==> DoneCount(ms[..handled]) != threads
      invariant c.exited ==> c.output == ReportText(SortedPorts(PortsOf(ms[..handled])))
      decreases |ms| - handled
    {
      DoneCountStep(ms, handled);
      PortsOfStep(ms, handled);
      c.Receive(ms[handled]);
      handled := handled + 1;
    }
    output := c.output;
    if c.exited {
      FinalizationIs(ms, threads, handled);
    } else {
      assert ms[..0] == [];
      FinalizationNever(ms, threads);
    }
  }
}
