/**
 * The whole program of src/index.ts: `main` decides the arguments, forks one worker per
 * thread (worker i scans with startPort = i and stride threads), and the coordinator
 * handles the workers' messages in whatever order they arrive.  The arrival order is a
 * schedule: a sequence of worker indices, each naming the worker whose next message
 * arrives next.
 */
module Scanner {
  import opened Wrappers
  import opened Worker
  import opened Report
  import opened Coordinator
  import opened Arguments

  /** The messages of workers i .. n - 1 of n. */
  function WorkersFrom(i: int, n: int, open: set<int>): seq<seq<Message>>
    requires n >= 1 && 0 <= i <= n
    decreases n - i
  {
    if i == n then [] else [WorkerMessages(i, n, open)] + WorkersFrom(i + 1, n, open)
  }

  /** The messages of all n workers, worker i at index i. */
  function Workers(n: int, open: set<int>): seq<seq<Message>>
    requires n >= 1
  {
    WorkersFrom(0, n, open)
  }

  function Flatten(parts: seq<seq<Message>>): seq<Message> {
    if parts == [] then [] else parts[0] + Flatten(parts[1..])
  }

  /**
   * The arrival order under schedule sched: each entry naming a worker with messages left
   * delivers that worker's next message (other entries deliver nothing); when the schedule
   * ends, the remaining messages arrive worker by worker.  The arrival orders so obtained
   * are exactly the interleavings that keep each worker's own order (DeliverInterleaves,
   * InterleavingDelivered).
   */
  function Deliver(parts: seq<seq<Message>>, sched: seq<nat>): seq<Message>
    decreases |sched|
  {
    if sched == [] then Flatten(parts)
    else
      var w := sched[0];
      if w < |parts| && parts[w] != [] then
        [parts[w][0]] + Deliver(parts[w := parts[w][1..]], sched[1..])
      else Deliver(parts, sched[1..])
  }

  /** The ports the scan with n workers should report: the open ports from 1 below MAX - n, ascending. */
  function ExpectedPorts(n: int, open: set<int>): seq<int> {
    FilterOpen(Range(1, MAX - n), open)
  }

  /** lo, lo + 1, ..., hi - 1. */
  function Range(lo: int, hi: int): seq<int>
    decreases hi - lo
  {
    if lo < hi then [lo] + Range(lo + 1, hi) else []
  }

  // ---------------------------------------------------------------------------
  // Delivery keeps every message
  // ---------------------------------------------------------------------------

  lemma {:induction false} FlattenTake(parts: seq<seq<Message>>, w: nat)
    requires w < |parts| && parts[w] != []
    ensures multiset(Flatten(parts)) ==
      multiset{parts[w][0]} + multiset(Flatten(parts[w := parts[w][1..]]))
  {
    var tail := parts[w := parts[w][1..]];
    if w == 0 {
      assert tail[1..] == parts[1..];
      assert parts[0] == [parts[0][0]] + parts[0][1..];
    } else {
      assert tail[1..] == parts[1..][w - 1 := parts[w][1..]];
      FlattenTake(parts[1..], w - 1);
    }
  }

  /** The coordinator receives exactly the messages the workers send. */
  lemma {:induction false} DeliverPermutes(parts: seq<seq<Message>>, sched: seq<nat>)
    ensures multiset(Deliver(parts, sched)) == multiset(Flatten(parts))
    decreases |sched|
  {
    if sched != [] {
      var w := sched[0];
      if w < |parts| && parts[w] != [] {
        DeliverPermutes(parts[w := parts[w][1..]], sched[1..]);
        FlattenTake(parts, w);
      } else {
        DeliverPermutes(parts, sched[1..]);
      }
    }
  }

  /**
   * ms is an arrival order of the workers' messages that keeps each worker's own order:
   * every message is the next unsent one of some worker, and at the end all are sent.
   */
  predicate Interleaving(parts: seq<seq<Message>>, ms: seq<Message>)
    decreases |ms|
  {
    if ms == [] then forall w :: 0 <= w < |parts| ==> parts[w] == []
    else
      exists w ::
        && 0 <= w < |parts| && parts[w] != [] && parts[w][0] == ms[0]
        && Interleaving(parts[w := parts[w][1..]], ms[1..])
  }

  /** Every schedule delivers an interleaving. */
  lemma {:induction false} DeliverInterleaves(parts: seq<seq<Message>>, sched: seq<nat>)
    ensures Interleaving(parts, Deliver(parts, sched))
    decreases |sched|
  {
    if sched == [] {
      FlattenInterleaves(parts, 0);
    } else {
      var w := sched[0];
      if w < |parts| && parts[w] != [] {
        var rest := parts[w := parts[w][1..]];
        DeliverInterleaves(rest, sched[1..]);
        var ms := Deliver(parts, sched);
        assert ms[0] == parts[w][0] && ms[1..] == Deliver(rest, sched[1..]);
      } else {
        DeliverInterleaves(parts, sched[1..]);
      }
    }
  }

  /** Every interleaving is delivered by some schedule. */
  lemma {:induction false} InterleavingDelivered(parts: seq<seq<Message>>, ms: seq<Message>)
    requires Interleaving(parts, ms)
    ensures exists sched :: Deliver(parts, sched) == ms
    decreases |ms|
  {
    if ms == [] {
      FlattenAllEmpty(parts);
      assert Deliver(parts, []) == ms;
    } else {
      var w :| 0 <= w < |parts| && parts[w] != [] && parts[w][0] == ms[0] &&
        Interleaving(parts[w := parts[w][1..]], ms[1..]);
      var rest := parts[w := parts[w][1..]];
      InterleavingDelivered(rest, ms[1..]);
      var later :| Deliver(rest, later) == ms[1..];
      var sched := [w as nat] + later;
      assert sched[0] == w && sched[1..] == later;
      assert Deliver(parts, sched) == ms;
    }
  }

  /** The workers' messages one worker after another, from worker w on, are an interleaving. */
  lemma {:induction false} FlattenInterleaves(parts: seq<seq<Message>>, w: nat)
    requires w <= |parts| && forall k :: 0 <= k < w ==> parts[k] == []
    ensures Interleaving(parts, Flatten(parts))
    decreases |Flatten(parts)|, |parts| - w
  {
    if w == |parts| {
      FlattenAllEmpty(parts);
    } else if parts[w] == [] {
      FlattenInterleaves(parts, w + 1);
    } else {
      var rest := parts[w := parts[w][1..]];
      FlattenFront(parts, w);
      FlattenInterleaves(rest, 0);
      var ms := Flatten(parts);
      assert ms[0] == parts[w][0] && ms[1..] == Flatten(rest);
    }
  }

  lemma {:induction false} FlattenAllEmpty(parts: seq<seq<Message>>)
    requires forall k :: 0 <= k < |parts| ==> parts[k] == []
    ensures Flatten(parts) == []
  {
    if parts != [] {
      assert parts[0] == [];
      FlattenAllEmpty(parts[1..]);
    }
  }

  /** When workers before w have nothing left, the first message in worker order is w's next. */
  lemma {:induction false} FlattenFront(parts: seq<seq<Message>>, w: nat)
    requires w < |parts| && parts[w] != [] && forall k :: 0 <= k < w ==> parts[k] == []
    ensures Flatten(parts) == [parts[w][0]] + Flatten(parts[w := parts[w][1..]])
  {
    var rest := parts[w := parts[w][1..]];
    if w == 0 {
      assert rest[1..] == parts[1..];
      assert parts[0] == [parts[0][0]] + parts[0][1..];
    } else {
      assert parts[0] == [] && rest[0] == [];
      assert rest[1..] == parts[1..][w - 1 := parts[w][1..]];
      assert parts[1..][w - 1] == parts[w];
      FlattenFront(parts[1..], w - 1);
    }
  }

  predicate EndsWithDone(parts: seq<seq<Message>>) {
    forall i :: 0 <= i < |parts| ==> parts[i] == [] || parts[i][|parts[i]| - 1] == Done
  }

  lemma {:induction false} FlattenEndsWithDone(parts: seq<seq<Message>>)
    requires EndsWithDone(parts) && Flatten(parts) != []
    ensures Flatten(parts)[|Flatten(parts)| - 1] == Done
  {
    assert parts[0] == parts[0 + 0];
    var rest := Flatten(parts[1..]);
    if rest != [] {
      assert EndsWithDone(parts[1..]) by {
        forall i | 0 <= i < |parts[1..]|
          ensures parts[1..][i] == [] || parts[1..][i][|parts[1..][i]| - 1] == Done
        {
          assert parts[1..][i] == parts[i + 1];
        }
      }
      FlattenEndsWithDone(parts[1..]);
    }
  }

  lemma {:induction false} FlattenEmpty(parts: seq<seq<Message>>, w: nat)
    requires Flatten(parts) == [] && w < |parts|
    ensures parts[w] == []
  {
    if w > 0 {
      assert parts[1..][w - 1] == parts[w];
      FlattenEmpty(parts[1..], w - 1);
    }
  }

  /** When every worker's messages end with "done", so does every arrival order. */
  lemma {:induction false} DeliverEndsWithDone(parts: seq<seq<Message>>, sched: seq<nat>)
    requires EndsWithDone(parts) && Deliver(parts, sched) != []
    ensures var ms := Deliver(parts, sched); ms[|ms| - 1] == Done
    decreases |sched|
  {
    if sched == [] {
      FlattenEndsWithDone(parts);
    } else {
      var w := sched[0];
      if w < |parts| && parts[w] != [] {
        var next := parts[w := parts[w][1..]];
        assert EndsWithDone(next) by {
          forall i | 0 <= i < |next| ensures next[i] == [] || next[i][|next[i]| - 1] == Done {
            if i == w && next[i] != [] {
              assert next[i][|next[i]| - 1] == parts[w][|parts[w]| - 1];
            }
          }
        }
        var rest := Deliver(next, sched[1..]);
        if rest != [] {
          DeliverEndsWithDone(next, sched[1..]);
        } else {
          DeliverPermutes(next, sched[1..]);
          assert |Flatten(next)| == |multiset(Flatten(next))| == 0;
          FlattenEmpty(next, w);
          assert |parts[w]| == 1;
        }
      } else {
        DeliverEndsWithDone(parts, sched[1..]);
      }
    }
  }

  // ---------------------------------------------------------------------------
  // What the workers send, counted
  // ---------------------------------------------------------------------------

  lemma {:induction false} WorkersFromIndex(i: int, n: int, open: set<int>)
    requires n >= 1 && 0 <= i <= n
    ensures var ws := WorkersFrom(i, n, open);
      |ws| == n - i && forall k :: 0 <= k < n - i ==> ws[k] == WorkerMessages(i + k, n, open)
    decreases n - i
  {
    if i < n {
      WorkersFromIndex(i + 1, n, open);
      var ws := WorkersFrom(i, n, open);
      forall k | 1 <= k < n - i ensures ws[k] == WorkerMessages(i + k, n, open) {
        assert ws[k] == WorkersFrom(i + 1, n, open)[k - 1];
      }
    }
  }

  /** An ascending sequence holds each of its members once. */
  lemma {:induction false} AscendingOnce(s: seq<int>, x: int)
    requires StrictlyAscending(s)
    ensures multiset(s)[x] == if x in s then 1 else 0
  {
    if s != [] {
      assert s == [s[0]] + s[1..];
      assert StrictlyAscending(s[1..]) by {
        forall i, j | 0 <= i < j < |s[1..]| ensures s[1..][i] < s[1..][j] {
          assert s[1..][i] == s[i + 1] && s[1..][j] == s[j + 1];
        }
      }
      AscendingOnce(s[1..], x);
      if x == s[0] {
        assert x !in s[1..] by {
          forall k | 0 <= k < |s[1..]| ensures s[1..][k] != x {
            assert s[1..][k] == s[k + 1];
          }
        }
      }
    }
  }

  lemma {:induction false} ReportsCount(ps: seq<int>, open: set<int>, p: int)
    ensures multiset(Reports(ps, open))[Port(p)] == multiset(FilterOpen(ps, open))[p]
    ensures multiset(Reports(ps, open))[Done] == 0
  {
    if ps != [] {
      ReportsCount(ps[1..], open, p);
    }
  }

  /** Worker i's messages: one "done", and one port message per open port it probes. */
  lemma WorkerCounts(i: int, n: int, open: set<int>, p: int)
    requires n >= 1 && 0 <= i < n
    ensures var ms := multiset(WorkerMessages(i, n, open));
      && ms[Done] == 1
      && ms[Port(p)] == if p in open && 1 <= p < MAX - n && (p - 1) % n == i then 1 else 0
  {
    var ps := WorkerPorts(i, n);
    ReportsCount(ps, open, p);
    ProbedAscending(i + 1, n);
    FilterOpenAscending(ps, open);
    AscendingOnce(FilterOpen(ps, open), p);
    if 1 <= p < MAX - n {
      PortProbedOnce(n, p);
    } else {
      PortsNeverProbed(n, i, p);
    }
  }

  lemma WorkerDone(i: int, n: int, open: set<int>)
    requires n >= 1
    ensures multiset(WorkerMessages(i, n, open))[Done] == 1
  {
    ReportsCount(WorkerPorts(i, n), open, 0);
  }

  /** All n workers together send n "done" messages, and one message per open probed port. */
  lemma WorkersCounts(n: int, open: set<int>, p: int)
    requires n >= 1
    ensures var ms := multiset(Flatten(Workers(n, open)));
      ms[Done] == n && ms[Port(p)] == if p in open && 1 <= p < MAX - n then 1 else 0
  {
    forall j | 0 <= j < n
      ensures multiset(WorkerMessages(j, n, open))[Port(p)]
        == if p in open && 1 <= p < MAX - n && (p - 1) % n == j then 1 else 0
    {
      WorkerCounts(j, n, open, p);
    }
    WorkersFromCounts(0, n, open, p, (p - 1) % n);
  }

  /**
   * Workers i .. n - 1 send n - i "done" messages, and each open port in their share once;
   * w is the worker that probes p.
   */
  lemma {:induction false} WorkersFromCounts(i: int, n: int, open: set<int>, p: int, w: int)
    requires n >= 1 && 0 <= i <= n && 0 <= w < n
    requires forall j :: i <= j < n ==>
      multiset(WorkerMessages(j, n, open))[Port(p)] == if p in open && 1 <= p < MAX - n && w == j then 1 else 0
    ensures var ms := multiset(Flatten(WorkersFrom(i, n, open)));
      && ms[Done] == n - i
      && ms[Port(p)] == if p in open && 1 <= p < MAX - n && w >= i then 1 else 0
    decreases n - i
  {
    if i < n {
      FlattenStep(i, n, open);
      WorkerDone(i, n, open);
      WorkersFromCounts(i + 1, n, open, p, w);
      CountsCombine(multiset(WorkerMessages(i, n, open)), multiset(Flatten(WorkersFrom(i + 1, n, open))),
        p, p in open && 1 <= p < MAX - n, w, i);
    } else {
      NoWorkersLeft(n, open, p);
    }
  }

  lemma NoWorkersLeft(n: int, open: set<int>, p: int)
    requires n >= 1
    ensures var ms := multiset(Flatten(WorkersFrom(n, n, open)));
      ms[Done] == 0 && ms[Port(p)] == 0
  {
    assert WorkersFrom(n, n, open) == [];
  }

  /** The counts of worker i added to those of workers i + 1 .. n - 1. */
  lemma CountsCombine(a: multiset<Message>, b: multiset<Message>, p: int, own: bool, r: int, i: int)
    requires a[Done] == 1 && a[Port(p)] == if own && r == i then 1 else 0
    requires b[Port(p)] == if own && r >= i + 1 then 1 else 0
    ensures (a + b)[Done] == b[Done] + 1
    ensures (a + b)[Port(p)] == if own && r >= i then 1 else 0
  {
  }

  lemma FlattenStep(i: int, n: int, open: set<int>)
    requires n >= 1 && 0 <= i < n
    ensures multiset(Flatten(WorkersFrom(i, n, open)))
      == multiset(WorkerMessages(i, n, open)) + multiset(Flatten(WorkersFrom(i + 1, n, open)))
  {
    var ws := WorkersFrom(i, n, open);
    assert ws[0] == WorkerMessages(i, n, open) && ws[1..] == WorkersFrom(i + 1, n, open);
  }

  lemma {:induction false} DoneCountIsMultiplicity(ms: seq<Message>)
    ensures DoneCount(ms) == multiset(ms)[Done]
  {
    if ms != [] {
      assert ms == [ms[0]] + ms[1..];
      DoneCountIsMultiplicity(ms[1..]);
    }
  }

  lemma {:induction false} PortsOfMultiplicity(ms: seq<Message>, p: int)
    ensures multiset(PortsOf(ms))[p] == multiset(ms)[Port(p)]
  {
    if ms != [] {
      assert ms == [ms[0]] + ms[1..];
      PortsOfMultiplicity(ms[1..], p);
    }
  }

  lemma {:induction false} RangeMembers(lo: int, hi: int)
    ensures StrictlyAscending(Range(lo, hi))
    ensures forall x :: x in Range(lo, hi) <==> lo <= x < hi
    decreases hi - lo
  {
    if lo < hi {
      RangeMembers(lo + 1, hi);
      var r := Range(lo, hi);
      assert r == [lo] + Range(lo + 1, hi);
      forall i, j | 0 <= i < j < |r| ensures r[i] < r[j] {
        assert r[j] == Range(lo + 1, hi)[j - 1] && r[j] in Range(lo + 1, hi);
        if i > 0 {
          assert r[i] == Range(lo + 1, hi)[i - 1];
        }
      }
    }
  }

  /** The expected report is ascending and lists each open port from 1 below MAX - n once. */
  lemma ExpectedPortsCount(n: int, open: set<int>, p: int)
    ensures StrictlyAscending(ExpectedPorts(n, open))
    ensures multiset(ExpectedPorts(n, open))[p] == if p in open && 1 <= p < MAX - n then 1 else 0
  {
    RangeMembers(1, MAX - n);
    FilterOpenAscending(Range(1, MAX - n), open);
    AscendingOnce(ExpectedPorts(n, open), p);
  }

  // ---------------------------------------------------------------------------
  // The scan as a whole
  // ---------------------------------------------------------------------------

  /**
   * Whatever the arrival order, the coordinator of n >= 1 workers prints its report on the
   * last message, and the report lists exactly the open ports from 1 below MAX - n, ascending.
   */
  lemma DeliveredReport(n: int, open: set<int>, sched: seq<nat>)
    requires n >= 1
    ensures var ms := Deliver(Workers(n, open), sched);
      Finalization(ms, n) == Some(|ms|) && SortedPorts(PortsOf(ms)) == ExpectedPorts(n, open)
  {
    FinalizesOnLastMessage(n, open, sched);
    ReportsExpectedPorts(n, open, sched);
  }

  /** The threads-th "done" is the last message to arrive. */
  lemma FinalizesOnLastMessage(n: int, open: set<int>, sched: seq<nat>)
    requires n >= 1
    ensures var ms := Deliver(Workers(n, open), sched); Finalization(ms, n) == Some(|ms|)
  {
    DeliveredShape(n, open, sched);
    FinalizesAtEnd(Deliver(Workers(n, open), sched), n);
  }

  /** The coordinator receives n "done" messages, the last message being one of them. */
  lemma DeliveredShape(n: int, open: set<int>, sched: seq<nat>)
    requires n >= 1
    ensures var ms := Deliver(Workers(n, open), sched);
      DoneCount(ms) == n && ms != [] && ms[|ms| - 1] == Done
  {
    DeliveredDoneCount(n, open, sched);
    WorkersEndWithDone(n, open);
    DeliverEndsWithDone(Workers(n, open), sched);
  }

  lemma DeliveredDoneCount(n: int, open: set<int>, sched: seq<nat>)
    requires n >= 1
    ensures DoneCount(Deliver(Workers(n, open), sched)) == n
  {
    var ms := Deliver(Workers(n, open), sched);
    DeliverPermutes(Workers(n, open), sched);
    WorkersCounts(n, open, 0);
    DoneCountIsMultiplicity(ms);
  }

  lemma WorkersEndWithDone(n: int, open: set<int>)
    requires n >= 1
    ensures EndsWithDone(Workers(n, open))
  {
    var parts := Workers(n, open);
    WorkersFromIndex(0, n, open);
    forall i | 0 <= i < |parts| ensures parts[i] == [] || parts[i][|parts[i]| - 1] == Done {
      assert parts[i] == WorkerMessages(0 + i, n, open);
    }
  }

  /** Sorted, the received ports are the expected ones. */
  lemma ReportsExpectedPorts(n: int, open: set<int>, sched: seq<nat>)
    requires n >= 1
    ensures SortedPorts(PortsOf(Deliver(Workers(n, open), sched))) == ExpectedPorts(n, open)
  {
    var parts := Workers(n, open);
    var ms := Deliver(parts, sched);
    DeliverPermutes(parts, sched);
    forall p ensures multiset(PortsOf(ms))[p] == multiset(ExpectedPorts(n, open))[p] {
      PortsOfMultiplicity(ms, p);
      WorkersCounts(n, open, p);
      ExpectedPortsCount(n, open, p);
    }
    assert multiset(PortsOf(ms)) == multiset(ExpectedPorts(n, open));
    ExpectedPortsCount(n, open, 0);
    SortedIsSortedPorts(PortsOf(ms), ExpectedPorts(n, open));
  }

  /** What main writes to stderr before the error message. */
  const ParseProblem := "Problem parsing arguments "

  /**
   * main(): the arguments are decided; on an error the help request exits quietly and any
   * other error (including the engine's TypeError, whose text typeErrorMessage is the
   * engine's) is reported on stderr; otherwise threads workers are forked, each runs scan,
   * and their messages reach the coordinator in the order sched gives.
   */
  method Sniff(args: seq<string>, open: set<int>, sched: seq<nat>, typeErrorMessage: string)
    returns (report: string, stderr: string)
    ensures match GetArguments(args)
      case Failure(Thrown(message)) =>
        report == "" && stderr == (if message == HelpRequested then "" else ParseProblem + message)
      case Failure(ReadOfUndefined) =>
        report == "" && stderr == ParseProblem + typeErrorMessage
      case Success(config) =>
        stderr == "" &&
        report == if config.threads >= 1 then ReportText(ExpectedPorts(config.threads, open)) else ""
  {
    report, stderr := "", "";
    match GetArguments(args)
    case Failure(Thrown(message)) =>
      if message != HelpRequested {
        stderr := ParseProblem + message;
      }
    case Failure(ReadOfUndefined) =>
      stderr := ParseProblem + typeErrorMessage;
    case Success(config) =>
      var threads := config.threads;
      if threads >= 1 {
        var parts := ForkWorkers(threads, open);
        var ms := Deliver(parts, sched);
        var handled;
        report, handled := Run(threads, ms);
        DeliveredReport(threads, open, sched);
        assert ms[..|ms|] == ms;
      }
  }

  /** `for (let i = 0; i < threads; i++) fork(...)`: worker i scans with startPort = i. */
  method ForkWorkers(threads: int, open: set<int>) returns (parts: seq<seq<Message>>)
    requires threads >= 1
    ensures parts == Workers(threads, open)
  {
    parts := [];
    for i := 0 to threads
      invariant |parts| == i
      invariant forall k :: 0 <= k < i ==> parts[k] == WorkerMessages(k, threads, open)
    {
      var sent := Scan(i, threads, open);
      parts := parts + [sent];
    }
    WorkersFromIndex(0, threads, open);
  }
}
