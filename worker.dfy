/**
 * The worker side of src/index.ts: `scan` probes the ports of one residue class and sends
 * the coordinator each open port, then "done".  Probing a port (a TCP connection attempt
 * with a timeout) is replaced by a set of open ports: the prober's verdict on each port.
 */
module Worker {
  /** The highest port number (`MAX`). */
  const MAX := 65535

  /** What a worker sends: an open port, or "done". */
  datatype Message = Port(port: int) | Done

  /** The ports the loop visits from `port` with stride n: port, port + n, ... while n < MAX - port. */
  function Probed(port: int, n: int): seq<int>
    requires n >= 1
    decreases MAX - port
  {
    if n < MAX - port then [port] + Probed(port + n, n) else []
  }

  /** The messages sent for the probed ports ps, in order: one per open port. */
  function Reports(ps: seq<int>, open: set<int>): seq<Message> {
    if ps == [] then []
    else (if ps[0] in open then [Port(ps[0])] else []) + Reports(ps[1..], open)
  }

  /** The ports worker `startPort` of stride n probes: from startPort + 1 on. */
  function WorkerPorts(startPort: int, n: int): seq<int>
    requires n >= 1
  {
    Probed(startPort + 1, n)
  }

  /** Everything worker `startPort` of n sends. */
  function WorkerMessages(startPort: int, n: int, open: set<int>): seq<Message>
    requires n >= 1
  {
    Reports(WorkerPorts(startPort, n), open) + [Done]
  }

  predicate StrictlyAscending(s: seq<int>) {
    forall i, j :: 0 <= i < j < |s| ==> s[i] < s[j]
  }

  /** The ports carried by the port messages of ms, in order. */
  function PortsOf(ms: seq<Message>): seq<int> {
    if ms == [] then []
    else (if ms[0].Port? then [ms[0].port] else []) + PortsOf(ms[1..])
  }

  /** The number of "done" messages in ms. */
  function DoneCount(ms: seq<Message>): (c: nat)
    ensures c <= |ms|
  {
    if ms == [] then 0 else (if ms[0].Done? then 1 else 0) + DoneCount(ms[1..])
  }

  /**
   * scan(startPort, host, numThreads), with `isOpen(port, host)` answered by the set open.
   * The returned sequence is what the worker sends, in order.
   */
  method Scan(startPort: int, numThreads: int, open: set<int>) returns (sent: seq<Message>)
    requires numThreads >= 1
    ensures sent == WorkerMessages(startPort, numThreads, open)
  {
    var port := startPort + 1;
    sent := [];
    while numThreads < MAX - port
      invariant sent + Reports(Probed(port, numThreads), open) ==
                Reports(Probed(startPort + 1, numThreads), open)
      decreases MAX - port
    {
      ReportsStep(port, numThreads, open);
      if port in open {
        ghost var later := Reports(Probed(port + numThreads, numThreads), open);
        assert sent + ([Port(port)] + later) == (sent + [Port(port)]) + later;
        sent := sent + [Port(port)];
      }
      port := port + numThreads;
    }
    assert sent + [] == sent;
    sent := sent + [Done];
  }

  /** One step of the loop: the report for `port`, then those for the ports after it. */
  lemma ReportsStep(port: int, n: int, open: set<int>)
    requires n >= 1 && n < MAX - port
    ensures Reports(Probed(port, n), open)
      == (if port in open then [Port(port)] else []) + Reports(Probed(port + n, n), open)
  {
    var rest := Probed(port + n, n);
    assert Probed(port, n) == [port] + rest;
    assert ([port] + rest)[1..] == rest;
  }

  // ---------------------------------------------------------------------------
  // The probed ports
  // ---------------------------------------------------------------------------

  /**
   * The k-th probed port is port + k * n; every probed port is below MAX - n, and the
   * next one in the progression is not.
   */
  lemma {:induction false} ProbedProgression(port: int, n: int)
    requires n >= 1
    ensures var ps := Probed(port, n);
      && (forall k :: 0 <= k < |ps| ==> ps[k] == port + k * n && ps[k] < MAX - n)
      && port + |ps| * n >= MAX - n
    decreases MAX - port
  {
    if n < MAX - port {
      var rest := Probed(port + n, n);
      ProbedProgression(port + n, n);
      assert Probed(port, n) == [port] + rest;
      forall k | 1 <= k < |rest| + 1
        ensures ([port] + rest)[k] == port + k * n
      {
        assert ([port] + rest)[k] == rest[k - 1] == port + n + (k - 1) * n;
        OneMoreStride(k - 1, n);
      }
      OneMoreStride(|rest|, n);
    }
  }

  lemma OneMoreStride(k: int, n: int)
    ensures n + k * n == (k + 1) * n
  {
  }

  /** The probed ports rise strictly. */
  lemma ProbedAscending(port: int, n: int)
    requires n >= 1
    ensures StrictlyAscending(Probed(port, n))
  {
    ProbedProgression(port, n);
    var ps := Probed(port, n);
    forall i, j | 0 <= i < j < |ps| ensures ps[i] < ps[j] {
      assert ps[j] - ps[i] == (j - i) * n;
      assert (j - i) * n >= n by {
        MulMonotone(j - i, n);
      }
    }
  }

  lemma MulMonotone(d: int, n: int)
    requires d >= 1 && n >= 1
    ensures d * n >= n
  {
  }

  /** A port is probed from `port` with stride n exactly when it is port + k * n below MAX - n. */
  lemma ProbedMembers(port: int, n: int, p: int)
    requires n >= 1
    ensures p in Probed(port, n) <==> port <= p < MAX - n && (p - port) % n == 0
  {
    var ps := Probed(port, n);
    ProbedProgression(port, n);
    if p in ps {
      var k :| 0 <= k < |ps| && ps[k] == p;
      assert p - port == k * n;
      DivModUnique(p - port, k, 0, n);
    }
    if port <= p < MAX - n && (p - port) % n == 0 {
      var k := (p - port) / n;
      assert p == port + k * n;
      assert k >= 0;
      if k >= |ps| {
        MulMonotoneRight(|ps|, k, n);
        assert false;
      }
      assert ps[k] == p;
    }
  }

  /** Euclidean division is determined by x == q * n + r with 0 <= r < n. */
  lemma DivModUnique(x: int, q: int, r: int, n: int)
    requires n >= 1 && 0 <= r < n && x == q * n + r
    ensures x / n == q && x % n == r
  {
    var d := q - x / n;
    assert d * n == q * n - (x / n) * n;
    assert d * n == x % n - r;
    if d >= 1 {
      MulMonotone(d, n);
    } else if d <= -1 {
      MulMonotone(-d, n);
    }
  }

  lemma MulMonotoneRight(a: int, b: int, n: int)
    requires 0 <= a <= b && n >= 1
    ensures a * n <= b * n
  {
  }

  // ---------------------------------------------------------------------------
  // What a worker sends
  // ---------------------------------------------------------------------------

  /** The reports are exactly the open probed ports, in probing order. */
  lemma {:induction false} ReportsContents(ps: seq<int>, open: set<int>)
    ensures var ms := Reports(ps, open);
      && (forall k :: 0 <= k < |ms| ==> ms[k].Port? && ms[k].port in open && ms[k].port in ps)
      && (forall p :: p in ps && p in open ==> Port(p) in ms)
      && DoneCount(ms) == 0
      && PortsOf(ms) == FilterOpen(ps, open)
  {
    if ps != [] {
      ReportsContents(ps[1..], open);
      var head := if ps[0] in open then [Port(ps[0])] else [];
      var ms := head + Reports(ps[1..], open);
      forall p | p in ps && p in open ensures Port(p) in ms {
        if p != ps[0] {
          assert p in ps[1..];
        }
      }
      DoneCountAppend(head, Reports(ps[1..], open));
      PortsOfAppend(head, Reports(ps[1..], open));
      assert PortsOf(head) == (if ps[0] in open then [ps[0]] else []);
      forall k | 0 <= k < |ms| ensures ms[k].port in ps {
        if k >= |head| {
          assert ms[k] == Reports(ps[1..], open)[k - |head|];
        }
      }
    }
  }

  /** The open ports of ps, in order. */
  function FilterOpen(ps: seq<int>, open: set<int>): seq<int> {
    if ps == [] then []
    else (if ps[0] in open then [ps[0]] else []) + FilterOpen(ps[1..], open)
  }

  lemma {:induction false} DoneCountAppend(a: seq<Message>, b: seq<Message>)
    ensures DoneCount(a + b) == DoneCount(a) + DoneCount(b)
  {
    if a == [] {
      assert a + b == b;
    } else {
      assert (a + b)[1..] == a[1..] + b;
      DoneCountAppend(a[1..], b);
    }
  }

  lemma {:induction false} PortsOfAppend(a: seq<Message>, b: seq<Message>)
    ensures PortsOf(a + b) == PortsOf(a) + PortsOf(b)
  {
    if a == [] {
      assert a + b == b;
    } else {
      var h := if a[0].Port? then [a[0].port] else [];
      assert (a + b)[0] == a[0] && (a + b)[1..] == a[1..] + b;
      assert PortsOf(a + b) == h + PortsOf(a[1..] + b);
      PortsOfAppend(a[1..], b);
      assert h + (PortsOf(a[1..]) + PortsOf(b)) == (h + PortsOf(a[1..])) + PortsOf(b);
    }
  }

  /** The open ports of an ascending sequence are ascending, and are its members in open. */
  lemma {:induction false} FilterOpenAscending(ps: seq<int>, open: set<int>)
    requires StrictlyAscending(ps)
    ensures StrictlyAscending(FilterOpen(ps, open))
    ensures forall x :: x in FilterOpen(ps, open) <==> x in ps && x in open
  {
    if ps != [] {
      FilterOpenAscending(ps[1..], open);
      var tail := FilterOpen(ps[1..], open);
      forall x | x in tail ensures ps[0] < x {
        assert x in ps[1..];
        var j :| 0 <= j < |ps| - 1 && ps[1..][j] == x;
        assert ps[j + 1] == x;
      }
      var fs := FilterOpen(ps, open);
      if ps[0] in open {
        assert fs == [ps[0]] + tail;
        forall i, j | 0 <= i < j < |fs| ensures fs[i] < fs[j] {
          assert fs[j] == tail[j - 1] && tail[j - 1] in tail;
          if i > 0 {
            assert fs[i] == tail[i - 1];
          }
        }
      } else {
        assert fs == tail;
      }
      forall x ensures x in fs <==> x in ps && x in open {
        assert x in ps <==> x == ps[0] || x in ps[1..];
      }
    }
  }

  /**
   * Worker startPort of n sends a port message for each open port it probes, in strictly
   * ascending order, and nothing else, then exactly one "done", as its last message.
   */
  lemma WorkerSends(startPort: int, n: int, open: set<int>)
    requires n >= 1
    ensures var ms := WorkerMessages(startPort, n, open);
      var ps := PortsOf(ms);
      && |ms| >= 1 && ms[|ms| - 1] == Done && DoneCount(ms) == 1
      && (forall k :: 0 <= k < |ms| - 1 ==> ms[k].Port?)
      && (forall p :: p in ps <==> p in WorkerPorts(startPort, n) && p in open)
      && StrictlyAscending(ps)
  {
    var probed := WorkerPorts(startPort, n);
    var reports := Reports(probed, open);
    ReportsContents(probed, open);
    ProbedAscending(startPort + 1, n);
    FilterOpenAscending(probed, open);
    DoneCountAppend(reports, [Done]);
    PortsOfAppend(reports, [Done]);
    assert PortsOf([Done]) == [];
    assert DoneCount([Done]) == 1;
    var ms := reports + [Done];
    forall k | 0 <= k < |ms| - 1 ensures ms[k].Port? {
      assert ms[k] == reports[k];
    }
  }

  // ---------------------------------------------------------------------------
  // How n workers share the ports
  // ---------------------------------------------------------------------------

  /**
   * With workers startPort = 0 .. n - 1 of stride n, every port p with 1 <= p < MAX - n is
   * probed by exactly one worker, the one with startPort = (p - 1) % n.
   */
  lemma PortProbedOnce(n: int, p: int)
    requires n >= 1 && 1 <= p < MAX - n
    ensures p in WorkerPorts((p - 1) % n, n)
    ensures forall i :: 0 <= i < n && p in WorkerPorts(i, n) ==> i == (p - 1) % n
  {
    var w := (p - 1) % n;
    var q := (p - 1) / n;
    assert p - 1 == q * n + w;
    assert q >= 0 by {
      if q < 0 {
        MulMonotone(-q, n);
      }
    }
    ProbedMembers(w + 1, n, p);
    DivModUnique(p - (w + 1), q, 0, n);
    forall i | 0 <= i < n && p in WorkerPorts(i, n) ensures i == w {
      ProbedMembers(i + 1, n, p);
      SameResidue(p - 1, i, n);
    }
  }

  /** p - 1 - i divisible by n with 0 <= i < n fixes i as (p - 1) % n. */
  lemma SameResidue(x: int, i: int, n: int)
    requires n >= 1 && 0 <= i < n && i <= x && (x - i) % n == 0
    ensures i == x % n
  {
    var q := (x - i) / n;
    assert x - i == q * n;
    DivModUnique(x, q, i, n);
  }

  /** No worker probes a port at or above MAX - n, nor any port below 1. */
  lemma PortsNeverProbed(n: int, i: int, p: int)
    requires n >= 1 && 0 <= i < n && (p >= MAX - n || p < 1)
    ensures p !in WorkerPorts(i, n)
  {
    ProbedMembers(i + 1, n, p);
  }
}
