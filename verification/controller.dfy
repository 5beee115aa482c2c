/**
  run_scanner and the keyboard handlers, run sequentially: the producer that
  turns the loaded range descriptors into (address, port) work items with a
  stop cut-off, and a session that applies key presses, run boundaries and
  scan attempts to the stop and pause flags and the detected set.
 */
module Controller {
  import opened Optional
  import opened IPv4
  import opened Probe
  import Expander

  /** One queued work item. */
  datatype Item = Item(ip: string, port: nat)

  /** The two items queued for each host, port 80 first and then 8080. */
  function HostItems(ips: seq<string>): (r: seq<Item>)
    ensures |r| == 2 * |ips|
    decreases |ips|
  {
    if ips == [] then []
    else HostItems(ips[..|ips| - 1]) + [Item(ips[|ips| - 1], 80), Item(ips[|ips| - 1], 8080)]
  }

  /** Host k of the list occupies positions 2k (port 80) and 2k + 1 (port 8080). */
  lemma {:induction false} HostItemsAt(ips: seq<string>, k: nat)
    requires k < |ips|
    ensures HostItems(ips)[2 * k] == Item(ips[k], 80)
    ensures HostItems(ips)[2 * k + 1] == Item(ips[k], 8080)
    decreases |ips|
  {
    if k < |ips| - 1 {
      HostItemsAt(ips[..|ips| - 1], k);
    }
  }

  /** The items of the first j hosts begin the items of all of them. */
  lemma {:induction false} HostItemsPrefix(ips: seq<string>, j: nat)
    requires j <= |ips|
    ensures HostItems(ips[..j]) <= HostItems(ips)
    decreases |ips| - j
  {
    if j < |ips| {
      HostItemsPrefix(ips, j + 1);
      assert ips[..j + 1][..j] == ips[..j];
    } else {
      assert ips[..j] == ips;
    }
  }

  /** The host addresses of each range, in range order, as cidr_to_ip_range gives them. */
  function Expansions(ranges: seq<string>, tiny: Network -> seq<Ip>): (lists: seq<seq<string>>)
    ensures |lists| == |ranges|
    ensures forall i :: 0 <= i < |ranges| ==> lists[i] == Expander.CidrToIpRange(ranges[i], tiny)
  {
    seq(|ranges|, i requires 0 <= i < |ranges| => Expander.CidrToIpRange(ranges[i], tiny))
  }

  /** Everything the producer queues when stop is never set: each range's hosts in range order. */
  function FullQueue(lists: seq<seq<string>>): seq<Item>
    decreases |lists|
  {
    if lists == [] then []
    else FullQueue(lists[..|lists| - 1]) + HostItems(lists[|lists| - 1])
  }

  /** The number of hosts of all ranges. */
  function TotalHosts(lists: seq<seq<string>>): nat
    decreases |lists|
  {
    if lists == [] then 0
    else TotalHosts(lists[..|lists| - 1]) + |lists[|lists| - 1]|
  }

  /** Two items per host: the full queue is twice as long as the hosts of all ranges. */
  lemma {:induction false} FullQueueLength(lists: seq<seq<string>>)
    ensures |FullQueue(lists)| == 2 * TotalHosts(lists)
    decreases |lists|
  {
    if lists != [] {
      FullQueueLength(lists[..|lists| - 1]);
    }
  }

  /** Queueing one more range extends the queue by that range's host items, and the host count by its hosts. */
  lemma FullQueueStep(lists: seq<seq<string>>, i: nat)
    requires i < |lists|
    ensures FullQueue(lists[..i + 1]) == FullQueue(lists[..i]) + HostItems(lists[i])
    ensures TotalHosts(lists[..i + 1]) == TotalHosts(lists[..i]) + |lists[i]|
  {
    assert lists[..i + 1][..i] == lists[..i];
  }

  /** The queue of the first i ranges begins the queue of all of them. */
  lemma {:induction false} FullQueuePrefix(lists: seq<seq<string>>, i: nat)
    requires i <= |lists|
    ensures FullQueue(lists[..i]) <= FullQueue(lists)
    ensures TotalHosts(lists[..i]) <= TotalHosts(lists)
    decreases |lists| - i
  {
    if i < |lists| {
      FullQueuePrefix(lists, i + 1);
      FullQueueStep(lists, i);
    } else {
      assert lists[..i] == lists;
    }
  }

  /** Part-way through range i the queue still begins the full queue. */
  lemma PartialQueuePrefix(lists: seq<seq<string>>, i: nat, j: nat)
    requires i < |lists| && j <= |lists[i]|
    ensures FullQueue(lists[..i]) + HostItems(lists[i][..j]) <= FullQueue(lists)
  {
    HostItemsPrefix(lists[i], j);
    FullQueueStep(lists, i);
    FullQueuePrefix(lists, i + 1);
  }

  /**
    When the stop flag is first seen set, counting the checks the producer
    makes (one before each range, one before each host) from zero; None when
    it stays clear. The flag only ever becomes set, so every later check sees
    it too.
   */
  predicate StopSeen(stopAt: Option<nat>, check: nat)
  {
    stopAt.Some? && check >= stopAt.value
  }

  /**
    The inner loop of run_scanner for one range: before each host it checks
    stop and, while stop is clear, queues the host's two items. It returns
    the items, how many hosts it queued and the checks made so far.
   */
  method EnqueueHosts(ips: seq<string>, stopAt: Option<nat>, checksBefore: nat)
    returns (items: seq<Item>, hosts: nat, checks: nat)
    requires stopAt.Some? ==> checksBefore <= stopAt.value
    ensures hosts <= |ips| && items == HostItems(ips[..hosts])
    ensures checks == checksBefore + hosts
    ensures stopAt.Some? ==> checks <= stopAt.value
    ensures hosts < |ips| ==> StopSeen(stopAt, checks)
  {
    items, hosts, checks := [], 0, checksBefore;
    while hosts < |ips|
      invariant hosts <= |ips| && items == HostItems(ips[..hosts])
      invariant checks == checksBefore + hosts
      invariant stopAt.Some? ==> checks <= stopAt.value
    {
      if StopSeen(stopAt, checks) {
        return;
      }
      assert ips[..hosts + 1][..hosts] == ips[..hosts];
      items := items + [Item(ips[hosts], 80), Item(ips[hosts], 8080)];
      hosts := hosts + 1;
      checks := checks + 1;
    }
  }

  /**
    How many of a range's `n` hosts are queued when the check before the
    range has index `check`: all of them without stop; none when that check
    sees stop; otherwise those whose own checks (indices check + 1 onwards)
    come before the first check that sees stop.
   */
  function HostsQueued(stopAt: Option<nat>, check: nat, n: nat): (k: nat)
    ensures k <= n
    ensures stopAt.None? ==> k == n
    ensures StopSeen(stopAt, check) ==> k == 0
    ensures k > 0 ==> !StopSeen(stopAt, check + k)
    ensures !StopSeen(stopAt, check) && k < n ==> StopSeen(stopAt, check + 1 + k)
  {
    if stopAt.None? then n
    else if check >= stopAt.value then 0
    else if n <= stopAt.value - check - 1 then n
    else stopAt.value - check - 1
  }

  /**
    The reference for the enqueue loop, stated by check indices: the check
    before range r has index r plus the hosts of the ranges before it, and
    each range queues the hosts whose checks come before the first check that
    sees stop.
   */
  function CutQueue(lists: seq<seq<string>>, stopAt: Option<nat>): seq<Item>
    decreases |lists|
  {
    if lists == [] then []
    else
      var init, ips := lists[..|lists| - 1], lists[|lists| - 1];
      CutQueue(init, stopAt) + HostItems(ips[..HostsQueued(stopAt, |init| + TotalHosts(init), |ips|)])
  }

  /** When stop is never seen by any check the loop makes, nothing is cut. */
  lemma {:induction false} CutQueueNoStop(lists: seq<seq<string>>, stopAt: Option<nat>)
    requires !StopSeen(stopAt, |lists| + TotalHosts(lists))
    ensures CutQueue(lists, stopAt) == FullQueue(lists)
    decreases |lists|
  {
    if lists != [] {
      var ips := lists[|lists| - 1];
      CutQueueNoStop(lists[..|lists| - 1], stopAt);
      assert ips[..|ips|] == ips;
    }
  }

  /** Stop seen at the very first check queues nothing. */
  lemma {:induction false} CutQueueStopAtOnce(lists: seq<seq<string>>)
    ensures CutQueue(lists, Some(0)) == []
    decreases |lists|
  {
    if lists != [] {
      CutQueueStopAtOnce(lists[..|lists| - 1]);
    }
  }

  /** The cut queue is always a prefix of the full queue. */
  lemma {:induction false} CutQueuePrefix(lists: seq<seq<string>>, stopAt: Option<nat>)
    ensures CutQueue(lists, stopAt) <= FullQueue(lists)
    decreases |lists|
  {
    if lists != [] {
      var init, ips := lists[..|lists| - 1], lists[|lists| - 1];
      var c := |init| + TotalHosts(init);
      var k := HostsQueued(stopAt, c, |ips|);
      HostItemsPrefix(ips, k);
      if k == 0 {
        CutQueuePrefix(init, stopAt);
        FullQueuePrefix(lists, |init|);
        assert ips[..0] == [];
      } else {
        CutQueueNoStop(init, stopAt);
      }
    }
  }

  /** The cut queue begins the full queue, and is all of it without stop. */
  lemma CutQueueBounds(lists: seq<seq<string>>, stopAt: Option<nat>)
    ensures CutQueue(lists, stopAt) <= FullQueue(lists)
    ensures stopAt.None? ==> CutQueue(lists, stopAt) == FullQueue(lists)
  {
    CutQueuePrefix(lists, stopAt);
    if stopAt.None? {
      CutQueueNoStop(lists, stopAt);
    }
  }

  /** Ranges whose checks all come at or after the first check that sees stop add nothing. */
  lemma {:induction false} CutQueueTail(lists: seq<seq<string>>, i: nat, s: nat)
    requires i <= |lists| && s <= i + TotalHosts(lists[..i])
    ensures CutQueue(lists, Some(s)) == CutQueue(lists[..i], Some(s))
    decreases |lists|
  {
    if i < |lists| {
      var init := lists[..|lists| - 1];
      assert init[..i] == lists[..i];
      FullQueuePrefix(init, i);
      CutQueueTail(init, i, s);
      assert lists[|lists| - 1][..0] == [];
    } else {
      assert lists[..i] == lists;
    }
  }

  /** The inner loop queues exactly the hosts HostsQueued counts. */
  lemma HostsQueuedExact(stopAt: Option<nat>, check: nat, n: nat, hosts: nat, after: nat)
    requires !StopSeen(stopAt, check)
    requires hosts <= n && after == check + 1 + hosts
    requires stopAt.Some? ==> after <= stopAt.value
    requires hosts < n ==> StopSeen(stopAt, after)
    ensures hosts == HostsQueued(stopAt, check, n)
  {
  }

  /**
    One pass of the outer loop: range i, entered with every check so far
    clear, extends the cut queue by the hosts the inner loop queued, and
    leaves the check count where the reference puts it.
   */
  lemma EnqueueStep(lists: seq<seq<string>>, i: nat, stopAt: Option<nat>, check: nat, hosts: nat, after: nat)
    requires i < |lists|
    requires !StopSeen(stopAt, check) && check == i + TotalHosts(lists[..i])
    requires hosts <= |lists[i]| && after == check + 1 + hosts
    requires stopAt.Some? ==> after <= stopAt.value
    requires hosts < |lists[i]| ==> StopSeen(stopAt, after)
    ensures CutQueue(lists[..i + 1], stopAt) == CutQueue(lists[..i], stopAt) + HostItems(lists[i][..hosts])
    ensures !StopSeen(stopAt, after) ==> after == i + 1 + TotalHosts(lists[..i + 1])
    ensures StopSeen(stopAt, after) ==> stopAt.value <= i + 1 + TotalHosts(lists[..i + 1])
  {
    HostsQueuedExact(stopAt, check, |lists[i]|, hosts, after);
    FullQueueStep(lists, i);
    assert lists[..i + 1][..i] == lists[..i];
  }

  /** When the outer loop ends, by running out of ranges or by seeing stop, its queue is the whole cut queue. */
  lemma EnqueueExit(lists: seq<seq<string>>, i: nat, stopAt: Option<nat>, check: nat)
    requires i <= |lists|
    requires i == |lists| || StopSeen(stopAt, check)
    requires StopSeen(stopAt, check) ==> stopAt.value <= i + TotalHosts(lists[..i])
    ensures CutQueue(lists[..i], stopAt) == CutQueue(lists, stopAt)
  {
    if i < |lists| {
      CutQueueTail(lists, i, stopAt.value);
    } else {
      assert lists[..i] == lists;
    }
  }

  /** The hosts of the range at index i, expanded when the loop reaches it. */
  method ExpandAt(ranges: seq<string>, tiny: Network -> seq<Ip>, i: nat) returns (ips: seq<string>)
    requires i < |ranges|
    ensures ips == Expansions(ranges, tiny)[i]
  {
    ips := Expander.CidrToIpRange(ranges[i], tiny);
  }

  /**
    The enqueue loop of run_scanner. It checks stop before each range and
    before each host, so the queue is exactly the cut queue: the full queue
    when stop is never seen, and nothing after the first check that sees it.
   */
  method EnqueueRanges(ranges: seq<string>, tiny: Network -> seq<Ip>, stopAt: Option<nat>)
    returns (queue: seq<Item>, totalIps: nat)
    ensures queue == CutQueue(Expansions(ranges, tiny), stopAt)
    ensures |queue| == 2 * totalIps
    ensures queue <= FullQueue(Expansions(ranges, tiny))
    ensures stopAt.None? ==> queue == FullQueue(Expansions(ranges, tiny))
  {
    ghost var lists := Expansions(ranges, tiny);
    queue, totalIps := [], 0;
    var checks: nat := 0;
    var i := 0;
    while i < |ranges|
      invariant 0 <= i <= |ranges|
      invariant |queue| == 2 * totalIps
      invariant queue == CutQueue(lists[..i], stopAt)
      invariant !StopSeen(stopAt, checks) ==> checks == i + TotalHosts(lists[..i])
      invariant StopSeen(stopAt, checks) ==> stopAt.value <= i + TotalHosts(lists[..i])
    {
      if StopSeen(stopAt, checks) {
        break;
      }
      var c := checks;
      var ips := ExpandAt(ranges, tiny, i);
      var items, hosts;
      items, hosts, checks := EnqueueHosts(ips, stopAt, c + 1);
      EnqueueStep(lists, i, stopAt, c, hosts, checks);
      queue, totalIps := queue + items, totalIps + hosts;
      i := i + 1;
    }
    EnqueueExit(lists, i, stopAt, checks);
    CutQueueBounds(lists, stopAt);
  }

  /** The sequential state of a scanning session: the flags, the detected set and the findings so far. */
  datatype Session = Session(flags: Flags, detected: set<string>, findings: seq<Finding>)

  /**
    What can happen to a session: Ctrl+C sets stop, Ctrl+Z toggles pause, a
    run starts (clearing both flags but not the detected set) or ends
    (setting stop), or a worker attempts one work item with the response it
    received and the time of detection.
   */
  datatype Event =
    | StopKey
    | PauseKey
    | StartRun
    | EndRun
    | Attempt(ip: string, port: nat, response: Option<string>, time: string)

  /** One event applied to a session. */
  function Step(s: Session, e: Event): (t: Session)
    ensures e.Attempt? ==> t.flags == s.flags
    ensures !e.Attempt? ==> t.detected == s.detected && t.findings == s.findings
    ensures e == PauseKey ==> t.flags == Flags(s.flags.stop, !s.flags.pause)
    ensures e == StopKey || e == EndRun ==> t.flags == Flags(true, s.flags.pause)
    ensures e == StartRun ==> t.flags == Flags(false, false)
    ensures s.detected <= t.detected
    ensures t.findings == s.findings || (|t.findings| == |s.findings| + 1 && t.findings[..|s.findings|] == s.findings)
    ensures |t.findings| == |s.findings| ==> t.detected == s.detected
    ensures |t.findings| > |s.findings| ==>
              && e.Attempt?
              && e.ip !in s.detected
              && t.detected == s.detected + {e.ip}
              && e.response.Some?
              && Classify(e.response.value) == Some(t.findings[|s.findings|].camera)
              && t.findings[|s.findings|]
                 == Finding(t.findings[|s.findings|].camera, e.ip, e.port, Url(e.ip, e.port), e.time)
    ensures && e.Attempt? && !s.flags.stop && !s.flags.pause && e.ip !in s.detected
            && e.response.Some? && Classify(e.response.value).Some? ==>
              |t.findings| == |s.findings| + 1
  {
    match e
    case StopKey => s.(flags := s.flags.(stop := true))
    case PauseKey => s.(flags := s.flags.(pause := !s.flags.pause))
    case StartRun => s.(flags := Flags(false, false))
    case EndRun => s.(flags := s.flags.(stop := true))
    case Attempt(ip, port, response, time) =>
      match Scan(s.flags, s.detected, ip, port, response, time)
      case Probed(d, finding) =>
        (match finding
         case Some(f) =>
           assert (s.findings + [f])[..|s.findings|] == s.findings;
           s.(detected := d, findings := s.findings + [f])
         case None => s.(detected := d))
      case _ => s
  }

  /** A sequence of events applied in order. */
  function Run(s: Session, events: seq<Event>): Session
    decreases |events|
  {
    if events == [] then s else Step(Run(s, events[..|events| - 1]), events[|events| - 1])
  }

  /** The addresses of a list of findings. */
  function IpsOf(findings: seq<Finding>): (r: set<string>)
    ensures forall k :: 0 <= k < |findings| ==> findings[k].ip in r
    ensures forall ip :: ip in r ==> exists k :: 0 <= k < |findings| && findings[k].ip == ip
  {
    set k | 0 <= k < |findings| :: findings[k].ip
  }

  /** No address is reported twice. */
  predicate DistinctIps(findings: seq<Finding>)
  {
    forall k, l :: 0 <= k < l < |findings| ==> findings[k].ip != findings[l].ip
  }

  /** The detected set is exactly the set of reported addresses, each reported once. */
  predicate Consistent(s: Session)
  {
    s.detected == IpsOf(s.findings) && DistinctIps(s.findings)
  }

  /** Each step keeps the detected set and the findings in agreement. */
  lemma StepConsistent(s: Session, e: Event)
    requires Consistent(s)
    ensures Consistent(Step(s, e))
  {
    var t := Step(s, e);
    if |t.findings| == |s.findings| + 1 {
      var f := t.findings[|s.findings|];
      assert t.findings == s.findings + [f];
      assert f.ip !in s.detected && t.detected == s.detected + {f.ip};
      assert IpsOf(t.findings) == IpsOf(s.findings) + {f.ip};
    } else {
      assert t.findings == s.findings;
    }
  }

  /** Every run of events keeps the detected set and the findings in agreement. */
  lemma {:induction false} RunConsistent(s: Session, events: seq<Event>)
    requires Consistent(s)
    ensures Consistent(Run(s, events))
    decreases |events|
  {
    if events != [] {
      RunConsistent(s, events[..|events| - 1]);
      StepConsistent(Run(s, events[..|events| - 1]), events[|events| - 1]);
    }
  }

  /** Appending a finding adds its address to the addresses reported. */
  lemma IpsOfSnoc(init: seq<Finding>, f: Finding)
    ensures IpsOf(init + [f]) == IpsOf(init) + {f.ip}
  {
    var all := init + [f];
    forall ip | ip in IpsOf(all)
      ensures ip in IpsOf(init) + {f.ip}
    {
      var k :| 0 <= k < |all| && all[k].ip == ip;
      if k < |init| {
        assert all[k] == init[k];
      }
    }
    forall ip | ip in IpsOf(init) + {f.ip}
      ensures ip in IpsOf(all)
    {
      if ip != f.ip {
        var k :| 0 <= k < |init| && init[k].ip == ip;
        assert all[k] == init[k];
      } else {
        assert all[|init|] == f;
      }
    }
  }

  /** With distinct addresses, the last finding's address is new to the ones before it. */
  lemma LastIsNew(init: seq<Finding>, f: Finding)
    requires DistinctIps(init + [f])
    ensures DistinctIps(init)
    ensures f.ip !in IpsOf(init)
  {
    var all := init + [f];
    forall k | 0 <= k < |init|
      ensures init[k].ip != f.ip
    {
      assert all[k] == init[k] && all[|init|] == f;
    }
    forall k, l | 0 <= k < l < |init|
      ensures init[k].ip != init[l].ip
    {
      assert all[k] == init[k] && all[l] == init[l];
    }
  }

  /** Distinct addresses: as many findings as addresses reported. */
  lemma {:induction false} DistinctCount(findings: seq<Finding>)
    requires DistinctIps(findings)
    ensures |IpsOf(findings)| == |findings|
    decreases |findings|
  {
    if findings != [] {
      var init, last := findings[..|findings| - 1], findings[|findings| - 1];
      assert findings == init + [last];
      LastIsNew(init, last);
      IpsOfSnoc(init, last);
      DistinctCount(init);
    }
  }

  /**
    From a fresh program start, the number of cameras run_scanner reports
    (the size of the detected set) equals the number of records written, over
    any sequence of runs.
   */
  lemma CamerasFoundCount(flags: Flags, events: seq<Event>)
    ensures var t := Run(Session(flags, {}, []), events);
            |t.detected| == |t.findings| && t.detected == IpsOf(t.findings)
  {
    var s := Session(flags, {}, []);
    assert IpsOf([]) == {};
    RunConsistent(s, events);
    DistinctCount(Run(s, events).findings);
  }

  /** The detected set never shrinks, not even across runs, and findings are only ever appended. */
  lemma {:induction false} RunGrows(s: Session, events: seq<Event>)
    ensures s.detected <= Run(s, events).detected
    ensures s.findings <= Run(s, events).findings
    decreases |events|
  {
    if events != [] {
      RunGrows(s, events[..|events| - 1]);
    }
  }

  /**
    An address detected before a sequence of events, in this run or an
    earlier one, is never reported again.
   */
  lemma NoRepeatReport(s: Session, events: seq<Event>, k: nat)
    requires Consistent(s)
    requires |s.findings| <= k < |Run(s, events).findings|
    ensures Run(s, events).findings[k].ip !in s.detected
  {
    var t := Run(s, events);
    RunGrows(s, events);
    RunConsistent(s, events);
  }

  /** Without a new run, stop stays set once set. */
  lemma {:induction false} StopSticky(s: Session, events: seq<Event>)
    requires s.flags.stop
    requires forall k :: 0 <= k < |events| ==> events[k] != StartRun
    ensures Run(s, events).flags.stop
    decreases |events|
  {
    if events != [] {
      StopSticky(s, events[..|events| - 1]);
    }
  }

  /** While stop is set and no run starts, attempts change nothing: no address is probed and nothing is reported. */
  lemma {:induction false} StoppedScansNothing(s: Session, events: seq<Event>)
    requires s.flags.stop
    requires forall k :: 0 <= k < |events| ==> events[k] != StartRun
    ensures Run(s, events).detected == s.detected
    ensures Run(s, events).findings == s.findings
    decreases |events|
  {
    if events != [] {
      StoppedScansNothing(s, events[..|events| - 1]);
      StopSticky(s, events[..|events| - 1]);
    }
  }

  /** A run of n Ctrl+Z presses flips pause n times: an even number restores it. */
  lemma {:induction false} PauseToggles(s: Session, n: nat)
    ensures Run(s, seq(n, _ => PauseKey)).flags.pause == (s.flags.pause != (n % 2 == 1))
    ensures Run(s, seq(n, _ => PauseKey)).flags.stop == s.flags.stop
    decreases n
  {
    if n > 0 {
      var events := seq(n, _ => PauseKey);
      assert events[..n - 1] == seq(n - 1, _ => PauseKey);
      PauseToggles(s, n - 1);
    }
  }

  /** A new run clears both flags and keeps every address detected in earlier runs. */
  lemma StartRunKeepsDetected(s: Session, events: seq<Event>)
    ensures Run(s, events + [StartRun]).flags == Flags(false, false)
    ensures s.detected <= Run(s, events + [StartRun]).detected
  {
    RunGrows(s, events + [StartRun]);
    assert (events + [StartRun])[..|events|] == events;
  }
}
