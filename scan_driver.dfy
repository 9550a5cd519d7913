/** The scan loop of the MSSQL health mapper's `main`: for every port, for every
    host, point the data source at `host:port`, ask for its health and write
    one line; every tenth probe first rotates the session cookie. The three
    kinds of HTTP exchange are inputs: each is a function from the probe (or
    rotation) number and what is sent to what comes back. */
module ScanDriver {
  import opened Wrappers
  import opened PyText
  import opened VerdictClassifier
  import opened SessionRotation

  /** Every this many probes the session cookie is rotated. */
  const RotationPeriod: nat := 10

  datatype Target = Target(host: string, port: nat)

  /** The data source's new `url` field, `f"{host}:{port}"`. */
  function Address(t: Target): string {
    t.host + ":" + NatToString(t.port)
  }

  /** The part of the data-source update that depends on the probe: the cookie
      it is sent with, the data source's uid and its new url. The payload's
      other fields are constants, and the version counter is not among them. */
  datatype UpdateRequest = UpdateRequest(cookie: string, uid: string, url: string)

  /** What an update request came back with: a status, whether its body
      parses as JSON, and its text; or a transport error. */
  datatype UpdateReply = UpdateStatus(status: int, json: bool, text: string) | UpdateError(message: string)

  /** What a health check came back with, and how long it took. */
  datatype HealthProbe = HealthProbe(outcome: Outcome, elapsed: real)

  /** The network, as seen by the scan: the reply to the k-th rotation sent with
      a cookie, and the replies to the i-th probe's update and health check. */
  datatype Network = Network(
    rotate: (nat, string) -> RotateReply,
    update: (nat, UpdateRequest) -> UpdateReply,
    health: (nat, string) -> HealthProbe)

  /** `update_datasource` reports success exactly on status 200 with a body that
      parses as JSON. A body that does not parse makes `.json()` raise a decoding
      error, which `requests` derives from its own exception class, so the
      handler for transport errors turns it into a failure as well. */
  predicate Updated(reply: UpdateReply) {
    reply.UpdateStatus? && reply.status == 200 && reply.json
  }

  // ---------------------------------------------------------------------------
  // What the scan is specified by

  /** One row of the nested loop: a port against every host, in host order. */
  function Row(port: nat, hosts: seq<string>): (r: seq<Target>)
    ensures |r| == |hosts|
    ensures forall h | 0 <= h < |hosts| :: r[h] == Target(hosts[h], port)
  {
    seq(|hosts|, h requires 0 <= h < |hosts| => Target(hosts[h], port))
  }

  /** The targets in the order the loop visits them: ports outer, hosts inner. */
  function Targets(ports: seq<nat>, hosts: seq<string>): seq<Target> {
    if |ports| == 0 then []
    else Targets(ports[..|ports| - 1], hosts) + Row(ports[|ports| - 1], hosts)
  }

  /** The cookie in force for probe `i` (probes count from 1): the start cookie,
      replaced by each rotation before a probe whose number is a multiple of
      ten. A failed rotation ends the scan, so an error stays an error. */
  function CookieBefore(net: Network, session0: string, i: nat): (c: Result<string>)
    ensures i < RotationPeriod ==> c == Ok(session0)
    ensures c.Err? ==> i >= RotationPeriod
  {
    if i == 0 then Ok(session0)
    else
      var previous := CookieBefore(net, session0, i - 1);
      if previous.Err? || i % RotationPeriod != 0 then previous
      else RotateSession(net.rotate(i / RotationPeriod, previous.value))
  }

  /** The line probe `i` writes for target `t`, sent with `cookie`. */
  function ProbeLine(net: Network, uid: string, i: nat, t: Target, cookie: string): (line: string)
    ensures exists word | word in {"open", "closed", "filtered", "unknown", "skipped"} ::
      line == Address(t) + "/" + word
    ensures line == Address(t) + "/skipped" <==>
      !Updated(net.update(i, UpdateRequest(cookie, uid, Address(t))))
  {
    var request := UpdateRequest(cookie, uid, Address(t));
    var word :=
      if Updated(net.update(i, request)) then
        var probe := net.health(i, cookie);
        VerdictName(Classify(probe.outcome, probe.elapsed))
      else "skipped";
    var line := Address(t) + "/" + word;
    assert line[|Address(t)| + 1..] == word;
    assert (Address(t) + "/skipped")[|Address(t)| + 1..] == "skipped";
    line
  }

  /** Probe `k` (counting from 0) was made with the cookie in force for it and
      left `update` and `line` behind. */
  ghost predicate ProbeRecorded(net: Network, session0: string, uid: string, targets: seq<Target>,
                                k: nat, line: string, update: UpdateRequest)
  {
    && k < |targets|
    && CookieBefore(net, session0, k + 1).Ok?
    && update == UpdateRequest(CookieBefore(net, session0, k + 1).value, uid, Address(targets[k]))
    && line == ProbeLine(net, uid, k + 1, targets[k], CookieBefore(net, session0, k + 1).value)
  }

  /** The first `n` probes each left their update and their line. */
  ghost predicate ProbesRecorded(net: Network, session0: string, uid: string, targets: seq<Target>,
                                 n: nat, lines: seq<string>, updates: seq<UpdateRequest>)
  {
    && |lines| == n && |updates| == n
    && forall k | 0 <= k < n :: ProbeRecorded(net, session0, uid, targets, k, lines[k], updates[k])
  }

  /** The `r`-th rotation sent the cookie in force just before it. */
  ghost predicate RotationsRecorded(net: Network, session0: string, rotations: seq<string>) {
    forall r | 0 <= r < |rotations| ::
      CookieBefore(net, session0, RotationPeriod * r + RotationPeriod - 1) == Ok(rotations[r])
  }

  /** Everything the first `n` probes leave behind. */
  ghost predicate ScannedSoFar(ports: seq<nat>, hosts: seq<string>, session0: string, uid: string,
                               net: Network, n: nat, lines: seq<string>, updates: seq<UpdateRequest>,
                               rotations: seq<string>, session: string)
  {
    && n <= |Targets(ports, hosts)|
    && |rotations| == n / RotationPeriod
    && CookieBefore(net, session0, n) == Ok(session)
    && ProbesRecorded(net, session0, uid, Targets(ports, hosts), n, lines, updates)
    && RotationsRecorded(net, session0, rotations)
  }

  // ---------------------------------------------------------------------------
  // The scan

  /** One probe: point the data source at the target (`update_datasource`) and,
      when that worked, ask for its health (`check_datasource_health`); the line
      written is the target and the verdict, or `skipped`. This is the
      executable form of `ProbeLine`. */
  method ProbeTarget(net: Network, uid: string, i: nat, target: Target, cookie: string)
    returns (request: UpdateRequest, line: string)
    ensures request == UpdateRequest(cookie, uid, Address(target))
    ensures line == ProbeLine(net, uid, i, target, cookie)
  {
    request := UpdateRequest(cookie, uid, Address(target));
    var word;
    if Updated(net.update(i, request)) {
      var probe := net.health(i, cookie);
      word := VerdictName(Classify(probe.outcome, probe.elapsed));
    } else {
      word := "skipped";
    }
    line := Address(target) + "/" + word;
  }

  /** The nested loop of `main`. On success there is one line, one update and
      one version step per target, and a rotation per ten probes; when a
      rotation fails the scan stops before the probe that needed it, with the
      rotation's error. */
  method Scan(ports: seq<nat>, hosts: seq<string>, session0: string, version0: int, uid: string, net: Network)
    returns (lines: seq<string>, updates: seq<UpdateRequest>, rotations: seq<string>,
             session: string, version: int, aborted: Option<string>)
    ensures ScannedSoFar(ports, hosts, session0, uid, net, |lines|, lines, updates, rotations, session)
    ensures aborted.None? ==> |lines| == |Targets(ports, hosts)|
    ensures aborted.Some? ==>
      && |lines| < |Targets(ports, hosts)|
      && (|lines| + 1) % RotationPeriod == 0
      && CookieBefore(net, session0, |lines| + 1) == Err(aborted.value)
    ensures version == version0 + |lines|
  {
    lines, updates, rotations := [], [], [];
    session, version, aborted := session0, version0, None;
    var i: nat := 0;
    for p := 0 to |ports|
      invariant i == |Targets(ports[..p], hosts)|
      invariant ScannedSoFar(ports, hosts, session0, uid, net, i, lines, updates, rotations, session)
      invariant version == version0 + i
    {
      for h := 0 to |hosts|
        invariant i == |Targets(ports[..p], hosts)| + h
        invariant ScannedSoFar(ports, hosts, session0, uid, net, i, lines, updates, rotations, session)
        invariant version == version0 + i
      {
        var target := Target(hosts[h], ports[p]);
        TargetAtPosition(ports, hosts, p, h);
        var lines', updates', rotations', session', stop :=
          ScanNext(ports, hosts, session0, uid, net, i, target, lines, updates, rotations, session);
        if stop.Some? {
          aborted := stop;
          return;
        }
        lines, updates, rotations, session := lines', updates', rotations', session';
        i := i + 1;
        version := version + 1;
      }
      TargetsPrefix(ports, p, hosts);
    }
    assert ports[..|ports|] == ports;
  }

  /** One turn of the inner loop, probe `n + 1`: on a multiple of ten rotate the
      cookie first, stopping with the rotation's error when that fails; then
      probe the target and record its update and its line. */
  method ScanNext(ghost ports: seq<nat>, ghost hosts: seq<string>, ghost session0: string, uid: string,
                  net: Network, n: nat, target: Target, lines: seq<string>, updates: seq<UpdateRequest>,
                  rotations: seq<string>, session: string)
    returns (lines': seq<string>, updates': seq<UpdateRequest>, rotations': seq<string>,
             session': string, aborted: Option<string>)
    requires ScannedSoFar(ports, hosts, session0, uid, net, n, lines, updates, rotations, session)
    requires n < |Targets(ports, hosts)| && target == Targets(ports, hosts)[n]
    ensures aborted.None? ==>
      ScannedSoFar(ports, hosts, session0, uid, net, n + 1, lines', updates', rotations', session')
    ensures aborted.Some? ==>
      && (n + 1) % RotationPeriod == 0
      && CookieBefore(net, session0, n + 1) == Err(aborted.value)
      && lines' == lines && updates' == updates && rotations' == rotations && session' == session
  {
    lines', updates', rotations', session', aborted := lines, updates, rotations, session, None;
    var i := n + 1;
    CookieStep(net, session0, n, session);
    if i % RotationPeriod == 0 {
      var rotated := RotateSession(net.rotate(i / RotationPeriod, session));
      if rotated.Err? {
        aborted := Some(rotated.msg);
        return;
      }
      rotations' := rotations + [session];
      session' := rotated.value;
    }
    var request, line := ProbeTarget(net, uid, i, target, session');
    ScanStep(ports, hosts, session0, uid, net, n, lines, updates, rotations, session, rotations', session', target);
    updates' := updates + [request];
    lines' := lines + [line];
  }

  /** The cookie for the next probe: the same one, or on a multiple of ten
      whatever the rotation returns. */
  lemma CookieStep(net: Network, session0: string, n: nat, session: string)
    requires CookieBefore(net, session0, n) == Ok(session)
    ensures (n + 1) % RotationPeriod != 0 ==> CookieBefore(net, session0, n + 1) == Ok(session)
    ensures (n + 1) % RotationPeriod == 0 ==>
      CookieBefore(net, session0, n + 1) == RotateSession(net.rotate((n + 1) / RotationPeriod, session))
  {
  }

  /** The number of rotations after one more probe. */
  lemma RotationCount(n: nat)
    ensures (n + 1) % RotationPeriod != 0 ==> (n + 1) / RotationPeriod == n / RotationPeriod
    ensures (n + 1) % RotationPeriod == 0 ==>
      (n + 1) / RotationPeriod == n / RotationPeriod + 1 && RotationPeriod * (n / RotationPeriod) + RotationPeriod - 1 == n
  {
    var q, r := n / RotationPeriod, n % RotationPeriod;
    assert n + 1 == RotationPeriod * q + (r + 1);
  }

  lemma ProbesStep(net: Network, session0: string, uid: string, targets: seq<Target>,
                   n: nat, lines: seq<string>, updates: seq<UpdateRequest>, line: string, update: UpdateRequest)
    requires ProbesRecorded(net, session0, uid, targets, n, lines, updates)
    requires ProbeRecorded(net, session0, uid, targets, n, line, update)
    ensures ProbesRecorded(net, session0, uid, targets, n + 1, lines + [line], updates + [update])
  {
    var lines', updates' := lines + [line], updates + [update];
    forall k | 0 <= k < n + 1
      ensures ProbeRecorded(net, session0, uid, targets, k, lines'[k], updates'[k])
    {
      if k < n {
        assert lines'[k] == lines[k] && updates'[k] == updates[k];
      }
    }
  }

  lemma RotationsStep(net: Network, session0: string, rotations: seq<string>, session: string)
    requires RotationsRecorded(net, session0, rotations)
    requires CookieBefore(net, session0, RotationPeriod * |rotations| + RotationPeriod - 1) == Ok(session)
    ensures RotationsRecorded(net, session0, rotations + [session])
  {
    var rotations' := rotations + [session];
    forall r | 0 <= r < |rotations'|
      ensures CookieBefore(net, session0, RotationPeriod * r + RotationPeriod - 1) == Ok(rotations'[r])
    {
      if r < |rotations| {
        assert rotations'[r] == rotations[r];
      }
    }
  }

  /** A row pairs its port with exactly the given hosts. */
  lemma RowMembers(port: nat, hosts: seq<string>)
    ensures forall t: Target :: t in Row(port, hosts) <==> t.port == port && t.host in hosts
  {
    var r := Row(port, hosts);
    forall t: Target | t.port == port && t.host in hosts ensures t in r {
      var h :| 0 <= h < |hosts| && hosts[h] == t.host;
      assert r[h] == t;
    }
  }

  /** The targets are the cross product of the ports and the hosts: every pair
      is visited, and nothing else. */
  lemma {:induction false} TargetsCrossProduct(ports: seq<nat>, hosts: seq<string>)
    ensures forall t: Target :: t in Targets(ports, hosts) <==> t.port in ports && t.host in hosts
    decreases |ports|
  {
    if |ports| > 0 {
      var init := ports[..|ports| - 1];
      TargetsCrossProduct(init, hosts);
      RowMembers(ports[|ports| - 1], hosts);
      assert ports == init + [ports[|ports| - 1]];
    }
  }

  /** One more probe keeps the record of the scan: its line, its update and,
      on a multiple of ten, the cookie it rotated away. */
  lemma ScanStep(ports: seq<nat>, hosts: seq<string>, session0: string, uid: string, net: Network,
                 n: nat, lines: seq<string>, updates: seq<UpdateRequest>, rotations: seq<string>,
                 session: string, rotations': seq<string>, session': string, t: Target)
    requires ScannedSoFar(ports, hosts, session0, uid, net, n, lines, updates, rotations, session)
    requires n < |Targets(ports, hosts)| && t == Targets(ports, hosts)[n]
    requires CookieBefore(net, session0, n + 1) == Ok(session')
    requires rotations' == if (n + 1) % RotationPeriod == 0 then rotations + [session] else rotations
    ensures ScannedSoFar(ports, hosts, session0, uid, net, n + 1,
                         lines + [ProbeLine(net, uid, n + 1, t, session')],
                         updates + [UpdateRequest(session', uid, Address(t))], rotations', session')
  {
    ProbesStep(net, session0, uid, Targets(ports, hosts), n, lines, updates,
               ProbeLine(net, uid, n + 1, t, session'), UpdateRequest(session', uid, Address(t)));
    RotationCount(n);
    if (n + 1) % RotationPeriod == 0 {
      RotationsStep(net, session0, rotations, session);
    }
  }

  // ---------------------------------------------------------------------------
  // Facts about the scan's specification

  lemma {:induction false} TargetsLength(ports: seq<nat>, hosts: seq<string>)
    ensures |Targets(ports, hosts)| == |ports| * |hosts|
    decreases |ports|
  {
    if |ports| > 0 {
      TargetsLength(ports[..|ports| - 1], hosts);
    }
  }

  /** Taking the first `p + 1` ports adds one row after the first `p`. */
  lemma TargetsPrefix(ports: seq<nat>, p: nat, hosts: seq<string>)
    requires p < |ports|
    ensures Targets(ports[..p + 1], hosts) == Targets(ports[..p], hosts) + Row(ports[p], hosts)
  {
    assert ports[..p + 1][..p] == ports[..p];
  }

  /** The targets of the first ports come first. */
  lemma {:induction false} TargetsPrefixOf(ports: seq<nat>, hosts: seq<string>, q: nat)
    requires q <= |ports|
    ensures |Targets(ports[..q], hosts)| <= |Targets(ports, hosts)|
    ensures Targets(ports[..q], hosts) == Targets(ports, hosts)[..|Targets(ports[..q], hosts)|]
    decreases |ports|
  {
    if q == |ports| {
      assert ports[..q] == ports;
    } else {
      var init := ports[..|ports| - 1];
      assert init[..q] == ports[..q];
      TargetsPrefixOf(init, hosts, q);
    }
  }

  /** Where the nested loop stands: host `h` of port `p` comes right after the
      targets of the ports before `p`. */
  lemma TargetAtPosition(ports: seq<nat>, hosts: seq<string>, p: nat, h: nat)
    requires p < |ports| && h < |hosts|
    ensures |Targets(ports[..p], hosts)| + h < |Targets(ports, hosts)|
    ensures Targets(ports, hosts)[|Targets(ports[..p], hosts)| + h] == Target(hosts[h], ports[p])
  {
    TargetsPrefix(ports, p, hosts);
    TargetsPrefixOf(ports, hosts, p + 1);
  }

  /** Ports outer, hosts inner: the target at position `p * |hosts| + h` is host
      `h` on port `p`, and there are `|ports| * |hosts|` targets. */
  lemma {:induction false} TargetsAt(ports: seq<nat>, hosts: seq<string>, p: nat, h: nat)
    requires p < |ports| && h < |hosts|
    ensures |Targets(ports, hosts)| == |ports| * |hosts|
    ensures p * |hosts| + h < |Targets(ports, hosts)|
    ensures Targets(ports, hosts)[p * |hosts| + h] == Target(hosts[h], ports[p])
    decreases |ports|
  {
    var init := ports[..|ports| - 1];
    TargetsLength(ports, hosts);
    TargetsLength(init, hosts);
    if p < |ports| - 1 {
      TargetsAt(init, hosts, p, h);
    } else {
      assert |Targets(init, hosts)| == p * |hosts|;
    }
  }

  /** Once a rotation fails, every later probe would find the error too. */
  lemma {:induction false} CookieErrorPersists(net: Network, session0: string, i: nat, j: nat)
    requires i <= j && CookieBefore(net, session0, i).Err?
    ensures CookieBefore(net, session0, j) == CookieBefore(net, session0, i)
    decreases j - i
  {
    if i < j {
      CookieErrorPersists(net, session0, i, j - 1);
    }
  }

  /** Only probes whose number is a multiple of ten change the cookie. */
  lemma CookieChangesOnlyOnRotation(net: Network, session0: string, i: nat)
    requires i > 0 && i % RotationPeriod != 0
    ensures CookieBefore(net, session0, i) == CookieBefore(net, session0, i - 1)
  {
  }

  /** When every rotation succeeds, the cookie for probe `i` is the one the
      `i / 10`-th rotation returned (the start cookie before the first). */
  lemma {:induction false} CookieBetweenRotations(net: Network, session0: string, i: nat)
    ensures CookieBefore(net, session0, i) == CookieBefore(net, session0, RotationPeriod * (i / RotationPeriod))
    decreases i
  {
    if i % RotationPeriod != 0 {
      CookieBetweenRotations(net, session0, i - 1);
      CookieChangesOnlyOnRotation(net, session0, i);
      RotationCount(i - 1);
    }
  }
}
