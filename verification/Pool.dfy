// The connection pool (sdk/connection/connection.pool.go). Probing is modelled as a machine whose steps
// are whole probe completions: status, append and counter together. The class refines that machine.
module Pool {
  import opened Base

  type Host = string

  datatype Status = Unset | Alive | Dead

  /** How a SayHello probe ends. Only a greeting keeps the connection. */
  datatype Outcome = Greeted | WrongPassword | Refused | Unreachable
  {
    function Verdict(): Status {
      if Greeted? then Alive else Dead
    }
  }

  const THROTTLE: int := 5_000_000_000

  // ---- the machine ----

  datatype Phase = Idle | Refreshing(pending: set<Host>)

  datatype State = State(connections: set<Host>, status: map<Host, Status>, actives: seq<Host>,
                         tick: nat, last: int, phase: Phase)
  {
    predicate Throttled(now: int) {
      now - last <= THROTTLE && |connections| == |actives|
    }

    function Pending(): set<Host> {
      if phase.Idle? then {} else phase.pending
    }
  }

  datatype Event =
    | Skip(now: int)
    | Start(now: int)
    | Probe(host: Host, outcome: Outcome)
    | Finish(now: int)
    | Pick

  predicate Enabled(s: State, e: Event) {
    match e
    case Skip(now) => s.phase.Idle? && s.Throttled(now)
    case Start(now) => s.phase.Idle? && !s.Throttled(now)
    case Probe(host, _) => host in s.Pending()
    case Finish(_) => s.phase == Refreshing({})
    case Pick => s.phase.Idle?
  }

  function After(s: State, e: Event): State
    requires Enabled(s, e)
  {
    match e
    case Skip(_) => s
    case Start(_) => s.(actives := [], phase := Refreshing(s.connections))
    case Probe(host, outcome) =>
      s.(status := s.status[host := outcome.Verdict()],
         actives := if outcome.Greeted? then s.actives + [host] else s.actives,
         phase := Refreshing(s.phase.pending - {host}))
    case Finish(now) => s.(phase := Idle, last := now)
    case Pick => if s.actives == [] then s else s.(tick := s.tick + 1)
  }

  /** The events can happen one after the other, starting from `s`. */
  predicate Possible(s: State, es: seq<Event>)
    decreases |es|, 0
  {
    es == [] || (Possible(s, es[..|es| - 1]) && Enabled(End(s, es[..|es| - 1]), es[|es| - 1]))
  }

  function End(s: State, es: seq<Event>): State
    requires Possible(s, es)
    decreases |es|, 1
  {
    if es == [] then s else After(End(s, es[..|es| - 1]), es[|es| - 1])
  }

  lemma OneMore(s: State, es: seq<Event>, e: Event)
    requires Possible(s, es) && Enabled(End(s, es), e)
    ensures Possible(s, es + [e]) && End(s, es + [e]) == After(End(s, es), e)
  {
    assert (es + [e])[..|es|] == es;
  }

  lemma EmptyRun(s: State)
    ensures Possible(s, []) && End(s, []) == s
  {
  }

  lemma SkipRun(s: State, now: int)
    requires Enabled(s, Skip(now))
    ensures Possible(s, [Skip(now)]) && End(s, [Skip(now)]) == s
  {
    OneMore(s, [], Skip(now));
  }

  lemma {:induction false} RunsJoin(s: State, a: seq<Event>, b: seq<Event>)
    requires Possible(s, a) && Possible(End(s, a), b)
    ensures Possible(s, a + b) && End(s, a + b) == End(End(s, a), b)
    decreases |b|
  {
    if b == [] {
      assert a + b == a;
    } else {
      RunsJoin(s, a, b[..|b| - 1]);
      OneMore(s, a + b[..|b| - 1], b[|b| - 1]);
      assert (a + b[..|b| - 1]) + [b[|b| - 1]] == a + b;
    }
  }

  /** A start, the probes and a finish make a run. */
  lemma WholeRefresh(s: State, started: State, es: seq<Event>, probed: State, now: int, later: int)
    requires Enabled(s, Start(now)) && started == After(s, Start(now))
    requires Possible(started, es) && End(started, es) == probed && probed.phase == Refreshing({})
    ensures var all := [Start(now)] + es + [Finish(later)];
      Possible(s, all) && End(s, all) == After(probed, Finish(later))
  {
    OneMore(s, [], Start(now));
    assert [] + [Start(now)] == [Start(now)];
    RunsJoin(s, [Start(now)], es);
    OneMore(s, [Start(now)] + es, Finish(later));
  }

  /** Every connection that is not pending is marked as its probe ended, and is active if it answered. */
  ghost predicate Settled(s: State, pending: set<Host>, outcomes: map<Host, Outcome>) {
    && s.status.Keys == s.connections == outcomes.Keys
    && (forall h :: h in s.connections - pending ==> s.status[h] == if outcomes[h].Greeted? then Alive else Dead)
    && (forall h :: h in s.connections - pending ==> (h in s.actives <==> outcomes[h].Greeted?))
    && (forall h :: h in s.actives ==> h in s.connections - pending)
  }

  lemma StartSettled(s: State, outcomes: map<Host, Outcome>)
    requires s.status.Keys == s.connections == outcomes.Keys && s.actives == []
    ensures Settled(s, s.connections, outcomes)
  {
  }

  lemma ProbeSettles(s: State, pending: set<Host>, outcomes: map<Host, Outcome>, host: Host)
    requires s.phase == Refreshing(pending) && Settled(s, pending, outcomes)
    requires host in pending && pending <= s.connections
    ensures Enabled(s, Probe(host, outcomes[host]))
    ensures Settled(After(s, Probe(host, outcomes[host])), pending - {host}, outcomes)
  {
  }

  lemma FinishSettles(s: State, outcomes: map<Host, Outcome>, now: int)
    requires Settled(s, {}, outcomes) && Enabled(s, Finish(now))
    ensures Settled(After(s, Finish(now)), {}, outcomes)
  {
  }

  /** A pool just after CreateConnections. */
  function Fresh(hosts: set<Host>, last: int): State {
    State(hosts, map h | h in hosts :: Unset, [], 0, last, Idle)
  }

  /** Actives lists, without repeats, exactly the probed connections that are marked alive. */
  ghost predicate Inv(s: State) {
    && s.status.Keys == s.connections
    && s.Pending() <= s.connections
    && Distinct(s.actives)
    && (forall h :: h in s.actives <==> h in s.connections - s.Pending() && s.status[h].Alive?)
  }

  lemma StepKeepsInv(s: State, e: Event)
    requires Inv(s) && Enabled(s, e)
    ensures Inv(After(s, e))
  {
    if e.Probe? && e.outcome.Greeted? {
      DistinctSnoc(s.actives, e.host);
    }
  }

  /** Over whole runs, in the middle of a refresh as well as between them: Actives is a duplicate-free
      part of Connections, and between refreshes it is exactly the part marked alive. */
  lemma {:induction false} RunsAreSafe(hosts: set<Host>, last: int, es: seq<Event>)
    requires Possible(Fresh(hosts, last), es)
    ensures Inv(End(Fresh(hosts, last), es))
    ensures End(Fresh(hosts, last), es).connections == hosts
    decreases |es|
  {
    if es != [] {
      RunsAreSafe(hosts, last, es[..|es| - 1]);
      StepKeepsInv(End(Fresh(hosts, last), es[..|es| - 1]), es[|es| - 1]);
    }
  }

  /** The throttle compares lengths only, and that is enough: a skipped refresh leaves every
      connection in Actives and marked alive. */
  lemma SkipMissesNothing(hosts: set<Host>, last: int, es: seq<Event>, now: int)
    requires Possible(Fresh(hosts, last), es)
    requires Enabled(End(Fresh(hosts, last), es), Skip(now))
    ensures var s := End(Fresh(hosts, last), es);
      forall h :: h in hosts ==> h in s.actives && h in s.status && s.status[h].Alive?
  {
    RunsAreSafe(hosts, last, es);
    var s := End(Fresh(hosts, last), es);
    DistinctSize(s.actives);
    SubsetOfSameSize(Elements(s.actives), hosts);
    assert forall h :: h in hosts ==> h in Elements(s.actives);
  }

  /** The hosts greeted since the last refresh started, in the order of their probes. */
  function GreetedSince(es: seq<Event>): seq<Host> {
    if es == [] || es[|es| - 1].Start? then []
    else
      var e := es[|es| - 1];
      GreetedSince(es[..|es| - 1]) + if e.Probe? && e.outcome.Greeted? then [e.host] else []
  }

  /** Actives lists them in that order. */
  lemma {:induction false} ActivesInOrder(hosts: set<Host>, last: int, es: seq<Event>)
    requires Possible(Fresh(hosts, last), es)
    ensures End(Fresh(hosts, last), es).actives == GreetedSince(es)
    decreases |es|
  {
    if es != [] {
      ActivesInOrder(hosts, last, es[..|es| - 1]);
    }
  }

  /** When the last refresh of a run ended. */
  function LastFinish(last: int, es: seq<Event>): int {
    if es == [] then last
    else if es[|es| - 1].Finish? then es[|es| - 1].now
    else LastFinish(last, es[..|es| - 1])
  }

  lemma {:induction false} LastIsFinish(hosts: set<Host>, last: int, es: seq<Event>)
    requires Possible(Fresh(hosts, last), es)
    ensures End(Fresh(hosts, last), es).last == LastFinish(last, es)
    decreases |es|
  {
    if es != [] {
      LastIsFinish(hosts, last, es[..|es| - 1]);
    }
  }

  /** After any run, a refresh probes if and only if the last one ended more than five seconds ago or some
      connection is not active; otherwise, and only then, it is skipped. */
  lemma StartsExactly(hosts: set<Host>, last: int, es: seq<Event>, now: int)
    requires Possible(Fresh(hosts, last), es) && End(Fresh(hosts, last), es).phase.Idle?
    ensures var s := End(Fresh(hosts, last), es);
      var due := now - LastFinish(last, es) > 5_000_000_000 || exists h :: h in hosts && h !in s.actives;
      (Enabled(s, Start(now)) <==> due) && (Enabled(s, Skip(now)) <==> !due)
  {
    RunsAreSafe(hosts, last, es);
    LastIsFinish(hosts, last, es);
    var s := End(Fresh(hosts, last), es);
    hide Possible, End, LastFinish;
    DistinctSize(s.actives);
    assert Elements(s.actives) <= hosts;
    if |hosts| == |s.actives| {
      SubsetOfSameSize(Elements(s.actives), hosts);
      assert forall h :: h in hosts ==> h in Elements(s.actives);
    } else {
      assert Elements(s.actives) != hosts;
      var h :| h in hosts && h !in Elements(s.actives);
      assert h !in s.actives;
    }
  }

  // ---- the errors of a refresh ----

  /** One goroutine's write to connErrors. Its index is the loop variable, which all goroutines share and
      which only grows: when it writes, the loop may have moved on. */
  datatype Write = Write(own: nat, slot: nat, failed: bool)

  /** connErrors after the writes: which of the `n` slots hold an error. */
  function Slots(n: nat, ws: seq<Write>): (r: seq<bool>)
    requires forall w :: w in ws ==> w.slot < n
    ensures |r| == n
  {
    if ws == [] then seq(n, i => false)
    else
      assert forall w :: w in ws[..|ws| - 1] ==> w in ws;
      assert ws[|ws| - 1] in ws;
      Slots(n, ws[..|ws| - 1])[ws[|ws| - 1].slot := ws[|ws| - 1].failed]
  }

  lemma SlotsSnoc(n: nat, ws: seq<Write>, w: Write)
    requires w.slot < n && forall v :: v in ws ==> v.slot < n
    ensures Slots(n, ws + [w]) == Slots(n, ws)[w.slot := w.failed]
  {
    assert (ws + [w])[..|ws|] == ws;
  }

  /** Every goroutine writes once, to its own slot or a later one, and no write goes to an earlier slot
      than the writes before it. */
  ghost predicate Captured(n: nat, ws: seq<Write>) {
    && (forall i :: 0 <= i < |ws| ==> ws[i].own <= ws[i].slot < n)
    && (forall i, j :: 0 <= i < j < |ws| ==> ws[i].own != ws[j].own && ws[i].slot <= ws[j].slot)
  }

  predicate AllFailed(ws: seq<Write>) {
    forall i :: 0 <= i < |ws| ==> ws[i].failed
  }

  predicate AllSet(bs: seq<bool>) {
    forall b :: b in bs ==> b
  }

  /** Every goroutine failed, and the loop variable was still its own when it wrote. */
  ghost predicate FailedInPlace(ws: seq<Write>) {
    forall i :: 0 <= i < |ws| ==> ws[i].failed && ws[i].slot == ws[i].own
  }

  /** Some goroutine wrote to slot `k`. */
  ghost predicate Hit(ws: seq<Write>, k: nat) {
    exists i :: 0 <= i < |ws| && ws[i].slot == k
  }

  /** A slot that is set was written by a failed goroutine, and one that only failed goroutines wrote to is set. */
  lemma {:induction false} SetByFailure(n: nat, ws: seq<Write>, k: nat)
    requires Captured(n, ws) && k < n
    ensures Slots(n, ws)[k] ==> exists i :: 0 <= i < |ws| && ws[i].slot == k && ws[i].failed
    ensures Hit(ws, k) ==> (forall i :: 0 <= i < |ws| && ws[i].slot == k ==> ws[i].failed) ==> Slots(n, ws)[k]
    decreases |ws|
  {
    if ws != [] {
      var front, last := ws[..|ws| - 1], ws[|ws| - 1];
      SetByFailure(n, front, k);
      assert forall i :: 0 <= i < |front| ==> ws[i] == front[i];
      if last.slot != k && Hit(ws, k) {
        var i :| 0 <= i < |ws| && ws[i].slot == k;
        assert front[i].slot == k;
      }
    }
  }

  /** When every slot is set, slot k was set by goroutine k: the earlier ones are in their own places. */
  lemma {:induction false} SetInPlace(n: nat, ws: seq<Write>, k: nat) returns (i: nat)
    requires Captured(n, ws) && AllSet(Slots(n, ws)) && k < n
    ensures i < |ws| && ws[i].own == ws[i].slot == k && ws[i].failed
    decreases k
  {
    assert Slots(n, ws)[k] in Slots(n, ws);
    SetByFailure(n, ws, k);
    i :| 0 <= i < |ws| && ws[i].slot == k && ws[i].failed;
    if ws[i].own < k {
      var j := SetInPlace(n, ws, ws[i].own);
      assert i == j;
    }
  }

  /** All n slots hold an error if and only if every probe failed and every goroutine wrote to its own slot. */
  lemma AllSetExactly(n: nat, ws: seq<Write>)
    requires Captured(n, ws) && |ws| == n
    ensures AllSet(Slots(n, ws)) <==> FailedInPlace(ws)
  {
    if AllSet(Slots(n, ws)) {
      forall i | 0 <= i < |ws| ensures ws[i].failed && ws[i].slot == ws[i].own {
        var j := SetInPlace(n, ws, ws[i].own);
        assert i == j;
      }
    }
    if FailedInPlace(ws) {
      forall k | 0 <= k < n ensures Slots(n, ws)[k] {
        EveryOwn(n, ws, k);
        assert Hit(ws, k);
        SetByFailure(n, ws, k);
      }
    }
  }

  /** n goroutines below n: every index is someone's own. */
  lemma EveryOwn(n: nat, ws: seq<Write>, k: nat)
    requires Captured(n, ws) && |ws| == n && k < n
    ensures exists i :: 0 <= i < |ws| && ws[i].own == k
  {
    var owns := seq(n, i requires 0 <= i < n => ws[i].own);
    DistinctSize(owns);
    IndicesBelow(n);
    assert Elements(owns) <= Indices(n);
    SubsetOfSameSize(Elements(owns), Indices(n));
    assert k in Elements(owns);
  }

  ghost function Indices(n: nat): set<nat> {
    if n == 0 then {} else Indices(n - 1) + {n - 1}
  }

  lemma {:induction false} IndicesBelow(n: nat)
    ensures |Indices(n)| == n && forall i: nat :: i in Indices(n) <==> i < n
  {
    if n > 0 {
      IndicesBelow(n - 1);
    }
  }

  function IndexOf(hosts: seq<Host>, host: Host): (i: nat)
    requires host in hosts
    ensures i < |hosts| && hosts[i] == host
  {
    if hosts[0] == host then 0 else 1 + IndexOf(hosts[1..], host)
  }

  /** A probe that is back was refused for its password. */
  ghost predicate SomeWrong(outcomes: map<Host, Outcome>, pending: set<Host>) {
    exists h :: h in outcomes && h !in pending && outcomes[h].WrongPassword?
  }

  lemma SomeWrongStep(outcomes: map<Host, Outcome>, pending: set<Host>, host: Host)
    requires host in pending && host in outcomes
    ensures SomeWrong(outcomes, pending - {host}) <==> SomeWrong(outcomes, pending) || outcomes[host].WrongPassword?
  {
  }

  ghost predicate SomeGreeted(outcomes: map<Host, Outcome>) {
    exists h :: h in outcomes && outcomes[h].Greeted?
  }

  /** The write is that of a probe that is back: it says whether the probe failed. */
  ghost predicate Tells(hosts: seq<Host>, outcomes: map<Host, Outcome>, pending: set<Host>, w: Write) {
    && w.own < |hosts| && hosts[w.own] in outcomes && hosts[w.own] !in pending
    && w.failed == !outcomes[hosts[w.own]].Greeted?
  }

  /** connErrors after the writes. */
  ghost predicate Shown(n: nat, ws: seq<Write>, connErrors: seq<bool>) {
    (forall w :: w in ws ==> w.slot < n) && connErrors == Slots(n, ws)
  }

  /** The writes so far are those of the probes that are back, none beyond slot `idx`. */
  ghost predicate Recorded(hosts: seq<Host>, outcomes: map<Host, Outcome>, pending: set<Host>,
                           ws: seq<Write>, idx: nat)
  {
    && Distinct(hosts) && Elements(hosts) == outcomes.Keys && pending <= outcomes.Keys
    && Captured(|hosts|, ws) && |ws| + |pending| == |hosts|
    && (idx == 0 || idx < |hosts|) && (forall w :: w in ws ==> w.slot <= idx)
    && (forall w :: w in ws ==> Tells(hosts, outcomes, pending, w))
  }

  lemma StartRecorded(hosts: seq<Host>, outcomes: map<Host, Outcome>)
    requires Distinct(hosts) && Elements(hosts) == outcomes.Keys
    ensures Recorded(hosts, outcomes, outcomes.Keys, [], 0) && Shown(|hosts|, [], seq(|hosts|, i => false))
  {
    DistinctSize(hosts);
  }

  lemma Listed(hosts: seq<Host>, outcomes: map<Host, Outcome>, pending: set<Host>, ws: seq<Write>, idx: nat,
               connErrors: seq<bool>, host: Host)
    requires Recorded(hosts, outcomes, pending, ws, idx) && Shown(|hosts|, ws, connErrors) && host in pending
    ensures host in hosts && (idx < |hosts| || idx == 0) && |connErrors| == |hosts|
  {
    assert host in Elements(hosts);
  }

  /** One more goroutine writes, where the loop has got to: at `slot`. */
  lemma RecordOne(hosts: seq<Host>, outcomes: map<Host, Outcome>, pending: set<Host>, ws: seq<Write>,
                  idx: nat, connErrors: seq<bool>, host: Host, slot: nat)
    requires Recorded(hosts, outcomes, pending, ws, idx) && Shown(|hosts|, ws, connErrors)
    requires host in pending && host in hosts && |connErrors| == |hosts|
    requires IndexOf(hosts, host) <= slot < |hosts| && idx <= slot
    ensures var failed := !outcomes[host].Greeted?;
      var more := ws + [Write(IndexOf(hosts, host), slot, failed)];
      Recorded(hosts, outcomes, pending - {host}, more, slot) && Shown(|hosts|, more, connErrors[slot := failed])
  {
    var last := Write(IndexOf(hosts, host), slot, !outcomes[host].Greeted?);
    OneMoreWrite(hosts, outcomes, pending, ws, idx, last);
    SlotsSnoc(|hosts|, ws, last);
    assert |pending - {host}| == |pending| - 1;
    hide Captured, IndexOf, Distinct, Elements, Slots;
    forall w | w in ws + [last] ensures Tells(hosts, outcomes, pending - {host}, w) {
      assert w == last || w in ws;
    }
  }

  lemma OneMoreWrite(hosts: seq<Host>, outcomes: map<Host, Outcome>, pending: set<Host>, ws: seq<Write>,
                     idx: nat, last: Write)
    requires Recorded(hosts, outcomes, pending, ws, idx) && last.own < |hosts| && hosts[last.own] in pending
    requires last.own <= last.slot < |hosts| && idx <= last.slot
    ensures Captured(|hosts|, ws + [last])
  {
    var more := ws + [last];
    assert forall i :: 0 <= i < |ws| ==> more[i] == ws[i] && ws[i] in ws;
  }

  /** The writes of a refresh whose probes all came back, its hosts ranged over in the order `hosts`. */
  ghost predicate RefreshWrites(hosts: seq<Host>, outcomes: map<Host, Outcome>, ws: seq<Write>) {
    exists idx :: Recorded(hosts, outcomes, {}, ws, idx)
  }

  datatype RefreshError = NoError | WrongPasswordError | NoHostError

  /** What a refresh returns: a refused password comes first; otherwise it takes n errors in n places. */
  ghost function ErrorOf(outcomes: map<Host, Outcome>, ws: seq<Write>): RefreshError {
    if SomeWrong(outcomes, {}) then WrongPasswordError
    else if FailedInPlace(ws) then NoHostError
    else NoError
  }

  /** All probes are back: connErrors is full exactly when each failed in its own place, and one that was
      greeted shows. */
  lemma AllRecorded(hosts: seq<Host>, outcomes: map<Host, Outcome>, ws: seq<Write>)
    requires RefreshWrites(hosts, outcomes, ws)
    ensures |ws| == |hosts| == |outcomes| && Captured(|hosts|, ws)
    ensures AllSet(Slots(|hosts|, ws)) <==> FailedInPlace(ws)
    ensures AllFailed(ws) <==> !SomeGreeted(outcomes)
  {
    DistinctSize(hosts);
    assert |outcomes.Keys| == |outcomes|;
    AllSetExactly(|hosts|, ws);
    hide FailedInPlace, AllSet, Slots;
    if AllFailed(ws) {
      forall h | h in outcomes ensures !outcomes[h].Greeted? {
        assert h in Elements(hosts);
        var k :| 0 <= k < |hosts| && hosts[k] == h;
        EveryOwn(|hosts|, ws, k);
        var i :| 0 <= i < |ws| && ws[i].own == k;
        assert ws[i] in ws;
      }
    } else {
      var i :| 0 <= i < |ws| && !ws[i].failed;
      assert ws[i] in ws;
      assert outcomes[hosts[ws[i].own]].Greeted?;
    }
  }

  lemma AllShown(hosts: seq<Host>, outcomes: map<Host, Outcome>, ws: seq<Write>, connErrors: seq<bool>)
    requires RefreshWrites(hosts, outcomes, ws) && Shown(|hosts|, ws, connErrors)
    ensures AllSet(connErrors) <==> FailedInPlace(ws)
  {
    AllRecorded(hosts, outcomes, ws);
  }

  /** In no order of hosts and probes does a refresh with these outcomes end without an error. */
  ghost predicate AlwaysSays(outcomes: map<Host, Outcome>) {
    forall hosts, ws :: RefreshWrites(hosts, outcomes, ws) ==> ErrorOf(outcomes, ws) != NoError
  }

  /** A refresh is sure to return an error if and only if a password was refused, or nobody was greeted and
      there is at most one connection: with two, both goroutines may write to the second slot. */
  lemma SilenceExactly(outcomes: map<Host, Outcome>)
    ensures AlwaysSays(outcomes) <==> SomeWrong(outcomes, {}) || (!SomeGreeted(outcomes) && |outcomes| <= 1)
  {
    hide SomeWrong, Recorded;
    if !SomeGreeted(outcomes) && |outcomes| <= 1 {
      forall hosts, ws | RefreshWrites(hosts, outcomes, ws) ensures FailedInPlace(ws) {
        AllRecorded(hosts, outcomes, ws);
      }
    } else if !SomeWrong(outcomes, {}) {
      var hosts := HostsOf(outcomes.Keys);
      assert |hosts| == |outcomes| by {
        DistinctSize(hosts);
        assert |outcomes.Keys| == |outcomes|;
      }
      var ws := LastPlace(hosts, outcomes);
      AllRecorded(hosts, outcomes, ws);
      assert !FailedInPlace(ws);
    }
  }

  lemma {:induction false} HostsOf(s: set<Host>) returns (hosts: seq<Host>)
    ensures Distinct(hosts) && Elements(hosts) == s
    decreases |s|
  {
    if s == {} {
      hosts := [];
    } else {
      var h :| h in s;
      var rest := HostsOf(s - {h});
      assert h !in Elements(rest);
      DistinctSnoc(rest, h);
      hosts := rest + [h];
      assert Elements(hosts) == Elements(rest) + {h};
    }
  }

  /** The run in which the loop is over before any goroutine writes. */
  lemma LastPlace(hosts: seq<Host>, outcomes: map<Host, Outcome>) returns (ws: seq<Write>)
    requires Distinct(hosts) && Elements(hosts) == outcomes.Keys && hosts != []
    ensures RefreshWrites(hosts, outcomes, ws) && |ws| == |hosts|
    ensures forall i :: 0 <= i < |ws| ==> ws[i].own == i && ws[i].slot == |hosts| - 1
  {
    assert forall i :: 0 <= i < |hosts| ==> hosts[i] in Elements(hosts);
    ws := seq(|hosts|, i requires 0 <= i < |hosts| => Write(i, |hosts| - 1, !outcomes[hosts[i]].Greeted?));
    assert Captured(|hosts|, ws);
    hide Captured;
    assert Recorded(hosts, outcomes, {}, ws, |hosts| - 1);
  }

  // ---- the pool ----

  class Connection {
    const host: Host
    var active: Status

    constructor (host: Host)
      ensures this.host == host && active == Unset
    {
      this.host := host;
      active := Unset;
    }
  }

  class ConnectionPool {
    var connections: map<Host, Connection>
    var actives: seq<Connection>
    var randomTick: nat
    var lastActivesTime: int

    /** Connections are filed under their own host and Actives holds some of them. */
    ghost predicate Valid()
      reads this
    {
      && (forall h :: h in connections ==> connections[h].host == h)
      && (forall c :: c in actives ==> c.host in connections && connections[c.host] == c)
    }

    ghost function Snapshot(phase: Phase): (s: State)
      reads this, connections.Values
      ensures s.connections == s.status.Keys == connections.Keys && |s.actives| == |actives|
      ensures s.tick == randomTick && s.last == lastActivesTime && s.phase == phase
    {
      State(connections.Keys, map h | h in connections :: connections[h].active,
            seq(|actives|, i requires 0 <= i < |actives| reads this => actives[i].host),
            randomTick, lastActivesTime, phase)
    }

    ghost function View(): State
      reads this, connections.Values
    {
      Snapshot(Idle)
    }

    constructor (zeroTime: int)
      ensures Valid() && connections == map[] && actives == []
      ensures randomTick == 0 && lastActivesTime == zeroTime
    {
      connections, actives := map[], [];
      randomTick, lastActivesTime := 0, zeroTime;
    }

    method CreateConnections(hosts: seq<Host>)
      requires connections == map[] && actives == [] && randomTick == 0
      modifies this`connections
      ensures Valid() && forall h :: h in connections ==> fresh(connections[h])
      ensures View() == Fresh(Elements(hosts), lastActivesTime)
    {
      for i := 0 to |hosts|
        invariant connections.Keys == Elements(hosts[..i])
        invariant forall h :: h in connections ==>
          (fresh(connections[h]) && connections[h].host == h && connections[h].active == Unset)
      {
        var conn := new Connection(hosts[i]);
        connections := connections[hosts[i] := conn];
        assert hosts[..i + 1] == hosts[..i] + [hosts[i]];
      }
      assert hosts[..|hosts|] == hosts;
    }

    lemma Filed(host: Host)
      requires Valid() && host in connections
      ensures connections[host].host == host
    {
    }

    /** One probe comes back: the body of the goroutine. */
    method Complete(conn: Connection, outcome: Outcome, ghost pending: set<Host>)
      requires Valid() && pending <= connections.Keys
      requires conn.host in pending && connections[conn.host] == conn
      modifies this`actives, conn
      ensures Valid()
      ensures Snapshot(Refreshing(pending - {conn.host}))
           == After(old(Snapshot(Refreshing(pending))), Probe(conn.host, outcome))
    {
      if outcome.Greeted? {
        conn.active := Alive;
        actives := actives + [conn];
      } else {
        conn.active := Dead;
      }
      ghost var was, s := old(Snapshot(Refreshing(pending))), Snapshot(Refreshing(pending - {conn.host}));
      assert s.status == was.status[conn.host := outcome.Verdict()];
      assert s.actives == if outcome.Greeted? then was.actives + [conn.host] else was.actives;
    }

    /** The hosts in the order in which the map is ranged over, which is anybody's guess. */
    method ListHosts() returns (hosts: seq<Host>)
      ensures Distinct(hosts) && Elements(hosts) == connections.Keys
    {
      hosts := [];
      var todo := connections.Keys;
      while todo != {}
        invariant todo <= connections.Keys && Distinct(hosts) && Elements(hosts) == connections.Keys - todo
      {
        var host :| host in todo;
        assert host !in Elements(hosts);
        DistinctSnoc(hosts, host);
        hosts := hosts + [host];
        assert Elements(hosts) == Elements(hosts[..|hosts| - 1]) + {host};
        todo := todo - {host};
      }
    }

    /** All probes of one refresh, coming back in any order while the loop that started them goes on: `idx`
        is the loop variable, and how far it has got is anybody's guess. */
    method ProbeAll(hosts: seq<Host>, outcomes: map<Host, Outcome>)
        returns (wrongPassword: bool, connErrors: seq<bool>, ghost events: seq<Event>, ghost writes: seq<Write>)
      requires Valid() && outcomes.Keys == connections.Keys && actives == []
      requires Distinct(hosts) && Elements(hosts) == connections.Keys
      modifies this`actives, connections.Values
      ensures Valid()
      ensures wrongPassword <==> SomeWrong(outcomes, {})
      ensures Possible(old(Snapshot(Refreshing(connections.Keys))), events)
      ensures End(old(Snapshot(Refreshing(connections.Keys))), events) == Snapshot(Refreshing({}))
      ensures Settled(Snapshot(Refreshing({})), {}, outcomes)
      ensures RefreshWrites(hosts, outcomes, writes)
      ensures Shown(|hosts|, writes, connErrors)
    {
      hide Possible, End, Settled, After, Snapshot, Valid, Recorded, Distinct, Elements, IndexOf, Shown;
      var pending := connections.Keys;
      assert !SomeWrong(outcomes, pending);
      hide SomeWrong;
      ghost var first := Snapshot(Refreshing(pending));
      wrongPassword, connErrors, events, writes := false, seq(|hosts|, i => false), [], [];
      var idx := 0;
      EmptyRun(first);
      StartSettled(first, outcomes);
      StartRecorded(hosts, outcomes);
      while pending != {}
        invariant pending <= connections.Keys && Valid()
        invariant Possible(first, events) && End(first, events) == Snapshot(Refreshing(pending))
        invariant wrongPassword <==> SomeWrong(outcomes, pending)
        invariant Settled(Snapshot(Refreshing(pending)), pending, outcomes)
        invariant Recorded(hosts, outcomes, pending, writes, idx) && Shown(|hosts|, writes, connErrors)
      {
        var host :| host in pending;
        Filed(host);
        ProbeSettles(Snapshot(Refreshing(pending)), pending, outcomes, host);
        OneMore(first, events, Probe(host, outcomes[host]));
        Complete(connections[host], outcomes[host], pending);
        wrongPassword := wrongPassword || outcomes[host].WrongPassword?;
        Listed(hosts, outcomes, pending, writes, idx, connErrors, host);
        var own := IndexOf(hosts, host);
        var reached :| own <= reached < |hosts| && idx <= reached;
        RecordOne(hosts, outcomes, pending, writes, idx, connErrors, host, reached);
        idx := reached;
        connErrors := connErrors[idx := !outcomes[host].Greeted?];
        writes := writes + [Write(own, idx, !outcomes[host].Greeted?)];
        SomeWrongStep(outcomes, pending, host);
        pending := pending - {host};
        events := events + [Probe(host, outcomes[host])];
      }
    }

    /** The state of a refresh that starts. */
    method ClearActives(ghost now: int)
      requires Valid() && !View().Throttled(now)
      modifies this`actives
      ensures Valid() && actives == []
      ensures Snapshot(Refreshing(connections.Keys)) == After(old(View()), Start(now))
    {
      actives := [];
      assert Snapshot(Refreshing(connections.Keys)).status == old(View()).status;
    }

    /** The deferred function of a refresh. */
    method StampActivesTime(later: int)
      requires Valid()
      modifies this`lastActivesTime
      ensures Valid() && lastActivesTime == later
      ensures View() == After(old(Snapshot(Refreshing({}))), Finish(later))
    {
      lastActivesTime := later;
      ghost var was := old(Snapshot(Refreshing({})));
      assert View().status == was.status && View().actives == was.actives;
    }

    /** `outcomes` is what the servers answer; `now` and `later` are the clock at entry and exit. */
    method RefreshActivesWithSeconds(now: int, later: int, outcomes: map<Host, Outcome>)
        returns (err: RefreshError, ghost events: seq<Event>, ghost hosts: seq<Host>, ghost writes: seq<Write>)
      requires Valid() && outcomes.Keys == connections.Keys
      modifies this`actives, this`lastActivesTime, connections.Values
      ensures Valid()
      ensures Possible(old(View()), events) && End(old(View()), events) == View()
      ensures old(now - lastActivesTime <= 5_000_000_000 && |connections| == |actives|) ==>
        events == [Skip(now)] && err == NoError && View() == old(View())
      ensures old(now - lastActivesTime > 5_000_000_000 || |connections| != |actives|) ==>
        && lastActivesTime == later && Settled(View(), {}, outcomes)
        && RefreshWrites(hosts, outcomes, writes) && err == ErrorOf(outcomes, writes)
    {
      hide Possible, End, Settled, After, Snapshot, Valid, RefreshWrites, Shown, FailedInPlace, AllSet, AllFailed,
        Captured, Distinct, Elements, SomeWrong, SomeGreeted, Slots;
      ghost var first := View();
      if now - lastActivesTime <= THROTTLE && |connections| == |actives| {
        SkipRun(first, now);
        return NoError, [Skip(now)], [], [];
      }
      var all := ListHosts();
      ClearActives(now);
      ghost var started := Snapshot(Refreshing(connections.Keys));
      var wrongPassword, connErrors;
      wrongPassword, connErrors, events, writes := ProbeAll(all, outcomes);
      ghost var probed := Snapshot(Refreshing({}));
      StampActivesTime(later);
      WholeRefresh(first, started, events, probed, now, later);
      FinishSettles(probed, outcomes, later);
      events, hosts := [Start(now)] + events + [Finish(later)], all;
      AllShown(hosts, outcomes, writes, connErrors);
      if wrongPassword {
        return WrongPasswordError, events, hosts, writes;
      }
      var noneNil := NoneNil(connErrors);
      err := if noneNil then NoHostError else NoError;
    }

    /** The error is the None. */
    method GetRandomConn() returns (conn: Option<Connection>)
      requires Valid()
      modifies this`randomTick
      ensures Valid() && View() == After(old(View()), Pick)
      ensures conn.None? <==> actives == []
      ensures conn.Some? ==> conn.value == actives[(old(randomTick) + 1) % |actives|]
      ensures conn.Some? ==> conn.value.host == Chosen(old(View())) && connections[conn.value.host] == conn.value
    {
      if |actives| < 1 {
        return None;
      }
      randomTick := randomTick + 1;
      conn := Some(actives[randomTick % |actives|]);
    }
  }

  /** The loop over connErrors: the first nil ends it. */
  method NoneNil(connErrors: seq<bool>) returns (all: bool)
    ensures all <==> AllSet(connErrors)
  {
    for idx := 0 to |connErrors|
      invariant forall i :: 0 <= i < idx ==> connErrors[i]
    {
      if !connErrors[idx] {
        assert connErrors[idx] in connErrors;
        return false;
      }
    }
    all := true;
  }

  // ---- round robin ----

  /** The connection the next GetRandomConn returns. */
  function Chosen(s: State): Host
    requires s.actives != []
  {
    s.actives[Turn(s.tick, |s.actives|)]
  }

  function Turn(tick: nat, n: nat): nat
    requires n > 0
  {
    (tick + 1) % n
  }

  /** What `m` calls in a row return. */
  function Served(s: State, m: nat): seq<Host>
    requires s.phase.Idle? && s.actives != []
    decreases m
  {
    if m == 0 then [] else [Chosen(s)] + Served(After(s, Pick), m - 1)
  }

  lemma Multiple(d: int, n: nat)
    ensures d > 0 ==> d * n >= n
    ensures d < 0 ==> d * n <= 0 - n
  {
  }

  lemma Division(x: int, n: nat, q: int, r: int)
    requires x == q * n + r && 0 <= r < n
    ensures x / n == q && x % n == r
  {
    var d := x / n - q;
    assert d * n == r - x % n;
    Multiple(d, n);
  }

  /** How many multiples of `n` lie between p and x. */
  function Laps(x: int, n: nat, p: nat): int
    requires n > 0
  {
    (x - p) / n
  }

  /** Counting up by one completes a lap exactly when the residue comes round to `p`. */
  lemma CountUp(x: nat, n: nat, p: nat)
    requires p < n
    ensures Laps(x + 1, n, p) == Laps(x, n, p) + (if Turn(x, n) == p then 1 else 0)
  {
    CountUpAt(x, n, p, (x - p) / n, (x - p) % n);
  }

  lemma CountUpAt(x: nat, n: nat, p: nat, q: int, r: int)
    requires p < n && 0 <= r < n && x - p == q * n + r
    ensures Laps(x + 1, n, p) == if r + 1 < n then q else q + 1
    ensures Turn(x, n) == p <==> r + 1 == n
  {
    if r + 1 < n {
      Division(x + 1 - p, n, q, r + 1);
      if r + 1 + p < n {
        Division(x + 1, n, q, r + 1 + p);
      } else {
        NextLap(x + 1, n, q, r + 1 + p);
      }
    } else {
      NextLap(x + 1 - p, n, q, n);
      NextLap(x + 1, n, q, n + p);
    }
  }

  lemma NextLap(x: int, n: nat, q: int, r: int)
    requires x == q * n + r && n <= r < 2 * n
    ensures x / n == q + 1 && x % n == r - n
  {
    assert (q + 1) * n == q * n + n;
    Division(x, n, q + 1, r - n);
  }

  /** `m` steps complete m / n laps, or one more; exactly m / n when they are whole laps. */
  lemma LapsIn(x: int, m: nat, n: nat, p: nat)
    requires p < n
    ensures m / n <= Laps(x + m, n, p) - Laps(x, n, p) <= m / n + 1
    ensures m % n == 0 ==> Laps(x + m, n, p) - Laps(x, n, p) == m / n
  {
    var a, b, q, r := (x - p) / n, (x - p) % n, m / n, m % n;
    assert (a + q) * n == a * n + q * n;
    if b + r < n {
      Division(x + m - p, n, a + q, b + r);
    } else {
      NextLap(x + m - p, n, a + q, b + r);
    }
  }

  lemma CountFirst(h: Host, hs: seq<Host>, x: Host)
    ensures multiset([h] + hs)[x] == multiset(hs)[x] + (if h == x then 1 else 0)
  {
    assert multiset([h] + hs) == multiset{h} + multiset(hs);
  }

  /** How often `m` calls in a row serve `h`. */
  function Times(s: State, m: nat, h: Host): nat
    requires s.phase.Idle? && s.actives != []
  {
    multiset(Served(s, m))[h]
  }

  /** The next call serves position p exactly when its turn has come. */
  lemma ServedFirst(s: State, m: nat, p: nat)
    requires s.phase.Idle? && Distinct(s.actives) && p < |s.actives| && m > 0
    ensures Times(s, m, s.actives[p])
         == Times(s.(tick := s.tick + 1), m - 1, s.actives[p]) + (if Turn(s.tick, |s.actives|) == p then 1 else 0)
  {
    CountFirst(Chosen(s), Served(After(s, Pick), m - 1), s.actives[p]);
  }

  lemma {:induction false} ServedCount(s: State, m: nat, p: nat)
    requires s.phase.Idle? && Distinct(s.actives) && p < |s.actives|
    ensures Times(s, m, s.actives[p]) == Laps(s.tick + m, |s.actives|, p) - Laps(s.tick, |s.actives|, p)
    decreases m
  {
    if m > 0 {
      hide *;
      ServedFirst(s, m, p);
      ServedCount(s.(tick := s.tick + 1), m - 1, p);
      CountUp(s.tick, |s.actives|, p);
      assert s.tick + 1 + (m - 1) == s.tick + m;
    }
  }

  /** Round robin is fair from any starting tick: `m` calls in a row serve every active connection the
      same number of times, give or take one, and k rounds of them serve each exactly k times. */
  lemma ServedEvenly(s: State, m: nat, h: Host)
    requires s.phase.Idle? && Distinct(s.actives) && h in s.actives
    ensures var n, times := |s.actives|, Times(s, m, h);
      m / n <= times <= m / n + 1 && (m % n == 0 ==> times == m / n)
  {
    var p :| 0 <= p < |s.actives| && s.actives[p] == h;
    hide Times;
    ServedCount(s, m, p);
    LapsIn(s.tick, m, |s.actives|, p);
  }

  /** Picks only read the pool: after any run they serve nothing but live connections. */
  lemma {:induction false} ServedAlive(s: State, m: nat)
    requires Inv(s) && s.phase.Idle? && s.actives != []
    ensures forall h :: h in Served(s, m) ==> h in s.connections && s.status[h].Alive?
    decreases m
  {
    if m > 0 {
      ServedAlive(After(s, Pick), m - 1);
      assert Chosen(s) in s.actives;
    }
  }
}
