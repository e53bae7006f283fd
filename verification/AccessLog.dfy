/** How often a user's access time is reported to the database, over whole runs. */
module AccessLog {
  import opened Octets
  import opened Tables
  import opened Forwarding
  import opened Ownership
  import opened System
  import opened Safety

  /** The times reported for one record, in order. */
  function Times(sent: seq<UpdateTime>, p: Ptr): seq<nat> {
    if sent == [] then []
    else
      var n := |sent| - 1;
      if sent[n].record == p then Times(sent[..n], p) + [sent[n].utc] else Times(sent[..n], p)
  }

  lemma TimesAppend(sent: seq<UpdateTime>, u: UpdateTime, p: Ptr)
    ensures Times([], p) == []
    ensures Times(sent + [u], p) == if u.record == p then Times(sent, p) + [u.utc] else Times(sent, p)
  {
    assert (sent + [u])[..|sent|] == sent;
  }

  /** Each time exceeds the one before it plus the timeout, as the 64-bit comparison computes that sum. */
  predicate Stepwise(ts: seq<nat>, timeout: nat) {
    forall k :: 0 < k < |ts| ==> (ts[k - 1] + timeout) % TWO64 < ts[k]
  }

  /** A live record remembers its last report; a record not yet allocated has none. */
  predicate LogOf(s: Sys, p: Ptr) {
    && Stepwise(Times(s.sent, p), s.timeout)
    && (p >= s.gw.next ==> Times(s.sent, p) == [])
    && (p in s.gw.live ==> Remembers(s.gw.live[p], Times(s.sent, p), s.timeout))
  }

  ghost predicate LogInv(s: Sys) {
    forall p: Ptr :: LogOf(s, p)
  }

  predicate Remembers(u: UserInfo, ts: seq<nat>, timeout: nat) {
    u.timeout == timeout && (ts != [] ==> u.lastAccess == ts[|ts| - 1])
  }

  /** A step that reports nothing: records only disappear, or are new. */
  predicate Quiet(s: Sys, s': Sys) {
    && s'.sent == s.sent && s'.timeout == s.timeout && s'.gw.next >= s.gw.next
    && forall p :: p in s'.gw.live ==>
         || (p in s.gw.live && s'.gw.live[p] == s.gw.live[p])
         || (p >= s.gw.next && s'.gw.live[p].timeout == s.timeout)
  }

  lemma QuietKeepsLog(s: Sys, s': Sys)
    requires LogInv(s) && Quiet(s, s')
    ensures LogInv(s')
  {
    hide Times, Stepwise;
    forall p: Ptr ensures LogOf(s', p) {
      assert LogOf(s, p);
    }
  }

  lemma OtherStepsQuiet(s: Sys, a: Action)
    requires Inv(s) && Enabled(s, a) && !a.Inside?
    ensures Quiet(s, Step(s, a))
  {
    hide Owned, StaticsAgree, Settle, OutsideStep, RunCallback;
    match a {
      case Outside(f, junk) => OutsideOwned(s.gw, f, junk, s.addUser);
      case Callback(q) => CallbackQuiet(s, q);
      case _ =>
    }
  }

  lemma CallbackQuiet(s: Sys, q: Queue)
    requires Inv(s) && Enabled(s, Callback(q))
    ensures Quiet(s, Step(s, Callback(q)))
  {
    match q {
      case AddStaticQ => AddStaticsResult(s.gw, s.addStatic, s.table);
      case DelStaticQ => DelStaticsResult(s.gw, s.delStatic);
      case AddUserQ => AddUsersOwned(s.gw, s.addUser);
      case DelUserQ => DelUsersOwned(s.gw, s.delUser, s.addUser);
      case SendQ =>
    }
  }

  lemma InsideKeepsLog(s: Sys, f: seq<byte>, now: nat, junk: Junk)
    requires Inv(s) && LogInv(s)
    ensures LogInv(ServeInside(s, f, now, junk))
  {
    hide InsideStep, LogInv;
    InsideReport(s.gw, f, now, junk);
    var v := InsideStep(s.gw, f, now, junk).1;
    var s' := ServeInside(s, f, now, junk);
    if v.Forwarded? && v.update.Some? {
      ReportKeepsLog(s, s', v.update.value);
    } else {
      assert Quiet(s, s');
      QuietKeepsLog(s, s');
    }
  }

  lemma ReportKeepsLog(s: Sys, s': Sys, u: UpdateTime)
    requires LogInv(s) && u.record in s.gw.live && u.record < s.gw.next && UpdateDue(s.gw.live[u.record], u.utc)
    requires s'.sent == s.sent + [u] && s'.timeout == s.timeout && s'.gw.next == s.gw.next
    requires s'.gw.live == s.gw.live[u.record := s.gw.live[u.record].(lastAccess := u.utc)]
    ensures LogInv(s')
  {
    hide LogOf;
    forall p: Ptr ensures LogOf(s', p) {
      ReportKeepsLogOf(s, s', u, p);
    }
  }

  lemma ReportKeepsLogOf(s: Sys, s': Sys, u: UpdateTime, p: Ptr)
    requires LogOf(s, p) && u.record in s.gw.live && u.record < s.gw.next && UpdateDue(s.gw.live[u.record], u.utc)
    requires s'.sent == s.sent + [u] && s'.timeout == s.timeout && s'.gw.next == s.gw.next
    requires s'.gw.live == s.gw.live[u.record := s.gw.live[u.record].(lastAccess := u.utc)]
    ensures LogOf(s', p)
  {
    hide Times, Stepwise, UpdateDue;
    TimesAppend(s.sent, u, p);
    if p == u.record {
      StepwiseAppend(Times(s.sent, p), s.gw.live[p], u.utc);
    }
  }

  lemma StepwiseAppend(ts: seq<nat>, info: UserInfo, utc: nat)
    requires Stepwise(ts, info.timeout) && Remembers(info, ts, info.timeout) && UpdateDue(info, utc)
    ensures Stepwise(ts + [utc], info.timeout)
  {
  }

  lemma StepKeepsLog(s: Sys, a: Action)
    requires Inv(s) && LogInv(s) && Enabled(s, a)
    ensures LogInv(Step(s, a))
  {
    hide LogInv;
    if a.Inside? {
      InsideKeepsLog(s, a.f, a.now, a.junk);
    } else {
      OtherStepsQuiet(s, a);
      QuietKeepsLog(s, Step(s, a));
    }
  }

  lemma StartLog(s: Sys)
    requires Started(s)
    ensures LogInv(s)
  {
  }

  lemma {:induction false} ReachableLog(s: Sys, acts: seq<Action>)
    requires Started(s) && Runs(s, acts) && Exec(s, acts).gw.ok
    ensures LogInv(Exec(s, acts)) && Exec(s, acts).timeout == s.timeout
    decreases |acts|
  {
    hide Inv, LogInv, Step, Enabled;
    if acts == [] {
      StartLog(s);
    } else {
      RunSplits(s, acts);
      var n := |acts| - 1;
      var z := Exec(s, acts[..n]);
      OkStays(z, acts[n]);
      ReachableInv(s, acts[..n]);
      ReachableLog(s, acts[..n]);
      StepKeepsLog(z, acts[n]);
      TableFixed(z, acts[n]);
    }
  }

  /**
   * In any defined run from any start, whatever the clock and the stored times: each report of a record
   * is later than the one before it by the comparison's own arithmetic, so the gap exceeds the timeout
   * exactly when adding the timeout to the earlier report does not leave 64 bits.
   */
  lemma GapsExactly(s: Sys, acts: seq<Action>, p: Ptr, k: nat)
    requires Started(s) && Runs(s, acts) && Exec(s, acts).gw.ok
    requires 0 < k < |Times(Exec(s, acts).sent, p)|
    ensures var ts := Times(Exec(s, acts).sent, p);
            && (ts[k - 1] + s.timeout) % TWO64 < ts[k]
            && (ts[k] < TWO64 ==> (ts[k - 1] + s.timeout < ts[k] <==> ts[k - 1] + s.timeout < TWO64))
  {
    ReachableLog(s, acts);
    var ts := Times(Exec(s, acts).sent, p);
    assert LogOf(Exec(s, acts), p);
    hide Times, LogInv, Step, Enabled;
    WrapsOrNot(ts[k - 1] + s.timeout);
  }

  lemma WrapsOrNot(x: nat)
    ensures x < TWO64 ==> x % TWO64 == x
    ensures x % TWO64 < TWO64
  {
  }

  /** Clock readings leave room for the timeout below 2^64; the clock may otherwise jump at will. */
  predicate ClocksFit(timeout: nat, acts: seq<Action>) {
    forall i :: 0 <= i < |acts| && acts[i].Inside? ==> acts[i].now + timeout < TWO64
  }

  predicate IsReading(acts: seq<Action>, t: nat) {
    exists i :: 0 <= i < |acts| && acts[i].Inside? && acts[i].now == t
  }

  predicate AllRead(sent: seq<UpdateTime>, acts: seq<Action>) {
    forall i :: 0 <= i < |sent| ==> IsReading(acts, sent[i].utc)
  }

  /** Every reported time is a clock reading of the run. */
  lemma {:induction false} ReportsAreReadings(s: Sys, acts: seq<Action>)
    requires Started(s) && Runs(s, acts)
    ensures AllRead(Exec(s, acts).sent, acts)
    decreases |acts|
  {
    hide Step, Enabled, AllRead, Started;
    if acts == [] {
      NothingSent(s);
    } else {
      var n := |acts| - 1;
      RunSplits(s, acts);
      ReportsAreReadings(s, acts[..n]);
      assert acts[..n] + [acts[n]] == acts;
      StepSends(Exec(s, acts[..n]), acts[..n], acts[n]);
    }
  }

  lemma NothingSent(s: Sys)
    requires Started(s)
    ensures AllRead(s.sent, [])
  {
  }

  lemma StepSends(z: Sys, acts: seq<Action>, a: Action)
    requires Enabled(z, a) && AllRead(z.sent, acts)
    ensures AllRead(Step(z, a).sent, acts + [a])
  {
    hide InsideStep, OutsideStep, Settle, Decides, IsReading;
    forall t | IsReading(acts, t) ensures IsReading(acts + [a], t) {
      ReadingStays(acts, a, t);
    }
    if a.Inside? {
      var v := InsideStep(z.gw, a.f, a.now, a.junk).1;
      InsideReport(z.gw, a.f, a.now, a.junk);
      LastIsReading(acts, a);
      assert Step(z, a).sent == z.sent + if v.Forwarded? && v.update.Some? then [v.update.value] else [];
    } else {
      assert Step(z, a).sent == z.sent;
    }
  }

  lemma ReadingStays(acts: seq<Action>, a: Action, t: nat)
    requires IsReading(acts, t)
    ensures IsReading(acts + [a], t)
  {
    var i :| 0 <= i < |acts| && acts[i].Inside? && acts[i].now == t;
    assert (acts + [a])[i] == acts[i];
  }

  lemma LastIsReading(acts: seq<Action>, a: Action)
    requires a.Inside?
    ensures IsReading(acts + [a], a.now)
  {
    assert (acts + [a])[|acts|] == a;
  }

  lemma {:induction false} TimesFrom(sent: seq<UpdateTime>, p: Ptr, k: nat)
    requires k < |Times(sent, p)|
    ensures exists i :: 0 <= i < |sent| && sent[i].record == p && sent[i].utc == Times(sent, p)[k]
    decreases |sent|
  {
    var n := |sent| - 1;
    if k < |Times(sent[..n], p)| {
      TimesFrom(sent[..n], p, k);
      var i :| 0 <= i < n && sent[..n][i].record == p && sent[..n][i].utc == Times(sent, p)[k];
      assert sent[i] == sent[..n][i];
    } else {
      assert sent[n].record == p && sent[n].utc == Times(sent, p)[k];
    }
  }

  /** Times with gaps over the timeout span more than their number of timeouts. */
  lemma {:induction false} TimesSpan(ts: seq<nat>, timeout: nat, k: nat)
    requires k < |ts| && forall j :: 0 < j <= k ==> ts[j - 1] + timeout < ts[j]
    ensures ts[0] + k * (timeout + 1) <= ts[k]
  {
    if k == 0 {
    } else {
      TimesSpan(ts, timeout, k - 1);
      assert k * (timeout + 1) == (k - 1) * (timeout + 1) + (timeout + 1);
    }
  }

  /**
   * In any defined run whose clock stays below the 64-bit limit, and jumps at will otherwise, the times
   * reported for one record strictly increase with gaps over the timeout, so k + 1 reports span more
   * than k timeouts.
   */
  lemma ReportsAreSpaced(s: Sys, acts: seq<Action>, p: Ptr, k: nat)
    requires Started(s) && Runs(s, acts) && Exec(s, acts).gw.ok && ClocksFit(s.timeout, acts)
    requires k < |Times(Exec(s, acts).sent, p)|
    ensures var ts := Times(Exec(s, acts).sent, p);
            && (k > 0 ==> ts[k - 1] + s.timeout < ts[k])
            && ts[0] + k * (s.timeout + 1) <= ts[k]
  {
    hide Step, Enabled, Times, Stepwise, IsReading, ClocksFit, Started, Runs, Exec;
    ReportsAreReadings(s, acts);
    var sent := Exec(s, acts).sent;
    var ts := Times(sent, p);
    forall j | 0 < j <= k ensures ts[j - 1] + s.timeout < ts[j] {
      TimesFrom(sent, p, j - 1);
      TimesFrom(sent, p, j);
      ReadingFits(s.timeout, acts, ts[j - 1]);
      ReadingFits(s.timeout, acts, ts[j]);
      GapsExactly(s, acts, p, j);
    }
    TimesSpan(ts, s.timeout, k);
  }

  lemma ReadingFits(timeout: nat, acts: seq<Action>, t: nat)
    requires ClocksFit(timeout, acts) && IsReading(acts, t)
    ensures t + timeout < TWO64
  {
  }
}
