/** When a ban starts, how long it holds, and what counts toward it. */
module BlacklistBans {
  import opened Blacklist
  import opened BlacklistRuns

  /** Time never runs backwards in a history, and `now` is not before its end. */
  ghost predicate Clock(calls: seq<Call>, now: int) {
    && (forall i, j :: 0 <= i < j < |calls| ==> calls[i].now <= calls[j].now)
    && (forall i :: 0 <= i < |calls| ==> 0 <= calls[i].now <= now)
  }

  /** Call number k is the offence that completes a count of five. */
  predicate Trigger(calls: seq<Call>, k: nat, ip: nat)
    requires k < |calls|
  {
    calls[k].Illegal? && calls[k].ip == ip && Ledger(calls[..k], ip).errs + 1 >= THRESHOLD
  }

  /** Some trigger lies less than 300 seconds before `now`. */
  ghost predicate RecentTrigger(calls: seq<Call>, ip: nat, now: int) {
    exists k: nat :: k < |calls| && Trigger(calls, k, ip) && now < calls[k].now + 300
  }

  lemma RecentTriggerSnoc(calls: seq<Call>, ip: nat, now: int)
    requires calls != []
    ensures var m := |calls| - 1;
            RecentTrigger(calls, ip, now)
            <==> RecentTrigger(calls[..m], ip, now) || (Trigger(calls, m, ip) && now < calls[m].now + 300)
  {
    var m := |calls| - 1;
    forall k: nat | k < m
      ensures Trigger(calls, k, ip) == Trigger(calls[..m], k, ip)
    {
      assert calls[..m][..k] == calls[..k];
    }
    if RecentTrigger(calls[..m], ip, now) {
      var k: nat :| k < m && Trigger(calls[..m], k, ip) && now < calls[..m][k].now + 300;
      assert Trigger(calls, k, ip);
    }
    if RecentTrigger(calls, ip, now) {
      var k: nat :| k < |calls| && Trigger(calls, k, ip) && now < calls[k].now + 300;
      assert k < m ==> Trigger(calls[..m], k, ip);
    }
  }

  /** A trigger recent at `now` was recent at any time since it, and is no later than the clock. */
  lemma RecentTriggerEarlier(calls: seq<Call>, ip: nat, now: int, earlier: int)
    requires Clock(calls, earlier) && earlier <= now
    ensures RecentTrigger(calls, ip, now) ==> RecentTrigger(calls, ip, earlier) && now < earlier + 300
  {
  }

  ghost predicate BanIsRight(calls: seq<Call>, ip: nat, now: int) {
    && (Ledger(calls, ip).ban > now <==> RecentTrigger(calls, ip, now))
    && Ledger(calls, ip).ban <= now + 300
  }

  lemma BanStep(calls: seq<Call>, ip: nat, now: nat)
    requires calls != [] && Clock(calls, now)
    requires var m := |calls| - 1;
             BanIsRight(calls[..m], ip, now) && BanIsRight(calls[..m], ip, calls[m].now)
    ensures BanIsRight(calls, ip, now)
  {
    var m := |calls| - 1;
    RecentTriggerSnoc(calls, ip, now);
    RecentTriggerEarlier(calls[..m], ip, now, calls[m].now);
  }

  /** MAIN: with a clock that never runs backwards, an address is banned at `now` exactly when one
      of its fifth offences happened less than 300 seconds earlier; the checks in between and
      what other addresses do make no difference. */
  lemma {:induction false} BannedIffRecentTrigger(calls: seq<Call>, ip: nat, now: nat)
    requires Clock(calls, now)
    ensures BanIsRight(calls, ip, now)
    decreases |calls|
  {
    if calls != [] {
      var m := |calls| - 1;
      BannedIffRecentTrigger(calls[..m], ip, now);
      BannedIffRecentTrigger(calls[..m], ip, calls[m].now);
      BanStep(calls, ip, now);
    }
  }

  /** While an address is banned its ban end only moves later. */
  lemma BanOnlyExtends(calls: seq<Call>, ip: nat, c: Call)
    requires Clock(calls, c.now) && c.now >= 0 && Ledger(calls, ip).ban > c.now
    ensures Ledger(calls + [c], ip).ban >= Ledger(calls, ip).ban
  {
    assert (calls + [c])[..|calls|] == calls;
    BannedIffRecentTrigger(calls, ip, c.now);
  }

  // ---- what the fifth offence is counted from ----

  /** Call number k starts the count of `ip` afresh: a check that found it not banned, or an
      offence that set a ban. */
  predicate Reset(calls: seq<Call>, k: nat, ip: nat)
    requires k < |calls|
  {
    || Trigger(calls, k, ip)
    || (calls[k].Check? && calls[k].ip == ip && Ledger(calls[..k], ip).ban <= calls[k].now)
  }

  function OffenceCount(calls: seq<Call>, ip: nat): nat {
    if calls == [] then 0
    else
      var c := calls[|calls| - 1];
      OffenceCount(calls[..|calls| - 1], ip) + if c.Illegal? && c.ip == ip then 1 else 0
  }

  /** One past the last reset, or 0. */
  function SinceReset(calls: seq<Call>, ip: nat): (n: nat)
    ensures n <= |calls|
  {
    if calls == [] then 0
    else
      var m := |calls| - 1;
      if Reset(calls, m, ip) then |calls| else SinceReset(calls[..m], ip)
  }

  lemma {:induction false} SinceResetMeans(calls: seq<Call>, ip: nat)
    ensures var n := SinceReset(calls, ip);
            && (n > 0 ==> Reset(calls, n - 1, ip))
            && forall k: nat :: n <= k < |calls| ==> !Reset(calls, k, ip)
    decreases |calls|
  {
    if calls != [] {
      var m := |calls| - 1;
      SinceResetMeans(calls[..m], ip);
      forall k: nat | k < m
        ensures Reset(calls[..m], k, ip) == Reset(calls, k, ip)
      {
        assert calls[..m][..k] == calls[..k];
      }
    }
  }

  /** MAIN: the error count is the number of offences since the last reset, always below five, so
      a ban starts at exactly the fifth offence since then. */
  lemma {:induction false} CountIsSinceReset(calls: seq<Call>, ip: nat)
    ensures var a := Ledger(calls, ip);
            a.errs == OffenceCount(calls[SinceReset(calls, ip)..], ip) && 0 <= a.errs < 5
    decreases |calls|
  {
    if calls != [] {
      var m := |calls| - 1;
      var n := SinceReset(calls[..m], ip);
      CountIsSinceReset(calls[..m], ip);
      if !Reset(calls, m, ip) {
        assert calls[n..][..|calls[n..]| - 1] == calls[..m][n..];
      }
    }
  }

  lemma TriggerIsFifth(calls: seq<Call>, k: nat, ip: nat)
    requires k < |calls|
    ensures Trigger(calls, k, ip) <==>
            calls[k].Illegal? && calls[k].ip == ip
            && OffenceCount(calls[SinceReset(calls[..k], ip)..k + 1], ip) == 5
  {
    var n := SinceReset(calls[..k], ip);
    CountIsSinceReset(calls[..k], ip);
    var w := calls[n..k + 1];
    assert w[..|w| - 1] == calls[..k][n..];
  }

  /** MAIN: what a connection is told. While at most sixteen distinct addresses have offended, the
      table says banned exactly when a fifth offence is less than 300 seconds old. */
  lemma ConnectionVerdict(calls: seq<Call>, ip: nat, now: nat)
    requires Real(calls) && Clock(calls, now) && ip != 0 && |Offenders(calls)| <= 16
    ensures Banned(RunTable(Fresh(), calls), ip, now) <==> RecentTrigger(calls, ip, now)
  {
    TableRefinesLedger(calls, ip, now);
    BannedIffRecentTrigger(calls, ip, now);
  }
}
