/** What the sixteen slots answer for every history, the evictions of slot 0 included, and which
    bans an eviction loses. */
module BlacklistEvictions {
  import opened Blacklist
  import opened BlacklistRuns
  import opened BlacklistBans

  /** Who owns which slot, from the calls alone: a new offender gets the next free slot, and when
      none is left the first. */
  function Seats(calls: seq<Call>): (seats: seq<nat>)
    ensures |seats| <= 16
  {
    if calls == [] then []
    else
      var m := |calls| - 1;
      var before := Seats(calls[..m]);
      if calls[m].Check? || calls[m].ip in before then before
      else if |before| < 16 then before + [calls[m].ip]
      else before[0 := calls[m].ip]
  }

  /** Call number k drives the owner of slot 0 out of the table. */
  predicate Evicting(calls: seq<Call>, k: nat)
    requires k < |calls|
  {
    calls[k].Illegal? && |Seats(calls[..k])| == 16 && calls[k].ip !in Seats(calls[..k])
  }

  /** One past the last call that drove `x` out, or 0. */
  function LastEviction(calls: seq<Call>, x: nat): (n: nat)
    ensures n <= |calls|
  {
    if calls == [] then 0
    else
      var m := |calls| - 1;
      if Evicting(calls, m) && Seats(calls[..m])[0] == x then |calls| else LastEviction(calls[..m], x)
  }

  ghost predicate Seated(t: Table, seats: seq<nat>) {
    && |seats| <= MAX
    && (forall i :: 0 <= i < |seats| ==> seats[i] != 0 && t[i].ip == seats[i])
    && (forall i :: |seats| <= i < MAX ==> t[i].ip == 0)
  }

  lemma SeatedMeans(t: Table, seats: seq<nat>, ip: nat)
    requires Inv(t) && Seated(t, seats) && ip != 0
    ensures Find(t, ip) < MAX <==> ip in seats
    ensures Find(t, 0) == |seats|
    ensures Evicts(t, ip) <==> |seats| == MAX && ip !in seats
  {
    if ip in seats {
      var i :| 0 <= i < |seats| && seats[i] == ip;
      FindIs(t, i);
    }
    if |seats| < MAX {
      assert t[|seats|].ip == 0;
    }
  }

  lemma {:induction false} SeatsAreOwners(calls: seq<Call>)
    requires Real(calls)
    ensures Seated(RunTable(Fresh(), calls), Seats(calls))
    decreases |calls|
  {
    if calls != [] {
      var m := |calls| - 1;
      var t, c := RunTable(Fresh(), calls[..m]), calls[m];
      SeatsAreOwners(calls[..m]);
      RunKeepsInv(calls[..m]);
      assert c in calls;
      SeatedMeans(t, Seats(calls[..m]), c.ip);
    }
  }

  /** The account a ledger would hold if it began anew when `x` was last driven out. */
  function LedgerSince(calls: seq<Call>, x: nat): Account {
    Ledger(calls[LastEviction(calls, x)..], x)
  }

  lemma {:induction false} LedgerSinceSnoc(calls: seq<Call>, x: nat)
    requires calls != []
    ensures var m := |calls| - 1;
            LedgerSince(calls, x) == if Evicting(calls, m) && Seats(calls[..m])[0] == x then Account(0, 0)
            else if calls[m].ip == x then AccountStep(LedgerSince(calls[..m], x), calls[m])
            else LedgerSince(calls[..m], x)
  {
    var m := |calls| - 1;
    if !(Evicting(calls, m) && Seats(calls[..m])[0] == x) {
      var n := LastEviction(calls[..m], x);
      assert calls[n..][..|calls[n..]| - 1] == calls[..m][n..];
    }
  }

  /** MAIN: for every history, evictions included, the table answers for an address as an
      unbounded ledger that began anew when the address was last driven out. */
  lemma {:induction false} TableIsLedgerSince(calls: seq<Call>, x: nat)
    requires Real(calls) && x != 0
    ensures AccountOf(RunTable(Fresh(), calls), x) == LedgerSince(calls, x)
    decreases |calls|
  {
    if calls != [] {
      var m := |calls| - 1;
      var t, c := RunTable(Fresh(), calls[..m]), calls[m];
      TableIsLedgerSince(calls[..m], x);
      SeatsAreOwners(calls[..m]);
      RunKeepsInv(calls[..m]);
      LedgerSinceSnoc(calls, x);
      assert c in calls;
      SeatedMeans(t, Seats(calls[..m]), c.ip);
      if c.Illegal? { RecordedAccounts(t, c.ip, c.now, x); } else { CheckedAccounts(t, c.ip, c.now, x); }
    } else {
      assert Find(Fresh(), x) == MAX;
    }
  }

  lemma ClockSuffix(calls: seq<Call>, n: nat, now: int)
    requires n <= |calls| && Clock(calls, now)
    ensures Clock(calls[n..], now)
  {
  }

  /** MAIN, what a connection is told, for every history: it is rejected exactly when a fifth
      offence, counted since its address was last driven out, is less than 300 seconds old. */
  lemma VerdictAlways(calls: seq<Call>, x: nat, now: nat)
    requires Real(calls) && Clock(calls, now) && x != 0
    ensures Banned(RunTable(Fresh(), calls), x, now)
       <==> RecentTrigger(calls[LastEviction(calls, x)..], x, now)
  {
    var n := LastEviction(calls, x);
    TableIsLedgerSince(calls, x);
    ClockSuffix(calls, n, now);
    BannedIffRecentTrigger(calls[n..], x, now);
    RunKeepsInv(calls);
    CheckedAccounts(RunTable(Fresh(), calls), x, now, x);
  }

  /** MAIN, when a ban is cut short: while an address is banned, a call makes the ban end earlier
      exactly when it drives that address out. */
  lemma BanEndsEarlyIff(calls: seq<Call>, c: Call, x: nat)
    requires Real(calls) && Clock(calls, c.now) && c.now >= 0 && c.ip != 0 && x != 0
    requires Banned(RunTable(Fresh(), calls), x, c.now)
    ensures var t := RunTable(Fresh(), calls);
            AccountOf(Step(t, c), x).ban < AccountOf(t, x).ban
            <==> c.Illegal? && |Seats(calls)| == 16 && c.ip !in Seats(calls) && x == Seats(calls)[0]
  {
    var t, n := RunTable(Fresh(), calls), LastEviction(calls, x);
    TableIsLedgerSince(calls, x);
    ClockSuffix(calls, n, c.now);
    BannedIffRecentTrigger(calls[n..], x, c.now);
    RunKeepsInv(calls);
    CheckedAccounts(t, x, c.now, x);
    SeatsAreOwners(calls);
    SeatedMeans(t, Seats(calls), c.ip);
    if c.Illegal? { RecordedAccounts(t, c.ip, c.now, x); } else { CheckedAccounts(t, c.ip, c.now, x); }
  }

  /** The ban that is lost: a new offender finds the table full and its first owner banned. */
  lemma EvictionLosesBan(calls: seq<Call>, ip: nat, now: nat)
    requires Real(calls) && Clock(calls, now) && ip != 0
    requires |Seats(calls)| == MAX && ip !in Seats(calls)
    requires RecentTrigger(calls, Seats(calls)[0], now)
    ensures var x, after := Seats(calls)[0], calls + [Illegal(ip, now)];
            RecentTrigger(after, x, now) && !Banned(RunTable(Fresh(), after), x, now)
  {
    var x, after := Seats(calls)[0], calls + [Illegal(ip, now)];
    assert after[..|calls|] == calls;
    RecentTriggerSnoc(after, x, now);
    SeatsAreOwners(calls);
    assert Evicting(after, |calls|);
    VerdictAlways(after, x, now);
  }

  // ---- a history that comes to it ----

  /** Address 1 offends five times, addresses 2 to n + 1 once each. */
  function Crowd(n: nat, now: nat): (calls: seq<Call>)
    ensures |calls| == n + 5
    ensures forall i :: 0 <= i < |calls| ==> calls[i].Illegal? && calls[i].ip != 0 && calls[i].now == now
  {
    if n == 0 then [Illegal(1, now), Illegal(1, now), Illegal(1, now), Illegal(1, now), Illegal(1, now)]
    else Crowd(n - 1, now) + [Illegal(n + 1, now)]
  }

  function UpTo(n: nat): (r: seq<nat>)
    ensures |r| == n && forall i :: 0 <= i < n ==> r[i] == i + 1
  {
    if n == 0 then [] else UpTo(n - 1) + [n]
  }

  lemma {:induction false} CrowdSits(n: nat, now: nat)
    requires n < MAX
    ensures Seats(Crowd(n, now)) == UpTo(n + 1)
  {
    if n == 0 {
      FiveOffences(now);
      assert UpTo(1) == [1];
    } else {
      var calls := Crowd(n, now);
      CrowdSits(n - 1, now);
      assert calls[..|calls| - 1] == Crowd(n - 1, now);
      assert calls[|calls| - 1] == Illegal(n + 1, now);
      assert n + 1 !in UpTo(n);
    }
  }

  /** Nobody is driven out while there is room. */
  lemma RoomForOneMore(calls: seq<Call>, c: Call, x: nat)
    requires |Seats(calls)| < MAX
    ensures LastEviction(calls + [c], x) == LastEviction(calls, x)
  {
    assert (calls + [c])[..|calls|] == calls;
  }

  lemma {:induction false} CrowdStays(n: nat, now: nat)
    requires n < MAX
    ensures LastEviction(Crowd(n, now), 1) == 0
  {
    if n == 0 {
      FiveOffences(now);
    } else {
      CrowdStays(n - 1, now);
      CrowdSits(n - 1, now);
      RoomForOneMore(Crowd(n - 1, now), Illegal(n + 1, now), 1);
    }
  }

  lemma {:induction false} CrowdLedger(n: nat, now: nat)
    ensures Ledger(Crowd(n, now), 1) == Account(0, now + 300)
  {
    if n == 0 {
      FiveOffences(now);
    } else {
      CrowdLedger(n - 1, now);
      assert Crowd(n, now)[..n + 4] == Crowd(n - 1, now);
    }
  }

  lemma {:induction false} FiveOffences(now: nat)
    ensures Seats(Crowd(0, now)) == [1] && Ledger(Crowd(0, now), 1) == Account(0, now + 300)
    ensures LastEviction(Crowd(0, now), 1) == 0
  {
    var c := Illegal(1, now);
    assert [c, c, c, c, c][..4] == [c, c, c, c] && [c, c, c, c][..3] == [c, c, c];
    assert [c, c, c][..2] == [c, c] && [c, c][..1] == [c] && [c][..0] == [];
    assert Ledger([c], 1) == Account(1, 0) && Seats([c]) == [1] && LastEviction([c], 1) == 0;
    assert Ledger([c, c], 1) == Account(2, 0) && Seats([c, c]) == [1] && LastEviction([c, c], 1) == 0;
    assert Ledger([c, c, c], 1) == Account(3, 0) && Seats([c, c, c]) == [1] && LastEviction([c, c, c], 1) == 0;
    assert Ledger([c, c, c, c], 1) == Account(4, 0) && Seats([c, c, c, c]) == [1] && LastEviction([c, c, c, c], 1) == 0;
  }

  /** Sixteen offenders and a seventeenth, all in one second: the first is banned, and its ban is
      gone at once. */
  lemma SeventeenthFreesFirst(now: nat)
    ensures var calls := Crowd(15, now);
            && Banned(RunTable(Fresh(), calls), 1, now)
            && RecentTrigger(calls + [Illegal(17, now)], 1, now)
            && !Banned(RunTable(Fresh(), calls + [Illegal(17, now)]), 1, now)
  {
    var calls := Crowd(15, now);
    CrowdSits(15, now);
    CrowdStays(15, now);
    CrowdLedger(15, now);
    BannedIffRecentTrigger(calls, 1, now);
    assert Seats(calls)[0] == 1;
    assert calls[0..] == calls;
    EvictionLosesBan(calls, 17, now);
    VerdictAlways(calls, 1, now);
  }
}
