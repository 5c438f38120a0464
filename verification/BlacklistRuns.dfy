/** What the sixteen slots keep, what they stand for, and when a ban holds. */
module BlacklistRuns {
  import opened Blacklist

  // ---- the invariant ----

  ghost predicate Prefix(t: Table) {
    forall i, j :: 0 <= i < j < MAX && t[j].ip != 0 ==> t[i].ip != 0
  }

  ghost predicate Distinct(t: Table) {
    forall i, j :: 0 <= i < j < MAX && t[i].ip != 0 ==> t[i].ip != t[j].ip
  }

  ghost predicate Counts(t: Table) {
    forall i :: 0 <= i < MAX ==>
                  0 <= t[i].errs < THRESHOLD && (t[i].ip == 0 ==> t[i] == EMPTY)
  }

  ghost predicate Inv(t: Table) {
    Prefix(t) && Distinct(t) && Counts(t)
  }

  /** Slots 1..15 keep their owner; slot 0 loses its owner only to an eviction. */
  ghost predicate OwnersKept(t: Table, u: Table, evicts: bool) {
    forall i :: 0 <= i < MAX && t[i].ip != 0 && (i > 0 || !evicts) ==> u[i].ip == t[i].ip
  }

  lemma CheckedKeepsInv(t: Table, ip: nat, now: int)
    requires Inv(t) && ip != 0
    ensures Inv(Checked(t, ip, now)) && OwnersKept(t, Checked(t, ip, now), false)
  {
  }

  lemma RecordedKeepsInv(t: Table, ip: nat, now: int)
    requires Inv(t) && ip != 0
    ensures Inv(Recorded(t, ip, now)) && OwnersKept(t, Recorded(t, ip, now), Evicts(t, ip))
  {
  }

  // ---- what the table says about one address ----

  /** Errors since the last reset, and the end of the ban; (0, 0) for an unknown address. */
  datatype Account = Account(errs: int, ban: int)

  function AccountOf(t: Table, ip: nat): Account {
    var i := Find(t, ip);
    if i < MAX then Account(t[i].errs, t[i].ban) else Account(0, 0)
  }

  function AccountStep(a: Account, c: Call): Account {
    match c
    case Check(_, now) => if a.ban > now then a else Account(0, 0)
    case Illegal(_, now) => if a.errs + 1 >= THRESHOLD then Account(0, now + BAN_SEC) else Account(a.errs + 1, a.ban)
  }

  lemma FindIs(t: Table, i: nat)
    requires Inv(t) && i < MAX && t[i].ip != 0
    ensures Find(t, t[i].ip) == i
  {
  }

  lemma CheckedAccounts(t: Table, ip: nat, now: int, x: nat)
    requires Inv(t) && ip != 0 && x != 0
    ensures AccountOf(Checked(t, ip, now), x)
         == (if x == ip && Find(t, ip) < MAX then AccountStep(AccountOf(t, x), Check(ip, now)) else AccountOf(t, x))
    ensures Banned(t, ip, now) <==> Find(t, ip) < MAX && AccountOf(t, ip).ban > now
  {
    var u := Checked(t, ip, now);
    CheckedKeepsInv(t, ip, now);
    if Find(u, x) < MAX { FindIs(t, Find(u, x)); }
    if Find(t, x) < MAX { FindIs(u, Find(t, x)); }
  }

  /** MAIN, one recorded offence: the offender's account is charged, every other account is as
      before, except that an eviction forgets the owner of slot 0. */
  lemma RecordedAccounts(t: Table, ip: nat, now: int, x: nat)
    requires Inv(t) && ip != 0 && x != 0
    ensures AccountOf(Recorded(t, ip, now), x)
         == (if x == ip then AccountStep(AccountOf(t, ip), Illegal(ip, now))
             else if Evicts(t, ip) && x == t[0].ip then Account(0, 0)
             else AccountOf(t, x))
  {
    var u := Recorded(t, ip, now);
    RecordedKeepsInv(t, ip, now);
    var s := SlotFor(t, ip);
    FindIs(u, s);
    if x != ip {
      if Find(u, x) < MAX { FindIs(t, Find(u, x)); }
      if Find(t, x) < MAX && Find(t, x) != s { FindIs(u, Find(t, x)); }
    }
  }

  // ---- whole histories ----

  function Fresh(): Table {
    seq(MAX, _ => EMPTY)
  }

  /** Real addresses and a clock that has passed the epoch. */
  ghost predicate Real(calls: seq<Call>) {
    forall c :: c in calls ==> c.ip != 0 && c.now >= 0
  }

  /** The account of an address in an unbounded map: only its own calls count. */
  function Ledger(calls: seq<Call>, ip: nat): Account {
    if calls == [] then Account(0, 0)
    else
      var a := Ledger(calls[..|calls| - 1], ip);
      var c := calls[|calls| - 1];
      if c.ip == ip then AccountStep(a, c) else a
  }

  function Offenders(calls: seq<Call>): set<nat> {
    set c | c in calls && c.Illegal? :: c.ip
  }

  function Owners(t: Table): set<nat> {
    set e | e in t && e.ip != 0 :: e.ip
  }

  function OwnersUpTo(t: Table, n: nat): set<nat>
    requires n <= MAX
  {
    set i | 0 <= i < n && t[i].ip != 0 :: t[i].ip
  }

  lemma {:induction false} OwnersCount(t: Table, n: nat)
    requires Inv(t) && n <= MAX
    ensures |OwnersUpTo(t, n)| <= n
    ensures (forall i :: 0 <= i < n ==> t[i].ip != 0) ==> |OwnersUpTo(t, n)| == n
  {
    if n > 0 {
      OwnersCount(t, n - 1);
      var before := OwnersUpTo(t, n - 1);
      if t[n - 1].ip != 0 {
        assert t[n - 1].ip !in before;
        assert OwnersUpTo(t, n) == before + {t[n - 1].ip};
      } else {
        assert OwnersUpTo(t, n) == before;
      }
    }
  }

  lemma OwnersSize(t: Table)
    requires Inv(t)
    ensures |Owners(t)| <= MAX
    ensures Find(t, 0) == MAX ==> |Owners(t)| == MAX
    ensures forall ip :: ip != 0 ==> (ip in Owners(t) <==> Find(t, ip) < MAX)
  {
    OwnersCount(t, MAX);
    assert Owners(t) == OwnersUpTo(t, MAX);
    forall ip | ip != 0
      ensures ip in Owners(t) <==> Find(t, ip) < MAX
    {
      if Find(t, ip) < MAX { assert t[Find(t, ip)] in t; }
    }
  }

  lemma OwnersAfter(t: Table, c: Call)
    requires Inv(t) && c.ip != 0 && !(c.Illegal? && Evicts(t, c.ip))
    ensures Owners(Step(t, c)) == Owners(t) + if c.Illegal? then {c.ip} else {}
  {
  }

  /** Some offence of the history took over slot 0. */
  ghost predicate Evicted(calls: seq<Call>) {
    calls != [] &&
    var m := |calls| - 1;
    Evicted(calls[..m]) || (calls[m].Illegal? && Evicts(RunTable(Fresh(), calls[..m]), calls[m].ip))
  }

  lemma {:induction false} RunKeepsInv(calls: seq<Call>)
    requires Real(calls)
    ensures Inv(RunTable(Fresh(), calls))
    decreases |calls|
  {
    if calls != [] {
      var m := |calls| - 1;
      RunKeepsInv(calls[..m]);
      var t, c := RunTable(Fresh(), calls[..m]), calls[m];
      assert c in calls;
      if c.Illegal? { RecordedKeepsInv(t, c.ip, c.now); } else { CheckedKeepsInv(t, c.ip, c.now); }
    }
  }

  lemma OffendersSnoc(calls: seq<Call>)
    requires calls != []
    ensures var m := |calls| - 1;
            Offenders(calls) == Offenders(calls[..m]) + if calls[m].Illegal? then {calls[m].ip} else {}
  {
  }

  lemma SubsetSize(a: set<nat>, b: set<nat>)
    requires a <= b
    ensures |a| <= |b|
  {
    assert b == a + (b - a);
  }

  /** MAIN: slot 0 is taken over exactly when a seventeenth distinct address offends. */
  lemma {:induction false} EvictionNeedsSeventeen(calls: seq<Call>)
    requires Real(calls)
    ensures Evicted(calls) <==> |Offenders(calls)| > 16
    ensures !Evicted(calls) ==> Owners(RunTable(Fresh(), calls)) == Offenders(calls)
    decreases |calls|
  {
    if calls != [] {
      var m := |calls| - 1;
      EvictionNeedsSeventeen(calls[..m]);
      RunKeepsInv(calls[..m]);
      OffendersSnoc(calls);
      var t, c := RunTable(Fresh(), calls[..m]), calls[m];
      assert c in calls;
      OwnersSize(t);
      if Evicted(calls[..m]) {
        SubsetSize(Offenders(calls[..m]), Offenders(calls));
      } else if Evicted(calls) {
        assert c.ip !in Owners(t);
      } else {
        OwnersAfter(t, c);
        RunKeepsInv(calls);
        OwnersSize(RunTable(Fresh(), calls));
      }
    } else {
      RunKeepsInv(calls);
      OwnersSize(RunTable(Fresh(), calls));
    }
  }

  lemma {:induction false} NoEvictionLedger(calls: seq<Call>, x: nat)
    requires Real(calls) && !Evicted(calls) && x != 0
    ensures AccountOf(RunTable(Fresh(), calls), x) == Ledger(calls, x)
    decreases |calls|
  {
    if calls != [] {
      var m := |calls| - 1;
      NoEvictionLedger(calls[..m], x);
      RunKeepsInv(calls[..m]);
      var t, c := RunTable(Fresh(), calls[..m]), calls[m];
      assert c in calls;
      if c.Illegal? { RecordedAccounts(t, c.ip, c.now, x); } else { CheckedAccounts(t, c.ip, c.now, x); }
    } else {
      assert Find(Fresh(), x) == MAX;
    }
  }

  /** MAIN: while at most sixteen distinct addresses have offended, the table answers for every
      address as an unbounded map would. */
  lemma TableRefinesLedger(calls: seq<Call>, x: nat, now: nat)
    requires Real(calls) && x != 0 && |Offenders(calls)| <= 16
    ensures AccountOf(RunTable(Fresh(), calls), x) == Ledger(calls, x)
    ensures Banned(RunTable(Fresh(), calls), x, now) <==> Ledger(calls, x).ban > now
  {
    EvictionNeedsSeventeen(calls);
    NoEvictionLedger(calls, x);
    RunKeepsInv(calls);
    CheckedAccounts(RunTable(Fresh(), calls), x, now, x);
  }
}
