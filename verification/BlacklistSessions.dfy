/** The server over many connections: what its clients' requests, not its calls, do to them. */
module BlacklistSessions {
  import opened Blacklist
  import opened BlacklistRuns
  import opened BlacklistBans
  import opened BlacklistEvictions

  /** One connection: who, when, and what it asks. */
  datatype Session = Session(ip: nat, at: int, reqs: seq<Request>)

  /** The calls of a run of connections, one after the other. */
  function CallsOf(sessions: seq<Session>): seq<Call> {
    if sessions == [] then []
    else
      var before, s := CallsOf(sessions[..|sessions| - 1]), sessions[|sessions| - 1];
      before + SessionCalls(RunTable(Fresh(), before), s.ip, s.at, s.reqs)
  }

  function TableAfter(sessions: seq<Session>): Table {
    RunTable(Fresh(), CallsOf(sessions))
  }

  lemma TableAfterSession(sessions: seq<Session>)
    requires sessions != []
    ensures var t, s := TableAfter(sessions[..|sessions| - 1]), sessions[|sessions| - 1];
            TableAfter(sessions) == RunTable(t, SessionCalls(t, s.ip, s.at, s.reqs))
  {
    var before, s := CallsOf(sessions[..|sessions| - 1]), sessions[|sessions| - 1];
    RunConcat(Fresh(), before, SessionCalls(RunTable(Fresh(), before), s.ip, s.at, s.reqs));
  }

  ghost predicate RealSession(s: Session) {
    s.ip != 0 && s.at >= 0 && forall r :: r in s.reqs ==> r.now >= 0
  }

  ghost predicate RealSessions(sessions: seq<Session>) {
    forall s :: s in sessions ==> RealSession(s)
  }

  /** All it asks is to read some of registers 0 to 3. */
  ghost predicate Honest(s: Session) {
    forall r :: r in s.reqs ==> r.code == 3 && InRange(r)
  }

  lemma {:induction false} OffencesAre(ip: nat, reqs: seq<Request>)
    ensures forall c :: c in Offences(ip, reqs) ==>
                          c.Illegal? && c.ip == ip
                          && exists r :: r in reqs && c.now == r.now && !(r.code == 3 && InRange(r))
  {
    if reqs != [] {
      var m := |reqs| - 1;
      OffencesAre(ip, reqs[..m]);
      AnswerIsAnswer(reqs[m]);
      assert reqs[m] in reqs;
    }
  }

  lemma SessionCallsAre(t: Table, s: Session, c: Call)
    requires c in SessionCalls(t, s.ip, s.at, s.reqs)
    ensures c.ip == s.ip
    ensures RealSession(s) ==> c.ip != 0 && c.now >= 0
    ensures Honest(s) ==> c.Check?
  {
    OffencesAre(s.ip, s.reqs);
  }

  lemma {:induction false} CallsAre(sessions: seq<Session>, x: nat)
    ensures RealSessions(sessions) ==> Real(CallsOf(sessions))
    ensures (forall s :: s in sessions && s.ip == x ==> Honest(s)) ==>
              forall c :: c in CallsOf(sessions) && c.ip == x ==> c.Check?
  {
    if sessions != [] {
      var m := |sessions| - 1;
      var before, s := CallsOf(sessions[..m]), sessions[m];
      CallsAre(sessions[..m], x);
      assert s in sessions;
      forall c | c in SessionCalls(RunTable(Fresh(), before), s.ip, s.at, s.reqs)
        ensures c.ip == s.ip && (RealSession(s) ==> c.ip != 0 && c.now >= 0) && (Honest(s) ==> c.Check?)
      {
        SessionCallsAre(RunTable(Fresh(), before), s, c);
      }
    }
  }

  lemma {:induction false} ChecksBanNobody(calls: seq<Call>, x: nat)
    requires forall c :: c in calls && c.ip == x ==> c.Check?
    ensures Ledger(calls, x) == Account(0, 0)
    decreases |calls|
  {
    if calls != [] {
      ChecksBanNobody(calls[..|calls| - 1], x);
      assert calls[|calls| - 1] in calls;
    }
  }

  /** MAIN: whatever the other clients do, however many they are, a client that only ever reads
      registers 0 to 3 is never banned: it is answered, and with the registers, every time. */
  lemma {:induction false} HonestClientIsServed(sessions: seq<Session>, next: Session)
    requires RealSessions(sessions) && RealSession(next) && Honest(next)
    requires forall s :: s in sessions && s.ip == next.ip ==> Honest(s)
    ensures !Banned(TableAfter(sessions), next.ip, next.at)
    ensures forall i :: 0 <= i < |next.reqs| ==> Replies(next.reqs)[i] == Registers
  {
    var calls, x := CallsOf(sessions), next.ip;
    var n := LastEviction(calls, x);
    CallsAre(sessions, x);
    ChecksBanNobody(calls[n..], x);
    TableIsLedgerSince(calls, x);
    RunKeepsInv(calls);
    CheckedAccounts(RunTable(Fresh(), calls), x, next.at, x);
    RepliesAreAnswers(next.reqs);
  }

  /** The request of the repository's own test client, all four registers at once, is honest; one
      register more is not. */
  lemma FourRegisters(now: nat)
    ensures Answer(Request(3, 0, 4, now)) == Registers
    ensures forall addr: nat, count: nat :: addr + count == 5 ==> Answer(Request(3, addr, count, now)) == IllegalAddress
  {
    AnswerIsAnswer(Request(3, 0, 4, now));
    forall addr: nat, count: nat | addr + count == 5
      ensures Answer(Request(3, addr, count, now)) == IllegalAddress
    {
      AnswerIsAnswer(Request(3, addr, count, now));
    }
  }
}
