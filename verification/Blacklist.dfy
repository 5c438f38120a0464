/** The blacklist of app/modbus/modbus_server.c: sixteen slots, error counts and timed bans. */
module Blacklist {

  const MAX: nat := 16
  const THRESHOLD: int := 5
  const BAN_SEC: nat := 300

  datatype Entry = Entry(ip: nat, errs: int, ban: int)
  const EMPTY := Entry(0, 0, 0)

  type Table = t: seq<Entry> | |t| == MAX witness seq(MAX, _ => EMPTY)

  /** The first slot from `from` on owned by `ip`, or MAX. */
  function FindFrom(t: Table, ip: nat, from: nat): (i: nat)
    requires from <= MAX
    ensures from <= i <= MAX
    ensures i < MAX ==> t[i].ip == ip
    ensures forall j :: from <= j < i ==> t[j].ip != ip
    decreases MAX - from
  {
    if from == MAX || t[from].ip == ip then from else FindFrom(t, ip, from + 1)
  }

  function Find(t: Table, ip: nat): nat {
    FindFrom(t, ip, 0)
  }

  /** No slot before `i` has the same owner. */
  ghost predicate FirstOf(t: Table, i: nat)
    requires i < MAX
  {
    forall j :: 0 <= j < i ==> t[j].ip != t[i].ip
  }

  // ---- the two operations on the table ----

  predicate Banned(t: Table, ip: nat, now: int) {
    var i := Find(t, ip);
    i < MAX && t[i].ban > now
  }

  function Checked(t: Table, ip: nat, now: int): Table {
    var i := Find(t, ip);
    if i == MAX || t[i].ban > now then t else t[i := Entry(ip, 0, 0)]
  }

  /** No slot for `ip` and none free: slot 0 is taken over. */
  predicate Evicts(t: Table, ip: nat) {
    Find(t, ip) == MAX && Find(t, 0) == MAX
  }

  function SlotFor(t: Table, ip: nat): (i: nat)
    ensures i < MAX
  {
    if Find(t, ip) < MAX then Find(t, ip) else if Find(t, 0) < MAX then Find(t, 0) else 0
  }

  function Charge(errs: int, ban: int, ip: nat, now: int): Entry {
    if errs + 1 >= THRESHOLD then Entry(ip, 0, now + BAN_SEC) else Entry(ip, errs + 1, ban)
  }

  function Recorded(t: Table, ip: nat, now: int): Table {
    var i := SlotFor(t, ip);
    var e := if Evicts(t, ip) then EMPTY else t[i];
    t[i := Charge(e.errs, e.ban, ip, now)]
  }

  class Server {
    const slots: array<Entry>

    ghost predicate Valid() {
      slots.Length == MAX
    }

    ghost function View(): Table
      requires Valid()
      reads slots
    {
      slots[..]
    }

    constructor ()
      ensures Valid() && fresh(slots) && forall i :: 0 <= i < MAX ==> View()[i] == EMPTY
    {
      slots := new Entry[MAX](_ => EMPTY);
    }

    method IsBanned(ip: nat, now: int) returns (banned: bool)
      requires Valid()
      modifies slots
      ensures banned == Banned(old(View()), ip, now)
      ensures View() == Checked(old(View()), ip, now)
      ensures forall i :: 0 <= i < 16 ==> var e := old(slots[i]);
                                          slots[i] == if e.ip == ip && FirstOf(old(View()), i) && e.ban <= now
                                          then Entry(ip, 0, 0) else e
    {
      var i := 0;
      while i < MAX
        invariant 0 <= i <= MAX
        invariant forall j :: 0 <= j < i ==> slots[j].ip != ip
        invariant View() == old(View())
      {
        if slots[i].ip == ip {
          if slots[i].ban > now {
            return true;
          }
          slots[i] := slots[i].(errs := 0, ban := 0);
          return false;
        }
        i := i + 1;
      }
      return false;
    }

    /** The search loop: the slot of `ip`, else the first free one, else -1. */
    method FindSlot(ip: nat) returns (slot: int)
      requires Valid()
      ensures slot == if Evicts(View(), ip) then -1 else SlotFor(View(), ip)
    {
      slot := -1;
      var i := 0;
      while i < MAX
        invariant 0 <= i <= MAX
        invariant forall j :: 0 <= j < i ==> slots[j].ip != ip
        invariant -1 <= slot < i
        invariant forall j :: 0 <= j < (if slot < 0 then i else slot) ==> slots[j].ip != 0
        invariant slot >= 0 ==> slots[slot].ip == 0
      {
        if slots[i].ip == ip {
          return i;
        }
        if slot == -1 && slots[i].ip == 0 {
          slot := i;
        }
        i := i + 1;
      }
    }

    method RecordIllegal(ip: nat, now: int)
      requires Valid()
      modifies slots
      ensures View() == Recorded(old(View()), ip, now)
    {
      var slot := FindSlot(ip);
      if slot < 0 {
        slot := 0;
        slots[0] := EMPTY;
      }
      slots[slot] := slots[slot].(ip := ip, errs := slots[slot].errs + 1);
      if slots[slot].errs >= THRESHOLD {
        slots[slot] := slots[slot].(ban := now + BAN_SEC, errs := 0);
      }
    }

    /** One connection: rejected outright if banned, else its requests are served one by one.  A
        session ends with the list; the ban is not looked at again. */
    method HandleClient(ip: nat, connectTime: int, reqs: seq<Request>) returns (replies: seq<Reply>)
      requires Valid()
      modifies slots
      ensures var calls := SessionCalls(old(View()), ip, connectTime, reqs);
              View() == RunTable(old(View()), calls)
      ensures replies == if Banned(old(View()), ip, connectTime) then [] else Replies(reqs)
      ensures Banned(old(View()), ip, connectTime) ==> replies == []
      ensures !Banned(old(View()), ip, connectTime) ==> AreAnswers(reqs, replies)
      ensures View() == RunTable(old(View()), [Check(ip, connectTime)] + Charged(ip, reqs[..|replies|], replies))
    {
      SessionMeans(old(View()), ip, connectTime, reqs);
      var banned := IsBanned(ip, connectTime);
      RunOne(old(View()), Check(ip, connectTime));
      if banned {
        return [];
      }
      RunConcat(old(View()), [Check(ip, connectTime)], Offences(ip, reqs));
      replies := Serve(ip, reqs);
    }

    method Serve(ip: nat, reqs: seq<Request>) returns (replies: seq<Reply>)
      requires Valid()
      modifies slots
      ensures View() == RunTable(old(View()), Offences(ip, reqs))
      ensures replies == Replies(reqs)
    {
      replies := [];
      var i := 0;
      while i < |reqs|
        invariant 0 <= i <= |reqs|
        invariant View() == RunTable(old(View()), Offences(ip, reqs[..i]))
        invariant replies == Replies(reqs[..i])
      {
        ServedOne(old(View()), ip, reqs, i);
        assert Replies(reqs[..i + 1]) == Replies(reqs[..i]) + [Answer(reqs[i])];
        var reply := ServeOne(ip, reqs[i]);
        replies := replies + [reply];
        i := i + 1;
      }
      assert reqs[..|reqs|] == reqs;
    }

    method ServeOne(ip: nat, r: Request) returns (reply: Reply)
      requires Valid()
      modifies slots
      ensures reply == Answer(r) && View() == Served(old(View()), ip, r)
    {
      reply := Answer(r);
      if reply != Registers {
        RecordIllegal(ip, r.now);
      }
    }
  }

  // ---- requests ----

  /** The Modbus/TCP fields the server looks at, and the time of arrival. */
  datatype Request = Request(code: nat, addr: nat, count: nat, now: int)
  datatype Reply = Registers | IllegalFunction | IllegalAddress

  const READ_HOLDING_REGISTERS: nat := 3
  const MAX_REGS: nat := 4

  function Answer(r: Request): Reply {
    if r.code != READ_HOLDING_REGISTERS then IllegalFunction
    else if r.addr + r.count > MAX_REGS then IllegalAddress
    else Registers
  }

  /** What a reply must be: the registers for function code 3 and a range within registers 0 to 3
      (an empty range may also begin right after them), else the exception that says why not. */
  ghost predicate IsAnswer(r: Request, reply: Reply) {
    && (reply == IllegalFunction <==> r.code != 3)
    && (reply == Registers <==> r.code == 3 && InRange(r))
  }

  predicate IsRegister(i: nat) {
    i == 0 || i == 1 || i == 2 || i == 3
  }

  ghost predicate InRange(r: Request) {
    && (forall i: nat :: r.addr <= i < r.addr + r.count ==> IsRegister(i))
    && (r.count == 0 ==> IsRegister(r.addr) || r.addr == 4)
  }

  ghost predicate AreAnswers(reqs: seq<Request>, replies: seq<Reply>) {
    |replies| == |reqs| && forall i :: 0 <= i < |reqs| ==> IsAnswer(reqs[i], replies[i])
  }

  /** One offence, at the time of the request, for every reply that is an exception. */
  function Charged(ip: nat, reqs: seq<Request>, replies: seq<Reply>): seq<Call>
    requires |reqs| == |replies|
  {
    if reqs == [] then []
    else
      var m := |reqs| - 1;
      Charged(ip, reqs[..m], replies[..m]) + if replies[m].Registers? then [] else [Illegal(ip, reqs[m].now)]
  }

  function Replies(reqs: seq<Request>): seq<Reply> {
    seq(|reqs|, i requires 0 <= i < |reqs| => Answer(reqs[i]))
  }

  // ---- histories ----

  datatype Call = Check(ip: nat, now: int) | Illegal(ip: nat, now: int)

  function Step(t: Table, c: Call): Table {
    match c
    case Check(ip, now) => Checked(t, ip, now)
    case Illegal(ip, now) => Recorded(t, ip, now)
  }

  function RunTable(t: Table, calls: seq<Call>): Table {
    if calls == [] then t else Step(RunTable(t, calls[..|calls| - 1]), calls[|calls| - 1])
  }

  function Offences(ip: nat, reqs: seq<Request>): seq<Call> {
    if reqs == [] then []
    else
      var m := |reqs| - 1;
      Offences(ip, reqs[..m]) + if Answer(reqs[m]) == Registers then [] else [Illegal(ip, reqs[m].now)]
  }

  function SessionCalls(t: Table, ip: nat, connectTime: int, reqs: seq<Request>): seq<Call> {
    [Check(ip, connectTime)] + if Banned(t, ip, connectTime) then [] else Offences(ip, reqs)
  }

  lemma RunOne(t: Table, c: Call)
    ensures RunTable(t, [c]) == Step(t, c)
  {
  }

  lemma {:induction false} RunConcat(t: Table, a: seq<Call>, b: seq<Call>)
    ensures RunTable(t, a + b) == RunTable(RunTable(t, a), b)
    decreases |b|
  {
    if b == [] {
      assert a + b == a;
    } else {
      assert (a + b)[..|a + b| - 1] == a + b[..|b| - 1];
      RunConcat(t, a, b[..|b| - 1]);
    }
  }

  function Served(t: Table, ip: nat, r: Request): Table {
    if Answer(r) == Registers then t else Recorded(t, ip, r.now)
  }

  lemma OffencesSnoc(ip: nat, reqs: seq<Request>, i: nat)
    requires i < |reqs|
    ensures Offences(ip, reqs[..i + 1]) == Offences(ip, reqs[..i])
                                           + if Answer(reqs[i]) == Registers then [] else [Illegal(ip, reqs[i].now)]
  {
    assert reqs[..i + 1][..i] == reqs[..i];
  }

  lemma RunSnoc(t: Table, calls: seq<Call>, c: Call)
    ensures RunTable(t, calls + [c]) == Step(RunTable(t, calls), c)
  {
    assert (calls + [c])[..|calls|] == calls;
  }

  lemma ServedOne(t: Table, ip: nat, reqs: seq<Request>, i: nat)
    requires i < |reqs|
    ensures RunTable(t, Offences(ip, reqs[..i + 1])) == Served(RunTable(t, Offences(ip, reqs[..i])), ip, reqs[i])
  {
    var so := Offences(ip, reqs[..i]);
    OffencesSnoc(ip, reqs, i);
    if Answer(reqs[i]) == Registers {
      assert so + [] == so;
    } else {
      RunSnoc(t, so, Illegal(ip, reqs[i].now));
    }
  }

  // ---- which requests are legal ----

  lemma {:induction false} AnswerIsAnswer(r: Request)
    ensures IsAnswer(r, Answer(r))
  {
    if r.count > 0 {
      var last: nat := r.addr + r.count - 1;
      assert InRange(r) ==> IsRegister(last);
    }
  }

  lemma RepliesAreAnswers(reqs: seq<Request>)
    ensures AreAnswers(reqs, Replies(reqs))
  {
    forall i | 0 <= i < |reqs|
      ensures IsAnswer(reqs[i], Replies(reqs)[i])
    {
      AnswerIsAnswer(reqs[i]);
    }
  }

  lemma {:induction false} OffencesAreCharged(ip: nat, reqs: seq<Request>)
    ensures Offences(ip, reqs) == Charged(ip, reqs, Replies(reqs))
  {
    if reqs != [] {
      var m := |reqs| - 1;
      OffencesAreCharged(ip, reqs[..m]);
      assert Replies(reqs)[..m] == Replies(reqs[..m]);
    }
  }

  /** MAIN, one connection: a banned client gets no reply; any other gets the right one to every
      request, and each exception among them is one offence at the time of its request. */
  lemma SessionMeans(t: Table, ip: nat, connectTime: int, reqs: seq<Request>)
    ensures AreAnswers(reqs, Replies(reqs))
    ensures var replies := if Banned(t, ip, connectTime) then [] else Replies(reqs);
            SessionCalls(t, ip, connectTime, reqs)
            == [Check(ip, connectTime)] + Charged(ip, reqs[..|replies|], replies)
  {
    RepliesAreAnswers(reqs);
    OffencesAreCharged(ip, reqs);
    assert reqs[..|reqs|] == reqs;
  }
}
