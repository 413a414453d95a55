/** What an epoll instance reports, from the calls made on it alone: the events raised at each socket, and its last
    registration. */
module EpollReports {
  import opened Word
  import opened EpollSpec
  import opened EpollRuns

  // ------------------------------------------------------------ what the calls say

  /** The events raised at a socket and not cleared since. */
  function Raised(ops: seq<Op>, sock: int): set<Event> {
    if ops == [] then {}
    else
      var before := Raised(ops[..|ops| - 1], sock);
      match ops[|ops| - 1]
      case SetEvents(x, evts) => if x == sock then before + evts else before
      case ClearEvents(x, evts) => if x == sock then before - evts else before
      case _ => before
  }

  /** A registration after one more call: one that exists is not added again, one that does not is not changed,
      errors are always waited for, and a change keeps the data. */
  function RegAfter(op: Op, reg: Option<Reg>, sock: int): Option<Reg> {
    match op
    case Add(x, mask, data) => if x == sock && reg.None? then Some(Reg(sock, mask + {Err}, data)) else reg
    case Modify(x, mask) => if x == sock && reg.Some? then Some(reg.value.(mask := mask + {Err})) else reg
    case Delete(x) => if x == sock then None else reg
    case _ => reg
  }

  function RegOf(ops: seq<Op>, sock: int): (r: Option<Reg>)
    ensures r.Some? ==> r.value.sock == sock
  {
    if ops == [] then None else RegAfter(ops[|ops| - 1], RegOf(ops[..|ops| - 1], sock), sock)
  }

  /** The sockets that are registered. */
  function Sockets(ops: seq<Op>): set<int> {
    if ops == [] then {}
    else
      var before := Sockets(ops[..|ops| - 1]);
      match ops[|ops| - 1]
      case Add(x, _, _) => before + {x}
      case Delete(x) => before - {x}
      case _ => before
  }

  lemma {:induction false} ExecLast(s: State, ops: seq<Op>)
    requires ops != []
    ensures Exec(s, ops) == Do(Exec(s, ops[..|ops| - 1]), ops[|ops| - 1]).0
    decreases |ops|
  {
    hide Do;
    if |ops| == 1 {
      assert ops[..0] == [] && ops[1..] == [];
      assert Exec(Do(s, ops[0]).0, []) == Do(s, ops[0]).0;
    } else {
      ExecLast(Do(s, ops[0]).0, ops[1..]);
      assert ops[1..][..|ops| - 2] == ops[..|ops| - 1][1..];
    }
  }

  // ------------------------------------------------------------ events

  /** Events raised are recorded, and only at that socket. */
  lemma SetRecords(s: State, sock: int, evts: set<Event>, x: int)
    ensures Pending(EpollSpec.SetEvents(s, sock, evts).events, x)
         == Pending(s.events, x) + if x == sock then evts else {}
  {
    var was := Pending(s.events, sock);
    assert was + evts == was + (evts - was);
    ActivateEvents(s.(events := s.events[sock := Pending(s.events, sock) + evts]), sock);
  }

  /** Events cleared are forgotten, and only at that socket. */
  lemma ClearForgets(s: State, sock: int, evts: set<Event>, x: int)
    ensures Pending(EpollSpec.ClearEvents(s, sock, evts).events, x)
         == Pending(s.events, x) - if x == sock then evts else {}
  {
  }

  lemma ActivateEvents(s: State, sock: int)
    ensures Activate(s, sock).events == s.events
  {
  }

  lemma {:induction false} PassEvents(s: State, steps: nat, max: nat)
    ensures Pass(s, steps, max).0.events == s.events
    decreases steps
  {
    if !(steps == 0 || max == 0 || s.active == []) {
      var es := s.active[0];
      if Ready(s.events, es) {
        PassEvents(s.(active := s.active[1..] + [es]), steps - 1, max - 1);
      } else {
        PassEvents(s.(active := s.active[1..], inactive := [es] + s.inactive), steps - 1, max);
      }
    }
  }

  lemma StepEvents(s: State, op: Op, x: int)
    ensures Pending(Do(s, op).0.events, x) ==
              match op
              case SetEvents(sock, evts) => Pending(s.events, x) + (if x == sock then evts else {})
              case ClearEvents(sock, evts) => Pending(s.events, x) - (if x == sock then evts else {})
              case _ => Pending(s.events, x)
  {
    hide Find, Remask, Without, Activate, Pass, EpollSpec.SetEvents, EpollSpec.ClearEvents;
    match op
    case Add(sock, mask, data) => ActivateEvents(s.(inactive := [Reg(sock, mask + {Err}, data)] + s.inactive), sock);
    case Modify(sock, mask) =>
      var m := mask + {Err};
      ActivateEvents(s.(active := Remask(s.active, sock, m), inactive := Remask(s.inactive, sock, m)), sock);
    case Delete(sock) =>
    case SetEvents(sock, evts) => SetRecords(s, sock, evts, x);
    case ClearEvents(sock, evts) => ClearForgets(s, sock, evts, x);
    case Wait(max) => PassEvents(s, |s.active|, max);
  }

  /** In every run the pending events of a socket are those raised and not cleared since. */
  lemma {:induction false} PendingIsRaised(ops: seq<Op>, sock: int)
    ensures Pending(Exec(EMPTY, ops).events, sock) == Raised(ops, sock)
    decreases |ops|
  {
    hide Do, Pending;
    if ops == [] {
      NothingPending(sock);
    } else {
      ExecLast(EMPTY, ops);
      var before := ops[..|ops| - 1];
      PendingIsRaised(before, sock);
      StepEvents(Exec(EMPTY, before), ops[|ops| - 1], sock);
    }
  }

  lemma NothingPending(sock: int)
    ensures Pending(map[], sock) == {}
  {
  }

  // ------------------------------------------------------------ registrations

  predicate Has(s: State, r: Reg) { r in s.active || r in s.inactive }

  lemma ActivateHas(s: State, sock: int, r: Reg)
    ensures Has(Activate(s, sock), r) <==> Has(s, r)
  {
    var i := Find(s.inactive, sock);
    if i < |s.inactive| {
      var q := s.inactive;
      assert q == q[..i] + [q[i]] + q[i + 1..];
    }
  }

  lemma RemaskHas(regs: seq<Reg>, sock: int, m: set<Event>, r: Reg)
    requires Unique(regs)
    ensures r in Remask(regs, sock, m)
       <==> || (r.sock != sock && r in regs)
            || (r.sock == sock && exists q :: q in regs && q.sock == sock && r == q.(mask := m))
  {
    var i, t := Find(regs, sock), Remask(regs, sock, m);
    if r in t {
      var j :| 0 <= j < |t| && t[j] == r;
      if j != i {
        assert regs[j] == r && regs[j] in regs;
      } else {
        assert regs[i] in regs && r == regs[i].(mask := m);
      }
    }
    if r.sock != sock && r in regs {
      var j :| 0 <= j < |regs| && regs[j] == r;
      assert t[j] == r;
    }
    if q :| r.sock == sock && q in regs && q.sock == sock && r == q.(mask := m) {
      var j :| 0 <= j < |regs| && regs[j] == q;
      assert t[i] == r;
    }
  }

  lemma WithoutHas(regs: seq<Reg>, sock: int, r: Reg)
    requires Unique(regs)
    ensures r in Without(regs, sock) <==> r in regs && r.sock != sock
  {
    var i, t := Find(regs, sock), Without(regs, sock);
    if i < |regs| {
      if r in t {
        var j :| 0 <= j < |t| && t[j] == r;
        assert t[j] == regs[if j < i then j else j + 1];
      }
      if r in regs && r.sock != sock {
        var j :| 0 <= j < |regs| && regs[j] == r;
        assert t[if j < i then j else j - 1] == r;
      }
    } else if r in regs {
      var j :| 0 <= j < |regs| && regs[j] == r;
    }
  }

  lemma {:induction false} PassHas(s: State, steps: nat, max: nat, r: Reg)
    ensures Has(Pass(s, steps, max).0, r) <==> Has(s, r)
    decreases steps
  {
    hide Ready;
    if !(steps == 0 || max == 0 || s.active == []) {
      var es := s.active[0];
      assert s.active == [es] + s.active[1..];
      if Ready(s.events, es) {
        PassHas(s.(active := s.active[1..] + [es]), steps - 1, max - 1, r);
      } else {
        PassHas(s.(active := s.active[1..], inactive := [es] + s.inactive), steps - 1, max, r);
      }
    }
  }

  lemma RegisteredHas(s: State, sock: int)
    ensures Registered(s, sock) <==> exists r :: Has(s, r) && r.sock == sock
  {
    if Registered(s, sock) {
      var i, j := Find(s.active, sock), Find(s.inactive, sock);
      assert i < |s.active| ==> Has(s, s.active[i]);
      assert j < |s.inactive| ==> Has(s, s.inactive[j]);
    }
    if r :| Has(s, r) && r.sock == sock {
      FindHas(s.active, r);
      FindHas(s.inactive, r);
    }
  }

  lemma FindHas(regs: seq<Reg>, r: Reg)
    ensures r in regs ==> Find(regs, r.sock) < |regs|
  {
    if r in regs {
      var k :| 0 <= k < |regs| && regs[k] == r;
    }
  }

  /** `reg` is the registration of socket `sock`, if there is one. */
  ghost predicate IsReg(s: State, sock: int, reg: Option<Reg>) {
    forall q {:trigger Has(s, q)} :: Has(s, q) && q.sock == sock <==> reg == Some(q)
  }

  lemma ModifyHas(s: State, sock: int, mask: set<Event>, r: Reg, reg: Option<Reg>)
    requires Inv(s) && IsReg(s, r.sock, reg)
    ensures Has(Do(s, Modify(sock, mask)).0, r) <==> RegAfter(Modify(sock, mask), reg, r.sock) == Some(r)
  {
    hide Unique, Ready, Remask, Activate, Registered;
    RegisteredHas(s, sock);
    UniqueParts(s.active, s.inactive);
    if Registered(s, sock) {
      var m := mask + {Err};
      var t := s.(active := Remask(s.active, sock, m), inactive := Remask(s.inactive, sock, m));
      ActivateHas(t, sock, r);
      RemaskHas(s.active, sock, m, r);
      RemaskHas(s.inactive, sock, m, r);
      if r.sock == sock {
        var q :| Has(s, q) && q.sock == sock;
        assert reg == Some(q);
        assert Has(t, r) <==> r == q.(mask := m) by {
          assert forall p :: p in s.active && p.sock == sock ==> Has(s, p);
          assert forall p :: p in s.inactive && p.sock == sock ==> Has(s, p);
        }
      } else {
        assert Has(t, r) <==> Has(s, r);
      }
    } else {
      assert Has(s, r) <==> reg == Some(r);
      assert reg.Some? ==> Has(s, reg.value) && reg.value.sock == r.sock;
    }
  }

  /** One call changes the registration of a socket as it should. */
  lemma StepHas(s: State, op: Op, r: Reg, reg: Option<Reg>)
    requires Inv(s) && IsReg(s, r.sock, reg) && (reg.Some? ==> Has(s, reg.value) && reg.value.sock == r.sock)
    ensures Has(Do(s, op).0, r) <==> RegAfter(op, reg, r.sock) == Some(r)
  {
    hide Unique, Ready, Remask, Without, Find, Activate, Registered, Pass;
    assert Has(s, r) <==> reg == Some(r);
    match op
    case Add(sock, mask, data) =>
      RegisteredHas(s, sock);
      ActivateHas(s.(inactive := [Reg(sock, mask + {Err}, data)] + s.inactive), sock, r);
    case Modify(sock, mask) => ModifyHas(s, sock, mask, r, reg);
    case Delete(sock) =>
      RegisteredHas(s, sock);
      UniqueParts(s.active, s.inactive);
      WithoutHas(s.active, sock, r);
      WithoutHas(s.inactive, sock, r);
    case SetEvents(sock, evts) =>
      ActivateHas(s.(events := s.events[sock := Pending(s.events, sock) + evts]), sock, r);
    case ClearEvents(sock, evts) =>
    case Wait(max) => PassHas(s, |s.active|, max, r);
  }

  /** In every run the instance holds exactly the registrations that the calls say. */
  lemma {:induction false} RegisteredIs(ops: seq<Op>, r: Reg)
    ensures Has(Exec(EMPTY, ops), r) <==> RegOf(ops, r.sock) == Some(r)
    decreases |ops|
  {
    hide Do, Inv, RegAfter;
    if ops != [] {
      ExecLast(EMPTY, ops);
      var before := ops[..|ops| - 1];
      var s, reg := Exec(EMPTY, before), RegOf(before, r.sock);
      EmptyInv();
      RunInv(EMPTY, before);
      forall q {:trigger Has(s, q)}
        ensures Has(s, q) && q.sock == r.sock <==> reg == Some(q)
      {
        RegisteredIs(before, q);
      }
      StepHas(s, ops[|ops| - 1], r, reg);
    }
  }

  lemma {:induction false} SocketsAre(ops: seq<Op>, sock: int)
    ensures sock in Sockets(ops) <==> RegOf(ops, sock).Some?
    decreases |ops|
  {
    if ops != [] {
      SocketsAre(ops[..|ops| - 1], sock);
    }
  }

  // ------------------------------------------------------------ reports

  /** What is to be reported of a socket, if anything. */
  function Due(ops: seq<Op>, sock: int): Option<Report> {
    match RegOf(ops, sock)
    case None => None
    case Some(r) =>
      if Raised(ops, sock) * r.mask == {} then None else Some(Report(Raised(ops, sock) * r.mask, r.data, sock))
  }

  /** In every run a pass reports, for each socket at most once, what is due: the events raised, not cleared and
      waited for, with the data of its registration; and with more room than sockets registered, all of that. */
  lemma PassReportsDue(ops: seq<Op>, max: nat)
    ensures var reports := EpollSpec.Wait(Exec(EMPTY, ops), max).1;
            && (forall i, j :: 0 <= i < j < |reports| ==> reports[i].sock != reports[j].sock)
            && (forall i :: 0 <= i < |reports| ==> Due(ops, reports[i].sock) == Some(reports[i]))
            && (|reports| < max || |Sockets(ops)| < max ==>
                  forall sock :: Due(ops, sock).Some? ==> Due(ops, sock).value in reports)
  {
    hide Inv, EpollSpec.Wait, Raised, RegOf, Sockets, Exec;
    var s := Exec(EMPTY, ops);
    var reports := EpollSpec.Wait(s, max).1;
    PassIsComplete(ops, max);
    forall i | 0 <= i < |reports|
      ensures Due(ops, reports[i].sock) == Some(reports[i]) && reports[i].sock in Sockets(ops)
    {
      assert Genuine(s, reports[i]);
      var r :| r in s.active && Ready(s.events, r) && reports[i] == ReportOf(s.events, r);
      RegisteredIs(ops, r);
      PendingIsRaised(ops, r.sock);
      SocketsAre(ops, r.sock);
    }
    DistinctSocks(reports, Sockets(ops));
    if |reports| < max || |Sockets(ops)| < max {
      forall sock | Due(ops, sock).Some?
        ensures Due(ops, sock).value in reports
      {
        var r := RegOf(ops, sock).value;
        RegisteredIs(ops, r);
        PendingIsRaised(ops, sock);
        assert r in s.active + s.inactive && Ready(s.events, r);
        assert ReportOf(s.events, r) == Due(ops, sock).value;
      }
    }
  }

  lemma {:induction false} DistinctSocks(reports: seq<Report>, socks: set<int>)
    requires forall i, j :: 0 <= i < j < |reports| ==> reports[i].sock != reports[j].sock
    requires forall i :: 0 <= i < |reports| ==> reports[i].sock in socks
    ensures |reports| <= |socks|
    decreases |reports|
  {
    if reports != [] {
      var n := |reports| - 1;
      DistinctSocks(reports[..n], socks - {reports[n].sock});
    }
  }
}
