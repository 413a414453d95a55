/** The readiness lists of one epoll instance. */
module EpollSpec {
  import opened Word

  datatype Event = In | Out | Err | Hup

  /** A registration of a socket, with the events it waits for. */
  datatype Reg = Reg(sock: int, mask: set<Event>, data: int)

  /** The pending events of the sockets, and the registrations on the two lists. */
  datatype State = State(events: map<int, set<Event>>, active: seq<Reg>, inactive: seq<Reg>)

  /** What `epoll_wait` reports of a registration. */
  datatype Report = Report(events: set<Event>, data: int, sock: int)

  function Pending(events: map<int, set<Event>>, sock: int): set<Event> {
    if sock in events then events[sock] else {}
  }

  function Meets(events: map<int, set<Event>>, r: Reg): set<Event> { Pending(events, r.sock) * r.mask }

  predicate Ready(events: map<int, set<Event>>, r: Reg) { Meets(events, r) != {} }

  // ------------------------------------------------------------ operations

  /** Where the registration of a socket is in a list. */
  function Find(regs: seq<Reg>, sock: int): (i: nat)
    ensures i <= |regs|
    ensures i < |regs| ==> regs[i].sock == sock
    ensures forall j :: 0 <= j < i ==> regs[j].sock != sock
  {
    if regs == [] || regs[0].sock == sock then 0 else 1 + Find(regs[1..], sock)
  }

  lemma {:induction false} FindRemask(regs: seq<Reg>, x: int, mask: set<Event>, sock: int)
    ensures Find(Remask(regs, x, mask), sock) == Find(regs, sock)
  {
    if regs != [] {
      FindRemask(regs[1..], x, mask, sock);
      var r := Remask(regs, x, mask);
      if regs[0].sock == x {
        assert r[1..] == regs[1..];
      } else {
        assert r[1..] == Remask(regs[1..], x, mask) && r[0] == regs[0];
      }
    }
  }

  lemma {:induction false} FindAppend(regs: seq<Reg>, r: Reg, sock: int)
    ensures Find(regs, sock) < |regs| ==> Find(regs + [r], sock) == Find(regs, sock)
  {
    if regs != [] {
      FindAppend(regs[1..], r, sock);
      assert (regs + [r])[1..] == regs[1..] + [r];
    }
  }

  lemma {:induction false} FindWithout(regs: seq<Reg>, x: int, sock: int)
    requires x != sock
    ensures Find(regs, sock) < |regs| ==> Find(Without(regs, x), sock) <= Find(regs, sock)
  {
    if regs != [] {
      FindWithout(regs[1..], x, sock);
      var r := Without(regs, x);
      if regs[0].sock == x {
        assert r == regs[1..];
      } else {
        assert r[0] == regs[0] && r[1..] == Without(regs[1..], x);
      }
    }
  }

  /** After it is taken out, a registration is no longer found. */
  lemma FindGone(regs: seq<Reg>, sock: int)
    requires Unique(regs)
    ensures Find(Without(regs, sock), sock) == |Without(regs, sock)|
  {
    var i, r := Find(regs, sock), Without(regs, sock);
    forall j | 0 <= j < |r|
      ensures r[j].sock != sock
    {
      if i < |regs| {
        OthersDiffer(regs, i, j);
      }
    }
  }

  predicate Registered(s: State, sock: int) {
    Find(s.active, sock) < |s.active| || Find(s.inactive, sock) < |s.inactive|
  }

  function Remove(regs: seq<Reg>, i: nat): seq<Reg>
    requires i < |regs|
  {
    regs[..i] + regs[i + 1..]
  }

  /** Make the registration of a socket active, at the end of the list, if it is not. */
  function Activate(s: State, sock: int): State {
    var i := Find(s.inactive, sock);
    if i == |s.inactive| then s
    else s.(inactive := Remove(s.inactive, i), active := s.active + [s.inactive[i]])
  }

  function ActivateIfReady(s: State, sock: int, mask: set<Event>): State {
    if Pending(s.events, sock) * mask != {} then Activate(s, sock) else s
  }

  /** Errors are always waited for. */
  function Add(s: State, sock: int, mask: set<Event>, data: int): Option<State> {
    if Registered(s, sock) then None
    else
      var m := mask + {Err};
      Some(ActivateIfReady(s.(inactive := [Reg(sock, m, data)] + s.inactive), sock, m))
  }

  function Remask(regs: seq<Reg>, sock: int, mask: set<Event>): seq<Reg> {
    var i := Find(regs, sock);
    if i == |regs| then regs else regs[i := regs[i].(mask := mask)]
  }

  function Modify(s: State, sock: int, mask: set<Event>): Option<State> {
    if !Registered(s, sock) then None
    else
      var m := mask + {Err};
      var t := s.(active := Remask(s.active, sock, m), inactive := Remask(s.inactive, sock, m));
      Some(ActivateIfReady(t, sock, m))
  }

  function Without(regs: seq<Reg>, sock: int): seq<Reg> {
    var i := Find(regs, sock);
    if i == |regs| then regs else Remove(regs, i)
  }

  function Delete(s: State, sock: int): Option<State> {
    if !Registered(s, sock) then None
    else Some(s.(active := Without(s.active, sock), inactive := Without(s.inactive, sock)))
  }

  /** Events arise at a socket; only those that are new make its registration active. */
  function SetEvents(s: State, sock: int, evts: set<Event>): State {
    var arising := evts - Pending(s.events, sock);
    if arising == {} then s
    else
      var t := s.(events := s.events[sock := Pending(s.events, sock) + evts]);
      var i := Find(s.inactive, sock);
      if i < |s.inactive| && arising * s.inactive[i].mask != {} then Activate(t, sock) else t
  }

  function ClearEvents(s: State, sock: int, evts: set<Event>): State {
    s.(events := s.events[sock := Pending(s.events, sock) - evts])
  }

  /** One pass of `epoll_wait`: up to `steps` times the first active registration is reported and put at the
      end of the list, or found not ready and deactivated. */
  function Pass(s: State, steps: nat, max: nat): (r: (State, seq<Report>))
    ensures |r.1| <= max
    decreases steps
  {
    if steps == 0 || max == 0 || s.active == [] then (s, [])
    else
      var es := s.active[0];
      if Ready(s.events, es) then
        var (t, reports) := Pass(s.(active := s.active[1..] + [es]), steps - 1, max - 1);
        (t, [Report(Meets(s.events, es), es.data, es.sock)] + reports)
      else
        Pass(s.(active := s.active[1..], inactive := [es] + s.inactive), steps - 1, max)
  }

  function Wait(s: State, max: nat): (State, seq<Report>) { Pass(s, |s.active|, max) }

  // ------------------------------------------------------------ invariant

  /** Each socket is registered once, on one of the lists, and every ready registration is on the active one. */
  ghost predicate Inv(s: State) {
    && Unique(s.active + s.inactive)
    && forall i {:trigger s.inactive[i]} :: 0 <= i < |s.inactive| ==> !Ready(s.events, s.inactive[i])
  }

  ghost predicate Unique(regs: seq<Reg>) {
    forall i, j {:trigger regs[i], regs[j]} :: 0 <= i < j < |regs| ==> regs[i].sock != regs[j].sock
  }

  lemma UniqueParts(a: seq<Reg>, b: seq<Reg>)
    requires Unique(a + b)
    ensures Unique(a) && Unique(b)
    ensures forall i, j {:trigger a[i], b[j]} :: 0 <= i < |a| && 0 <= j < |b| ==> a[i].sock != b[j].sock
  {
    var c := a + b;
    forall i, j | 0 <= i < j < |a|
      ensures a[i].sock != a[j].sock
    {
      assert c[i] == a[i] && c[j] == a[j];
    }
    forall i, j | 0 <= i < j < |b|
      ensures b[i].sock != b[j].sock
    {
      assert c[|a| + i] == b[i] && c[|a| + j] == b[j];
    }
    forall i, j | 0 <= i < |a| && 0 <= j < |b|
      ensures a[i].sock != b[j].sock
    {
      assert c[i] == a[i] && c[|a| + j] == b[j];
    }
  }

  /** How many registrations a socket has in a list. */
  function N(regs: seq<Reg>, x: int): nat {
    if regs == [] then 0 else N(regs[..|regs| - 1], x) + One(regs[|regs| - 1], x)
  }

  function One(r: Reg, x: int): nat { if r.sock == x then 1 else 0 }

  lemma {:induction false} NConcat(a: seq<Reg>, b: seq<Reg>, x: int)
    ensures N(a + b, x) == N(a, x) + N(b, x)
    decreases |b|
  {
    if b == [] {
      assert a + b == a;
    } else {
      var m := b[..|b| - 1];
      NConcat(a, m, x);
      assert (a + b)[..|a + b| - 1] == a + m;
    }
  }

  lemma NOne(r: Reg, x: int)
    ensures N([r], x) == One(r, x)
  {
    assert [r][..0] == [];
  }

  lemma {:induction false} NMember(regs: seq<Reg>, i: nat)
    requires i < |regs|
    ensures N(regs, regs[i].sock) > 0
    decreases |regs|
  {
    if i < |regs| - 1 {
      NMember(regs[..|regs| - 1], i);
    }
  }

  lemma {:induction false} NFrom(regs: seq<Reg>, x: int)
    requires N(regs, x) > 0
    ensures exists i :: 0 <= i < |regs| && regs[i].sock == x
    decreases |regs|
  {
    var n := |regs| - 1;
    if regs[n].sock != x {
      NFrom(regs[..n], x);
      var i :| 0 <= i < n && regs[..n][i].sock == x;
      assert regs[i].sock == x;
    }
  }

  lemma {:induction false} UniqueAtMostOne(regs: seq<Reg>, x: int)
    requires Unique(regs)
    ensures N(regs, x) <= 1
    decreases |regs|
  {
    if regs != [] {
      var n := |regs| - 1;
      UniqueParts(regs[..n], [regs[n]]);
      assert regs == regs[..n] + [regs[n]];
      UniqueAtMostOne(regs[..n], x);
      if x == regs[n].sock && N(regs[..n], x) > 0 {
        NFrom(regs[..n], x);
      }
    }
  }

  lemma AtMostOneUnique(regs: seq<Reg>)
    requires forall x {:trigger N(regs, x)} :: N(regs, x) <= 1
    ensures Unique(regs)
  {
    forall i, j | 0 <= i < j < |regs|
      ensures regs[i].sock != regs[j].sock
    {
      var x := regs[i].sock;
      NConcat(regs[..j], regs[j..], x);
      assert regs == regs[..j] + regs[j..];
      NMember(regs[..j], i);
      if regs[j].sock == x {
        NMember(regs[j..], 0);
      }
      assert N(regs, x) <= 1;
    }
  }

  /** How many registrations a socket has. */
  function All(s: State, x: int): nat { N(s.active, x) + N(s.inactive, x) }

  lemma UniqueAll(s: State)
    requires Unique(s.active + s.inactive)
    ensures forall x {:trigger All(s, x)} :: All(s, x) <= 1
  {
    forall x {:trigger All(s, x)}
      ensures All(s, x) <= 1
    {
      UniqueAtMostOne(s.active + s.inactive, x);
      NConcat(s.active, s.inactive, x);
    }
  }

  lemma AllUnique(s: State)
    requires forall x {:trigger All(s, x)} :: All(s, x) <= 1
    ensures Unique(s.active + s.inactive)
  {
    var regs := s.active + s.inactive;
    forall x {:trigger N(regs, x)}
      ensures N(regs, x) <= 1
    {
      NConcat(s.active, s.inactive, x);
      assert All(s, x) <= 1;
    }
    AtMostOneUnique(regs);
  }

  lemma NRemove(regs: seq<Reg>, i: nat, x: int)
    requires i < |regs|
    ensures N(Remove(regs, i), x) == N(regs, x) - One(regs[i], x)
  {
    NConcat(regs[..i] + [regs[i]], regs[i + 1..], x);
    NConcat(regs[..i], [regs[i]], x);
    NConcat(regs[..i], regs[i + 1..], x);
    NOne(regs[i], x);
    assert regs == regs[..i] + [regs[i]] + regs[i + 1..];
  }

  lemma NRemask(regs: seq<Reg>, sock: int, mask: set<Event>, x: int)
    ensures N(Remask(regs, sock, mask), x) == N(regs, x)
  {
    var i := Find(regs, sock);
    if i < |regs| {
      var r := Remask(regs, sock, mask);
      NRemove(regs, i, x);
      NRemove(r, i, x);
      assert Remove(r, i) == Remove(regs, i);
    }
  }

  lemma NAbsent(regs: seq<Reg>, sock: int)
    requires Find(regs, sock) == |regs|
    ensures N(regs, sock) == 0
  {
    if N(regs, sock) > 0 {
      NFrom(regs, sock);
    }
  }

  lemma AllActivate(s: State, sock: int, x: int)
    ensures All(Activate(s, sock), x) == All(s, x)
  {
    var i := Find(s.inactive, sock);
    if i < |s.inactive| {
      NRemove(s.inactive, i, x);
      NConcat(s.active, [s.inactive[i]], x);
      NOne(s.inactive[i], x);
    }
  }

  lemma ActivateUnique(s: State, sock: int)
    requires Unique(s.active + s.inactive)
    ensures Unique(Activate(s, sock).active + Activate(s, sock).inactive)
  {
    hide Unique, Activate, All;
    UniqueAll(s);
    var t := Activate(s, sock);
    forall x {:trigger All(t, x)}
      ensures All(t, x) <= 1
    {
      AllActivate(s, sock, x);
    }
    AllUnique(t);
  }

  /** No registration but that of `sock` is left inactive though ready. */
  ghost predicate QuietBut(s: State, sock: int) {
    forall i {:trigger s.inactive[i]} :: 0 <= i < |s.inactive| && s.inactive[i].sock != sock ==>
      !Ready(s.events, s.inactive[i])
  }

  lemma ActivateQuiet(s: State, sock: int)
    requires Unique(s.active + s.inactive) && QuietBut(s, sock)
    ensures Inv(Activate(s, sock))
  {
    hide Ready, Unique;
    ActivateUnique(s, sock);
    UniqueParts(s.active, s.inactive);
    var i, t := Find(s.inactive, sock), Activate(s, sock);
    forall j {:trigger t.inactive[j]} | 0 <= j < |t.inactive|
      ensures !Ready(t.events, t.inactive[j])
    {
      if i < |s.inactive| {
        OthersDiffer(s.inactive, i, j);
      }
    }
  }

  lemma OthersDiffer(regs: seq<Reg>, i: nat, j: nat)
    requires Unique(regs) && i < |regs| && j < |regs| - 1
    ensures var k := if j < i then j else j + 1;
            Remove(regs, i)[j] == regs[k] && regs[k].sock != regs[i].sock
  {
  }

  lemma IfReadyQuiet(s: State, sock: int, mask: set<Event>)
    requires Unique(s.active + s.inactive) && QuietBut(s, sock)
    requires forall i :: 0 <= i < |s.inactive| && s.inactive[i].sock == sock ==> s.inactive[i].mask == mask
    ensures Inv(ActivateIfReady(s, sock, mask))
  {
    if Pending(s.events, sock) * mask != {} {
      ActivateQuiet(s, sock);
    }
  }

  lemma AddUnique(s: State, r: Reg)
    requires Unique(s.active + s.inactive) && !Registered(s, r.sock)
    ensures Unique(s.active + ([r] + s.inactive))
  {
    hide Unique;
    var t := s.(inactive := [r] + s.inactive);
    UniqueAll(s);
    NAbsent(s.active, r.sock);
    NAbsent(s.inactive, r.sock);
    forall x {:trigger All(t, x)}
      ensures All(t, x) <= 1
    {
      assert All(s, x) <= 1;
      NConcat([r], s.inactive, x);
      NOne(r, x);
    }
    AllUnique(t);
  }

  lemma AddInv(s: State, sock: int, mask: set<Event>, data: int)
    requires Inv(s) && !Registered(s, sock)
    ensures Inv(Add(s, sock, mask, data).value)
  {
    hide Ready, Unique, Registered;
    var r := Reg(sock, mask + {Err}, data);
    var t := s.(inactive := [r] + s.inactive);
    AddUnique(s, r);
    forall i | 0 <= i < |t.inactive| && t.inactive[i].sock == sock
      ensures t.inactive[i].mask == mask + {Err}
    {
      if i > 0 {
        OnlyOne(t, i);
      }
    }
    IfReadyQuiet(t, sock, mask + {Err});
  }

  lemma OnlyOne(t: State, i: nat)
    requires Unique(t.active + t.inactive) && 0 < i < |t.inactive|
    ensures t.inactive[i].sock != t.inactive[0].sock
  {
    UniqueParts(t.active, t.inactive);
  }

  lemma ModifyUnique(s: State, sock: int, m: set<Event>)
    requires Unique(s.active + s.inactive)
    ensures Unique(Remask(s.active, sock, m) + Remask(s.inactive, sock, m))
  {
    hide Unique, Remask;
    var t := s.(active := Remask(s.active, sock, m), inactive := Remask(s.inactive, sock, m));
    UniqueAll(s);
    forall x {:trigger All(t, x)}
      ensures All(t, x) <= 1
    {
      assert All(s, x) <= 1;
      NRemask(s.active, sock, m, x);
      NRemask(s.inactive, sock, m, x);
    }
    AllUnique(t);
  }

  lemma ModifyInv(s: State, sock: int, mask: set<Event>)
    requires Inv(s) && Registered(s, sock)
    ensures Inv(Modify(s, sock, mask).value)
  {
    hide Ready, Unique, Remask, Registered;
    var m := mask + {Err};
    var t := s.(active := Remask(s.active, sock, m), inactive := Remask(s.inactive, sock, m));
    ModifyUnique(s, sock, m);
    UniqueParts(s.active, s.inactive);
    RemaskMasks(s.inactive, sock, m);
    IfReadyQuiet(t, sock, m);
  }

  lemma RemaskMasks(regs: seq<Reg>, sock: int, m: set<Event>)
    requires Unique(regs)
    ensures var r := Remask(regs, sock, m);
            |r| == |regs| && forall i {:trigger r[i]} :: 0 <= i < |r| ==>
              r[i] == if regs[i].sock == sock then regs[i].(mask := m) else regs[i]
  {
    var k := Find(regs, sock);
    forall i {:trigger regs[i]} | 0 <= i < |regs| && regs[i].sock == sock
      ensures i == k
    {
    }
  }

  lemma WithoutAtMost(regs: seq<Reg>, sock: int, x: int)
    ensures N(Without(regs, sock), x) <= N(regs, x)
  {
    var i := Find(regs, sock);
    if i < |regs| {
      NRemove(regs, i, x);
    }
  }

  lemma DeleteInv(s: State, sock: int)
    requires Inv(s) && Registered(s, sock)
    ensures Inv(Delete(s, sock).value)
  {
    hide Ready, Unique, Registered, N;
    var t := Delete(s, sock).value;
    UniqueAll(s);
    forall x {:trigger All(t, x)}
      ensures All(t, x) <= 1
    {
      assert All(s, x) <= 1;
      WithoutAtMost(s.active, sock, x);
      WithoutAtMost(s.inactive, sock, x);
    }
    AllUnique(t);
    WithoutMembers(s.inactive, sock);
    forall j {:trigger t.inactive[j]} | 0 <= j < |t.inactive|
      ensures !Ready(t.events, t.inactive[j])
    {
      assert t.inactive[j] in s.inactive;
    }
  }

  lemma WithoutMembers(regs: seq<Reg>, sock: int)
    ensures forall r :: r in Without(regs, sock) ==> r in regs
  {
  }

  lemma SetInv(s: State, sock: int, evts: set<Event>)
    requires Inv(s)
    ensures Inv(SetEvents(s, sock, evts))
  {
    hide Unique;
    var arising := evts - Pending(s.events, sock);
    if arising != {} {
      var t := s.(events := s.events[sock := Pending(s.events, sock) + evts]);
      UniqueParts(s.active, s.inactive);
      assert QuietBut(t, sock) by {
        hide Unique;
        assert forall r: Reg :: r.sock != sock ==> Ready(t.events, r) == Ready(s.events, r);
      }
      var i := Find(s.inactive, sock);
      if i < |s.inactive| && arising * s.inactive[i].mask != {} {
        ActivateQuiet(t, sock);
      } else {
        StaysQuiet(s, t, sock, evts, i);
      }
    }
  }

  /** The registration of the socket, if inactive, waits for none of the events that are new. */
  lemma StaysQuiet(s: State, t: State, sock: int, evts: set<Event>, k: nat)
    requires Inv(s) && t == s.(events := s.events[sock := Pending(s.events, sock) + evts]) && QuietBut(t, sock)
    requires k == Find(s.inactive, sock)
    requires k < |s.inactive| ==> (evts - Pending(s.events, sock)) * s.inactive[k].mask == {}
    ensures Inv(t)
  {
    UniqueParts(s.active, s.inactive);
    forall i {:trigger t.inactive[i]} | 0 <= i < |t.inactive|
      ensures !Ready(t.events, t.inactive[i])
    {
      var r := s.inactive[i];
      if r.sock == sock {
        assert i == k;
        assert Meets(t.events, r) == Meets(s.events, r) + (evts - Pending(s.events, sock)) * r.mask;
      }
    }
  }

  lemma ClearInv(s: State, sock: int, evts: set<Event>)
    requires Inv(s)
    ensures Inv(ClearEvents(s, sock, evts))
  {
    hide Unique;
    var t := ClearEvents(s, sock, evts);
    forall i {:trigger t.inactive[i]} | 0 <= i < |t.inactive|
      ensures !Ready(t.events, t.inactive[i])
    {
      assert Meets(t.events, s.inactive[i]) <= Meets(s.events, s.inactive[i]);
    }
  }

  // ------------------------------------------------------------ one pass

  /** The registrations that are ready, in order, at most `max` of them. */
  ghost function FirstReady(events: map<int, set<Event>>, regs: seq<Reg>, max: nat): (r: seq<Reg>)
    ensures |r| <= max && |r| <= |regs|
  {
    if regs == [] || max == 0 then []
    else if Ready(events, regs[0]) then [regs[0]] + FirstReady(events, regs[1..], max - 1)
    else FirstReady(events, regs[1..], max)
  }

  /** How many registrations a pass looks at. */
  ghost function Looked(events: map<int, set<Event>>, regs: seq<Reg>, max: nat): (n: nat)
    ensures n <= |regs| && n >= |FirstReady(events, regs, max)|
    ensures n == |regs| || |FirstReady(events, regs, max)| == max
  {
    if regs == [] || max == 0 then 0
    else 1 + Looked(events, regs[1..], if Ready(events, regs[0]) then max - 1 else max)
  }

  function ReportOf(events: map<int, set<Event>>, r: Reg): Report { Report(Meets(events, r), r.data, r.sock) }

  ghost function NotReady(events: map<int, set<Event>>, regs: seq<Reg>): seq<Reg> {
    if regs == [] then []
    else NotReady(events, regs[1..]) + if Ready(events, regs[0]) then [] else [regs[0]]
  }

  /** What a pass over `todo` does, with registrations it already reported behind them. */
  ghost predicate Passed(s: State, todo: seq<Reg>, done: seq<Reg>, max: nat, t: State, reports: seq<Report>) {
    var first, n := FirstReady(s.events, todo, max), Looked(s.events, todo, max);
    && t.events == s.events
    && t.active == todo[n..] + done + first
    && t.inactive == NotReady(s.events, todo[..n]) + s.inactive
    && |reports| == |first|
    && forall i :: 0 <= i < |first| ==> reports[i] == ReportOf(s.events, first[i])
  }

  lemma {:induction false} PassIs(s: State, todo: seq<Reg>, done: seq<Reg>, max: nat)
    requires s.active == todo + done
    ensures Passed(s, todo, done, max, Pass(s, |todo|, max).0, Pass(s, |todo|, max).1)
    decreases |todo|
  {
    hide Ready, Meets, Passed;
    if todo == [] || max == 0 {
      PassedNothing(s, todo, done, max);
    } else {
      var es := todo[0];
      assert s.active[0] == es && s.active[1..] == todo[1..] + done;
      if Ready(s.events, es) {
        var u := s.(active := s.active[1..] + [es]);
        assert u.active == todo[1..] + (done + [es]);
        PassIs(u, todo[1..], done + [es], max - 1);
        var (t, reports) := Pass(u, |todo[1..]|, max - 1);
        PassedReady(s, u, todo, done, max, t, reports);
      } else {
        var u := s.(active := s.active[1..], inactive := [es] + s.inactive);
        PassIs(u, todo[1..], done, max);
        var (t, reports) := Pass(u, |todo[1..]|, max);
        PassedOther(s, u, todo, done, max, t, reports);
      }
    }
  }

  lemma PassedNothing(s: State, todo: seq<Reg>, done: seq<Reg>, max: nat)
    requires s.active == todo + done && (todo == [] || max == 0)
    ensures Passed(s, todo, done, max, s, [])
  {
    assert todo[0..] == todo && todo[..0] == [];
    assert s.active == todo + done + [];
    assert [] + s.inactive == s.inactive;
  }

  lemma PassedReady(s: State, u: State, todo: seq<Reg>, done: seq<Reg>, max: nat, t: State, reports: seq<Report>)
    requires todo != [] && max > 0 && Ready(s.events, todo[0])
    requires u.events == s.events && u.inactive == s.inactive
    requires Passed(u, todo[1..], done + [todo[0]], max - 1, t, reports)
    ensures Passed(s, todo, done, max, t, [ReportOf(s.events, todo[0])] + reports)
  {
    hide Ready, Meets, ReportOf;
    var es := todo[0];
    var n, rest := Looked(s.events, todo[1..], max - 1), FirstReady(s.events, todo[1..], max - 1);
    SliceShift(todo, n);
    assert todo[n + 1..] + (done + [es]) + rest == todo[n + 1..] + done + ([es] + rest);
    assert todo[..n + 1][0] == es;
    var all := [ReportOf(s.events, es)] + reports;
    assert FirstReady(s.events, todo, max) == [es] + rest;
    assert forall i :: 1 <= i < |all| ==> all[i] == reports[i - 1];
  }

  lemma PassedOther(s: State, u: State, todo: seq<Reg>, done: seq<Reg>, max: nat, t: State, reports: seq<Report>)
    requires todo != [] && max > 0 && !Ready(s.events, todo[0])
    requires u.events == s.events && u.inactive == [todo[0]] + s.inactive
    requires Passed(u, todo[1..], done, max, t, reports)
    ensures Passed(s, todo, done, max, t, reports)
  {
    hide Ready, Meets, ReportOf;
    var n := Looked(s.events, todo[1..], max);
    SliceShift(todo, n);
    assert todo[..n + 1][0] == todo[0];
    assert NotReady(s.events, todo[..n + 1]) + s.inactive
        == NotReady(s.events, todo[1..][..n]) + ([todo[0]] + s.inactive);
  }

  lemma SliceShift(todo: seq<Reg>, n: nat)
    requires n < |todo|
    ensures todo[1..][n..] == todo[n + 1..] && todo[..n + 1][1..] == todo[1..][..n]
  {
  }

  lemma {:induction false} FirstReadyMember(events: map<int, set<Event>>, regs: seq<Reg>, max: nat)
    ensures forall r :: r in FirstReady(events, regs, max) ==> r in regs && Ready(events, r)
    ensures forall i :: 0 <= i < Looked(events, regs, max) && Ready(events, regs[i]) ==>
              regs[i] in FirstReady(events, regs, max)
    decreases |regs|
  {
    hide Ready;
    if regs != [] && max > 0 {
      var m := if Ready(events, regs[0]) then max - 1 else max;
      FirstReadyMember(events, regs[1..], m);
      forall i | 0 <= i < Looked(events, regs, max) && Ready(events, regs[i])
        ensures regs[i] in FirstReady(events, regs, max)
      {
        if i > 0 {
          assert regs[1..][i - 1] == regs[i];
        }
      }
    }
  }

  lemma {:induction false} FirstReadyUnique(events: map<int, set<Event>>, regs: seq<Reg>, max: nat)
    requires Unique(regs)
    ensures Unique(FirstReady(events, regs, max))
    decreases |regs|
  {
    hide Ready;
    if regs != [] && max > 0 {
      if Ready(events, regs[0]) {
        FirstReadyUnique(events, regs[1..], max - 1);
        FirstReadyMember(events, regs[1..], max - 1);
        var rest := FirstReady(events, regs[1..], max - 1);
        forall j | 0 <= j < |rest|
          ensures rest[j].sock != regs[0].sock
        {
          assert rest[j] in regs[1..];
          var k :| 0 <= k < |regs[1..]| && regs[1..][k] == rest[j];
          assert regs[k + 1] == rest[j];
        }
      } else {
        FirstReadyUnique(events, regs[1..], max);
      }
    }
  }

  /** The report is of a ready registration, with its pending events. */
  ghost predicate Genuine(s: State, report: Report) {
    exists r :: r in s.active && Ready(s.events, r) && report == ReportOf(s.events, r)
  }

  /** One pass reports no registration twice, each with its pending events, and unless it stops for lack of
      room it reports all that are ready. */
  lemma WaitReports(s: State, max: nat)
    requires Inv(s)
    ensures var (t, reports) := Wait(s, max);
            && |reports| <= max
            && (forall i, j :: 0 <= i < j < |reports| ==> reports[i].sock != reports[j].sock)
            && (forall i :: 0 <= i < |reports| ==> Genuine(s, reports[i]))
            && (|reports| < max ==>
                  forall r :: r in s.active + s.inactive && Ready(s.events, r) ==> ReportOf(s.events, r) in reports)
  {
    hide Ready, Unique, ReportOf, Meets;
    UniqueParts(s.active, s.inactive);
    assert s.active == s.active + [];
    PassIs(s, s.active, [], max);
    assert Passed(s, s.active, [], max, Wait(s, max).0, Wait(s, max).1);
    FirstReadyMember(s.events, s.active, max);
    FirstReadyUnique(s.events, s.active, max);
    var first := FirstReady(s.events, s.active, max);
    var reports := Wait(s, max).1;
    ReportSocks(s.events, first, reports);
    forall i | 0 <= i < |reports|
      ensures Genuine(s, reports[i])
    {
      assert first[i] in first && reports[i] == ReportOf(s.events, first[i]);
    }
    if |reports| < max {
      forall r | r in s.active + s.inactive && Ready(s.events, r)
        ensures ReportOf(s.events, r) in reports
      {
        QuietInactive(s, r);
        var i :| 0 <= i < |s.active| && s.active[i] == r;
        var j :| 0 <= j < |first| && first[j] == r;
        assert reports[j] == ReportOf(s.events, r);
      }
    }
  }

  lemma QuietInactive(s: State, r: Reg)
    requires Inv(s) && r in s.active + s.inactive && Ready(s.events, r)
    ensures r in s.active
  {
    hide Unique, Ready;
    forall x | x in s.inactive
      ensures !Ready(s.events, x)
    {
      var i :| 0 <= i < |s.inactive| && s.inactive[i] == x;
    }
  }

  lemma ReportSocks(events: map<int, set<Event>>, first: seq<Reg>, reports: seq<Report>)
    requires Unique(first) && |reports| == |first|
    requires forall i :: 0 <= i < |first| ==> reports[i] == ReportOf(events, first[i])
    ensures forall i, j :: 0 <= i < j < |reports| ==> reports[i].sock != reports[j].sock
  {
    forall i, j | 0 <= i < j < |reports|
      ensures reports[i].sock != reports[j].sock
    {
      assert reports[i] == ReportOf(events, first[i]) && reports[j] == ReportOf(events, first[j]);
    }
  }

  lemma {:induction false} NotReadyN(events: map<int, set<Event>>, regs: seq<Reg>, max: nat, x: int)
    ensures var n := Looked(events, regs, max);
            N(NotReady(events, regs[..n]), x) + N(FirstReady(events, regs, max), x) == N(regs[..n], x)
    decreases |regs|
  {
    hide Ready, N, One;
    if regs == [] || max == 0 {
      assert regs[..0] == [];
      NNone(x);
    } else {
      var m := if Ready(events, regs[0]) then max - 1 else max;
      var n := Looked(events, regs[1..], m);
      var rest, left := FirstReady(events, regs[1..], m), NotReady(events, regs[1..][..n]);
      NotReadyN(events, regs[1..], m, x);
      SliceShift(regs, n);
      assert regs[..n + 1][0] == regs[0];
      assert regs[..n + 1] == [regs[0]] + regs[1..][..n];
      NConcat([regs[0]], regs[1..][..n], x);
      NOne(regs[0], x);
      NConcat([regs[0]], rest, x);
      NConcat(left, [regs[0]], x);
      assert left + [] == left;
    }
  }

  lemma NNone(x: int)
    ensures N([], x) == 0
  {
  }

  lemma {:induction false} NotReadyMember(events: map<int, set<Event>>, regs: seq<Reg>)
    ensures forall r :: r in NotReady(events, regs) ==> !Ready(events, r)
  {
    hide Ready;
    if regs != [] {
      NotReadyMember(events, regs[1..]);
    }
  }

  lemma WaitInv(s: State, max: nat)
    requires Inv(s)
    ensures Inv(Wait(s, max).0)
  {
    hide Ready, Unique, NotReady, All;
    var (t, reports) := Wait(s, max);
    var n, first := Looked(s.events, s.active, max), FirstReady(s.events, s.active, max);
    assert s.active == s.active + [];
    PassIs(s, s.active, [], max);
    UniqueAll(s);
    assert t.active == s.active[n..] + first;
    forall x {:trigger All(t, x)}
      ensures All(t, x) <= 1
    {
      WaitCounts(s, t, n, max, x);
    }
    AllUnique(t);
    NotReadyAhead(t.events, NotReady(s.events, s.active[..n]), s.active[..n], s.inactive);
  }

  /** A pass counts every registration as often as before. */
  lemma WaitCounts(s: State, t: State, n: nat, max: nat, x: int)
    requires n == Looked(s.events, s.active, max) <= |s.active|
    requires t.active == s.active[n..] + FirstReady(s.events, s.active, max)
    requires t.inactive == NotReady(s.events, s.active[..n]) + s.inactive
    ensures All(t, x) == All(s, x)
  {
    hide Ready, NotReady;
    NotReadyN(s.events, s.active, max, x);
    NConcat(s.active[n..], FirstReady(s.events, s.active, max), x);
    NConcat(NotReady(s.events, s.active[..n]), s.inactive, x);
    NConcat(s.active[..n], s.active[n..], x);
    assert s.active == s.active[..n] + s.active[n..];
  }

  lemma NotReadyAhead(events: map<int, set<Event>>, front: seq<Reg>, from: seq<Reg>, back: seq<Reg>)
    requires front == NotReady(events, from)
    requires forall j {:trigger back[j]} :: 0 <= j < |back| ==> !Ready(events, back[j])
    ensures forall j {:trigger (front + back)[j]} :: 0 <= j < |front + back| ==> !Ready(events, (front + back)[j])
  {
    hide Ready;
    NotReadyMember(events, from);
    forall j {:trigger (front + back)[j]} | 0 <= j < |front + back|
      ensures !Ready(events, (front + back)[j])
    {
      if j < |front| {
        assert (front + back)[j] in front;
      } else {
        assert (front + back)[j] == back[j - |front|];
      }
    }
  }
}
