/** An epoll instance: its two lists of registrations, and the calls that move them. */
module Epoll {
  import opened EpollSpec

  class EpollInstance {
    var activeList: seq<Reg>
    var inactiveList: seq<Reg>
    var numActive: nat
    /** The pending events of the sockets. */
    var epEvents: map<int, set<Event>>

    ghost predicate Valid()
      reads this
    {
      numActive == |activeList|
    }

    function View(): State
      reads this
    {
      State(epEvents, activeList, inactiveList)
    }

    constructor ()
      ensures Valid() && View() == State(map[], [], [])
    {
      activeList, inactiveList := [], [];
      numActive := 0;
      epEvents := map[];
    }

    method Lookup(regs: seq<Reg>, sock: int) returns (i: nat)
      ensures i == Find(regs, sock)
    {
      i := 0;
      assert regs[0..] == regs;
      while i < |regs| && regs[i].sock != sock
        invariant i <= |regs| && i + Find(regs[i..], sock) == Find(regs, sock)
      {
        assert regs[i..][1..] == regs[i + 1..];
        i := i + 1;
      }
    }

    /** Make the registration of `sock` active. */
    method EsActivate(sock: int)
      requires Valid()
      modifies this
      ensures Valid() && View() == Activate(old(View()), sock)
    {
      var i := Lookup(inactiveList, sock);
      if i == |inactiveList| {
        return;
      }
      var es := inactiveList[i];
      inactiveList := inactiveList[..i] + inactiveList[i + 1..];
      activeList := activeList + [es];
      numActive := numActive + 1;
    }

    method CtlAdd(sock: int, mask: set<Event>, data: int) returns (ok: bool)
      requires Valid()
      modifies this
      ensures Valid()
      ensures match Add(old(View()), sock, mask, data)
              case None => !ok && View() == old(View())
              case Some(s) => ok && View() == s
    {
      var i := Lookup(activeList, sock);
      var j := Lookup(inactiveList, sock);
      if i < |activeList| || j < |inactiveList| {
        return false;
      }
      inactiveList := [Reg(sock, mask + {Err}, data)] + inactiveList;
      if Pending(epEvents, sock) * (mask + {Err}) != {} {
        EsActivate(sock);
      }
      ok := true;
    }

    method CtlModify(sock: int, mask: set<Event>) returns (ok: bool)
      requires Valid()
      modifies this
      ensures Valid()
      ensures match Modify(old(View()), sock, mask)
              case None => !ok && View() == old(View())
              case Some(s) => ok && View() == s
    {
      hide Find, Activate;
      var i := Lookup(activeList, sock);
      var j := Lookup(inactiveList, sock);
      if i == |activeList| && j == |inactiveList| {
        return false;
      }
      if i < |activeList| {
        activeList := activeList[i := activeList[i].(mask := mask + {Err})];
      }
      if j < |inactiveList| {
        inactiveList := inactiveList[j := inactiveList[j].(mask := mask + {Err})];
      }
      if Pending(epEvents, sock) * (mask + {Err}) != {} {
        EsActivate(sock);
      }
      ok := true;
    }

    method CtlDelete(sock: int) returns (ok: bool)
      requires Valid()
      modifies this
      ensures Valid()
      ensures match Delete(old(View()), sock)
              case None => !ok && View() == old(View())
              case Some(s) => ok && View() == s
    {
      hide Find;
      var i := Lookup(activeList, sock);
      var j := Lookup(inactiveList, sock);
      ok := i < |activeList| || j < |inactiveList|;
      if i < |activeList| {
        activeList := activeList[..i] + activeList[i + 1..];
        numActive := numActive - 1;
      }
      if j < |inactiveList| {
        inactiveList := inactiveList[..j] + inactiveList[j + 1..];
      }
    }

    method EpollSet(sock: int, evts: set<Event>)
      requires Valid()
      modifies this
      ensures Valid() && View() == SetEvents(old(View()), sock, evts)
    {
      hide Find, Activate;
      var arising := evts - Pending(epEvents, sock);
      if arising == {} {
        return;
      }
      epEvents := epEvents[sock := Pending(epEvents, sock) + evts];
      var i := Lookup(inactiveList, sock);
      if i < |inactiveList| && arising * inactiveList[i].mask != {} {
        EsActivate(sock);
      }
    }

    method EpollClear(sock: int, evts: set<Event>)
      requires Valid()
      modifies this
      ensures Valid() && View() == ClearEvents(old(View()), sock, evts)
    {
      epEvents := epEvents[sock := Pending(epEvents, sock) - evts];
    }

    /** One pass over the active list. */
    method WaitPass(maxevents: nat) returns (reports: seq<Report>)
      requires Valid()
      modifies this
      ensures Valid() && (View(), reports) == Wait(old(View()), maxevents)
    {
      hide Ready, Meets;
      reports := [];
      var limit := numActive;
      var i := 0;
      assert [] + Wait(View(), maxevents).1 == Wait(View(), maxevents).1;
      while i < limit && |reports| < maxevents
        invariant Valid() && 0 <= i <= limit && |reports| <= maxevents
        invariant var (t, rest) := Pass(View(), limit - i, maxevents - |reports|);
                  (t, reports + rest) == Pass(old(View()), limit, maxevents)
        decreases limit - i
      {
        if activeList == [] {
          break;
        }
        var es := activeList[0];
        ghost var (t, rest) := Pass(View(), limit - i, maxevents - |reports|);
        if Ready(epEvents, es) {
          var report := Report(Meets(epEvents, es), es.data, es.sock);
          assert reports + rest == reports + [report] + rest[1..];
          reports := reports + [report];
          activeList := activeList[1..] + [es];
        } else {
          activeList := activeList[1..];
          numActive := numActive - 1;
          inactiveList := [es] + inactiveList;
        }
        i := i + 1;
      }
      assert reports + [] == reports;
    }
  }
}
