/** What unpacking makes of the units of a program: the tables and packets in them, parsed from their bytes, and nothing
    else. */
module ProgramProperties {
  import opened Words
  import opened Bytestreams
  import opened UnitLists
  import A = ProgramAssociation
  import M = ProgramMap
  import E = PesPackets
  import T = StreamTable
  import V = ProgramUnits
  import B = ParsedBytes

  // ---- the tables in the units ----

  /** The program PIDs that the units of PID 0 name, in order. */
  function PatPids(us: seq<UnitValue>): seq<int> {
    if us == [] then []
    else (if us[0].pid == 0 then [A.Decode(Open(us[0].data)).pat.programPid] else []) + PatPids(us[1..])
  }

  predicate NoBadPat(us: seq<UnitValue>) {
    forall i :: 0 <= i < |us| && us[i].pid == 0 ==> A.Decode(Open(us[i].data)).status != Error
  }

  /** The tables in the units of a PID, in order. */
  function PmtsIn(us: seq<UnitValue>, pid: int): seq<M.Pmt> {
    if us == [] then []
    else (if us[0].pid == pid then [M.Decode(Open(us[0].data)).pmt] else []) + PmtsIn(us[1..], pid)
  }

  predicate NoBadPmt(us: seq<UnitValue>, pid: int) {
    forall i :: 0 <= i < |us| && us[i].pid == pid ==> M.Decode(Open(us[i].data)).status != Error
  }

  // ---- the program PID ----

  function FirstNonzero(pid: int, pids: seq<int>): int
    decreases |pids|
  {
    if pid != 0 || pids == [] then pid else FirstNonzero(pids[0], pids[1..])
  }

  /** Behind the first PID that is not zero, all are the same. */
  predicate PidsAgree(pid: int, pids: seq<int>) {
    forall k :: 0 <= k < |pids| ==>
                  pids[k] == FirstNonzero(pid, pids) || (pid == 0 && forall j :: 0 <= j <= k ==> pids[j] == 0)
  }

  lemma AgreeNext(pid: int, pids: seq<int>)
    requires pids != []
    ensures
      var now := if pid == 0 then pids[0] else pid;
      && FirstNonzero(now, pids[1..]) == FirstNonzero(pid, pids)
      && (PidsAgree(pid, pids) <==> now == pids[0] && PidsAgree(now, pids[1..]))
  {
    var now := if pid == 0 then pids[0] else pid;
    var v := FirstNonzero(pid, pids);
    if PidsAgree(pid, pids) {
      assert pids[0] == v || pid == 0;
      forall k | 0 <= k < |pids[1..]|
        ensures pids[1..][k] == v || (now == 0 && forall j :: 0 <= j <= k ==> pids[1..][j] == 0)
      {
        assert pids[k + 1] == pids[1..][k];
        if pids[k + 1] != v {
          assert forall j :: 0 <= j <= k ==> pids[1..][j] == pids[j + 1];
        }
      }
    }
    if now == pids[0] && PidsAgree(now, pids[1..]) {
      forall k | 0 <= k < |pids|
        ensures pids[k] == v || (pid == 0 && forall j :: 0 <= j <= k ==> pids[j] == 0)
      {
        if k > 0 {
          assert pids[k] == pids[1..][k - 1];
          if pids[k] != v {
            assert forall j :: 0 < j <= k ==> pids[j] == pids[1..][j - 1];
          }
        }
      }
    }
  }

  /** Unpacking the program association tables succeeds exactly when all of them parse and agree, and then the program
      has the first PID that is not zero. */
  lemma {:induction false} PatsAgree(p: T.Program, us: seq<UnitValue>)
    ensures
      var f := V.UnpackPat(p, us);
      && (f.ok <==> NoBadPat(us) && PidsAgree(p.programPid, PatPids(us)))
      && (f.ok ==> f.program == p.(programPid := FirstNonzero(p.programPid, PatPids(us))))
      && f.program.(programPid := p.programPid) == p
    decreases |us|
  {
    hide A.Decode, PidsAgree;
    if us == [] {
      NoPids(p.programPid);
    } else {
      NoBadPatNext(us);
      var pid := A.Decode(Open(us[0].data)).pat.programPid;
      if us[0].pid == 0 {
        assert PatPids(us)[0] == pid && PatPids(us)[1..] == PatPids(us[1..]);
        AgreeNext(p.programPid, PatPids(us));
        PatsAgree(if p.programPid == 0 then p.(programPid := pid) else p, us[1..]);
      } else {
        assert PatPids(us) == PatPids(us[1..]);
        PatsAgree(p, us[1..]);
      }
    }
  }

  lemma NoPids(pid: int)
    ensures PidsAgree(pid, []) && FirstNonzero(pid, []) == pid
  {
  }

  lemma NoBadPatNext(us: seq<UnitValue>)
    requires us != []
    ensures NoBadPat(us) <==> (us[0].pid == 0 ==> A.Decode(Open(us[0].data)).status != Error) && NoBadPat(us[1..])
  {
    hide A.Decode;
    assert forall i :: 0 < i < |us| ==> us[i] == us[1..][i - 1];
  }

  // ---- the tables of the program ----

  lemma NoBadPmtNext(us: seq<UnitValue>, pid: int)
    requires us != []
    ensures NoBadPmt(us, pid) <==>
            (us[0].pid == pid ==> M.Decode(Open(us[0].data)).status != Error) && NoBadPmt(us[1..], pid)
  {
    hide M.Decode;
    assert forall i :: 0 < i < |us| ==> us[i] == us[1..][i - 1];
  }

  /** When all tables of the program PID parse, all of them are folded into the program, in order. */
  lemma {:induction false} UnitsFoldTables(p: T.Program, us: seq<UnitValue>)
    requires NoBadPmt(us, p.programPid)
    ensures V.UnpackPmts(p, us) == T.MergePmts(p, PmtsIn(us, p.programPid))
    decreases |us|
  {
    hide M.Decode, T.MergeEntries, NoBadPmt;
    if us != [] {
      NoBadPmtNext(us, p.programPid);
      var rest := PmtsIn(us[1..], p.programPid);
      var pmt := M.Decode(Open(us[0].data)).pmt;
      if us[0].pid == p.programPid {
        assert PmtsIn(us, p.programPid)[0] == pmt && PmtsIn(us, p.programPid)[1..] == rest;
        UnitsFoldTables(T.MergePmt(p, pmt).program, us[1..]);
      } else {
        assert PmtsIn(us, p.programPid) == rest;
        UnitsFoldTables(p, us[1..]);
      }
    }
  }

  /** When one does not parse, unpacking fails. */
  lemma {:induction false} BadTableFails(p: T.Program, us: seq<UnitValue>)
    requires !NoBadPmt(us, p.programPid)
    ensures !V.UnpackPmts(p, us).ok
    decreases |us|
  {
    hide M.Decode, T.MergeEntries;
    if us != [] {
      hide NoBadPmt;
      NoBadPmtNext(us, p.programPid);
      if us[0].pid == p.programPid {
        if !NoBadPmt(us[1..], p.programPid) {
          BadTableFails(T.MergePmt(p, M.Decode(Open(us[0].data)).pmt).program, us[1..]);
        }
      } else {
        BadTableFails(p, us[1..]);
      }
    }
  }

  /** Over any units, the streams of the program stay pairwise distinct and in first-seen order, and everything that the
      tables of its PID say is stored. */
  lemma UnitsKeepTable(p: T.Program, us: seq<UnitValue>)
    requires T.DistinctPids(p.streams) && V.UnpackPmts(p, us).ok
    ensures
      var q, entries := V.UnpackPmts(p, us).program, T.AllEntries(PmtsIn(us, p.programPid));
      && T.DistinctPids(q.streams)
      && T.Pids(q.streams) == T.FirstSeen(T.Pids(p.streams), entries)
      && T.AllAbsorbed(q.streams, entries)
  {
    hide V.UnpackPmts, PmtsIn, NoBadPmt, T.MergePmts, T.AllEntries, T.AllAbsorbed, T.DistinctPids;
    if !NoBadPmt(us, p.programPid) {
      BadTableFails(p, us);
    }
    UnitsFoldTables(p, us);
    T.TablesKeepTable(p, PmtsIn(us, p.programPid));
  }

  // ---- the packets of a stream ----

  /** The packets in the units of a PID, in order, parsed from their bytes. */
  function PesFromUnits(us: seq<UnitValue>, pid: int): seq<E.Pes> {
    if us == [] then []
    else PesFromUnit(us[0], pid) + PesFromUnits(us[1..], pid)
  }

  function PesFromUnit(u: UnitValue, pid: int): seq<E.Pes> {
    if u.pid == pid && B.PesOk(u.data) then [B.PesFrom(u.data).(randomAccess := u.randomAccess)] else []
  }

  lemma {:induction false} FromUnitsJoin(a: seq<UnitValue>, b: seq<UnitValue>, pid: int)
    ensures PesFromUnits(a + b, pid) == PesFromUnits(a, pid) + PesFromUnits(b, pid)
    decreases |a|
  {
    hide PesFromUnit;
    if a == [] {
      assert a + b == b;
    } else {
      assert (a + b)[1..] == a[1..] + b && (a + b)[0] == a[0];
      FromUnitsJoin(a[1..], b, pid);
    }
  }

  lemma PesOfIs(u: UnitValue, pid: int)
    ensures V.PesOf(u, pid) == PesFromUnits([u], pid)
  {
    B.PesParsed(u.data);
    hide B.PesOk, B.PesFrom, E.Decode;
    assert [u][1..] == [] && PesFromUnits([], pid) == [];
  }

  lemma {:induction false} PesInIs(us: seq<UnitValue>, pid: int)
    ensures V.PesIn(us, pid) == PesFromUnits(us, pid)
    decreases |us|
  {
    hide V.PesOf, B.PesOk, B.PesFrom;
    if us != [] {
      var last := |us| - 1;
      PesInIs(us[..last], pid);
      PesOfIs(us[last], pid);
      FromUnitsJoin(us[..last], [us[last]], pid);
      assert us[..last] + [us[last]] == us;
    }
  }

  // ---- the whole ----

  /** Unpacking succeeds exactly when all program association tables parse and agree on a PID that is not zero, and all
      tables of that PID parse and can be folded. Then it gives the fold, with the packets of each stream's units,
      parsed from their bytes, behind those that it had. */
  lemma UnpackExactly(p: T.Program, us: seq<UnitValue>)
    ensures
      var f, pid := V.Unpack(p, us), FirstNonzero(p.programPid, PatPids(us));
      var merged := T.MergePmts(p.(programPid := pid), PmtsIn(us, pid));
      && (f.ok <==> NoBadPat(us) && PidsAgree(p.programPid, PatPids(us)) && pid != 0 && NoBadPmt(us, pid) && merged.ok)
      && (f.ok ==>
            && f.program.(streams := []) == merged.program.(streams := [])
            && |f.program.streams| == |merged.program.streams|
            && forall i :: 0 <= i < |f.program.streams| ==>
                             var st := merged.program.streams[i];
                             f.program.streams[i] == st.(packets := st.packets + PesFromUnits(us, st.pid)))
  {
    hide V.UnpackPat, V.UnpackPmts, V.PesIn, PatPids, PmtsIn, NoBadPat, NoBadPmt, PidsAgree, T.MergePmts, PesFromUnits,
      FirstNonzero;
    PatsAgree(p, us);
    var pid := FirstNonzero(p.programPid, PatPids(us));
    var q := p.(programPid := pid);
    if NoBadPmt(us, pid) {
      UnitsFoldTables(q, us);
    } else {
      BadTableFails(q, us);
    }
    var sts := T.MergePmts(q, PmtsIn(us, pid)).program.streams;
    forall i | 0 <= i < |sts|
      ensures V.PesIn(us, sts[i].pid) == PesFromUnits(us, sts[i].pid)
    {
      PesInIs(us, sts[i].pid);
    }
  }

  // ---- folding keeps what was there ----

  lemma EntryKeepsFirst(sts: seq<T.Elementary>, entry: M.PmtStream, i: nat)
    requires i < |sts|
    ensures
      var after := T.MergeEntry(sts, entry).streams;
      |sts| <= |after| && after[i].pid == sts[i].pid && after[i].packets == sts[i].packets
  {
    T.CreateFinds(sts, entry.pid);
  }

  lemma {:induction false} EntriesKeepFirst(sts: seq<T.Elementary>, entries: seq<M.PmtStream>, i: nat)
    requires i < |sts|
    ensures
      var after := T.MergeEntries(sts, entries).streams;
      |sts| <= |after| && after[i].pid == sts[i].pid && after[i].packets == sts[i].packets
    decreases |entries|
  {
    hide T.MergeEntry;
    if entries != [] {
      EntryKeepsFirst(sts, entries[0], i);
      EntriesKeepFirst(T.MergeEntry(sts, entries[0]).streams, entries[1..], i);
    }
  }

  lemma {:induction false} TablesKeepFirst(p: T.Program, pmts: seq<M.Pmt>, i: nat)
    requires i < |p.streams|
    ensures
      var after := T.MergePmts(p, pmts).program.streams;
      |p.streams| <= |after| && after[i].pid == p.streams[i].pid && after[i].packets == p.streams[i].packets
    decreases |pmts|
  {
    hide T.MergeEntries;
    if pmts != [] {
      EntriesKeepFirst(p.streams, pmts[0].streams, i);
      TablesKeepFirst(T.MergePmt(p, pmts[0]).program, pmts[1..], i);
    }
  }

  /** The streams a program had keep their places and their packets, and get those of their units behind them. */
  lemma UnpackAppends(p: T.Program, us: seq<UnitValue>, i: nat)
    requires V.Unpack(p, us).ok && i < |p.streams|
    ensures
      var sts := V.Unpack(p, us).program.streams;
      && |p.streams| <= |sts| && sts[i].pid == p.streams[i].pid
      && sts[i].packets == p.streams[i].packets + PesFromUnits(us, p.streams[i].pid)
  {
    UnpackExactly(p, us);
    var pid := FirstNonzero(p.programPid, PatPids(us));
    hide V.Unpack, T.MergePmts, PesFromUnits, FirstNonzero, PatPids, PmtsIn;
    TablesKeepFirst(p.(programPid := pid), PmtsIn(us, pid), i);
  }

  /** An entry that disagrees leaves the table as it is, but for a new stream and a type that was open. */
  lemma DisagreeingEntry(sts: seq<T.Elementary>, entry: M.PmtStream)
    requires !T.TableAgrees(sts, entry)
    ensures
      var i := T.Lookup(sts, entry.pid);
      && i >= 0
      && T.MergeEntry(sts, entry) ==
         T.Merged(false, if sts[i].streamType == 0 then sts[i := sts[i].(streamType := entry.streamType)] else sts)
  {
    var i := T.Lookup(sts, entry.pid);
    assert sts[i := sts[i]] == sts;
  }
}
