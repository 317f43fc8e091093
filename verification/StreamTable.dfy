/** The table of elementary streams that program map tables are folded into (src/ts/ts_stream.c). */
module StreamTable {
  import opened Words
  import M = ProgramMap
  import E = PesPackets

  /** An elementary stream with its packets (ts_stream_pes). */
  datatype Elementary = Elementary(pid: int, streamType: byte, descriptor: M.Descriptor, packets: seq<E.Pes>)

  /** A program (ts_stream). */
  datatype Program = Program(programPid: int, pcrPid: int, descriptor: M.Descriptor, streams: seq<Elementary>)

  /** ts_stream_construct. */
  const EMPTY := Program(0, 0, M.NO_DESCRIPTOR, [])

  /** ts_stream_lookup: the first stream of a PID, or -1. */
  function Lookup(sts: seq<Elementary>, pid: int): (i: int)
    ensures -1 <= i < |sts|
    ensures i >= 0 ==> sts[i].pid == pid
    ensures i < 0 ==> forall j :: 0 <= j < |sts| ==> sts[j].pid != pid
  {
    if sts == [] then -1
    else if sts[0].pid == pid then 0
    else
      var i := Lookup(sts[1..], pid);
      if i < 0 then -1 else i + 1
  }

  predicate DistinctPids(sts: seq<Elementary>) {
    forall i, j :: 0 <= i < j < |sts| ==> sts[i].pid != sts[j].pid
  }

  function NewStream(pid: int): Elementary {
    Elementary(pid, 0, M.NO_DESCRIPTOR, [])
  }

  /** ts_stream_create: the table in which the PID has a stream. */
  function Create(sts: seq<Elementary>, pid: int): seq<Elementary> {
    if Lookup(sts, pid) >= 0 then sts else sts + [NewStream(pid)]
  }

  // ---- folding entries of program map tables ----

  datatype Merged = Merged(ok: bool, streams: seq<Elementary>)

  /** A stream after one entry: a type and a descriptor are adopted when the stream has none; anything else that differs
      is an error, and stops the stream where it is. */
  function MergeInto(e: Elementary, entry: M.PmtStream): (bool, Elementary) {
    var typed := if e.streamType == 0 then e.(streamType := entry.streamType) else e;
    if typed.streamType != entry.streamType then (false, typed)
    else
      var described :=
        if M.DescriptorSize(typed.descriptor) == 0 && M.DescriptorSize(entry.descriptor) != 0
        then typed.(descriptor := entry.descriptor) else typed;
      (M.DescriptorEqual(described.descriptor, entry.descriptor), described)
  }

  function MergeEntry(sts: seq<Elementary>, entry: M.PmtStream): Merged {
    var all := Create(sts, entry.pid);
    CreateFinds(sts, entry.pid);
    var i := Lookup(all, entry.pid);
    var (ok, e) := MergeInto(all[i], entry);
    Merged(ok, all[i := e])
  }

  function MergeEntries(sts: seq<Elementary>, entries: seq<M.PmtStream>): Merged
    decreases |entries|
  {
    if entries == [] then Merged(true, sts)
    else
      var m := MergeEntry(sts, entries[0]);
      if m.ok then MergeEntries(m.streams, entries[1..]) else m
  }

  lemma {:induction false} LookupIs(sts: seq<Elementary>, pid: int, i: nat)
    requires i < |sts| && sts[i].pid == pid && forall j :: 0 <= j < i ==> sts[j].pid != pid
    ensures Lookup(sts, pid) == i
  {
    if i > 0 {
      LookupIs(sts[1..], pid, i - 1);
    }
  }

  lemma {:induction false} LookupFirst(sts: seq<Elementary>, pid: int)
    ensures forall j :: 0 <= j < Lookup(sts, pid) ==> sts[j].pid != pid
  {
    if sts != [] && sts[0].pid != pid {
      LookupFirst(sts[1..], pid);
    }
  }

  lemma CreateFinds(sts: seq<Elementary>, pid: int)
    ensures
      var all := Create(sts, pid);
      var i := Lookup(all, pid);
      && i == (if Lookup(sts, pid) >= 0 then Lookup(sts, pid) else |sts|)
      && 0 <= i < |all| && all[i].pid == pid
  {
    if Lookup(sts, pid) < 0 {
      LookupIs(sts + [NewStream(pid)], pid, |sts|);
    }
  }

  // ---- what the fold keeps ----

  function Pids(sts: seq<Elementary>): (pids: seq<int>)
    ensures |pids| == |sts| && forall i :: 0 <= i < |sts| ==> pids[i] == sts[i].pid
  {
    seq(|sts|, i requires 0 <= i < |sts| => sts[i].pid)
  }

  /** The PIDs in the order in which they are first seen. */
  function FirstSeen(seen: seq<int>, entries: seq<M.PmtStream>): seq<int>
    decreases |entries|
  {
    if entries == [] then seen
    else FirstSeen(if entries[0].pid in seen then seen else seen + [entries[0].pid], entries[1..])
  }

  lemma SamePidsSameLookup(a: seq<Elementary>, b: seq<Elementary>, pid: int)
    requires Pids(a) == Pids(b)
    ensures Lookup(a, pid) == Lookup(b, pid)
  {
    var i, j := Lookup(a, pid), Lookup(b, pid);
    LookupFirst(a, pid);
    LookupFirst(b, pid);
    assert forall k :: 0 <= k < |a| ==> a[k].pid == Pids(a)[k] == Pids(b)[k] == b[k].pid;
    assert i >= 0 ==> b[i].pid == pid;
    assert j >= 0 ==> a[j].pid == pid;
  }

  lemma EntryPids(sts: seq<Elementary>, entry: M.PmtStream)
    ensures Pids(MergeEntry(sts, entry).streams) == Pids(Create(sts, entry.pid))
    ensures
      var after := MergeEntry(sts, entry).streams;
      |sts| <= |after| && forall i :: 0 <= i < |sts| ==> after[i].packets == sts[i].packets
  {
    CreateFinds(sts, entry.pid);
  }

  lemma EntryKeepsPids(sts: seq<Elementary>, entry: M.PmtStream)
    requires DistinctPids(sts)
    ensures
      var m := MergeEntry(sts, entry);
      && DistinctPids(m.streams)
      && Pids(m.streams) == if entry.pid in Pids(sts) then Pids(sts) else Pids(sts) + [entry.pid]
  {
    var i := Lookup(sts, entry.pid);
    if i >= 0 {
      assert Pids(sts)[i] == entry.pid;
    }
    EntryPids(sts, entry);
    var all, after := Create(sts, entry.pid), MergeEntry(sts, entry).streams;
    assert forall k :: 0 <= k < |all| ==> after[k].pid == Pids(after)[k] == Pids(all)[k] == all[k].pid;
  }

  /** The fold keeps the PIDs pairwise distinct and the packets as they are, whether it succeeds or stops, and the PIDs
      in first-seen order when it succeeds. */
  lemma {:induction false} FoldKeepsPids(sts: seq<Elementary>, entries: seq<M.PmtStream>)
    requires DistinctPids(sts)
    ensures
      var after := MergeEntries(sts, entries).streams;
      && DistinctPids(after) && |sts| <= |after|
      && forall i :: 0 <= i < |sts| ==> after[i].packets == sts[i].packets
    ensures MergeEntries(sts, entries).ok ==> Pids(MergeEntries(sts, entries).streams) == FirstSeen(Pids(sts), entries)
    decreases |entries|
  {
    hide MergeEntry;
    if entries != [] {
      EntryPids(sts, entries[0]);
      EntryKeepsPids(sts, entries[0]);
      if MergeEntry(sts, entries[0]).ok {
        FoldKeepsPids(MergeEntry(sts, entries[0]).streams, entries[1..]);
      }
    }
  }

  /** The table already says of a PID whatever the entry says. */
  predicate Absorbed(sts: seq<Elementary>, entry: M.PmtStream) {
    var i := Lookup(sts, entry.pid);
    && i >= 0
    && (entry.streamType != 0 ==> sts[i].streamType == entry.streamType)
    && (M.DescriptorSize(entry.descriptor) != 0 ==> sts[i].descriptor == entry.descriptor)
  }

  /** The table says exactly what the entry says. */
  predicate Same(sts: seq<Elementary>, entry: M.PmtStream) {
    var i := Lookup(sts, entry.pid);
    i >= 0 && sts[i].streamType == entry.streamType && M.DescriptorEqual(sts[i].descriptor, entry.descriptor)
  }

  predicate AllAbsorbed(sts: seq<Elementary>, entries: seq<M.PmtStream>) {
    forall k :: 0 <= k < |entries| ==> Absorbed(sts, entries[k])
  }

  predicate AllSame(sts: seq<Elementary>, entries: seq<M.PmtStream>) {
    forall k :: 0 <= k < |entries| ==> Same(sts, entries[k])
  }

  lemma AllOfJoin(sts: seq<Elementary>, a: seq<M.PmtStream>, b: seq<M.PmtStream>)
    ensures AllAbsorbed(sts, a + b) <==> AllAbsorbed(sts, a) && AllAbsorbed(sts, b)
    ensures AllSame(sts, a + b) <==> AllSame(sts, a) && AllSame(sts, b)
  {
    hide Absorbed, Same;
    assert forall k :: 0 <= k < |a| ==> (a + b)[k] == a[k];
    assert forall k :: 0 <= k < |b| ==> (a + b)[|a| + k] == b[k];
    assert forall k :: |a| <= k < |a + b| ==> (a + b)[k] == b[k - |a|];
  }

  lemma EntryIsAbsorbed(sts: seq<Elementary>, entry: M.PmtStream)
    requires MergeEntry(sts, entry).ok
    ensures Absorbed(MergeEntry(sts, entry).streams, entry)
  {
    CreateFinds(sts, entry.pid);
    EntryPids(sts, entry);
    SamePidsSameLookup(Create(sts, entry.pid), MergeEntry(sts, entry).streams, entry.pid);
  }

  /** A successful step forgets nothing it was told before. */
  lemma EntryKeepsAbsorbed(sts: seq<Elementary>, entry: M.PmtStream, old_: M.PmtStream)
    requires MergeEntry(sts, entry).ok && Absorbed(sts, old_)
    ensures Absorbed(MergeEntry(sts, entry).streams, old_)
  {
    var all, i := Create(sts, entry.pid), Lookup(sts, old_.pid);
    LookupFirst(sts, old_.pid);
    LookupIs(all, old_.pid, i);
    EntryPids(sts, entry);
    SamePidsSameLookup(all, MergeEntry(sts, entry).streams, old_.pid);
  }

  lemma {:induction false} FoldKeepsAbsorbed(sts: seq<Elementary>, entries: seq<M.PmtStream>, old_: M.PmtStream)
    requires MergeEntries(sts, entries).ok && Absorbed(sts, old_)
    ensures Absorbed(MergeEntries(sts, entries).streams, old_)
    decreases |entries|
  {
    hide MergeEntry, Absorbed;
    if entries != [] {
      EntryKeepsAbsorbed(sts, entries[0], old_);
      FoldKeepsAbsorbed(MergeEntry(sts, entries[0]).streams, entries[1..], old_);
    }
  }

  /** After a successful fold, every nonzero type and every nonempty descriptor seen for a PID is the stored one. */
  lemma {:induction false} FoldAbsorbs(sts: seq<Elementary>, entries: seq<M.PmtStream>, k: nat)
    requires MergeEntries(sts, entries).ok && k < |entries|
    ensures Absorbed(MergeEntries(sts, entries).streams, entries[k])
    decreases |entries|
  {
    hide MergeEntry, Absorbed;
    var next := MergeEntry(sts, entries[0]).streams;
    if k == 0 {
      EntryIsAbsorbed(sts, entries[0]);
      FoldKeepsAbsorbed(next, entries[1..], entries[0]);
    } else {
      FoldAbsorbs(next, entries[1..], k - 1);
    }
  }

  lemma AbsorbedChangesNothing(sts: seq<Elementary>, entry: M.PmtStream)
    requires Absorbed(sts, entry)
    ensures MergeEntry(sts, entry) == Merged(Same(sts, entry), sts)
  {
    var i := Lookup(sts, entry.pid);
    assert sts[i := sts[i]] == sts;
  }

  /** Folding absorbed entries changes nothing; it succeeds when none of them leaves out what the table knows. */
  lemma {:induction false} RefoldOfAbsorbed(sts: seq<Elementary>, entries: seq<M.PmtStream>)
    requires AllAbsorbed(sts, entries)
    ensures MergeEntries(sts, entries).streams == sts
    ensures MergeEntries(sts, entries).ok <==> AllSame(sts, entries)
    decreases |entries|
  {
    hide MergeEntry, Absorbed, Same;
    if entries != [] {
      AbsorbedChangesNothing(sts, entries[0]);
      RefoldOfAbsorbed(sts, entries[1..]);
      assert forall k :: 0 < k < |entries| ==> entries[k] == entries[1..][k - 1];
    }
  }

  /** Folding a successful list again never changes the table; it is reported as an error when the table knows more than
      an entry says. */
  lemma Refold(sts: seq<Elementary>, entries: seq<M.PmtStream>)
    requires MergeEntries(sts, entries).ok
    ensures
      var after := MergeEntries(sts, entries).streams;
      && MergeEntries(after, entries).streams == after
      && (MergeEntries(after, entries).ok <==> AllSame(after, entries))
  {
    var after := MergeEntries(sts, entries).streams;
    forall k | 0 <= k < |entries|
      ensures Absorbed(after, entries[k])
    {
      FoldAbsorbs(sts, entries, k);
    }
    RefoldOfAbsorbed(after, entries);
  }

  /** A list that succeeds once and fails when folded again: the second entry adds a descriptor to the first. */
  lemma RefoldCanFail()
    ensures
      var entries := [M.PmtStream(27, 256, M.NO_DESCRIPTOR), M.PmtStream(27, 256, M.Descriptor(10, [1]))];
      var m := MergeEntries([], entries);
      m.ok && !MergeEntries(m.streams, entries).ok
  {
    var d := M.Descriptor(10, [1]);
    var a, b := M.PmtStream(27, 256, M.NO_DESCRIPTOR), M.PmtStream(27, 256, d);
    var first := Elementary(256, 27, M.NO_DESCRIPTOR, []);
    var second := first.(descriptor := d);
    assert MergeEntry([], a) == Merged(true, [first]);
    assert MergeEntry([first], b) == Merged(true, [second]);
    assert [a, b][1..] == [b] && [b][1..] == [];
    assert MergeEntries([first], [b]) == Merged(true, [second]);
    assert MergeEntry([second], a) == Merged(false, [second]);
  }

  // ---- which lists can be folded again ----

  /** Two entries say the same. */
  predicate Match(a: M.PmtStream, b: M.PmtStream) {
    a.streamType == b.streamType && M.DescriptorEqual(a.descriptor, b.descriptor)
  }

  /** A stream says what the entry says, or leaves it open. */
  predicate Agrees(e: Elementary, entry: M.PmtStream) {
    && (e.streamType == 0 || e.streamType == entry.streamType)
    && (M.DescriptorSize(e.descriptor) == 0 || M.DescriptorEqual(e.descriptor, entry.descriptor))
  }

  predicate TableAgrees(sts: seq<Elementary>, entry: M.PmtStream) {
    var i := Lookup(sts, entry.pid);
    i >= 0 ==> Agrees(sts[i], entry)
  }

  /** All entries of one PID say the same, and the table says nothing else. */
  predicate Uniform(sts: seq<Elementary>, entries: seq<M.PmtStream>) {
    && (forall k :: 0 <= k < |entries| ==> TableAgrees(sts, entries[k]))
    && (forall j, k :: 0 <= j < |entries| && 0 <= k < |entries| && entries[j].pid == entries[k].pid ==>
                         Match(entries[j], entries[k]))
  }

  /** One step succeeds exactly when the table agrees, and then the table says what the entry says. */
  lemma EntryExact(sts: seq<Elementary>, entry: M.PmtStream)
    ensures
      var m := MergeEntry(sts, entry);
      (m.ok <==> TableAgrees(sts, entry)) && (m.ok ==> Same(m.streams, entry))
  {
    CreateFinds(sts, entry.pid);
    EntryPids(sts, entry);
    SamePidsSameLookup(Create(sts, entry.pid), MergeEntry(sts, entry).streams, entry.pid);
  }

  lemma EntryKeepsOthers(sts: seq<Elementary>, entry: M.PmtStream, pid: int)
    requires pid != entry.pid
    ensures
      var after := MergeEntry(sts, entry).streams;
      && Lookup(after, pid) == Lookup(sts, pid)
      && (Lookup(sts, pid) >= 0 ==> after[Lookup(sts, pid)] == sts[Lookup(sts, pid)])
  {
    var all, i := Create(sts, entry.pid), Lookup(sts, pid);
    CreateFinds(sts, entry.pid);
    EntryPids(sts, entry);
    SamePidsSameLookup(all, MergeEntry(sts, entry).streams, pid);
    if i >= 0 {
      LookupFirst(sts, pid);
      LookupIs(all, pid, i);
    }
  }

  lemma EntryKeepsSame(sts: seq<Elementary>, entry: M.PmtStream, x: M.PmtStream)
    requires MergeEntry(sts, entry).ok && Same(sts, x) && (entry.pid == x.pid ==> Match(entry, x))
    ensures Same(MergeEntry(sts, entry).streams, x)
  {
    hide MergeEntry, Lookup;
    EntryExact(sts, entry);
    if entry.pid != x.pid {
      EntryKeepsOthers(sts, entry, x.pid);
    }
  }

  lemma {:induction false} FoldKeepsSame(sts: seq<Elementary>, entries: seq<M.PmtStream>, x: M.PmtStream)
    requires MergeEntries(sts, entries).ok && Same(sts, x)
    requires forall k :: 0 <= k < |entries| && entries[k].pid == x.pid ==> Match(entries[k], x)
    ensures Same(MergeEntries(sts, entries).streams, x)
    decreases |entries|
  {
    hide MergeEntry, Same, Match;
    if entries != [] {
      EntryKeepsSame(sts, entries[0], x);
      FoldKeepsSame(MergeEntry(sts, entries[0]).streams, entries[1..], x);
    }
  }

  lemma UniformRest(sts: seq<Elementary>, entries: seq<M.PmtStream>)
    requires entries != [] && Uniform(sts, entries)
    ensures MergeEntry(sts, entries[0]).ok && Uniform(MergeEntry(sts, entries[0]).streams, entries[1..])
  {
    hide MergeEntry, Lookup;
    var after := MergeEntry(sts, entries[0]).streams;
    EntryExact(sts, entries[0]);
    forall k | 0 < k < |entries|
      ensures TableAgrees(after, entries[k])
    {
      if entries[k].pid != entries[0].pid {
        EntryKeepsOthers(sts, entries[0], entries[k].pid);
      } else {
        assert Match(entries[k], entries[0]);
      }
    }
  }

  lemma {:induction false} UniformFolds(sts: seq<Elementary>, entries: seq<M.PmtStream>)
    requires Uniform(sts, entries)
    ensures MergeEntries(sts, entries).ok && AllSame(MergeEntries(sts, entries).streams, entries)
    decreases |entries|
  {
    if entries != [] {
      UniformRest(sts, entries);
      var next := MergeEntry(sts, entries[0]).streams;
      EntryExact(sts, entries[0]);
      assert forall k :: 0 < k < |entries| && entries[k].pid == entries[0].pid ==> Match(entries[k], entries[0]);
      hide MergeEntry, Same, Match, Uniform;
      UniformFolds(next, entries[1..]);
      FoldKeepsSame(next, entries[1..], entries[0]);
      var after := MergeEntries(next, entries[1..]).streams;
      assert forall k :: 0 < k < |entries| ==> entries[k] == entries[1..][k - 1];
      assert forall k :: 0 <= k < |entries[1..]| ==> Same(after, entries[1..][k]);
    }
  }

  lemma SameIsUniform(sts: seq<Elementary>, entries: seq<M.PmtStream>)
    requires MergeEntries(sts, entries).ok && AllSame(MergeEntries(sts, entries).streams, entries)
    ensures Uniform(sts, entries)
  {
    hide MergeEntries, Lookup;
    var after := MergeEntries(sts, entries).streams;
    forall k | 0 <= k < |entries|
      ensures TableAgrees(sts, entries[k])
    {
      var i := Lookup(sts, entries[k].pid);
      assert Same(after, entries[k]);
      if i >= 0 {
        FoldKeepsAbsorbed(sts, entries, M.PmtStream(sts[i].streamType, entries[k].pid, sts[i].descriptor));
      }
    }
    forall j, k | 0 <= j < |entries| && 0 <= k < |entries| && entries[j].pid == entries[k].pid
      ensures Match(entries[j], entries[k])
    {
      assert Same(after, entries[j]) && Same(after, entries[k]);
    }
  }

  /** A list of entries folds, and folds again, exactly when all its entries of one PID say the same and the table says
      nothing else. */
  lemma RefoldExact(sts: seq<Elementary>, entries: seq<M.PmtStream>)
    ensures
      var m := MergeEntries(sts, entries);
      m.ok && MergeEntries(m.streams, entries).ok <==> Uniform(sts, entries)
  {
    hide MergeEntries, AllSame, Uniform;
    if MergeEntries(sts, entries).ok {
      Refold(sts, entries);
      if AllSame(MergeEntries(sts, entries).streams, entries) {
        SameIsUniform(sts, entries);
      }
    }
    if Uniform(sts, entries) {
      UniformFolds(sts, entries);
    }
  }

  // ---- whole tables ----

  datatype Folded = Folded(ok: bool, program: Program)

  /** One program map table folded into a program. */
  function MergePmt(p: Program, pmt: M.Pmt): Folded {
    var q := if p.pcrPid == 0 then p.(pcrPid := pmt.pcrPid) else p;
    if q.pcrPid != pmt.pcrPid then Folded(false, q)
    else
      var m := MergeEntries(q.streams, pmt.streams);
      Folded(m.ok, q.(streams := m.streams))
  }

  function MergePmts(p: Program, pmts: seq<M.Pmt>): Folded
    decreases |pmts|
  {
    if pmts == [] then Folded(true, p)
    else
      var f := MergePmt(p, pmts[0]);
      if f.ok then MergePmts(f.program, pmts[1..]) else f
  }

  function AllEntries(pmts: seq<M.Pmt>): seq<M.PmtStream> {
    if pmts == [] then [] else pmts[0].streams + AllEntries(pmts[1..])
  }

  lemma {:induction false} MergeEntriesJoin(sts: seq<Elementary>, a: seq<M.PmtStream>, b: seq<M.PmtStream>)
    ensures MergeEntries(sts, a + b) ==
            if MergeEntries(sts, a).ok then MergeEntries(MergeEntries(sts, a).streams, b) else MergeEntries(sts, a)
    decreases |a|
  {
    hide MergeEntry;
    if a == [] {
      assert a + b == b;
    } else {
      assert (a + b)[1..] == a[1..] + b;
      MergeEntriesJoin(MergeEntry(sts, a[0]).streams, a[1..], b);
    }
  }

  /** When tables fold, their entries fold as one list, and every clock PID but zero is the stored one. */
  lemma {:induction false} TablesFoldEntries(p: Program, pmts: seq<M.Pmt>)
    requires MergePmts(p, pmts).ok
    ensures
      var q := MergePmts(p, pmts).program;
      && MergeEntries(p.streams, AllEntries(pmts)) == Merged(true, q.streams)
      && (p.pcrPid != 0 ==> q.pcrPid == p.pcrPid)
      && (forall k :: 0 <= k < |pmts| && pmts[k].pcrPid != 0 ==> q.pcrPid == pmts[k].pcrPid)
      && (q.pcrPid == p.pcrPid || exists k :: 0 <= k < |pmts| && q.pcrPid == pmts[k].pcrPid)
    decreases |pmts|
  {
    hide MergeEntries;
    if pmts == [] {
      MergeNothing(p.streams);
    } else {
      TablesFoldEntries(MergePmt(p, pmts[0]).program, pmts[1..]);
      MergeEntriesJoin(p.streams, pmts[0].streams, AllEntries(pmts[1..]));
      assert forall k :: 0 < k < |pmts| ==> pmts[k] == pmts[1..][k - 1];
    }
  }

  lemma MergeNothing(sts: seq<Elementary>)
    ensures MergeEntries(sts, []) == Merged(true, sts)
  {
  }

  lemma {:induction false} RefoldTablesOfAbsorbed(p: Program, pmts: seq<M.Pmt>)
    requires forall k :: 0 <= k < |pmts| && pmts[k].pcrPid != 0 ==> p.pcrPid == pmts[k].pcrPid
    requires AllAbsorbed(p.streams, AllEntries(pmts))
    ensures MergePmts(p, pmts).program == p
    ensures MergePmts(p, pmts).ok <==>
            && (forall k :: 0 <= k < |pmts| ==> pmts[k].pcrPid == p.pcrPid)
            && AllSame(p.streams, AllEntries(pmts))
    decreases |pmts|
  {
    assert AllSame(p.streams, []);
    hide MergeEntries, AllAbsorbed, AllSame;
    if pmts != [] {
      AllOfJoin(p.streams, pmts[0].streams, AllEntries(pmts[1..]));
      RefoldOfAbsorbed(p.streams, pmts[0].streams);
      assert forall k :: 0 < k < |pmts| ==> pmts[k] == pmts[1..][k - 1];
      RefoldTablesOfAbsorbed(p, pmts[1..]);
      assert MergePmt(p, pmts[0]) == Folded(pmts[0].pcrPid == p.pcrPid && AllSame(p.streams, pmts[0].streams), p);
    }
  }

  /** Folding the same successful tables again never changes the program; it is reported as an error when the program
      knows more than a table says. */
  lemma RefoldTables(p: Program, pmts: seq<M.Pmt>)
    requires MergePmts(p, pmts).ok
    ensures
      var q := MergePmts(p, pmts).program;
      && MergePmts(q, pmts).program == q
      && (MergePmts(q, pmts).ok <==>
          && (forall k :: 0 <= k < |pmts| ==> pmts[k].pcrPid == q.pcrPid)
          && AllSame(q.streams, AllEntries(pmts)))
  {
    var q := MergePmts(p, pmts).program;
    TablesFoldEntries(p, pmts);
    forall k | 0 <= k < |AllEntries(pmts)|
      ensures Absorbed(q.streams, AllEntries(pmts)[k])
    {
      FoldAbsorbs(p.streams, AllEntries(pmts), k);
    }
    RefoldTablesOfAbsorbed(q, pmts);
  }

  /** All tables name the same clock PID, and the program no other; and their entries are uniform. */
  predicate UniformTables(p: Program, pmts: seq<M.Pmt>) {
    && (forall k :: 0 <= k < |pmts| ==> pmts[k].pcrPid == pmts[0].pcrPid)
    && (pmts == [] || p.pcrPid == 0 || p.pcrPid == pmts[0].pcrPid)
    && Uniform(p.streams, AllEntries(pmts))
  }

  lemma {:induction false} TablesSucceed(p: Program, pmts: seq<M.Pmt>)
    requires forall k :: 0 <= k < |pmts| ==> pmts[k].pcrPid == pmts[0].pcrPid
    requires pmts == [] || p.pcrPid == 0 || p.pcrPid == pmts[0].pcrPid
    requires MergeEntries(p.streams, AllEntries(pmts)).ok
    ensures MergePmts(p, pmts).ok
    decreases |pmts|
  {
    hide MergeEntries;
    if pmts != [] {
      MergeEntriesJoin(p.streams, pmts[0].streams, AllEntries(pmts[1..]));
      var f := MergePmt(p, pmts[0]);
      assert f.ok && f.program.pcrPid == pmts[0].pcrPid;
      TablesSucceed(f.program, pmts[1..]);
    }
  }

  /** Tables fold into a program, and fold again, exactly when they are uniform. */
  lemma RefoldTablesExact(p: Program, pmts: seq<M.Pmt>)
    ensures
      var f := MergePmts(p, pmts);
      f.ok && MergePmts(f.program, pmts).ok <==> UniformTables(p, pmts)
  {
    hide MergePmts, MergeEntries, AllSame, Uniform, AllEntries;
    var f, entries := MergePmts(p, pmts), AllEntries(pmts);
    if Uniform(p.streams, entries) {
      UniformFolds(p.streams, entries);
      if UniformTables(p, pmts) {
        TablesSucceed(p, pmts);
      }
    }
    if f.ok {
      TablesFoldEntries(p, pmts);
      RefoldTables(p, pmts);
      if AllSame(f.program.streams, entries) {
        SameIsUniform(p.streams, entries);
      }
    }
  }

  /** Over any number of tables the PIDs stay pairwise distinct and in first-seen order, and everything seen for a PID
      is stored for it. */
  lemma TablesKeepTable(p: Program, pmts: seq<M.Pmt>)
    requires DistinctPids(p.streams) && MergePmts(p, pmts).ok
    ensures
      var q := MergePmts(p, pmts).program;
      && DistinctPids(q.streams)
      && Pids(q.streams) == FirstSeen(Pids(p.streams), AllEntries(pmts))
      && AllAbsorbed(q.streams, AllEntries(pmts))
  {
    TablesFoldEntries(p, pmts);
    FoldKeepsPids(p.streams, AllEntries(pmts));
    forall k | 0 <= k < |AllEntries(pmts)|
      ensures Absorbed(MergePmts(p, pmts).program.streams, AllEntries(pmts)[k])
    {
      FoldAbsorbs(p.streams, AllEntries(pmts), k);
    }
  }
}
