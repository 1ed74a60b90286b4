/** atomic_append.c run by any number of processes at once on the same file: each writes its
    bytes one at a time, either with O_APPEND or by seeking to the end before every write. */
module AtomicAppend {
  import opened Wrappers

  /** A byte of the file, with its origin: there before, written by a process, or never written
      because somebody wrote beyond the end. */
  datatype Cell = Before | By(proc: nat) | Hole

  datatype Pc = Ready | Sought(off: nat)

  datatype Proc = Proc(append: bool, numBytes: nat, j: nat, pc: Pc)

  datatype State = State(size0: nat, file: seq<Cell>, procs: seq<Proc>)

  datatype Step =
    | AppendByte(i: nat)    // write() on a descriptor opened with O_APPEND
    | Seek(i: nat)          // lseek(fd, 0, SEEK_END)
    | WriteByte(i: nat)     // write() at the offset sought

  predicate Initial(s: State) {
    && |s.file| == s.size0 && (forall i :: 0 <= i < |s.file| ==> s.file[i] == Before)
    && forall i :: 0 <= i < |s.procs| ==> s.procs[i].j == 0 && s.procs[i].pc == Ready
  }

  predicate Enabled(s: State, a: Step) {
    match a
    case AppendByte(i) => i < |s.procs| && s.procs[i].append && s.procs[i].j < s.procs[i].numBytes
    case Seek(i) =>
      i < |s.procs| && !s.procs[i].append && s.procs[i].j < s.procs[i].numBytes && s.procs[i].pc == Ready
    case WriteByte(i) => i < |s.procs| && s.procs[i].pc.Sought?
  }

  /** write() of one byte at an offset; beyond the end it leaves a hole. */
  function Put(file: seq<Cell>, off: nat, c: Cell): seq<Cell> {
    if off < |file| then file[off := c]
    else file + seq(off - |file|, _ => Hole) + [c]
  }

  function Next(s: State, a: Step): State
    requires Enabled(s, a)
  {
    match a
    case AppendByte(i) =>
      s.(file := Put(s.file, |s.file|, By(i)), procs := s.procs[i := s.procs[i].(j := s.procs[i].j + 1)])
    case Seek(i) => s.(procs := s.procs[i := s.procs[i].(pc := Sought(|s.file|))])
    case WriteByte(i) =>
      s.(file := Put(s.file, s.procs[i].pc.off, By(i)),
         procs := s.procs[i := s.procs[i].(j := s.procs[i].j + 1, pc := Ready)])
  }

  ghost predicate IsRun(s: State, steps: seq<Step>)
    decreases |steps|
  {
    steps == [] || (Enabled(s, steps[0]) && IsRun(Next(s, steps[0]), steps[1..]))
  }

  ghost function After(s: State, steps: seq<Step>): State
    requires IsRun(s, steps)
    decreases |steps|
  {
    if steps == [] then s else After(Next(s, steps[0]), steps[1..])
  }

  predicate Finished(s: State) {
    forall i :: 0 <= i < |s.procs| ==> s.procs[i].j == s.procs[i].numBytes && s.procs[i].pc == Ready
  }

  // ---------------------------------------------------------------------
  // Sums
  // ---------------------------------------------------------------------

  function Written(ps: seq<Proc>): nat {
    if ps == [] then 0 else ps[0].j + Written(ps[1..])
  }

  function Total(ps: seq<Proc>): nat {
    if ps == [] then 0 else ps[0].numBytes + Total(ps[1..])
  }

  function Largest(ps: seq<Proc>): (m: nat)
    ensures forall i :: 0 <= i < |ps| ==> ps[i].numBytes <= m
    ensures m == 0 || exists i :: 0 <= i < |ps| && ps[i].numBytes == m
  {
    if ps == [] then 0
    else
      var m := Largest(ps[1..]);
      if ps[0].numBytes >= m then ps[0].numBytes
      else assert exists i :: 0 <= i < |ps[1..]| && ps[1..][i].numBytes == m; m
  }

  lemma {:induction false} WrittenUpdate(ps: seq<Proc>, i: nat, p: Proc)
    requires i < |ps|
    ensures Written(ps[i := p]) == Written(ps) - ps[i].j + p.j
    ensures p.numBytes == ps[i].numBytes ==> Total(ps[i := p]) == Total(ps)
  {
    if i == 0 {
      assert ps[0 := p][1..] == ps[1..];
    } else {
      assert ps[i := p][1..] == ps[1..][i - 1 := p];
      WrittenUpdate(ps[1..], i - 1, p);
    }
  }

  lemma {:induction false} WrittenIsTotal(ps: seq<Proc>, qs: seq<Proc>)
    requires |ps| == |qs| && forall i :: 0 <= i < |ps| ==> ps[i].j == qs[i].numBytes
    ensures Written(ps) == Total(qs)
  {
    if ps != [] {
      WrittenIsTotal(ps[1..], qs[1..]);
    }
  }

  // ---------------------------------------------------------------------
  // What every run keeps
  // ---------------------------------------------------------------------

  ghost predicate ProcOk(s: State, i: nat)
    requires i < |s.procs|
  {
    var p := s.procs[i];
    && p.j <= p.numBytes && s.size0 + p.j <= |s.file|
    && (p.pc.Sought? ==> !p.append && p.j < p.numBytes && s.size0 + p.j <= p.pc.off <= |s.file|)
  }

  /** No hole, the old contents untouched, at least as many new bytes as any one process has
      written and at most as many as all together. */
  ghost predicate Inv(s: State) {
    && s.size0 <= |s.file| <= s.size0 + Written(s.procs)
    && (forall k :: 0 <= k < |s.file| ==> s.file[k] != Hole && (s.file[k] == Before <==> k < s.size0))
    && (forall i :: 0 <= i < |s.procs| ==> ProcOk(s, i))
  }

  lemma {:induction false} NothingWritten(ps: seq<Proc>)
    requires forall i :: 0 <= i < |ps| ==> ps[i].j == 0
    ensures Written(ps) == 0
  {
    if ps != [] {
      NothingWritten(ps[1..]);
    }
  }

  lemma InitialInv(s: State)
    requires Initial(s)
    ensures Inv(s)
  {
    NothingWritten(s.procs);
  }

  lemma NextInv(s: State, a: Step)
    requires Inv(s) && Enabled(s, a)
    ensures Inv(Next(s, a))
  {
    var s' := Next(s, a);
    var p := s.procs[a.i];
    assert ProcOk(s, a.i);
    WrittenUpdate(s.procs, a.i, s'.procs[a.i]);
    forall i | 0 <= i < |s'.procs| ensures ProcOk(s', i) {
      assert ProcOk(s, i);
    }
  }

  /** What no step touches. */
  ghost predicate SameJob(s: State, t: State) {
    && s.size0 == t.size0 && |s.procs| == |t.procs|
    && forall i :: 0 <= i < |s.procs| ==>
         s.procs[i].numBytes == t.procs[i].numBytes && s.procs[i].append == t.procs[i].append
  }

  lemma {:induction false} RunInv(s: State, steps: seq<Step>)
    requires Inv(s) && IsRun(s, steps)
    ensures Inv(After(s, steps)) && SameJob(s, After(s, steps))
    decreases |steps|
  {
    if steps != [] {
      NextInv(s, steps[0]);
      RunInv(Next(s, steps[0]), steps[1..]);
    }
  }

  /** However the processes interleave, whichever mode each uses: no hole, no damage to what was
      there, and in the end between the largest number of bytes and their sum were added. */
  lemma EndsBetween(s: State, steps: seq<Step>)
    requires Initial(s) && IsRun(s, steps)
    ensures var t := After(s, steps);
            && (forall k :: 0 <= k < |t.file| ==> t.file[k] != Hole)
            && |t.file| >= s.size0 && t.file[..s.size0] == s.file
            && (Finished(t) ==> s.size0 + Largest(s.procs) <= |t.file| <= s.size0 + Total(s.procs))
  {
    InitialInv(s);
    RunInv(s, steps);
    var t := After(s, steps);
    if Finished(t) {
      WrittenIsTotal(t.procs, s.procs);
      if Largest(s.procs) > 0 {
        var i :| 0 <= i < |s.procs| && s.procs[i].numBytes == Largest(s.procs);
        assert ProcOk(t, i);
      }
    }
  }

  // ---------------------------------------------------------------------
  // Append mode loses nothing
  // ---------------------------------------------------------------------

  function Bytes(file: seq<Cell>, i: nat): nat {
    if file == [] then 0 else Bytes(file[..|file| - 1], i) + if file[|file| - 1] == By(i) then 1 else 0
  }

  ghost predicate AllAppend(s: State) {
    forall i :: 0 <= i < |s.procs| ==> s.procs[i].append && s.procs[i].pc == Ready
  }

  /** Every byte ever written is in the file, under its writer's name. */
  ghost predicate Exact(s: State) {
    && AllAppend(s) && |s.file| == s.size0 + Written(s.procs)
    && forall i :: 0 <= i < |s.procs| ==> Bytes(s.file, i) == s.procs[i].j
  }

  lemma NextExact(s: State, a: Step)
    requires Exact(s) && Enabled(s, a)
    ensures Exact(Next(s, a))
  {
    var i := a.i;
    assert a == AppendByte(i);
    var s' := Next(s, a);
    WrittenUpdate(s.procs, i, s'.procs[i]);
    assert s'.file == s.file + [By(i)];
    assert s'.file[..|s.file|] == s.file;
  }

  lemma {:induction false} RunExact(s: State, steps: seq<Step>)
    requires Exact(s) && IsRun(s, steps)
    ensures Exact(After(s, steps)) && SameJob(s, After(s, steps))
    decreases |steps|
  {
    if steps != [] {
      NextExact(s, steps[0]);
      RunExact(Next(s, steps[0]), steps[1..]);
    }
  }

  lemma {:induction false} NoneBy(file: seq<Cell>, i: nat)
    requires forall k :: 0 <= k < |file| ==> file[k] == Before
    ensures Bytes(file, i) == 0
  {
    if file != [] {
      NoneBy(file[..|file| - 1], i);
    }
  }

  /** With O_APPEND throughout, the file ends up with exactly the sum, and every process finds
      all of its bytes there. */
  lemma AppendIsExact(s: State, steps: seq<Step>)
    requires Initial(s) && AllAppend(s) && IsRun(s, steps)
    ensures var t := After(s, steps);
            Finished(t) ==>
              && |t.file| == s.size0 + Total(s.procs)
              && |t.procs| == |s.procs|
              && forall i :: 0 <= i < |s.procs| ==> Bytes(t.file, i) == s.procs[i].numBytes
  {
    NothingWritten(s.procs);
    forall i | 0 <= i < |s.procs| ensures Bytes(s.file, i) == 0 {
      NoneBy(s.file, i);
    }
    RunExact(s, steps);
    var t := After(s, steps);
    if Finished(t) {
      WrittenIsTotal(t.procs, s.procs);
    }
  }

  // ---------------------------------------------------------------------
  // Nobody has more bytes in the file than it has written
  // ---------------------------------------------------------------------

  /** The writes a process has done during the steps. */
  function Writes(steps: seq<Step>, i: nat): nat {
    if steps == [] then 0 else Count(!steps[0].Seek? && steps[0].i == i) + Writes(steps[1..], i)
  }

  lemma {:induction false} BytesPut(file: seq<Cell>, off: nat, p: nat, i: nat)
    requires off <= |file|
    ensures Bytes(Put(file, off, By(p)), i) ==
            Bytes(file, i) + Count(p == i) - Count(off < |file| && file[off] == By(i))
  {
    var n := |file| - 1;
    if off == |file| {
      assert Put(file, off, By(p))[..|file|] == file;
    } else if off == n {
      assert file[n := By(p)][..n] == file[..n];
    } else {
      assert file[off := By(p)][..n] == file[..n][off := By(p)];
      BytesPut(file[..n], off, p, i);
    }
  }

  lemma WritesNext(s: State, a: Step, i: nat)
    requires Inv(s) && Enabled(s, a) && i < |s.procs|
    ensures var t := Next(s, a);
            && |t.procs| == |s.procs| && t.procs[i].j == s.procs[i].j + Count(!a.Seek? && a.i == i)
            && Bytes(t.file, i) <= Bytes(s.file, i) + Count(!a.Seek? && a.i == i)
  {
    assert ProcOk(s, a.i);
    if a.AppendByte? {
      BytesPut(s.file, |s.file|, a.i, i);
    } else if a.WriteByte? {
      BytesPut(s.file, s.procs[a.i].pc.off, a.i, i);
    }
  }

  lemma {:induction false} WritesAre(s: State, steps: seq<Step>, i: nat)
    requires Inv(s) && IsRun(s, steps) && i < |s.procs|
    ensures var t := After(s, steps);
            && |t.procs| == |s.procs| && t.procs[i].j == s.procs[i].j + Writes(steps, i)
            && Bytes(t.file, i) <= Bytes(s.file, i) + Writes(steps, i)
    decreases |steps|
  {
    if steps != [] {
      NextInv(s, steps[0]);
      WritesNext(s, steps[0], i);
      hide Next, Enabled, Inv, Bytes;
      WritesAre(Next(s, steps[0]), steps[1..], i);
    }
  }

  /** In either mode, after any run, a process has at most as many bytes in the file as it has done
      writes, and that is its count. */
  lemma NoMoreThanWritten(s: State, steps: seq<Step>, i: nat)
    requires Initial(s) && IsRun(s, steps) && i < |s.procs|
    ensures var t := After(s, steps);
            |t.procs| == |s.procs| && t.procs[i].j == Writes(steps, i) && Bytes(t.file, i) <= Writes(steps, i)
  {
    InitialInv(s);
    NoneBy(s.file, i);
    WritesAre(s, steps, i);
  }

  // ---------------------------------------------------------------------
  // Every size in the range is reached
  // ---------------------------------------------------------------------

  lemma {:induction false} Chain(s: State, a: seq<Step>, b: seq<Step>)
    requires IsRun(s, a) && IsRun(After(s, a), b)
    ensures IsRun(s, a + b) && After(s, a + b) == After(After(s, a), b)
    decreases |a|
  {
    if a == [] {
      assert a + b == b;
    } else {
      assert (a + b)[1..] == a[1..] + b;
      Chain(Next(s, a[0]), a[1..], b);
    }
  }

  /** Seeking processes, all at the top of their loop. */
  ghost predicate AllSeek(s: State) {
    forall i :: 0 <= i < |s.procs| ==>
      !s.procs[i].append && s.procs[i].pc == Ready && s.procs[i].j <= s.procs[i].numBytes
  }

  /** The processes from index i on that have bytes left have sought to off; the others are ready. */
  ghost predicate Lined(ps: seq<Proc>, i: nat, off: nat) {
    forall k :: 0 <= k < |ps| ==>
      && !ps[k].append && ps[k].j <= ps[k].numBytes
      && ps[k].pc == if i <= k && ps[k].j < ps[k].numBytes then Sought(off) else Ready
  }

  /** As Lined, for the processes before index i. */
  ghost predicate Filed(ps: seq<Proc>, i: nat, off: nat) {
    forall k :: 0 <= k < |ps| ==>
      && !ps[k].append && ps[k].j <= ps[k].numBytes
      && ps[k].pc == if k < i && ps[k].j < ps[k].numBytes then Sought(off) else Ready
  }

  ghost predicate SameCounts(ps: seq<Proc>, qs: seq<Proc>) {
    |ps| == |qs| && forall k :: 0 <= k < |ps| ==> ps[k].j == qs[k].j && ps[k].numBytes == qs[k].numBytes
  }

  lemma {:induction false} SeekAll(s: State, i: nat) returns (steps: seq<Step>)
    requires i <= |s.procs| && Filed(s.procs, i, |s.file|)
    ensures IsRun(s, steps)
    ensures var t := After(s, steps);
            t.file == s.file && Lined(t.procs, 0, |s.file|) && SameCounts(s.procs, t.procs)
    decreases |s.procs| - i
  {
    steps := [];
    if i < |s.procs| {
      if s.procs[i].j < s.procs[i].numBytes {
        var s' := Next(s, Seek(i));
        var rest := SeekAll(s', i + 1);
        steps := [Seek(i)] + rest;
        assert steps[1..] == rest;
      } else {
        steps := SeekAll(s, i + 1);
      }
    }
  }

  /** What a round of writes, one by each process from index i on that has bytes left, does. */
  ghost predicate Wrote(ps: seq<Proc>, i: nat, qs: seq<Proc>) {
    |qs| == |ps| && forall k :: 0 <= k < |ps| ==>
      qs[k] == if i <= k && ps[k].j < ps[k].numBytes then ps[k].(j := ps[k].j + 1, pc := Ready) else ps[k]
  }

  lemma {:induction false} WriteAll(s: State, i: nat, off: nat) returns (steps: seq<Step>)
    requires i <= |s.procs| && Lined(s.procs, i, off) && off <= |s.file| <= off + 1
    ensures IsRun(s, steps) && Wrote(s.procs, i, After(s, steps).procs)
    ensures |After(s, steps).file|
         == if exists k :: i <= k < |s.procs| && s.procs[k].j < s.procs[k].numBytes then off + 1 else |s.file|
    decreases |s.procs| - i
  {
    steps := [];
    if i < |s.procs| {
      if s.procs[i].j < s.procs[i].numBytes {
        var s' := Next(s, WriteByte(i));
        var rest := WriteAll(s', i + 1, off);
        steps := [WriteByte(i)] + rest;
        assert steps[1..] == rest;
      } else {
        steps := WriteAll(s, i + 1, off);
      }
    }
  }

  /** The bytes a process still has to write. */
  function Left(p: Proc): nat {
    if p.j < p.numBytes then p.numBytes - p.j else 0
  }

  /** The most bytes any process still has to write. */
  ghost function MostLeft(ps: seq<Proc>): (m: nat)
    ensures forall i :: 0 <= i < |ps| ==> Left(ps[i]) <= m
    ensures m == 0 || exists i :: 0 <= i < |ps| && Left(ps[i]) == m
  {
    if ps == [] then 0
    else
      var m := MostLeft(ps[1..]);
      if Left(ps[0]) >= m then Left(ps[0])
      else assert exists i :: 0 <= i < |ps[1..]| && Left(ps[1..][i]) == m; m
  }

  lemma RoundShrinks(ps: seq<Proc>, qs: seq<Proc>, rs: seq<Proc>)
    requires SameCounts(ps, qs) && Wrote(qs, 0, rs) && MostLeft(ps) > 0
    ensures MostLeft(rs) == MostLeft(ps) - 1
    ensures exists k :: 0 <= k < |qs| && qs[k].j < qs[k].numBytes
  {
    var i :| 0 <= i < |ps| && Left(ps[i]) == MostLeft(ps);
    assert qs[i].j < qs[i].numBytes && Left(rs[i]) == MostLeft(ps) - 1;
    assert forall k :: 0 <= k < |rs| ==> Left(ps[k]) <= MostLeft(ps) && Left(rs[k]) <= MostLeft(ps) - 1;
  }

  lemma LinedThenWrote(ps: seq<Proc>, off: nat, s: State)
    requires Lined(ps, 0, off) && Wrote(ps, 0, s.procs)
    ensures AllSeek(s)
  {
  }

  lemma AllFiled(s: State)
    requires AllSeek(s)
    ensures Filed(s.procs, 0, |s.file|) && (MostLeft(s.procs) == 0 ==> Finished(s))
  {
    assert MostLeft(s.procs) == 0 ==> forall i :: 0 <= i < |s.procs| ==> Left(s.procs[i]) <= 0;
  }

  /** Seek together, write together, all over the same byte. */
  lemma LosingRound(s: State) returns (steps: seq<Step>)
    requires AllSeek(s) && MostLeft(s.procs) > 0
    ensures IsRun(s, steps)
    ensures var t := After(s, steps);
            AllSeek(t) && |t.file| == |s.file| + 1 && MostLeft(t.procs) == MostLeft(s.procs) - 1
  {
    AllFiled(s);
    hide IsRun, After, MostLeft, AllSeek, Filed, Lined, Wrote, SameCounts;
    var a := SeekAll(s, 0);
    var s1 := After(s, a);
    var b := WriteAll(s1, 0, |s.file|);
    Chain(s, a, b);
    RoundShrinks(s.procs, s1.procs, After(s1, b).procs);
    LinedThenWrote(s1.procs, |s.file|, After(s1, b));
    steps := a + b;
  }

  /** The run that loses the most. */
  lemma {:induction false} LosingRun(s: State) returns (steps: seq<Step>)
    requires AllSeek(s)
    ensures IsRun(s, steps) && Finished(After(s, steps))
    ensures |After(s, steps).file| == |s.file| + MostLeft(s.procs)
    decreases MostLeft(s.procs)
  {
    if MostLeft(s.procs) == 0 {
      AllFiled(s);
      steps := [];
    } else {
      hide *;
      var a := LosingRound(s);
      var b := LosingRun(After(s, a));
      Chain(s, a, b);
      steps := a + b;
    }
  }

  /** The most bytes that a run can still add. */
  ghost function Most(s: State): int {
    Total(s.procs) - Written(s.procs)
  }

  lemma SomeoneLeft(s: State) returns (i: nat)
    requires AllSeek(s) && Most(s) > 0
    ensures i < |s.procs| && s.procs[i].j < s.procs[i].numBytes
  {
    if forall k :: 0 <= k < |s.procs| ==> s.procs[k].j == s.procs[k].numBytes {
      WrittenIsTotal(s.procs, s.procs);
    }
    i :| i < |s.procs| && s.procs[i].j < s.procs[i].numBytes;
  }

  /** One process seeks and writes undisturbed. */
  lemma OneByte(s: State, i: nat)
    requires AllSeek(s) && i < |s.procs| && s.procs[i].j < s.procs[i].numBytes
    ensures var steps := [Seek(i), WriteByte(i)];
            && IsRun(s, steps)
            && var t := After(s, steps);
               && AllSeek(t) && |t.file| == |s.file| + 1
               && t.procs == s.procs[i := s.procs[i].(j := s.procs[i].j + 1)]
  {
    var steps := [Seek(i), WriteByte(i)];
    var s1 := Next(s, Seek(i));
    var s2 := Next(s1, WriteByte(i));
    assert s2.procs == s.procs[i := s.procs[i].(j := s.procs[i].j + 1)];
    assert steps[1..] == [WriteByte(i)] && steps[1..][1..] == [];
    assert IsRun(s2, []) && After(s2, []) == s2;
    assert IsRun(s1, steps[1..]) && After(s1, steps[1..]) == s2;
  }

  lemma OneByteLess(s: State, i: nat, t: State)
    requires AllSeek(s) && AllSeek(t) && i < |s.procs| && s.procs[i].j < s.procs[i].numBytes
    requires t.procs == s.procs[i := s.procs[i].(j := s.procs[i].j + 1)]
    ensures Most(t) == Most(s) - 1 && MostLeft(t.procs) <= MostLeft(s.procs)
  {
    WrittenUpdate(s.procs, i, t.procs[i]);
    if MostLeft(t.procs) > 0 {
      var k :| 0 <= k < |t.procs| && Left(t.procs[k]) == MostLeft(t.procs);
      assert Left(s.procs[k]) <= MostLeft(s.procs);
    }
  }

  /** Any number of bytes from the longest remaining count to the most: as long as more is wanted than the run that
      loses the most would add, one process writes a byte undisturbed. */
  lemma {:induction false} RunAdding(s: State, n: nat) returns (steps: seq<Step>)
    requires AllSeek(s) && MostLeft(s.procs) <= n <= Most(s)
    ensures IsRun(s, steps) && Finished(After(s, steps))
    ensures |After(s, steps).file| == |s.file| + n
    decreases n
  {
    if n == MostLeft(s.procs) {
      steps := LosingRun(s);
    } else {
      hide *;
      var i := SomeoneLeft(s);
      var first := [Seek(i), WriteByte(i)];
      OneByte(s, i);
      OneByteLess(s, i, After(s, first));
      var rest := RunAdding(After(s, first), n - 1);
      Chain(s, first, rest);
      steps := first + rest;
    }
  }

  /** For any number of seeking processes every size that EndsBetween allows is the end of some
      run, so the size they leave tells nothing more. */
  lemma EverySizeIsReached(s: State, n: nat) returns (steps: seq<Step>)
    requires Initial(s) && forall i :: 0 <= i < |s.procs| ==> !s.procs[i].append
    requires Largest(s.procs) <= n <= Total(s.procs)
    ensures IsRun(s, steps) && Finished(After(s, steps)) && |After(s, steps).file| == s.size0 + n
  {
    NothingWritten(s.procs);
    steps := RunAdding(s, n);
  }
}
