/** How handle_cmd of 14. shell/ccsh.c wires a pipeline: the descriptor tables of the shell and
    its children, whatever order their system calls run in. */
module Pipeline {

  /** What a descriptor refers to: something the shell had before, or an end of pipe i. */
  datatype End = Other(id: nat) | ReadEnd(pipe: nat) | WriteEnd(pipe: nat)

  type Table = map<nat, End>

  /** The two descriptors of a pipe. */
  datatype Pair = Pair(r: nat, w: nat)

  const STDIN: nat := 0
  const STDOUT: nat := 1

  datatype Call = Dup2(src: nat, dst: nat) | Close(fd: nat)

  // ----- descriptor tables -----

  function Apply(t: Table, c: Call): Table {
    match c
    case Dup2(src, dst) => if src in t then t[dst := t[src]] else t
    case Close(fd) => t - {fd}
  }

  function ApplyAll(t: Table, cs: seq<Call>): Table
    decreases cs
  {
    if cs == [] then t else ApplyAll(Apply(t, cs[0]), cs[1..])
  }

  /** The loops that close every pipe descriptor. */
  function CloseAll(ps: seq<Pair>): (cs: seq<Call>)
    ensures |cs| == 2 * |ps|
  {
    if ps == [] then [] else [Close(ps[0].r), Close(ps[0].w)] + CloseAll(ps[1..])
  }

  /** The descriptors of child i between fork and exec. */
  function ChildCalls(ps: seq<Pair>, i: nat): seq<Call>
    requires i < |ps|
  {
    (if i > 0 then [Dup2(ps[i - 1].r, STDIN)] else [])
    + (if i + 1 < |ps| then [Dup2(ps[i].w, STDOUT)] else [])
    + CloseAll(ps)
  }

  function Descriptors(ps: seq<Pair>): set<nat> {
    if ps == [] then {} else {ps[0].r, ps[0].w} + Descriptors(ps[1..])
  }

  /** pipe() hands out descriptors that are not in use: all different, and none of the shell's. */
  ghost predicate Unused(base: Table, ps: seq<Pair>) {
    && (forall i :: 0 <= i < |ps| ==> ps[i].r != ps[i].w && ps[i].r !in base && ps[i].w !in base)
    && (forall i, j :: 0 <= i < j < |ps| ==> {ps[i].r, ps[i].w} !! {ps[j].r, ps[j].w})
  }

  /** The shell's table once the pipes are open. */
  function Opened(base: Table, ps: seq<Pair>): Table {
    if ps == [] then base
    else
      var n := |ps| - 1;
      Opened(base, ps[..n])[ps[n].r := ReadEnd(n)][ps[n].w := WriteEnd(n)]
  }

  /** The table of child i when it runs its segment. */
  function Wired(base: Table, n: nat, i: nat): Table {
    var t := if i > 0 then base[STDIN := ReadEnd(i - 1)] else base;
    if i + 1 < n then t[STDOUT := WriteEnd(i)] else t
  }

  /** The shell had standard input and output, and no end of these pipes. */
  ghost predicate ShellTable(base: Table) {
    STDIN in base && STDOUT in base && forall fd :: fd in base ==> base[fd].Other?
  }

  lemma {:induction false} ApplyAppend(t: Table, s: seq<Call>, u: seq<Call>)
    ensures ApplyAll(t, s + u) == ApplyAll(ApplyAll(t, s), u)
    decreases s
  {
    if s == [] {
      assert s + u == u;
    } else {
      assert (s + u)[1..] == s[1..] + u;
      ApplyAppend(Apply(t, s[0]), s[1..], u);
    }
  }

  lemma {:induction false} CloseAllCloses(t: Table, ps: seq<Pair>)
    ensures ApplyAll(t, CloseAll(ps)) == t - Descriptors(ps)
    decreases ps
  {
    if ps != [] {
      var cs := CloseAll(ps);
      var t' := t - {ps[0].r} - {ps[0].w};
      assert cs[1..][1..] == CloseAll(ps[1..]) && cs[1..][0] == Close(ps[0].w);
      assert ApplyAll(t, cs) == ApplyAll(t', CloseAll(ps[1..]));
      CloseAllCloses(t', ps[1..]);
      assert t' - Descriptors(ps[1..]) == t - Descriptors(ps);
    }
  }

  lemma {:induction false} DescriptorsAre(ps: seq<Pair>, fd: nat)
    ensures fd in Descriptors(ps) <==> exists i :: 0 <= i < |ps| && (fd == ps[i].r || fd == ps[i].w)
  {
    if ps != [] {
      DescriptorsAre(ps[1..], fd);
      if i :| 0 <= i < |ps| && (fd == ps[i].r || fd == ps[i].w) {
        if i > 0 {
          assert ps[1..][i - 1] == ps[i];
        }
      }
      if i :| 0 <= i < |ps[1..]| && (fd == ps[1..][i].r || fd == ps[1..][i].w) {
        assert ps[i + 1] == ps[1..][i];
      }
    }
  }

  /** Opening pipes adds their descriptors and changes no other. */
  lemma {:induction false} OpenedKeeps(base: Table, ps: seq<Pair>, fd: nat)
    requires Unused(base, ps)
    ensures fd in Opened(base, ps) <==> fd in base || fd in Descriptors(ps)
    ensures fd in base ==> Opened(base, ps)[fd] == base[fd] && fd !in Descriptors(ps)
    decreases ps
  {
    DescriptorsAre(ps, fd);
    if ps != [] {
      var n := |ps| - 1;
      OpenedKeeps(base, ps[..n], fd);
      DescriptorsAre(ps[..n], fd);
      if i :| 0 <= i < |ps| && (fd == ps[i].r || fd == ps[i].w) {
        if i < n {
          assert ps[..n][i] == ps[i];
        }
      }
    }
  }

  lemma {:induction false} OpenedEnds(base: Table, ps: seq<Pair>)
    requires Unused(base, ps)
    ensures forall i :: 0 <= i < |ps| ==>
      && ps[i].r in Opened(base, ps) && Opened(base, ps)[ps[i].r] == ReadEnd(i)
      && ps[i].w in Opened(base, ps) && Opened(base, ps)[ps[i].w] == WriteEnd(i)
    decreases ps
  {
    if ps != [] {
      var n := |ps| - 1;
      OpenedEnds(base, ps[..n]);
      forall i | 0 <= i < n ensures {ps[i].r, ps[i].w} !! {ps[n].r, ps[n].w} && ps[..n][i] == ps[i] {}
    }
  }

  /** The calls of child i leave it with the shell's descriptors, its two pipe ends on standard
      input and output, and nothing else. */
  lemma ChildEndsWired(base: Table, ps: seq<Pair>, i: nat)
    requires ShellTable(base) && Unused(base, ps) && i < |ps|
    ensures ApplyAll(Opened(base, ps), ChildCalls(ps, i)) == Wired(base, |ps|, i)
  {
    var full := Opened(base, ps);
    var dups := (if i > 0 then [Dup2(ps[i - 1].r, STDIN)] else [])
              + (if i + 1 < |ps| then [Dup2(ps[i].w, STDOUT)] else []);
    OpenedEnds(base, ps);
    ApplyDups(full, ps, i);
    ApplyAppend(full, dups, CloseAll(ps));
    CloseAllCloses(Wired(full, |ps|, i), ps);
    ClosedIsWired(base, ps, i);
  }

  lemma ClosedIsWired(base: Table, ps: seq<Pair>, i: nat)
    requires ShellTable(base) && Unused(base, ps) && i < |ps|
    ensures Wired(Opened(base, ps), |ps|, i) - Descriptors(ps) == Wired(base, |ps|, i)
  {
    var t: Table := Wired(Opened(base, ps), |ps|, i) - Descriptors(ps);
    OpenedKeeps(base, ps, STDIN);
    OpenedKeeps(base, ps, STDOUT);
    forall fd: nat ensures fd in t <==> fd in Wired(base, |ps|, i) {
      OpenedKeeps(base, ps, fd);
    }
    forall fd: nat | fd in Wired(base, |ps|, i) ensures t[fd] == Wired(base, |ps|, i)[fd] {
      OpenedKeeps(base, ps, fd);
    }
  }

  lemma ApplyDups(full: Table, ps: seq<Pair>, i: nat)
    requires i < |ps|
    requires forall k :: 0 <= k < |ps| ==>
      ps[k].r in full && full[ps[k].r] == ReadEnd(k) && ps[k].w in full && full[ps[k].w] == WriteEnd(k)
    requires forall k :: 0 <= k < |ps| ==> ps[k].w != STDIN
    ensures ApplyAll(full, (if i > 0 then [Dup2(ps[i - 1].r, STDIN)] else [])
                         + (if i + 1 < |ps| then [Dup2(ps[i].w, STDOUT)] else []))
      == Wired(full, |ps|, i)
  {
    var a := if i > 0 then [Dup2(ps[i - 1].r, STDIN)] else [];
    var b := if i + 1 < |ps| then [Dup2(ps[i].w, STDOUT)] else [];
    var t1: Table := if i > 0 then full[STDIN := ReadEnd(i - 1)] else full;
    assert ApplyAll(full, a) == t1;
    ApplyAppend(full, a, b);
    assert i + 1 < |ps| ==> ApplyAll(t1, b) == Apply(t1, b[0]);
  }

  /** The shell's closes give it back the table it had. */
  lemma ShellEndsClean(base: Table, ps: seq<Pair>)
    requires Unused(base, ps)
    ensures ApplyAll(Opened(base, ps), CloseAll(ps)) == base
  {
    CloseAllCloses(Opened(base, ps), ps);
    forall fd: nat ensures fd in Opened(base, ps) - Descriptors(ps) <==> fd in base {
      OpenedKeeps(base, ps, fd);
      DescriptorsAre(ps, fd);
    }
    forall fd: nat | fd in base ensures (Opened(base, ps) - Descriptors(ps))[fd] == base[fd] {
      OpenedKeeps(base, ps, fd);
      DescriptorsAre(ps, fd);
    }
  }

  lemma WiredEnds(base: Table, n: nat, k: nat, i: nat, fd: nat)
    requires ShellTable(base) && i < n && k < n
    ensures var t := Wired(base, n, i);
      && (fd in t && t[fd] == WriteEnd(k) <==> i == k && fd == STDOUT && k + 1 < n)
      && (fd in t && t[fd] == ReadEnd(k) <==> i == k + 1 && fd == STDIN)
  {
  }

  // ----- every schedule -----

  /** A process and how many of its calls it has made. */
  datatype Process = Process(table: Table, pc: nat)

  /** The shell, and the children it has forked so far. The shell first forks them all, child i
      copying its table, then makes its closes. */
  datatype System = System(shell: Process, children: seq<Process>)

  /** Who moves next: the shell, or a child. */
  datatype Mover = Shell | Child(i: nat)

  function Initial(base: Table, ps: seq<Pair>): System {
    System(Process(Opened(base, ps), 0), [])
  }

  function Advance(p: Process, cs: seq<Call>): Process {
    if p.pc < |cs| then Process(Apply(p.table, cs[p.pc]), p.pc + 1) else p
  }

  /** One system call of the mover; nothing when it has none left or is not there yet. */
  function Move(ps: seq<Pair>, s: System, who: Mover): System {
    match who
    case Shell =>
      if |s.children| < |ps| then s.(children := s.children + [Process(s.shell.table, 0)])
      else s.(shell := Advance(s.shell, CloseAll(ps)))
    case Child(i) =>
      if i < |s.children| && i < |ps| then s.(children := s.children[i := Advance(s.children[i], ChildCalls(ps, i))])
      else s
  }

  function RunAll(ps: seq<Pair>, s: System, schedule: seq<Mover>): System
    decreases schedule
  {
    if schedule == [] then s else RunAll(ps, Move(ps, s, schedule[0]), schedule[1..])
  }

  /** A process is where its own first pc calls take it from table t. */
  ghost predicate OnTrack(p: Process, t: Table, cs: seq<Call>) {
    p.pc <= |cs| && p.table == ApplyAll(t, cs[..p.pc])
  }

  ghost predicate Consistent(base: Table, ps: seq<Pair>, s: System) {
    var full := Opened(base, ps);
    && |s.children| <= |ps|
    && OnTrack(s.shell, full, CloseAll(ps))
    && (|s.children| < |ps| ==> s.shell.pc == 0)
    && (forall i :: 0 <= i < |s.children| ==> OnTrack(s.children[i], full, ChildCalls(ps, i)))
  }

  lemma AdvanceOnTrack(p: Process, t: Table, cs: seq<Call>)
    requires OnTrack(p, t, cs)
    ensures OnTrack(Advance(p, cs), t, cs)
  {
    if p.pc < |cs| {
      assert cs[..p.pc + 1] == cs[..p.pc] + [cs[p.pc]];
      ApplyAppend(t, cs[..p.pc], [cs[p.pc]]);
      assert ApplyAll(p.table, [cs[p.pc]]) == ApplyAll(Apply(p.table, cs[p.pc]), []);
    }
  }

  lemma MoveConsistent(base: Table, ps: seq<Pair>, s: System, who: Mover)
    requires Consistent(base, ps, s)
    ensures Consistent(base, ps, Move(ps, s, who))
  {
    match who
    case Shell => AdvanceOnTrack(s.shell, Opened(base, ps), CloseAll(ps));
    case Child(i) =>
      if i < |s.children| {
        AdvanceOnTrack(s.children[i], Opened(base, ps), ChildCalls(ps, i));
      }
  }

  lemma {:induction false} RunConsistent(base: Table, ps: seq<Pair>, s: System, schedule: seq<Mover>)
    requires Consistent(base, ps, s)
    ensures Consistent(base, ps, RunAll(ps, s, schedule))
    decreases schedule
  {
    if schedule != [] {
      MoveConsistent(base, ps, s, schedule[0]);
      RunConsistent(base, ps, Move(ps, s, schedule[0]), schedule[1..]);
    }
  }

  /** Every process has made all its calls. */
  predicate Finished(ps: seq<Pair>, s: System) {
    && |s.children| == |ps| && s.shell.pc == |CloseAll(ps)|
    && forall i :: 0 <= i < |ps| ==> s.children[i].pc == |ChildCalls(ps, i)|
  }

  /** In whatever order the shell and its children make their calls, once they are done every
      child is wired and the shell holds what it held before. */
  lemma AnyScheduleWires(base: Table, ps: seq<Pair>, schedule: seq<Mover>)
    requires ShellTable(base) && Unused(base, ps)
    requires Finished(ps, RunAll(ps, Initial(base, ps), schedule))
    ensures var s := RunAll(ps, Initial(base, ps), schedule);
      && s.shell.table == base
      && forall i :: 0 <= i < |ps| ==> s.children[i].table == Wired(base, |ps|, i)
  {
    var s := RunAll(ps, Initial(base, ps), schedule);
    RunConsistent(base, ps, Initial(base, ps), schedule);
    assert CloseAll(ps)[..|CloseAll(ps)|] == CloseAll(ps);
    ShellEndsClean(base, ps);
    forall i | 0 <= i < |ps| ensures s.children[i].table == Wired(base, |ps|, i) {
      var cs := ChildCalls(ps, i);
      assert OnTrack(s.children[i], Opened(base, ps), cs);
      assert cs[..|cs|] == cs;
      ChildEndsWired(base, ps, i);
    }
  }

  /** A finished system is one in which nobody has a call left to make: nothing gets stuck. */
  lemma {:induction false} StuckIffFinished(base: Table, ps: seq<Pair>, schedule: seq<Mover>)
    ensures var s := RunAll(ps, Initial(base, ps), schedule);
      (forall who :: Move(ps, s, who) == s) <==> Finished(ps, s)
  {
    var s := RunAll(ps, Initial(base, ps), schedule);
    RunConsistent(base, ps, Initial(base, ps), schedule);
    if forall who :: Move(ps, s, who) == s {
      assert Move(ps, s, Shell) == s;
      forall i | 0 <= i < |ps| ensures s.children[i].pc == |ChildCalls(ps, i)| {
        assert OnTrack(s.children[i], Opened(base, ps), ChildCalls(ps, i));
        assert Move(ps, s, Child(i)) == s;
        assert s.children[i] == Advance(s.children[i], ChildCalls(ps, i));
      }
    }
    if Finished(ps, s) {
      forall who ensures Move(ps, s, who) == s {
        if who.Child? && who.i < |ps| {
          assert s.children[who.i] == Advance(s.children[who.i], ChildCalls(ps, who.i));
        }
      }
    }
  }

  // ----- who holds what -----

  /** A process that holds descriptors: one of the system, or the program that a child forks in
      execute_cmd once its own calls are made, with a copy of its table. */
  datatype Holder = Member(who: Mover) | Program(child: nat)

  predicate Present(s: System, h: Holder) {
    match h
    case Member(who) => who.Child? ==> who.i < |s.children|
    case Program(i) => i < |s.children|
  }

  function TableOf(s: System, h: Holder): Table
    requires Present(s, h)
  {
    match h
    case Member(who) => if who.Shell? then s.shell.table else s.children[who.i].table
    case Program(i) => s.children[i].table
  }

  predicate Holds(s: System, h: Holder, fd: nat, end: End)
    requires Present(s, h)
  {
    fd in TableOf(s, h) && TableOf(s, h)[fd] == end
  }

  /** The holder is child i or the program it forked. */
  predicate Runs(h: Holder, i: nat) {
    h == Member(Child(i)) || h == Program(i)
  }

  /** However the schedule went, in the end a pipe's write end is the standard output of the child
      before it and its program, and its read end the standard input of the child after it and
      its program, in no other place of any process, the shell included; the last pipe has no end
      left. */
  lemma {:induction false} EndsPlaced(base: Table, ps: seq<Pair>, schedule: seq<Mover>, k: nat, h: Holder, fd: nat)
    requires ShellTable(base) && Unused(base, ps) && k < |ps|
    requires var s := RunAll(ps, Initial(base, ps), schedule); Finished(ps, s) && Present(s, h)
    ensures var s := RunAll(ps, Initial(base, ps), schedule);
      && (Holds(s, h, fd, WriteEnd(k)) <==> Runs(h, k) && fd == 1 && k + 1 < |ps|)
      && (Holds(s, h, fd, ReadEnd(k)) <==> Runs(h, k + 1) && fd == 0)
  {
    AnyScheduleWires(base, ps, schedule);
    if h != Member(Shell) {
      WiredEnds(base, |ps|, k, if h.Program? then h.child else h.who.i, fd);
    }
  }

  /** The process can still write to pipe k. */
  ghost predicate Writes(s: System, h: Holder, k: nat)
    requires Present(s, h)
  {
    exists fd: nat :: Holds(s, h, fd, WriteEnd(k))
  }

  /** Of the processes still alive, whichever they are, none can write to pipe k exactly when
      child k and its program have exited: only then does the reader of the pipe meet end of
      file. */
  lemma {:induction false} EndOfFileIff(base: Table, ps: seq<Pair>, schedule: seq<Mover>, alive: set<Holder>, k: nat)
    requires ShellTable(base) && Unused(base, ps) && k + 1 < |ps|
    requires var s := RunAll(ps, Initial(base, ps), schedule);
      Finished(ps, s) && forall h :: h in alive ==> Present(s, h)
    ensures var s := RunAll(ps, Initial(base, ps), schedule);
      (forall h :: h in alive ==> !Writes(s, h, k)) <==> Member(Child(k)) !in alive && Program(k) !in alive
  {
    var s := RunAll(ps, Initial(base, ps), schedule);
    forall h | h in alive ensures Writes(s, h, k) <==> Runs(h, k) {
      EndsPlaced(base, ps, schedule, k, h, STDOUT);
      if fd: nat :| Holds(s, h, fd, WriteEnd(k)) {
        EndsPlaced(base, ps, schedule, k, h, fd);
      }
    }
  }

  // ----- the code -----

  /** A process's descriptor table. */
  class Proc {
    var fds: Table

    /** The shell, or a child forked from a process with this table. */
    constructor (fds: Table)
      ensures this.fds == fds
    {
      this.fds := fds;
    }

    /** pipe(): two descriptors that are not in use. */
    method OpenPipe(i: nat) returns (p: Pair)
      modifies this
      ensures p.r != p.w && p.r !in old(fds) && p.w !in old(fds)
      ensures fds == old(fds)[p.r := ReadEnd(i)][p.w := WriteEnd(i)]
    {
      var used := fds.Keys;
      var r := LeastUnused(used);
      var w := LeastUnused(used + {r});
      p := Pair(r, w);
      fds := fds[r := ReadEnd(i)][w := WriteEnd(i)];
    }

    method CloseFd(fd: nat)
      modifies this
      ensures fds == Apply(old(fds), Close(fd))
    {
      fds := fds - {fd};
    }

    method DupOnto(src: nat, dst: nat)
      modifies this
      ensures fds == Apply(old(fds), Dup2(src, dst))
    {
      if src in fds {
        fds := fds[dst := fds[src]];
      }
    }

    /** The loop that closes both ends of every pipe. */
    method ClosePipes(ps: seq<Pair>)
      modifies this
      ensures fds == ApplyAll(old(fds), CloseAll(ps))
    {
      for j := 0 to |ps|
        invariant ApplyAll(fds, CloseAll(ps[j..])) == ApplyAll(old(fds), CloseAll(ps))
      {
        assert ps[j..][1..] == ps[j + 1..];
        ghost var cs := CloseAll(ps[j..]);
        assert cs[1..][0] == Close(ps[j].w) && cs[1..][1..] == CloseAll(ps[j + 1..]);
        CloseFd(ps[j].r);
        CloseFd(ps[j].w);
      }
    }

    /** What child i does between fork and exec. */
    method Wire(ps: seq<Pair>, i: nat)
      requires i < |ps|
      modifies this
      ensures fds == ApplyAll(old(fds), ChildCalls(ps, i))
    {
      ghost var a := if i > 0 then [Dup2(ps[i - 1].r, STDIN)] else [];
      ghost var b := if i + 1 < |ps| then [Dup2(ps[i].w, STDOUT)] else [];
      ghost var start := fds;
      if i > 0 {
        DupOnto(ps[i - 1].r, STDIN);
      }
      assert fds == ApplyAll(start, a);
      ghost var mid := fds;
      if i < |ps| - 1 {
        DupOnto(ps[i].w, STDOUT);
      }
      assert fds == ApplyAll(mid, b);
      ApplyAppend(start, a, b);
      ApplyAppend(start, a + b, CloseAll(ps));
      ClosePipes(ps);
    }
  }

  /** The lowest descriptor that is free. */
  method LeastUnused(used: set<nat>) returns (fd: nat)
    ensures fd !in used && forall k :: 0 <= k < fd ==> k in used
  {
    fd := 0;
    while fd in used
      invariant forall k :: 0 <= k < fd ==> k in used
      decreases |used| - fd, fd in used
    {
      LowSetBounded(used, fd);
      fd := fd + 1;
    }
  }

  lemma LowSetBounded(used: set<nat>, n: nat)
    requires forall k :: 0 <= k <= n ==> k in used
    ensures n < |used|
    decreases n
  {
    if n > 0 {
      LowSetBounded(used - {n}, n - 1);
    } else {
      assert 0 in used;
    }
  }

  /** The loop of pipe() calls. */
  method OpenPipes(shell: Proc, n: nat) returns (ps: seq<Pair>)
    modifies shell
    ensures |ps| == n && Unused(old(shell.fds), ps) && shell.fds == Opened(old(shell.fds), ps)
  {
    ps := [];
    for i := 0 to n
      invariant |ps| == i && Unused(old(shell.fds), ps)
      invariant shell.fds == Opened(old(shell.fds), ps)
    {
      var p := shell.OpenPipe(i);
      ghost var before := Opened(old(shell.fds), ps);
      forall j | 0 <= j < i ensures {ps[j].r, ps[j].w} !! {p.r, p.w} {
        OpenedEnds(old(shell.fds), ps);
      }
      OpenedKeeps(old(shell.fds), ps, p.r);
      OpenedKeeps(old(shell.fds), ps, p.w);
      assert (ps + [p])[..i] == ps;
      ps := ps + [p];
    }
  }

  /** fork and the child's branch. */
  method ForkChild(shell: Proc, ps: seq<Pair>, i: nat, ghost base: Table) returns (child: Proc)
    requires ShellTable(base) && Unused(base, ps) && i < |ps| && shell.fds == Opened(base, ps)
    ensures fresh(child) && child.fds == Wired(base, |ps|, i)
  {
    child := new Proc(shell.fds);
    child.Wire(ps, i);
    ChildEndsWired(base, ps, i);
  }

  /** handle_cmd up to the waits, with each child's calls made as it is forked. */
  method HandleCmd(shell: Proc, n: nat) returns (children: seq<Proc>)
    requires ShellTable(shell.fds)
    modifies shell
    ensures shell.fds == old(shell.fds)
    ensures |children| == n && forall i :: 0 <= i < n ==> children[i].fds == Wired(old(shell.fds), n, i)
  {
    ghost var base := shell.fds;
    var ps := OpenPipes(shell, n);
    children := [];
    for i := 0 to n
      invariant |children| == i && shell.fds == Opened(base, ps)
      invariant forall j :: 0 <= j < i ==> fresh(children[j]) && children[j] != shell
      invariant forall j :: 0 <= j < i ==> children[j].fds == Wired(base, n, j)
    {
      var child := ForkChild(shell, ps, i, base);
      children := children + [child];
    }
    shell.ClosePipes(ps);
    ShellEndsClean(base, ps);
  }
}
