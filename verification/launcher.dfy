/** The stream wiring of `execute_pipeline` and of the single-command branch of
    `execute_command` (shell.c), as data: which file or pipe end each child's
    standard input and output is bound to, and an abstract descriptor table on
    which the children's `open`/`dup2`/`close` sequences and the parent's closes
    are replayed. The system calls themselves are not modelled. */
module Launcher {
  import opened Text
  import opened Resolver

  /** What a child's standard stream is bound to when it calls `execvp`. */
  datatype Endpoint = Inherited | ReadFile(path: string) | WriteFile(path: string) | PipeReadEnd | PipeWriteEnd

  datatype Stage = Stage(argv: seq<string>, stdin: Endpoint, stdout: Endpoint)

  /** One child, or two children joined by one pipe. */
  datatype LaunchPlan = Single(stage: Stage) | Pipeline(writer: Stage, reader: Stage)

  /** The binding plan for a resolved statement: in a pipeline the input file
      feeds only the writer and the output file takes only the reader's output;
      a single command takes both. */
  function Plan(cmd: Command): LaunchPlan
  {
    var stdin := if cmd.input.Some? then ReadFile(cmd.input.value) else Inherited;
    var stdout := if cmd.output.Some? then WriteFile(cmd.output.value) else Inherited;
    match cmd.piped
    case None => Single(Stage(cmd.argv, stdin, stdout))
    case Some(right) => Pipeline(Stage(cmd.argv, stdin, PipeWriteEnd), Stage(right, PipeReadEnd, stdout))
  }

  // ---------------------------------------------------------------------------
  // An abstract descriptor table

  /** What an open descriptor refers to. `Other` stands for whatever the shell
      itself had open (its terminal, a script being sourced, ...). */
  datatype Channel = Other(id: nat) | InFile(path: string) | OutFile(path: string) | PipeRead | PipeWrite

  type FdTable = map<nat, Channel>

  const StdIn: nat := 0
  const StdOut: nat := 1

  /** A descriptor operation. Each `Open*` names the descriptor the kernel hands
      back; it is a parameter, required to be free where it is used. */
  datatype FdOp = OpenRead(fd: nat, path: string) | OpenWrite(fd: nat, path: string) | Dup2(from: nat, to: nat) | Close(fd: nat)

  /** One operation; `None` when an `open` fails, upon which the child prints an
      error and exits before `execvp`. `dup2` from a closed descriptor fails and
      changes nothing. */
  function Apply(t: FdTable, op: FdOp, unopenable: set<string>): Option<FdTable>
  {
    match op
    case OpenRead(fd, path) => if path in unopenable then None else Some(t[fd := InFile(path)])
    case OpenWrite(fd, path) => if path in unopenable then None else Some(t[fd := OutFile(path)])
    case Dup2(from, to) => if from in t then Some(t[to := t[from]]) else Some(t)
    case Close(fd) => Some(t - {fd})
  }

  function Run(t: FdTable, ops: seq<FdOp>, unopenable: set<string>): Option<FdTable>
    decreases |ops|
  {
    if |ops| == 0 then Some(t)
    else match Apply(t, ops[0], unopenable)
      case None => None
      case Some(t') => Run(t', ops[1..], unopenable)
  }

  lemma {:induction false} RunAppend(t: FdTable, a: seq<FdOp>, b: seq<FdOp>, unopenable: set<string>)
    ensures Run(t, a + b, unopenable) ==
            match Run(t, a, unopenable)
            case None => None
            case Some(t') => Run(t', b, unopenable)
    decreases |a|
  {
    if |a| == 0 {
      assert a + b == b;
    } else {
      assert (a + b)[0] == a[0];
      assert (a + b)[1..] == a[1..] + b;
      match Apply(t, a[0], unopenable)
      case None =>
      case Some(t') => RunAppend(t', a[1..], b, unopenable);
    }
  }

  /** The two descriptors `pipe` returns. */
  datatype PipeFds = PipeFds(read: nat, write: nat)

  function WithPipe(t: FdTable, p: PipeFds): FdTable
  {
    t[p.read := PipeRead][p.write := PipeWrite]
  }

  /** Input redirection in a child: open read-only, `dup2` onto standard input, close. */
  function RedirectIn(input: Option<string>, fd: nat): seq<FdOp>
  {
    if input.None? then [] else [OpenRead(fd, input.value), Dup2(fd, StdIn), Close(fd)]
  }

  /** Output redirection in a child: open for writing, `dup2` onto standard output, close. */
  function RedirectOut(output: Option<string>, fd: nat): seq<FdOp>
  {
    if output.None? then [] else [OpenWrite(fd, output.value), Dup2(fd, StdOut), Close(fd)]
  }

  /** The first child of `execute_pipeline`, up to `execvp`. */
  function WriterOps(input: Option<string>, p: PipeFds, fdIn: nat): seq<FdOp>
  {
    RedirectIn(input, fdIn) + [Dup2(p.write, StdOut), Close(p.read), Close(p.write)]
  }

  /** The second child of `execute_pipeline`, up to `execvp`. */
  function ReaderOps(output: Option<string>, p: PipeFds, fdOut: nat): seq<FdOp>
  {
    RedirectOut(output, fdOut) + [Dup2(p.read, StdIn), Close(p.read), Close(p.write)]
  }

  /** The parent of `execute_pipeline` after both forks and before its two `wait`s. */
  function ParentOps(p: PipeFds): seq<FdOp>
  {
    [Close(p.read), Close(p.write)]
  }

  /** The child of the single-command branch, up to `execvp`. */
  function SoleOps(input: Option<string>, output: Option<string>, fdIn: nat, fdOut: nat): seq<FdOp>
  {
    RedirectIn(input, fdIn) + RedirectOut(output, fdOut)
  }

  /** The channel an endpoint denotes, given the table the shell had. */
  function Denotes(t: FdTable, e: Endpoint, fd: nat): Channel
    requires fd in t
  {
    match e
    case Inherited => t[fd]
    case ReadFile(path) => InFile(path)
    case WriteFile(path) => OutFile(path)
    case PipeReadEnd => PipeRead
    case PipeWriteEnd => PipeWrite
  }

  /** The table a stage should run with: the shell's own table with standard
      input and output rebound as planned, and nothing else. */
  function Expected(t: FdTable, s: Stage): FdTable
    requires StdIn in t && StdOut in t
  {
    t[StdIn := Denotes(t, s.stdin, StdIn)][StdOut := Denotes(t, s.stdout, StdOut)]
  }

  /** Whether an open fails, which ends the child before `execvp`. */
  predicate Fails(file: Option<string>, unopenable: set<string>)
  {
    file.Some? && file.value in unopenable
  }

  /** The files a descriptor sequence creates or truncates (`O_CREAT | O_TRUNC`)
      before it reaches its end or an `open` fails. */
  function Truncated(ops: seq<FdOp>, unopenable: set<string>): set<string>
    decreases |ops|
  {
    if |ops| == 0 then {}
    else match ops[0]
      case OpenRead(_, path) => if path in unopenable then {} else Truncated(ops[1..], unopenable)
      case OpenWrite(_, path) => if path in unopenable then {} else {path} + Truncated(ops[1..], unopenable)
      case _ => Truncated(ops[1..], unopenable)
  }

  /** An input redirection truncates nothing itself, and a failing one stops
      everything after it. */
  lemma TruncatedAfterIn(input: Option<string>, fd: nat, rest: seq<FdOp>, unopenable: set<string>)
    ensures Truncated(RedirectIn(input, fd) + rest, unopenable) ==
            if Fails(input, unopenable) then {} else Truncated(rest, unopenable)
  {
    if input.Some? {
      var ops := RedirectIn(input, fd) + rest;
      assert ops[0] == OpenRead(fd, input.value);
      assert ops[1..][0] == Dup2(fd, StdIn);
      assert ops[1..][1..][0] == Close(fd);
      assert ops[1..][1..][1..] == rest;
      assert Truncated(ops[1..][1..], unopenable) == Truncated(rest, unopenable);
      assert Truncated(ops[1..], unopenable) == Truncated(rest, unopenable);
      assert Truncated(ops, unopenable) == if input.value in unopenable then {} else Truncated(ops[1..], unopenable);
    } else {
      assert RedirectIn(input, fd) + rest == rest;
    }
  }

  /** An output redirection truncates its file when the open succeeds, and a
      failing one stops everything after it. */
  lemma TruncatedAfterOut(output: Option<string>, fd: nat, rest: seq<FdOp>, unopenable: set<string>)
    ensures Truncated(RedirectOut(output, fd) + rest, unopenable) ==
            if Fails(output, unopenable) then {}
            else (if output.Some? then {output.value} else {}) + Truncated(rest, unopenable)
  {
    if output.Some? {
      var ops := RedirectOut(output, fd) + rest;
      assert ops[0] == OpenWrite(fd, output.value);
      assert ops[1..][0] == Dup2(fd, StdOut);
      assert ops[1..][1..][0] == Close(fd);
      assert ops[1..][1..][1..] == rest;
      assert Truncated(ops[1..][1..], unopenable) == Truncated(rest, unopenable);
      assert Truncated(ops[1..], unopenable) == Truncated(rest, unopenable);
      assert Truncated(ops, unopenable) == if output.value in unopenable then {} else {output.value} + Truncated(ops[1..], unopenable);
    } else {
      assert RedirectOut(output, fd) + rest == rest;
    }
  }

  lemma PipeTailTruncatesNothing(from: nat, to: nat, p: PipeFds, unopenable: set<string>)
    ensures Truncated([Dup2(from, to), Close(p.read), Close(p.write)], unopenable) == {}
  {
    var ops := [Dup2(from, to), Close(p.read), Close(p.write)];
    assert ops[1..] == [Close(p.read), Close(p.write)];
    assert ops[1..][1..] == [Close(p.write)];
    assert ops[1..][1..][1..] == [];
    assert Truncated(ops[1..][1..], unopenable) == Truncated([], unopenable);
    assert Truncated(ops[1..], unopenable) == {};
  }

  lemma RunSingle(t: FdTable, op: FdOp, unopenable: set<string>)
    ensures Run(t, [op], unopenable) == Apply(t, op, unopenable)
  {
    assert [op][1..] == [];
  }

  lemma {:induction false} RunCons(t: FdTable, op: FdOp, rest: seq<FdOp>, unopenable: set<string>)
    ensures Run(t, [op] + rest, unopenable) ==
            match Apply(t, op, unopenable)
            case None => None
            case Some(t') => Run(t', rest, unopenable)
  {
    assert ([op] + rest)[0] == op;
    assert ([op] + rest)[1..] == rest;
  }

  /** Open a fresh descriptor on `c`, `dup2` it onto `target`, close it: the net
      effect is `target` rebound to `c`. */
  lemma OpenDupClose(t: FdTable, fd: nat, target: nat, c: Channel)
    requires fd !in t && fd != target
    ensures (t[fd := c][target := c]) - {fd} == t[target := c]
  {
  }

  lemma RedirectInEffect(t: FdTable, input: Option<string>, fd: nat, unopenable: set<string>)
    requires fd !in t && fd != StdIn
    ensures Run(t, RedirectIn(input, fd), unopenable) ==
            if Fails(input, unopenable) then None
            else if input.Some? then Some(t[StdIn := InFile(input.value)])
            else Some(t)
  {
    if input.Some? {
      var c := InFile(input.value);
      var t1 := t[fd := c];
      RunCons(t, OpenRead(fd, input.value), [Dup2(fd, StdIn), Close(fd)], unopenable);
      RunCons(t1, Dup2(fd, StdIn), [Close(fd)], unopenable);
      RunSingle(t1[StdIn := c], Close(fd), unopenable);
      OpenDupClose(t, fd, StdIn, c);
    }
  }

  lemma RedirectOutEffect(t: FdTable, output: Option<string>, fd: nat, unopenable: set<string>)
    requires fd !in t && fd != StdOut
    ensures Run(t, RedirectOut(output, fd), unopenable) ==
            if Fails(output, unopenable) then None
            else if output.Some? then Some(t[StdOut := OutFile(output.value)])
            else Some(t)
  {
    if output.Some? {
      var c := OutFile(output.value);
      var t1 := t[fd := c];
      RunCons(t, OpenWrite(fd, output.value), [Dup2(fd, StdOut), Close(fd)], unopenable);
      RunCons(t1, Dup2(fd, StdOut), [Close(fd)], unopenable);
      RunSingle(t1[StdOut := c], Close(fd), unopenable);
      OpenDupClose(t, fd, StdOut, c);
    }
  }

  /** `dup2` one pipe end onto `target`, then close both ends. */
  lemma DupThenCloseBoth(t: FdTable, p: PipeFds, from: nat, target: nat, unopenable: set<string>)
    requires from in t && (from == p.read || from == p.write)
    requires target != p.read && target != p.write
    ensures Run(t, [Dup2(from, target), Close(p.read), Close(p.write)], unopenable)
            == Some(t[target := t[from]] - {p.read} - {p.write})
  {
    var t1 := t[target := t[from]];
    RunCons(t, Dup2(from, target), [Close(p.read), Close(p.write)], unopenable);
    RunCons(t1, Close(p.read), [Close(p.write)], unopenable);
    RunSingle(t1 - {p.read}, Close(p.write), unopenable);
  }

  /** The descriptors a pipeline allocates are fresh: both pipe ends and the
      redirection descriptors are not open in the shell and not standard streams. */
  predicate FreshFds(t: FdTable, p: PipeFds, fdIn: nat, fdOut: nat)
  {
    && StdIn in t && StdOut in t
    && p.read != p.write
    && p.read !in t && p.write !in t
    && fdIn !in t && fdIn != p.read && fdIn != p.write
    && fdOut !in t && fdOut != p.read && fdOut != p.write
  }

  /** The first child runs `execvp` with its standard input on the input file (or
      the shell's), its standard output on the pipe's write end, both pipe ends and
      the redirection descriptor closed, and every other descriptor as the shell had it. */
  lemma WriterWiring(t: FdTable, cmd: Command, p: PipeFds, fdIn: nat, fdOut: nat, unopenable: set<string>)
    requires cmd.piped.Some?
    requires FreshFds(t, p, fdIn, fdOut)
    ensures Run(WithPipe(t, p), WriterOps(cmd.input, p, fdIn), unopenable) ==
            if Fails(cmd.input, unopenable) then None else Some(Expected(t, Plan(cmd).writer))
    ensures Truncated(WriterOps(cmd.input, p, fdIn), unopenable) == {}
  {
    TruncatedAfterIn(cmd.input, fdIn, [Dup2(p.write, StdOut), Close(p.read), Close(p.write)], unopenable);
    PipeTailTruncatesNothing(p.write, StdOut, p, unopenable);
    var t0 := WithPipe(t, p);
    var tail := [Dup2(p.write, StdOut), Close(p.read), Close(p.write)];
    RedirectInEffect(t0, cmd.input, fdIn, unopenable);
    RunAppend(t0, RedirectIn(cmd.input, fdIn), tail, unopenable);
    if !Fails(cmd.input, unopenable) {
      var t1: FdTable := if cmd.input.Some? then t0[StdIn := InFile(cmd.input.value)] else t0;
      DupThenCloseBoth(t1, p, p.write, StdOut, unopenable);
      assert t1[StdOut := PipeWrite] - {p.read} - {p.write} == Expected(t, Plan(cmd).writer);
    }
  }

  /** The second child runs `execvp` with its standard input on the pipe's read
      end, its standard output on the output file (or the shell's), both pipe ends
      and the redirection descriptor closed, and every other descriptor as the shell had it. */
  lemma ReaderWiring(t: FdTable, cmd: Command, p: PipeFds, fdIn: nat, fdOut: nat, unopenable: set<string>)
    requires cmd.piped.Some?
    requires FreshFds(t, p, fdIn, fdOut)
    ensures Run(WithPipe(t, p), ReaderOps(cmd.output, p, fdOut), unopenable) ==
            if Fails(cmd.output, unopenable) then None else Some(Expected(t, Plan(cmd).reader))
    ensures Truncated(ReaderOps(cmd.output, p, fdOut), unopenable) ==
            if cmd.output.Some? && !Fails(cmd.output, unopenable) then {cmd.output.value} else {}
  {
    TruncatedAfterOut(cmd.output, fdOut, [Dup2(p.read, StdIn), Close(p.read), Close(p.write)], unopenable);
    PipeTailTruncatesNothing(p.read, StdIn, p, unopenable);
    var t0 := WithPipe(t, p);
    var tail := [Dup2(p.read, StdIn), Close(p.read), Close(p.write)];
    RedirectOutEffect(t0, cmd.output, fdOut, unopenable);
    RunAppend(t0, RedirectOut(cmd.output, fdOut), tail, unopenable);
    if !Fails(cmd.output, unopenable) {
      var t1: FdTable := if cmd.output.Some? then t0[StdOut := OutFile(cmd.output.value)] else t0;
      DupThenCloseBoth(t1, p, p.read, StdIn, unopenable);
      assert t1[StdIn := PipeRead] - {p.read} - {p.write} == Expected(t, Plan(cmd).reader);
    }
  }

  /** The parent closes both pipe ends before waiting: its table is again
      exactly the one it had before `pipe`. */
  lemma ParentRestored(t: FdTable, p: PipeFds, unopenable: set<string>)
    requires p.read != p.write && p.read !in t && p.write !in t
    ensures Run(WithPipe(t, p), ParentOps(p), unopenable) == Some(t)
  {
    RunCons(WithPipe(t, p), Close(p.read), [Close(p.write)], unopenable);
    RunSingle(WithPipe(t, p) - {p.read}, Close(p.write), unopenable);
    assert WithPipe(t, p) - {p.read} - {p.write} == t;
  }

  /** The single command's child runs `execvp` with both files bound as planned,
      the redirection descriptors closed, and nothing else changed. A failing
      input open ends it before the output file is opened, so that file is then
      neither created nor truncated. */
  lemma SoleWiring(t: FdTable, cmd: Command, fdIn: nat, fdOut: nat, unopenable: set<string>)
    requires cmd.piped.None?
    requires StdIn in t && StdOut in t
    requires fdIn !in t && fdOut !in t
    ensures Run(t, SoleOps(cmd.input, cmd.output, fdIn, fdOut), unopenable) ==
            if Fails(cmd.input, unopenable) || Fails(cmd.output, unopenable) then None
            else Some(Expected(t, Plan(cmd).stage))
    ensures Truncated(SoleOps(cmd.input, cmd.output, fdIn, fdOut), unopenable) ==
            if Fails(cmd.input, unopenable) || Fails(cmd.output, unopenable) || cmd.output.None? then {}
            else {cmd.output.value}
  {
    TruncatedAfterIn(cmd.input, fdIn, RedirectOut(cmd.output, fdOut), unopenable);
    TruncatedAfterOut(cmd.output, fdOut, [], unopenable);
    assert RedirectOut(cmd.output, fdOut) + [] == RedirectOut(cmd.output, fdOut);
    RedirectInEffect(t, cmd.input, fdIn, unopenable);
    RunAppend(t, RedirectIn(cmd.input, fdIn), RedirectOut(cmd.output, fdOut), unopenable);
    if !Fails(cmd.input, unopenable) {
      var t1: FdTable := if cmd.input.Some? then t[StdIn := InFile(cmd.input.value)] else t;
      assert fdOut !in t1;
      RedirectOutEffect(t1, cmd.output, fdOut, unopenable);
      var t2: FdTable := if cmd.output.Some? then t1[StdOut := OutFile(cmd.output.value)] else t1;
      assert Plan(cmd).stage.stdin == if cmd.input.Some? then ReadFile(cmd.input.value) else Inherited;
      assert t2 == Expected(t, Plan(cmd).stage);
    }
  }

  predicate HoldsWriteEnd(t: FdTable)
  {
    exists fd :: fd in t && t[fd] == PipeWrite
  }

  /** Why the closes matter: if the shell held no pipe before, then once the
      parent has closed its ends and the reader has started, the writer's
      standard output is the only descriptor on the write end, so the reader
      sees end-of-file when the writer exits. */
  lemma OnlyWriterHoldsWriteEnd(t: FdTable, cmd: Command, p: PipeFds, fdIn: nat, fdOut: nat, unopenable: set<string>)
    requires cmd.piped.Some?
    requires FreshFds(t, p, fdIn, fdOut)
    requires !HoldsWriteEnd(t)
    ensures forall r :: Run(WithPipe(t, p), ReaderOps(cmd.output, p, fdOut), unopenable) == Some(r) ==> !HoldsWriteEnd(r)
    ensures forall r :: Run(WithPipe(t, p), ParentOps(p), unopenable) == Some(r) ==> !HoldsWriteEnd(r)
    ensures forall r :: Run(WithPipe(t, p), WriterOps(cmd.input, p, fdIn), unopenable) == Some(r) ==>
              forall fd :: fd in r && r[fd] == PipeWrite ==> fd == StdOut
  {
    ReaderWiring(t, cmd, p, fdIn, fdOut, unopenable);
    WriterWiring(t, cmd, p, fdIn, fdOut, unopenable);
    ParentRestored(t, p, unopenable);
    if !Fails(cmd.output, unopenable) {
      var r := Expected(t, Plan(cmd).reader);
      forall fd | fd in r
        ensures r[fd] != PipeWrite
      {
        if fd != StdIn && fd != StdOut {
          assert r[fd] == t[fd];
        }
      }
    }
  }

  /** With standard output closed in the shell, `open` hands back descriptor 1
      itself: the `dup2` onto it changes nothing and the `close` after it leaves
      the child with no standard output at all. */
  lemma OutputOntoClosedStdOut(t: FdTable, path: string, unopenable: set<string>)
    requires StdOut !in t && path !in unopenable
    ensures Run(t, RedirectOut(Some(path), StdOut), unopenable) == Some(t)
  {
    var c := OutFile(path);
    RunCons(t, OpenWrite(StdOut, path), [Dup2(StdOut, StdOut), Close(StdOut)], unopenable);
    RunCons(t[StdOut := c], Dup2(StdOut, StdOut), [Close(StdOut)], unopenable);
    RunSingle(t[StdOut := c][StdOut := c], Close(StdOut), unopenable);
    assert t[StdOut := c][StdOut := c] - {StdOut} == t;
  }

  /** Likewise, when `pipe` hands back descriptor 1 as the read end, the writer's
      `close(pipefd[0])` closes the standard output it has just bound to the
      write end: the writer runs with no standard output. */
  lemma WriterOnClosedStdOut(t: FdTable, p: PipeFds, fdIn: nat, unopenable: set<string>)
    requires StdOut !in t && p.read == StdOut && p.write !in t && p.write != StdOut
    ensures Run(WithPipe(t, p), WriterOps(None, p, fdIn), unopenable) == Some(t)
  {
    var t0 := WithPipe(t, p);
    var t1 := t0[StdOut := PipeWrite];
    assert WriterOps(None, p, fdIn) == [Dup2(p.write, StdOut), Close(p.read), Close(p.write)];
    RunCons(t0, Dup2(p.write, StdOut), [Close(p.read), Close(p.write)], unopenable);
    RunCons(t1, Close(p.read), [Close(p.write)], unopenable);
    RunSingle(t1 - {p.read}, Close(p.write), unopenable);
    assert t1 - {p.read} - {p.write} == t;
  }
}
