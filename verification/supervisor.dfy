/** The supervision loop of `perform`: while the child process is alive, drain
    the buffer its output goes to, print what was drained to the build log,
    then kill the child if the kill pattern occurs in that chunk or if the
    time allowed has run out. The process, the regular-expression engine and
    the clock are inputs: a `Run` says how many times the loop body runs and
    what the child writes and when, and `find` is the engine's `find()` for
    the compiled kill pattern. */
module Supervisor {
  import opened Wrappers
  import opened Text

  /** One pass of the loop body. `written` is what the child wrote since the
      last reset, up to `baos.toString()`; `racing` is what it wrote between
      `toString()` and `reset()`; `elapsedMs` is
      `System.currentTimeMillis() - startTime` at the timeout test. */
  datatype Tick = Tick(written: string, racing: string, elapsedMs: int)

  /** A child process as the loop sees it: one tick for each time
      `child.isAlive()` held; what it wrote after the last reset and before
      the final `baos.toString()` (`tail`); what still reached the stream
      after that read, before `child.join()` (`late`); and the value
      `child.join()` returns. */
  datatype Run = Run(ticks: seq<Tick>, tail: string, late: string, exitCode: int)

  /** The builder's settings the loop reads: the kill pattern and the time
      limit as configured, and the limit in seconds as parsed. */
  datatype Watch = Watch(regexToKill: Option<string>, timeAllocated: Option<string>, timeAllowed: int)

  /** The three branches at the end of the loop body. */
  datatype Action = KillOnMatch | KillOnTimeout | Sleep

  /** What reaches the build log: `print(s)` or `println(s)`. */
  datatype Entry = Text(text: string) | Line(text: string)

  /** Java's `ms / 1000` on a `long`: the quotient is truncated toward zero,
      so the elapsed time may be negative when the clock goes back. */
  function Seconds(ms: int): (r: int)
    ensures ms >= 0 ==> r * 1000 <= ms < r * 1000 + 1000
    ensures ms < 0 ==> r * 1000 - 1000 < ms <= r * 1000
  {
    if ms >= 0 then ms / 1000 else -((-ms) / 1000)
  }

  /** Java's string conversion of a reference that may be null. */
  function JavaString(s: Option<string>): string {
    match s
    case Some(v) => v
    case None => "null"
  }

  /** The kill pattern is set and not empty. */
  predicate Armed(w: Watch) {
    w.regexToKill.Some? && |w.regexToKill.value| > 0
  }

  /** The two kill guards, tried in order. */
  function Decide(w: Watch, find: string -> bool, chunk: string, elapsedMs: int): Action {
    if Armed(w) && find(chunk) then KillOnMatch
    else if w.timeAllowed > 0 && Seconds(elapsedMs) > w.timeAllowed then KillOnTimeout
    else Sleep
  }

  function MatchLine(w: Watch): string {
    "Matched <" + JavaString(w.regexToKill) + "> in output. Terminated"
  }

  function TimeoutLine(w: Watch): string {
    "Timed out <" + JavaString(w.timeAllocated) + ">. Terminated"
  }

  /** What one pass of the loop body adds to the build log. */
  function StepLog(w: Watch, find: string -> bool, t: Tick): seq<Entry> {
    match Decide(w, find, t.written, t.elapsedMs)
    case KillOnMatch => [Text(t.written), Line(MatchLine(w))]
    case KillOnTimeout => [Text(t.written), Line(TimeoutLine(w))]
    case Sleep => [Text(t.written)]
  }

  /** What the loop adds to the build log over the given ticks. */
  function LoopLog(w: Watch, find: string -> bool, ticks: seq<Tick>): seq<Entry>
    decreases |ticks|
  {
    if ticks == [] then []
    else LoopLog(w, find, ticks[..|ticks| - 1]) + StepLog(w, find, ticks[|ticks| - 1])
  }

  /** Everything `perform` prints to the build log: the loop, then the final
      flush. */
  function SessionLog(w: Watch, find: string -> bool, run: Run): seq<Entry> {
    LoopLog(w, find, run.ticks) + [Text(run.tail)]
  }

  /** How many times the loop calls `child.kill()`. */
  function KillsIn(w: Watch, find: string -> bool, ticks: seq<Tick>): nat
    decreases |ticks|
  {
    if ticks == [] then 0
    else
      var last := ticks[|ticks| - 1];
      KillsIn(w, find, ticks[..|ticks| - 1])
        + (if Decide(w, find, last.written, last.elapsedMs) == Sleep then 0 else 1)
  }

  // ---------------------------------------------------------------------------
  // The objects the loop works on

  /** The `ByteArrayOutputStream baos` the child's standard output goes to. */
  class OutputBuffer {
    var data: string

    constructor ()
      ensures data == []
    {
      data := [];
    }

    /** The child writes to the stream. */
    method Write(s: string)
      modifies this
      ensures data == old(data) + s
    {
      data := data + s;
    }

    /** `baos.toString()`. */
    method Snapshot() returns (s: string)
      ensures s == data
    {
      s := data;
    }

    /** `baos.reset()`. */
    method Reset()
      modifies this
      ensures data == []
    {
      data := [];
    }
  }

  /** The build log behind `listener.getLogger()`. */
  class BuildLog {
    var entries: seq<Entry>

    constructor ()
      ensures entries == []
    {
      entries := [];
    }

    method Print(s: string)
      modifies this
      ensures entries == old(entries) + [Text(s)]
    {
      entries := entries + [Text(s)];
    }

    method Println(s: string)
      modifies this
      ensures entries == old(entries) + [Line(s)]
    {
      entries := entries + [Line(s)];
    }
  }

  /** The started child process; of its handle only `kill()` is under the
      loop's control. */
  class Child {
    var kills: nat

    constructor ()
      ensures kills == 0
    {
      kills := 0;
    }

    method Kill()
      modifies this
      ensures kills == old(kills) + 1
    {
      kills := kills + 1;
    }
  }

  /** The polling loop and the final flush of `perform`; the result is
      `child.join() == 0`. */
  method Supervise(w: Watch, find: string -> bool, run: Run, log: BuildLog, child: Child)
    returns (success: bool)
    modifies log, child
    ensures log.entries == old(log.entries) + SessionLog(w, find, run)
    ensures child.kills == old(child.kills) + KillsIn(w, find, run.ticks)
    ensures success <==> run.exitCode == 0
  {
    var baos := new OutputBuffer();
    var i := 0;
    while i < |run.ticks|
      invariant 0 <= i <= |run.ticks|
      invariant baos.data == []
      invariant log.entries == old(log.entries) + LoopLog(w, find, run.ticks[..i])
      invariant child.kills == old(child.kills) + KillsIn(w, find, run.ticks[..i])
    {
      var tick := run.ticks[i];
      baos.Write(tick.written);
      var s := baos.Snapshot();
      baos.Write(tick.racing);
      baos.Reset();
      assert s == tick.written;
      Tend(w, find, s, tick.elapsedMs, log, child);
      assert Tick(s, [], tick.elapsedMs).written == tick.written;
      Assoc(old(log.entries), LoopLog(w, find, run.ticks[..i]), StepLog(w, find, tick));
      LoopStep(w, find, run.ticks, i);
      i := i + 1;
    }
    assert run.ticks[..i] == run.ticks;
    baos.Write(run.tail);
    var rest := baos.Snapshot();
    assert rest == run.tail;
    log.Print(rest);
    // Whatever reaches the stream after the last `toString()` and before
    // the child is joined is never read.
    baos.Write(run.late);
    Assoc(old(log.entries), LoopLog(w, find, run.ticks), [Text(run.tail)]);
    success := run.exitCode == 0;
  }

  /** One pass after the chunk is read: print it, then kill the child on a
      match of the pattern or once the time limit has passed. */
  method Tend(w: Watch, find: string -> bool, chunk: string, elapsedMs: int, log: BuildLog, child: Child)
    modifies log, child
    ensures log.entries == old(log.entries) + StepLog(w, find, Tick(chunk, [], elapsedMs))
    ensures child.kills == old(child.kills) + (if Decide(w, find, chunk, elapsedMs) == Sleep then 0 else 1)
  {
    ghost var before := log.entries;
    log.Print(chunk);
    if w.regexToKill.Some? && |w.regexToKill.value| > 0 && find(chunk) {
      child.Kill();
      log.Println(MatchLine(w));
      AppendTwo(before, Text(chunk), Line(MatchLine(w)));
    } else if w.timeAllowed > 0 && Seconds(elapsedMs) > w.timeAllowed {
      child.Kill();
      log.Println(TimeoutLine(w));
      AppendTwo(before, Text(chunk), Line(TimeoutLine(w)));
    }
  }

  lemma AppendTwo<T>(a: seq<T>, x: T, y: T)
    ensures a + [x] + [y] == a + [x, y]
  {
  }

  /** One more pass of the loop body extends the log and the kill count by
      what that pass does. */
  lemma LoopStep(w: Watch, find: string -> bool, ticks: seq<Tick>, i: nat)
    requires i < |ticks|
    ensures LoopLog(w, find, ticks[..i + 1]) == LoopLog(w, find, ticks[..i]) + StepLog(w, find, ticks[i])
    ensures KillsIn(w, find, ticks[..i + 1]) == KillsIn(w, find, ticks[..i])
      + (if Decide(w, find, ticks[i].written, ticks[i].elapsedMs) == Sleep then 0 else 1)
  {
    assert ticks[..i + 1][..i] == ticks[..i];
  }

  // ---------------------------------------------------------------------------
  // Properties

  /** The kill guards: a match of the pattern wins over the time limit, and
      with the truncating division the time limit fires exactly once a whole
      second more than `timeAllowed` has elapsed. */
  lemma DecideCases(w: Watch, find: string -> bool, chunk: string, elapsedMs: int)
    ensures Decide(w, find, chunk, elapsedMs) == KillOnMatch <==> Armed(w) && find(chunk)
    ensures Decide(w, find, chunk, elapsedMs) == KillOnTimeout <==>
      !(Armed(w) && find(chunk)) && w.timeAllowed > 0 && elapsedMs >= (w.timeAllowed + 1) * 1000
  {
  }

  /** The texts printed to the log, in order. */
  function Chunks(entries: seq<Entry>): seq<string>
    decreases |entries|
  {
    if entries == [] then []
    else
      var last := entries[|entries| - 1];
      Chunks(entries[..|entries| - 1]) + (if last.Text? then [last.text] else [])
  }

  /** How many `println` lines the log holds. */
  function LineCount(entries: seq<Entry>): nat
    decreases |entries|
  {
    if entries == [] then 0
    else LineCount(entries[..|entries| - 1]) + (if entries[|entries| - 1].Line? then 1 else 0)
  }

  /** The chunks `baos.toString()` returned inside the loop. */
  function Written(ticks: seq<Tick>): seq<string>
    decreases |ticks|
  {
    if ticks == [] then [] else Written(ticks[..|ticks| - 1]) + [ticks[|ticks| - 1].written]
  }

  function Concat(ss: seq<string>): string
    decreases |ss|
  {
    if ss == [] then [] else Concat(ss[..|ss| - 1]) + ss[|ss| - 1]
  }

  /** Everything the child wrote to its standard output, in order. */
  function ChildOutput(run: Run): string {
    Emitted(run.ticks) + run.tail + run.late
  }

  function Emitted(ticks: seq<Tick>): string
    decreases |ticks|
  {
    if ticks == [] then []
    else Emitted(ticks[..|ticks| - 1]) + ticks[|ticks| - 1].written + ticks[|ticks| - 1].racing
  }

  /** No write fell between a `toString()` and the `reset()` after it. */
  predicate NoRace(ticks: seq<Tick>) {
    forall i :: 0 <= i < |ticks| ==> ticks[i].racing == []
  }

  lemma {:induction false} ChunksAppend(a: seq<Entry>, b: seq<Entry>)
    ensures Chunks(a + b) == Chunks(a) + Chunks(b)
    ensures LineCount(a + b) == LineCount(a) + LineCount(b)
    decreases |b|
  {
    if b == [] {
      assert a + b == a;
    } else {
      var b' := b[..|b| - 1];
      assert (a + b)[..|a + b| - 1] == a + b';
      assert (a + b)[|a + b| - 1] == b[|b| - 1];
      ChunksAppend(a, b');
    }
  }

  /** Each chunk drained inside the loop is printed to the log exactly once,
      in the order drained, and the final flush comes last. */
  lemma {:induction false} ChunksOfSession(w: Watch, find: string -> bool, run: Run)
    ensures Chunks(SessionLog(w, find, run)) == Written(run.ticks) + [run.tail]
  {
    ChunksOfLoop(w, find, run.ticks);
    ChunksAppend(LoopLog(w, find, run.ticks), [Text(run.tail)]);
    assert Chunks([Text(run.tail)]) == Chunks([]) + [run.tail];
  }

  lemma {:induction false} ChunksOfLoop(w: Watch, find: string -> bool, ticks: seq<Tick>)
    ensures Chunks(LoopLog(w, find, ticks)) == Written(ticks)
    ensures LineCount(LoopLog(w, find, ticks)) == KillsIn(w, find, ticks)
    decreases |ticks|
  {
    if ticks != [] {
      var init := ticks[..|ticks| - 1];
      var t := ticks[|ticks| - 1];
      ChunksOfLoop(w, find, init);
      ChunksAppend(LoopLog(w, find, init), StepLog(w, find, t));
      StepChunks(w, find, t);
    }
  }

  lemma StepChunks(w: Watch, find: string -> bool, t: Tick)
    ensures Chunks(StepLog(w, find, t)) == [t.written]
    ensures LineCount(StepLog(w, find, t)) == if Decide(w, find, t.written, t.elapsedMs) == Sleep then 0 else 1
  {
    var e := StepLog(w, find, t);
    var head := [Text(t.written)];
    assert head[..0] == [];
    assert Chunks(head) == [t.written] && LineCount(head) == 0;
    if |e| == 2 {
      assert e[..1] == head;
    } else {
      assert e == head;
    }
  }

  /** The log and the kills agree: one diagnostic line per `kill()`. */
  lemma LinesAreKills(w: Watch, find: string -> bool, run: Run)
    ensures LineCount(SessionLog(w, find, run)) == KillsIn(w, find, run.ticks)
  {
    ChunksOfLoop(w, find, run.ticks);
    ChunksAppend(LoopLog(w, find, run.ticks), [Text(run.tail)]);
    assert [Text(run.tail)][..0] == [];
  }

  lemma {:induction false} WrittenLength(ticks: seq<Tick>)
    ensures |Emitted(ticks)| >= |Concat(Written(ticks))|
    ensures |Emitted(ticks)| == |Concat(Written(ticks))| ==> NoRace(ticks)
    ensures NoRace(ticks) ==> Emitted(ticks) == Concat(Written(ticks))
    decreases |ticks|
  {
    if ticks != [] {
      var init := ticks[..|ticks| - 1];
      var t := ticks[|ticks| - 1];
      WrittenLength(init);
      var ws := Written(ticks);
      assert ws[..|ws| - 1] == Written(init);
      assert Concat(ws) == Concat(Written(init)) + t.written;
      if NoRace(ticks) {
        assert t.racing == ticks[|ticks| - 1].racing;
      }
      if |Emitted(ticks)| == |Concat(ws)| {
        forall i | 0 <= i < |ticks|
          ensures ticks[i].racing == []
        {
          if i < |ticks| - 1 {
            assert ticks[i] == init[i];
          }
        }
      }
    }
  }

  /** The log holds all of the child's output exactly when no write fell
      between a `baos.toString()` and the `baos.reset()` after it, and
      nothing was written after the final `baos.toString()`; otherwise those
      bytes are lost. */
  lemma LogIsChildOutput(w: Watch, find: string -> bool, run: Run)
    ensures Concat(Chunks(SessionLog(w, find, run))) == ChildOutput(run) <==> NoRace(run.ticks) && run.late == []
  {
    ChunksOfSession(w, find, run);
    var ws := Written(run.ticks) + [run.tail];
    assert ws[..|ws| - 1] == Written(run.ticks);
    assert Concat(ws) == Concat(Written(run.ticks)) + run.tail;
    WrittenLength(run.ticks);
    var printed := Concat(Written(run.ticks)) + run.tail;
    var output := Emitted(run.ticks) + run.tail + run.late;
    if printed == output {
      assert |Emitted(run.ticks)| >= |Concat(Written(run.ticks))|;
      assert |printed| == |output|;
    }
    if NoRace(run.ticks) && run.late == [] {
      assert output == Emitted(run.ticks) + run.tail;
    }
  }

  /** Every `println` in the log directly follows the chunk that was printed
      in the same pass, and a "Matched" line follows a chunk in which the
      pattern was found: the chunk that triggered a kill is in the log. */
  lemma {:induction false} LineFollowsChunk(w: Watch, find: string -> bool, ticks: seq<Tick>)
    ensures forall j :: 0 <= j < |LoopLog(w, find, ticks)| && LoopLog(w, find, ticks)[j].Line? ==>
      0 < j && LoopLog(w, find, ticks)[j - 1].Text?
    ensures forall j :: 0 <= j < |LoopLog(w, find, ticks)| && LoopLog(w, find, ticks)[j] == Line(MatchLine(w)) ==>
      0 < j && LoopLog(w, find, ticks)[j - 1].Text? && Armed(w) && find(LoopLog(w, find, ticks)[j - 1].text)
    decreases |ticks|
  {
    if ticks != [] {
      var init := ticks[..|ticks| - 1];
      var t := ticks[|ticks| - 1];
      var a: seq<Entry> := LoopLog(w, find, init);
      var b: seq<Entry> := StepLog(w, find, t);
      LineFollowsChunk(w, find, init);
      assert LoopLog(w, find, ticks) == a + b;
      assert MatchLine(w)[0] == 'M' && TimeoutLine(w)[0] == 'T';
      forall j: int | 0 <= j < |a + b| && (a + b)[j].Line?
        ensures 0 < j && (a + b)[j - 1].Text?
        ensures (a + b)[j] == Line(MatchLine(w)) ==> Armed(w) && find((a + b)[j - 1].text)
      {
        if j < |a| {
          assert (a + b)[j] == a[j] && (a + b)[j - 1] == a[j - 1];
        } else {
          assert (a + b)[j] == b[j - |a|];
          assert (a + b)[j - 1] == b[j - 1 - |a|];
        }
      }
    }
  }

  /** With no kill pattern and no positive time limit the loop never kills
      and the log holds nothing but the chunks. */
  lemma {:induction false} UnarmedNeverKills(w: Watch, find: string -> bool, ticks: seq<Tick>)
    requires !Armed(w) && w.timeAllowed <= 0
    ensures KillsIn(w, find, ticks) == 0
    ensures LineCount(LoopLog(w, find, ticks)) == 0
    decreases |ticks|
  {
    if ticks != [] {
      UnarmedNeverKills(w, find, ticks[..|ticks| - 1]);
      ChunksOfLoop(w, find, ticks);
    }
  }

  /** Nothing remembers that the child was already killed: as long as it
      stays alive, every chunk in which the pattern is found kills it again. */
  lemma {:induction false} KillsRepeat(w: Watch, find: string -> bool, ticks: seq<Tick>)
    requires Armed(w)
    requires forall i :: 0 <= i < |ticks| ==> find(ticks[i].written)
    ensures KillsIn(w, find, ticks) == |ticks|
    decreases |ticks|
  {
    if ticks != [] {
      var init := ticks[..|ticks| - 1];
      assert forall i :: 0 <= i < |init| ==> init[i] == ticks[i];
      KillsRepeat(w, find, init);
      assert find(ticks[|ticks| - 1].written);
    }
  }
}
