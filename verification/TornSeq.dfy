/** The torn-seq fault: of one run of writes between two fsyncs, only the listed ones reach the disk,
    and then the process is killed. */
module TornSeq {
  import opened Posix
  import opened Slots

  datatype WriteCall = WriteCall(buf: Image, offset: nat)

  /** What the fault sees of one file. */
  datatype Event = Wrote(call: WriteCall) | Synced

  /* ---------------------------------------------------------------- the trace, cut in runs */

  /** The runs of writes between fsyncs; the last one is still going on. */
  ghost function RunsOf(trace: seq<Event>): (r: seq<seq<WriteCall>>)
    ensures |r| > 0
  {
    if trace == [] then [[]] else
      var before, e := RunsOf(trace[..|trace| - 1]), trace[|trace| - 1];
      if e.Synced? then before + [[]] else before[..|before| - 1] + [before[|before| - 1] + [e.call]]
  }

  ghost function LongOnes(runs: seq<seq<WriteCall>>): seq<seq<WriteCall>> {
    if runs == [] then [] else
      LongOnes(runs[..|runs| - 1]) + if |runs[|runs| - 1]| >= 2 then [runs[|runs| - 1]] else []
  }

  /** The runs the fault counts. */
  ghost function LongRuns(trace: seq<Event>): seq<seq<WriteCall>> {
    LongOnes(RunsOf(trace))
  }

  /** The run the fault is about, once it has two writes. */
  ghost function Chosen(occurrence: int, trace: seq<Event>): Option<seq<WriteCall>> {
    if 1 <= occurrence <= |LongRuns(trace)| then Some(LongRuns(trace)[occurrence - 1]) else None
  }

  /** The writes of a run whose place in it, counted from 1, is listed. */
  ghost function Listed(persist: seq<int>, run: seq<WriteCall>): seq<WriteCall> {
    if run == [] then [] else
      Listed(persist, run[..|run| - 1]) + if |run| in persist then [run[|run| - 1]] else []
  }

  /** The number of writes at which the crash is armed, if it ever is. */
  function ArmsAt(persist: seq<int>): Option<nat> {
    if persist == [] then None
    else if |persist| == 1 && persist[0] == 1 then Some(2)
    else if persist[|persist| - 1] >= 2 then Some(persist[|persist| - 1])
    else None
  }

  /** The part of the run the process lives to see. */
  ghost function Lived(persist: seq<int>, run: seq<WriteCall>): seq<WriteCall> {
    if ArmsAt(persist).Some? && ArmsAt(persist).value < |run| then run[..ArmsAt(persist).value] else run
  }

  /** The writes the fault sends to disk. */
  ghost function Sent(persist: seq<int>, occurrence: int, trace: seq<Event>): seq<WriteCall> {
    match Chosen(occurrence, trace)
    case None => []
    case Some(run) => Listed(persist, Lived(persist, run))
  }

  ghost predicate Armed(persist: seq<int>, occurrence: int, trace: seq<Event>) {
    match Chosen(occurrence, trace)
    case None => false
    case Some(run) => ArmsAt(persist).Some? && ArmsAt(persist).value <= |run|
  }

  ghost function DiskAfter(file: Image, calls: seq<WriteCall>): Image {
    if calls == [] then file else
      Pwrite(DiskAfter(file, calls[..|calls| - 1]), calls[|calls| - 1].buf, calls[|calls| - 1].offset)
  }

  ghost function Current(trace: seq<Event>): seq<WriteCall> {
    RunsOf(trace)[|RunsOf(trace)| - 1]
  }

  /* ---------------------------------------------------------------- one event more */

  lemma RunsAfter(trace: seq<Event>, e: Event)
    ensures var before, after := RunsOf(trace), RunsOf(trace + [e]);
            after == if e.Synced? then before + [[]] else before[..|before| - 1] + [before[|before| - 1] + [e.call]]
  {
    assert (trace + [e])[..|trace|] == trace;
  }

  lemma LongSplit(runs: seq<seq<WriteCall>>)
    requires |runs| > 0
    ensures LongOnes(runs) == LongOnes(runs[..|runs| - 1]) + if |runs[|runs| - 1]| >= 2 then [runs[|runs| - 1]] else []
  {}

  lemma LongAfter(trace: seq<Event>, e: Event)
    ensures var run, before, after := Current(trace), LongRuns(trace), LongRuns(trace + [e]);
            && Current(trace + [e]) == (if e.Synced? then [] else run + [e.call])
            && (|run| >= 2 ==> |before| > 0 && before[|before| - 1] == run)
            && after == (if e.Synced? || |run| == 0 then before
                         else if |run| == 1 then before + [run + [e.call]]
                         else before[..|before| - 1] + [run + [e.call]])
  {
    RunsAfter(trace, e);
    var runs, runs' := RunsOf(trace), RunsOf(trace + [e]);
    LongSplit(runs);
    LongSplit(runs');
    if e.Synced? {
      assert runs'[..|runs'| - 1] == runs;
    } else {
      assert runs'[..|runs'| - 1] == runs[..|runs| - 1];
    }
  }

  lemma ListedMore(persist: seq<int>, run: seq<WriteCall>, w: WriteCall)
    ensures Listed(persist, run + [w]) == Listed(persist, run) + if |run| + 1 in persist then [w] else []
  {
    assert (run + [w])[..|run|] == run;
  }

  lemma DiskAfterMore(file: Image, calls: seq<WriteCall>, w: WriteCall)
    ensures DiskAfter(file, calls + [w]) == Pwrite(DiskAfter(file, calls), w.buf, w.offset)
  {
    assert (calls + [w])[..|calls|] == calls;
  }

  /** The chosen run is the current one exactly when this many long runs have begun. */
  lemma ChosenAfter(occurrence: int, trace: seq<Event>, e: Event)
    ensures var run, long := Current(trace), |LongRuns(trace)|;
            Chosen(occurrence, trace + [e]) ==
              if e.Wrote? && |run| == 1 && occurrence == long + 1 then Some(run + [e.call])
              else if e.Wrote? && |run| >= 2 && occurrence == long && long > 0 then Some(run + [e.call])
              else Chosen(occurrence, trace)
    ensures |Current(trace)| >= 2 && occurrence == |LongRuns(trace)| > 0 ==> Chosen(occurrence, trace) == Some(Current(trace))
    ensures occurrence > |LongRuns(trace)| ==> Chosen(occurrence, trace) == None
  {
    LongAfter(trace, e);
  }

  /** Once armed, nothing that could come later changes what was sent: the process is gone. */
  lemma ArmedForGood(persist: seq<int>, occurrence: int, trace: seq<Event>, e: Event)
    requires Armed(persist, occurrence, trace)
    ensures Armed(persist, occurrence, trace + [e]) && Sent(persist, occurrence, trace + [e]) == Sent(persist, occurrence, trace)
  {
    ChosenAfter(occurrence, trace, e);
    var n, run := ArmsAt(persist).value, Chosen(occurrence, trace).value;
    var run' := Chosen(occurrence, trace + [e]).value;
    assert run'[..n] == run[..n];
    assert run[..|run|] == run && run'[..|run'|] == run';
  }

  lemma {:induction false} ArmedStays(persist: seq<int>, occurrence: int, trace: seq<Event>, more: seq<Event>)
    requires Armed(persist, occurrence, trace)
    ensures Armed(persist, occurrence, trace + more) && Sent(persist, occurrence, trace + more) == Sent(persist, occurrence, trace)
  {
    hide Armed, Sent;
    if more == [] {
      assert trace + more == trace;
    } else {
      var init, e := more[..|more| - 1], more[|more| - 1];
      ArmedStays(persist, occurrence, trace, init);
      ArmedForGood(persist, occurrence, trace + init, e);
      assert trace + more == trace + init + [e];
    }
  }

  /** A write that makes the current run the chosen one, or makes the chosen run longer. */
  lemma SentMore(persist: seq<int>, occurrence: int, trace: seq<Event>, w: WriteCall)
    requires !Armed(persist, occurrence, trace) && |Current(trace)| >= 2 && Chosen(occurrence, trace) == Some(Current(trace))
    requires Chosen(occurrence, trace + [Wrote(w)]) == Some(Current(trace) + [w])
    ensures var n := |Current(trace)| + 1;
            && Sent(persist, occurrence, trace + [Wrote(w)]) == Sent(persist, occurrence, trace) + (if n in persist then [w] else [])
            && (Armed(persist, occurrence, trace + [Wrote(w)]) <==> ArmsAt(persist) == Some(n))
  {
    hide ArmsAt, Listed, Chosen, Current;
    var run := Current(trace);
    ListedMore(persist, run, w);
    assert Lived(persist, run) == run && Lived(persist, run + [w]) == run + [w];
  }

  lemma SentFirst(persist: seq<int>, occurrence: int, trace: seq<Event>, v: WriteCall, w: WriteCall)
    requires Chosen(occurrence, trace) == None && Chosen(occurrence, trace + [Wrote(w)]) == Some([v, w])
    ensures Sent(persist, occurrence, trace + [Wrote(w)]) ==
              Sent(persist, occurrence, trace) + (if 1 in persist then [v] else []) + (if 2 in persist then [w] else [])
    ensures Armed(persist, occurrence, trace + [Wrote(w)]) <==> ArmsAt(persist) == Some(2)
  {
    hide ArmsAt, Listed, Chosen;
    ListedNone(persist);
    ListedMore(persist, [], v);
    ListedMore(persist, [v], w);
    ArmsLate(persist);
    assert [] + [v] == [v] && [v] + [w] == [v, w];
    assert Lived(persist, [v, w]) == [v, w];
  }

  /** What one more write adds to what is sent, and when it arms the crash. */
  lemma SentAfterWrite(persist: seq<int>, occurrence: int, trace: seq<Event>, w: WriteCall)
    requires !Armed(persist, occurrence, trace)
    ensures var run, trace' := Current(trace), trace + [Wrote(w)];
            var n := |run| + 1;
            var g := if n == 2 then |LongRuns(trace)| + 1 else |LongRuns(trace)|;
            if n >= 2 && g == occurrence
            then Sent(persist, occurrence, trace') == Sent(persist, occurrence, trace)
                   + (if n == 2 && 1 in persist then [run[0]] else []) + (if n in persist then [w] else [])
                 && (Armed(persist, occurrence, trace') <==> ArmsAt(persist) == Some(n))
            else Sent(persist, occurrence, trace') == Sent(persist, occurrence, trace) && !Armed(persist, occurrence, trace')
  {
    hide ArmsAt, Lived, Listed, Chosen, LongRuns, Current;
    var run := Current(trace);
    LongAfter(trace, Wrote(w));
    ChosenAfter(occurrence, trace, Wrote(w));
    if |run| == 1 && occurrence == |LongRuns(trace)| + 1 {
      assert run + [w] == [run[0], w];
      SentFirst(persist, occurrence, trace, run[0], w);
    } else if |run| >= 2 && occurrence == |LongRuns(trace)| {
      SentMore(persist, occurrence, trace, w);
    }
  }

  lemma SentAfterSync(persist: seq<int>, occurrence: int, trace: seq<Event>)
    ensures Sent(persist, occurrence, trace + [Synced]) == Sent(persist, occurrence, trace)
    ensures Armed(persist, occurrence, trace + [Synced]) <==> Armed(persist, occurrence, trace)
  {
    hide ArmsAt, Lived, Listed, Chosen, LongRuns, Current;
    ChosenAfter(occurrence, trace, Synced);
  }

  lemma ListedNone(persist: seq<int>)
    ensures Listed(persist, []) == []
  {}

  lemma ArmsLate(persist: seq<int>)
    ensures ArmsAt(persist).Some? ==> ArmsAt(persist).value >= 2
  {}

  /* ---------------------------------------------------------------- the fault itself */

  /** What the fault remembers after a trace, while it is not armed. */
  ghost predicate Remembers(persist: seq<int>, trace: seq<Event>, counter: nat, groupCounter: nat, pending: Option<WriteCall>) {
    && counter == |Current(trace)| && groupCounter == |LongRuns(trace)|
    && pending == if counter == 1 && 1 in persist then Some(Current(trace)[0]) else None
  }

  /** One torn-seq fault and its file on disk. `armed`: the process dies when the current write returns. */
  class ReorderFault {
    const persist: seq<int>
    const occurrence: int
    var counter: nat
    var groupCounter: nat
    var pending: Option<WriteCall>
    var armed: bool
    var file: Image

    // What has happened, what was sent, and the file before.
    ghost var trace: seq<Event>
    ghost var sent: seq<WriteCall>
    ghost const before: Image

    ghost predicate Valid()
      reads this
    {
      && sent == Sent(persist, occurrence, trace) && armed == Armed(persist, occurrence, trace)
      && file == DiskAfter(before, sent)
      && (!armed ==> Remembers(persist, trace, counter, groupCounter, pending))
    }

    constructor (persist: seq<int>, occurrence: int, file: Image)
      ensures Valid() && trace == [] && before == file && this.file == file
      ensures this.persist == persist && this.occurrence == occurrence
    {
      this.persist, this.occurrence, this.file, this.before := persist, occurrence, file, file;
      counter, groupCounter, pending, armed := 0, 0, None, false;
      trace, sent := [], [];
    }

    method Send(w: WriteCall)
      modifies this`file, this`sent
      ensures sent == old(sent) + [w] && (old(file) == DiskAfter(before, old(sent)) ==> file == DiskAfter(before, sent))
    {
      DiskAfterMore(before, sent, w);
      file := Pwrite(file, w.buf, w.offset);
      sent := sent + [w];
    }

    /** persist_write, for a write that the file system will go on to cache. The first write of a run
        is held back until there is a second. The answer says that the crash was armed, but not for
        the list of 1 alone. */
    method PersistWrite(w: WriteCall) returns (crashAdded: bool)
      requires Valid() && !armed
      modifies this
      ensures Valid() && trace == old(trace) + [Wrote(w)]
      ensures crashAdded <==> armed && persist != [1]
    {
      hide Sent, Armed, Current, LongRuns, DiskAfter;
      crashAdded := false;
      LongAfter(trace, Wrote(w));
      SentAfterWrite(persist, occurrence, trace, w);
      trace := trace + [Wrote(w)];
      counter := counter + 1;
      if counter == 2 {
        groupCounter := groupCounter + 1;
      }
      if pending.Some? {
        if groupCounter == occurrence {
          Send(pending.value);
          if |persist| == 1 {
            armed := true;
            return;
          }
        }
        pending := None;
      }
      if counter in persist {
        if counter == 1 {
          pending := Some(w);
        } else if groupCounter == occurrence {
          Send(w);
          if persist[|persist| - 1] == counter {
            armed, crashAdded := true, true;
          }
        }
      }
    }

    /** What fsync does to the fault: a new run begins. */
    method RestartCounter()
      requires Valid() && !armed
      modifies this
      ensures Valid() && trace == old(trace) + [Synced] && !armed && file == old(file)
    {
      hide Sent, Armed, Current, LongRuns, DiskAfter;
      LongAfter(trace, Synced);
      SentAfterSync(persist, occurrence, trace);
      trace := trace + [Synced];
      counter := 0;
      pending := None;
    }

    /** Any trace of writes and fsyncs, until the process dies. */
    method Feed(events: seq<Event>)
      requires Valid() && trace == [] && !armed
      modifies this
      ensures sent == Sent(persist, occurrence, events) && file == DiskAfter(before, sent)
      ensures armed == Armed(persist, occurrence, events)
    {
      hide Sent, Armed, DiskAfter, Remembers;
      var k := 0;
      while k < |events| && !armed
        invariant 0 <= k <= |events| && Valid() && trace == events[..k]
        decreases |events| - k
      {
        ghost var e := events[k];
        match events[k] {
          case Wrote(w) => var _ := PersistWrite(w);
          case Synced => RestartCounter();
        }
        k := k + 1;
        assert events[..k] == events[..k - 1] + [e];
      }
      if armed {
        ArmedStays(persist, occurrence, events[..k], events[k..]);
        assert events[..k] + events[k..] == events;
      } else {
        assert events[..k] == events;
      }
    }
  }

  /* ---------------------------------------------------------------- strictly increasing lists */

  predicate Increasing(persist: seq<int>) {
    (forall j, k | 0 <= j < k < |persist| :: persist[j] < persist[k]) && forall j | 0 <= j < |persist| :: persist[j] >= 1
  }

  /** How many of the listed places a run of `n` writes has. */
  function Reached(persist: seq<int>, n: nat): (r: nat)
    ensures r <= |persist|
  {
    if persist == [] then 0
    else if persist[|persist| - 1] <= n then |persist|
    else Reached(persist[..|persist| - 1], n)
  }

  lemma {:induction false} ReachedSplits(persist: seq<int>, n: nat)
    requires Increasing(persist)
    ensures forall j | 0 <= j < |persist| :: persist[j] <= n <==> j < Reached(persist, n)
  {
    if persist != [] && persist[|persist| - 1] > n {
      ReachedSplits(persist[..|persist| - 1], n);
    }
  }

  /** The listed writes, as far as the run goes, in the order of the list. */
  ghost function InListOrder(persist: seq<int>, run: seq<WriteCall>): seq<WriteCall>
    requires Increasing(persist)
  {
    ReachedSplits(persist, |run|);
    seq(Reached(persist, |run|), j requires 0 <= j < Reached(persist, |run|) => run[persist[j] - 1])
  }

  lemma {:induction false} ListedInOrder(persist: seq<int>, run: seq<WriteCall>)
    requires Increasing(persist)
    ensures Listed(persist, run) == InListOrder(persist, run)
  {
    ReachedSplits(persist, |run|);
    if run == [] {
      ReachedIs(persist, 0, 0);
    } else {
      var init, n := run[..|run| - 1], |run|;
      ListedInOrder(persist, init);
      ReachedSplits(persist, n - 1);
      ReachedStep(persist, n);
      assert InListOrder(persist, run) == InListOrder(persist, init) + if n in persist then [run[n - 1]] else [];
    }
  }

  lemma ReachedIs(persist: seq<int>, n: nat, r: nat)
    requires Increasing(persist) && r <= |persist|
    requires (forall j | 0 <= j < r :: persist[j] <= n) && (r < |persist| ==> persist[r] > n)
    ensures Reached(persist, n) == r
  {
    ReachedSplits(persist, n);
    assert Reached(persist, n) < |persist| ==> persist[Reached(persist, n)] > n;
  }

  lemma ReachedStep(persist: seq<int>, n: nat)
    requires Increasing(persist) && n > 0
    ensures Reached(persist, n) == Reached(persist, n - 1) + if n in persist then 1 else 0
    ensures n in persist ==> persist[Reached(persist, n - 1)] == n
  {
    ReachedSplits(persist, n);
    ReachedSplits(persist, n - 1);
    if n in persist {
      var j :| 0 <= j < |persist| && persist[j] == n;
      ReachedIs(persist, n - 1, j);
      ReachedIs(persist, n, j + 1);
    } else {
      ReachedIs(persist, n, Reached(persist, n - 1));
    }
  }

  /** The torn-seq promise: for a strictly increasing list of places, the fault sends exactly the
      writes at those places of the `occurrence`-th run of at least two writes, in order, and the
      crash is armed exactly when that run reaches both its second write and its last listed one. */
  lemma TornSeqPromise(persist: seq<int>, occurrence: int, trace: seq<Event>)
    requires Increasing(persist) && persist != []
    ensures match Chosen(occurrence, trace)
            case None => Sent(persist, occurrence, trace) == [] && !Armed(persist, occurrence, trace)
            case Some(run) =>
              && Sent(persist, occurrence, trace) == InListOrder(persist, run)
              && (Armed(persist, occurrence, trace) <==> |run| >= Max(2, persist[|persist| - 1]))
              && (Armed(persist, occurrence, trace) <==> |Sent(persist, occurrence, trace)| == |persist|)
  {
    match Chosen(occurrence, trace)
    case None =>
    case Some(run) =>
      ChosenLong(occurrence, trace);
      var lived := Lived(persist, run);
      ListedInOrder(persist, lived);
      ReachedSplits(persist, |run|);
      ReachedSplits(persist, |lived|);
      SameReach(persist, |run|, |lived|);
  }

  lemma {:induction false} LongOnesAreLong(runs: seq<seq<WriteCall>>)
    ensures forall k | 0 <= k < |LongOnes(runs)| :: |LongOnes(runs)[k]| >= 2
  {
    if runs != [] { LongOnesAreLong(runs[..|runs| - 1]); }
  }

  lemma ChosenLong(occurrence: int, trace: seq<Event>)
    requires Chosen(occurrence, trace).Some?
    ensures |Chosen(occurrence, trace).value| >= 2
  {
    LongOnesAreLong(RunsOf(trace));
  }

  /** All that is listed comes before the process dies. */
  lemma SameReach(persist: seq<int>, n: nat, m: nat)
    requires Increasing(persist) && persist != [] && m <= n
    requires m == n || m >= persist[|persist| - 1]
    ensures Reached(persist, n) == Reached(persist, m)
  {
    ReachedSplits(persist, n);
    ReachedSplits(persist, m);
  }

  /* ---------------------------------------------------------------- any list */

  /** What is promised of a list in any order, with repetitions: every listed write the run has is
      sent, and the crash is armed once the run has its second write and all the listed ones. */
  ghost predicate Promised(persist: seq<int>, occurrence: int, trace: seq<Event>) {
    match Chosen(occurrence, trace)
    case None => Sent(persist, occurrence, trace) == [] && !Armed(persist, occurrence, trace)
    case Some(run) =>
      && Sent(persist, occurrence, trace) == Listed(persist, run[..Min(|run|, Max(2, Greatest(persist)))])
      && (Armed(persist, occurrence, trace) <==> |run| >= Max(2, Greatest(persist)))
  }

  function Greatest(persist: seq<int>): (r: int)
    ensures forall p | p in persist :: p <= r
    ensures persist != [] ==> r in persist
  {
    if persist == [] then 0
    else if |persist| == 1 then persist[0]
    else assert persist == persist[..|persist| - 1] + [persist[|persist| - 1]]; Max(Greatest(persist[..|persist| - 1]), persist[|persist| - 1])
  }

  function AllWrites(run: seq<WriteCall>): seq<Event> {
    if run == [] then [] else AllWrites(run[..|run| - 1]) + [Wrote(run[|run| - 1])]
  }

  lemma {:induction false} OneRun(run: seq<WriteCall>)
    ensures RunsOf(AllWrites(run)) == [run]
  {
    if run != [] {
      var init := run[..|run| - 1];
      OneRun(init);
      RunsAfter(AllWrites(init), Wrote(run[|run| - 1]));
      assert [init][..0] == [] && init + [run[|run| - 1]] == run;
    }
  }

  lemma OneRunChosen(run: seq<WriteCall>)
    requires |run| >= 2
    ensures Chosen(1, AllWrites(run)) == Some(run)
  {
    OneRun(run);
    LongSplit([run]);
    assert LongOnes([]) == [] && [run][..0] == [];
  }

  /** The promise holds of every trace exactly when the list ends with its greatest place, and that is at
      least 2 unless the list is just 1. The configuration file is sorted on loading, a fault added at run
      time is not; nothing rejects repetitions or the empty list, and loading lets places below 1 through. */
  lemma PromisedExactly(persist: seq<int>)
    ensures (forall occurrence, trace :: Promised(persist, occurrence, trace)) <==>
            (persist != [] && persist[|persist| - 1] == Greatest(persist) && (Greatest(persist) >= 2 || persist == [1]))
  {
    var n := Max(2, Greatest(persist));
    if persist != [] && persist[|persist| - 1] == Greatest(persist) && (Greatest(persist) >= 2 || persist == [1]) {
      assert ArmsAt(persist) == Some(n);
      forall occurrence, trace ensures Promised(persist, occurrence, trace) {
        if Chosen(occurrence, trace).Some? {
          var run := Chosen(occurrence, trace).value;
          assert Lived(persist, run) == run[..Min(|run|, n)];
        }
      }
    } else {
      NotPromised(persist, n);
    }
  }

  lemma NotPromised(persist: seq<int>, n: nat)
    requires n == Max(2, Greatest(persist)) && ArmsAt(persist) != Some(n)
    ensures exists trace :: !Promised(persist, 1, trace)
  {
    var early := if ArmsAt(persist).Some? && 2 <= ArmsAt(persist).value < n then ArmsAt(persist).value else n;
    var run := seq(early, _ => WriteCall([], 0));
    OneRunChosen(run);
    assert !Promised(persist, 1, AllWrites(run));
  }

  /** No trace ever arms the crash exactly when the list is empty, or ends below 2 and is not just 1. */
  lemma NeverArmsExactly(persist: seq<int>)
    ensures (forall occurrence, trace :: !Armed(persist, occurrence, trace)) <==>
            (persist == [] || (persist[|persist| - 1] < 2 && persist != [1]))
  {
    if ArmsAt(persist).Some? {
      ArmsLate(persist);
      var run := seq(ArmsAt(persist).value, _ => WriteCall([], 0));
      OneRunChosen(run);
      assert Armed(persist, 1, AllWrites(run));
    }
  }

  /** The lists 1, 1 and 0 and the empty list never arm it. */
  lemma ListsThatNeverArm(occurrence: int, trace: seq<Event>)
    ensures !Armed([1, 1], occurrence, trace) && !Armed([0], occurrence, trace) && !Armed([], occurrence, trace)
  {
    NeverArmsExactly([1, 1]);
    NeverArmsExactly([0]);
    NeverArmsExactly([]);
  }

  lemma ListedThree(persist: seq<int>, v: WriteCall, w: WriteCall, x: WriteCall)
    ensures Listed(persist, [v, w]) == (if 1 in persist then [v] else []) + (if 2 in persist then [w] else [])
    ensures Listed(persist, [v, w, x]) == Listed(persist, [v, w]) + (if 3 in persist then [x] else [])
  {
    ListedNone(persist);
    ListedMore(persist, [], v);
    ListedMore(persist, [v], w);
    ListedMore(persist, [v, w], x);
    assert [] + [v] == [v] && [v] + [w] == [v, w] && [v, w] + [x] == [v, w, x];
  }

  /** With the list 3, 2 the crash comes at the second write, and the third is never sent. */
  lemma UnsortedLoses(v: WriteCall, w: WriteCall, x: WriteCall)
    ensures Chosen(1, AllWrites([v, w, x])) == Some([v, w, x])
    ensures Sent([3, 2], 1, AllWrites([v, w, x])) == [w] && Listed([3, 2], [v, w, x]) == [w, x]
  {
    hide Listed, Chosen, AllWrites;
    OneRunChosen([v, w, x]);
    ListedThree([3, 2], v, w, x);
    assert [v, w, x][..2] == [v, w];
  }
}
