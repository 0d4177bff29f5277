/** The bound that assignments/hw4/triangles-sem.c needs on its workers is exact: with more of them some
    interleaving claims an index behind the array and reads there. */
module TrianglesBound {
  import opened TrianglesSem

  /** Some worker is about to read vList at an index behind its end. */
  ghost predicate OverReads(s: State)
  {
    exists x :: 0 <= x < |s.workers| && ReadsBehind(s, s.workers[x])
  }

  predicate ReadsBehind(s: State, p: Worker)
  {
    p.AtScan? && p.j < p.index && p.k < p.index && p.index >= |s.vList|
  }

  ghost predicate OverReadingRun(input: seq<int>, w: nat, run: seq<State>)
  {
    IsRun(input, w, run) && OverReads(run[|run| - 1])
  }

  ghost predicate CanOverRead(input: seq<int>, w: nat)
  {
    exists run :: OverReadingRun(input, w, run)
  }

  // ----- building runs -----

  function Last(run: seq<State>): State
    requires run != []
  {
    run[|run| - 1]
  }

  lemma ByMain(input: seq<int>, w: nat, run: seq<State>) returns (more: seq<State>)
    requires IsRun(input, w, run) && MainStep(input, w, Last(run)).Some?
    ensures IsRun(input, w, more) && more != [] && Last(more) == MainStep(input, w, Last(run)).value
  {
    hide MainStep, WorkerStep;
    more := run + [MainStep(input, w, Last(run)).value];
    assert Next(input, w, Last(run), Last(more));
  }

  lemma ByWorker(input: seq<int>, w: nat, run: seq<State>, x: nat) returns (more: seq<State>)
    requires IsRun(input, w, run) && x < |Last(run).workers| && WorkerStep(Last(run), x).Some?
    ensures IsRun(input, w, more) && more != [] && Last(more) == WorkerStep(Last(run), x).value
  {
    hide MainStep, WorkerStep;
    more := run + [WorkerStep(Last(run), x).value];
    assert Next(input, w, Last(run), Last(more));
  }

  // ----- main reads the input and posts -----

  /** Nobody holds anything, and c indices are claimed. */
  ghost predicate Quiet(w: nat, s: State, c: nat)
  {
    && |s.workers| == w && |s.vList| == MAX_VALUES && s.nextWorkIndex == c && s.workMutex == s.countMutex == 1
  }

  ghost predicate AllWaiting(s: State)
  {
    forall x | 0 <= x < |s.workers| :: s.workers[x] == AtWait
  }

  lemma {:induction false} Create(input: seq<int>, w: nat, i: nat) returns (run: seq<State>)
    requires i <= w
    ensures IsRun(input, w, run) && run != []
    ensures var s := Last(run);
      && Quiet(w, s, 0) && s.main == Creating(i) && s.vCount == s.workAvailable == 0
      && forall x | 0 <= x < i :: s.workers[x] == AtWait
  {
    if i == 0 {
      run := [Init(w)];
    } else {
      run := Create(input, w, i - 1);
      run := ByMain(input, w, run);
    }
  }

  lemma {:induction false} Read(input: seq<int>, w: nat, n: nat) returns (run: seq<State>)
    requires n <= |input| <= MAX_VALUES
    ensures IsRun(input, w, run) && run != []
    ensures var s := Last(run);
      Quiet(w, s, 0) && AllWaiting(s) && s.main == Reading && s.vCount == n && s.workAvailable == 0
  {
    hide IsRun;
    if n == 0 {
      run := Create(input, w, w);
    } else {
      run := Read(input, w, n - 1);
    }
    run := ByMain(input, w, run);
  }

  lemma {:induction false} Post(input: seq<int>, w: nat, i: nat) returns (run: seq<State>)
    requires i <= w && |input| <= MAX_VALUES
    ensures IsRun(input, w, run) && run != []
    ensures var s := Last(run);
      Quiet(w, s, 0) && AllWaiting(s) && s.main == Posting(i) && s.vCount == |input| && s.workAvailable == i
  {
    hide IsRun;
    if i == 0 {
      run := Read(input, w, |input|);
    } else {
      run := Post(input, w, i - 1);
    }
    run := ByMain(input, w, run);
  }

  // ----- one worker does all but one of the indices -----

  predicate Working(p: Worker)
  {
    p.AtScan? || p.AtCountLock? || p.AtCountRead? || p.AtCountWrite? || p.AtCountUnlock? || p.AtPost?
  }

  predicate Counting(p: Worker)
  {
    p.AtCountRead? || p.AtCountWrite? || p.AtCountUnlock?
  }

  /** The worker can finish what it is at, alone. */
  ghost predicate CanFinish(s: State, x: nat)
  {
    && x < |s.workers| && Working(s.workers[x]) && WorkerInv(s, s.workers[x])
    && s.countMutex == (if Counting(s.workers[x]) then 0 else 1)
    && s.nextWorkIndex <= |s.vList|
  }

  ghost predicate Finished(s: State, x: nat, s': State)
    requires x < |s.workers|
  {
    && s'.vList == s.vList && s'.vCount == s.vCount && s'.nextWorkIndex == s.nextWorkIndex
    && s'.workMutex == s.workMutex && s'.countMutex == 1 && s'.main == s.main
    && s'.workAvailable == s.workAvailable + 1 && s'.workers == s.workers[x := AtWait]
  }

  lemma FinishStep(s: State, x: nat)
    requires CanFinish(s, x)
    ensures WorkerStep(s, x).Some?
    ensures var s' := WorkerStep(s, x).value;
      if s.workers[x].AtPost? then Finished(s, x, s')
      else CanFinish(s', x) && Rank(s'.workers[x]) < Rank(s.workers[x]) &&
           forall s'' | Finished(s', x, s'') :: Finished(s, x, s'')
  {
    var s' := WorkerStep(s, x).value;
    RankDrops(s, x, s');
    OwnKept(s, x, s');
    StepAlone(s, x);
    hide WorkerStep, WorkerInv, Rank;
  }

  lemma StepAlone(s: State, x: nat)
    requires CanFinish(s, x)
    ensures WorkerStep(s, x).Some?
    ensures var s' := WorkerStep(s, x).value;
      && s'.vList == s.vList && s'.vCount == s.vCount && s'.nextWorkIndex == s.nextWorkIndex
      && s'.workMutex == s.workMutex && s'.main == s.main && |s'.workers| == |s.workers|
      && s'.workers == s.workers[x := s'.workers[x]]
      && s'.workAvailable == s.workAvailable + (if s.workers[x].AtPost? then 1 else 0)
      && (if s.workers[x].AtPost? then s'.workers[x] == AtWait else Working(s'.workers[x]))
      && s'.countMutex == (if Counting(s'.workers[x]) then 0 else 1)
  {
  }

  lemma {:induction false} Finish(input: seq<int>, w: nat, run: seq<State>, x: nat) returns (more: seq<State>)
    requires IsRun(input, w, run) && run != [] && CanFinish(Last(run), x)
    ensures IsRun(input, w, more) && more != [] && Finished(Last(run), x, Last(more))
    decreases Rank(Last(run).workers[x])
  {
    hide IsRun, CanFinish, Finished, Rank, WorkerStep;
    assert x < |Last(run).workers| by { Present(Last(run), x); }
    FinishStep(Last(run), x);
    more := ByWorker(input, w, run, x);
    if !Last(run).workers[x].AtPost? {
      more := Finish(input, w, more, x);
    }
  }

  lemma Present(s: State, x: nat)
    requires CanFinish(s, x)
    ensures x < |s.workers|
  {
  }

  /** Main has posted, all workers wait, and c indices are done. */
  ghost predicate Calm(input: seq<int>, w: nat, s: State, c: nat)
  {
    Quiet(w, s, c) && AllWaiting(s) && s.vCount == |input| && s.workAvailable == w
  }

  lemma Round(input: seq<int>, w: nat, run: seq<State>, c: nat) returns (more: seq<State>)
    requires IsRun(input, w, run) && run != [] && Calm(input, w, Last(run), c)
    requires w >= 1 && c < |input| <= MAX_VALUES
    ensures IsRun(input, w, more) && more != [] && Calm(input, w, Last(more), c + 1)
  {
    hide IsRun;
    more := ByWorker(input, w, run, 0);
    more := ByWorker(input, w, more, 0);
    more := ByWorker(input, w, more, 0);
    more := ByWorker(input, w, more, 0);
    more := ByWorker(input, w, more, 0);
    more := ByWorker(input, w, more, 0);
    assert Last(more).workers == Last(run).workers[0 := AtScan(c, 0, 1)];
    more := Finish(input, w, more, 0);
  }

  lemma {:induction false} Rounds(input: seq<int>, w: nat, c: nat) returns (run: seq<State>)
    requires w >= 1 && c < |input| <= MAX_VALUES
    ensures IsRun(input, w, run) && run != [] && Calm(input, w, Last(run), c)
  {
    hide IsRun;
    if c == 0 {
      run := Post(input, w, w);
    } else {
      run := Rounds(input, w, c - 1);
      run := Round(input, w, run, c - 1);
    }
  }

  // ----- the others pass the test together and claim one by one -----

  /** With one index left the first i workers have passed the test. */
  ghost predicate Passed(input: seq<int>, w: nat, s: State, i: nat)
    requires |input| >= 1
  {
    && Quiet(w, s, |input| - 1) && s.vCount == |input| && s.workAvailable == w - i
    && forall x | 0 <= x < w :: s.workers[x] == if x < i then AtLock else AtWait
  }

  lemma {:induction false} Pass(input: seq<int>, w: nat, i: nat) returns (run: seq<State>)
    requires 1 <= w && i <= w && 1 <= |input| <= MAX_VALUES
    ensures IsRun(input, w, run) && run != [] && Passed(input, w, Last(run), i)
  {
    hide IsRun;
    if i == 0 {
      run := Rounds(input, w, |input| - 1);
    } else {
      run := Pass(input, w, i - 1);
      run := ByWorker(input, w, run, i - 1);
      run := ByWorker(input, w, run, i - 1);
    }
  }

  /** Of m workers that passed the first i have claimed an index each. */
  ghost predicate Claimed(input: seq<int>, w: nat, s: State, m: nat, i: nat)
    requires |input| >= 1
  {
    && Quiet(w, s, |input| - 1 + i)
    && forall x | 0 <= x < w :: s.workers[x] ==
         if x < i then AtScan(|input| - 1 + x, 0, 1) else if x < m then AtLock else AtWait
  }

  lemma {:induction false} Claim(input: seq<int>, w: nat, m: nat, i: nat) returns (run: seq<State>)
    requires 1 <= w && i <= m <= w && 1 <= |input| <= MAX_VALUES
    ensures IsRun(input, w, run) && run != [] && Claimed(input, w, Last(run), m, i)
  {
    hide IsRun;
    if i == 0 {
      run := Pass(input, w, m);
    } else {
      run := Claim(input, w, m, i - 1);
      run := ByWorker(input, w, run, i - 1);
      run := ByWorker(input, w, run, i - 1);
      run := ByWorker(input, w, run, i - 1);
      run := ByWorker(input, w, run, i - 1);
    }
  }

  /** For an input that fits and is not empty, some interleaving reads behind the array if and only if
      there are too many workers for the room that is left. */
  lemma OverReadIffCrowded(input: seq<int>, w: nat)
    requires w >= 1 && 1 <= |input| <= MAX_VALUES
    ensures CanOverRead(input, w) <==> |input| + w - 1 > MAX_VALUES
  {
    if |input| + w - 1 > MAX_VALUES {
      var m := MAX_VALUES - |input| + 2;
      var run := Claim(input, w, m, m);
      assert ReadsBehind(Last(run), Last(run).workers[m - 1]);
      assert OverReadingRun(input, w, run);
    } else if CanOverRead(input, w) {
      var run :| OverReadingRun(input, w, run);
      var s := Last(run);
      RunKeeps(input, w, run, |run| - 1);
      var x :| 0 <= x < |s.workers| && ReadsBehind(s, s.workers[x]);
      MainShape(input, w, s);
      ScanInRange(input, w, s, x);
    }
  }
}
