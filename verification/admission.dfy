/** The log's admission rule (begin_op, log_write, end_op, commit in log.c) as a
    state machine over the regions executed under log.lock. */
module Admission {
  import opened Params

  /** `blocks` is lh.block[..lh.n]; `rem` has one entry per outstanding operation,
      the new blocks it may still add. */
  datatype State = State(size: nat, blocks: seq<nat>, rem: seq<nat>, committing: bool)

  datatype Event = Begin | LogWrite(op: nat, b: nat) | End(op: nat) | Committed

  datatype Outcome = To(s: State) | Waits | Panics

  function Init(size: nat): State {
    State(size, [], [], false)
  }

  /** The panic test at the head of log_write. */
  predicate TooBig(s: State) {
    |s.blocks| >= LOGSIZE || |s.blocks| >= s.size - 1
  }

  function Next(s: State, e: Event): Outcome {
    match e
    case Begin =>
      if s.committing || |s.blocks| + (|s.rem| + 1) * MAXOPBLOCKS > LOGSIZE then Waits
      else To(s.(rem := s.rem + [MAXOPBLOCKS]))
    case LogWrite(op, b) =>
      if TooBig(s) || |s.rem| < 1 then Panics
      else if b in s.blocks then To(s)
      else To(s.(blocks := s.blocks + [b],
                 rem := if op < |s.rem| && s.rem[op] > 0 then s.rem[op := s.rem[op] - 1] else s.rem))
    case End(op) =>
      if s.committing || op >= |s.rem| then Panics
      else To(s.(rem := s.rem[..op] + s.rem[op + 1..], committing := |s.rem| == 1))
    case Committed =>
      if s.committing then To(s.(blocks := [], committing := false)) else Waits
  }

  /** Only outstanding operations call log_write and end_op, and an operation
      adds at most MAXOPBLOCKS new blocks. */
  predicate Disciplined(s: State, e: Event) {
    match e
    case LogWrite(op, b) => op < |s.rem| && (b in s.blocks || s.rem[op] > 0)
    case End(op) => op < |s.rem|
    case _ => true
  }

  function Sum(s: seq<nat>): nat {
    if s == [] then 0 else Sum(s[..|s| - 1]) + s[|s| - 1]
  }

  ghost predicate Inv(s: State) {
    && |s.blocks| + Sum(s.rem) <= LOGSIZE
    && (forall i, j :: 0 <= i < j < |s.blocks| ==> s.blocks[i] != s.blocks[j])
    && (forall i :: 0 <= i < |s.rem| ==> s.rem[i] <= MAXOPBLOCKS)
    && (s.committing ==> s.rem == [])
  }

  lemma {:induction false} SumUpdate(s: seq<nat>, i: nat, v: nat)
    requires i < |s|
    ensures Sum(s[i := v]) == Sum(s) - s[i] + v
    decreases |s|
  {
    var n := |s| - 1;
    if i < n {
      assert s[i := v][..n] == s[..n][i := v];
      SumUpdate(s[..n], i, v);
    } else {
      assert s[i := v][..n] == s[..n];
    }
  }

  lemma {:induction false} SumRemove(s: seq<nat>, i: nat)
    requires i < |s|
    ensures Sum(s[..i] + s[i + 1..]) == Sum(s) - s[i] && s[i] <= Sum(s)
    decreases |s|
  {
    var n := |s| - 1;
    var r := s[..i] + s[i + 1..];
    if i < n {
      SumRemove(s[..n], i);
      assert r[..n - 1] == s[..n][..i] + s[..n][i + 1..];
    } else {
      assert r == s[..n];
    }
  }

  lemma {:induction false} SumBound(s: seq<nat>, m: nat)
    requires forall i :: 0 <= i < |s| ==> s[i] <= m
    ensures Sum(s) <= |s| * m
    decreases |s|
  {
    if s != [] {
      SumBound(s[..|s| - 1], m);
    }
  }

  lemma WriteKeepsInv(s: State, op: nat, b: nat)
    requires Inv(s) && op < |s.rem| && s.rem[op] > 0 && b !in s.blocks
    ensures Inv(s.(blocks := s.blocks + [b], rem := s.rem[op := s.rem[op] - 1]))
  {
    SumUpdate(s.rem, op, s.rem[op] - 1);
  }

  lemma BeginKeepsInv(s: State)
    requires Inv(s) && !s.committing && |s.blocks| + (|s.rem| + 1) * MAXOPBLOCKS <= LOGSIZE
    ensures Inv(s.(rem := s.rem + [MAXOPBLOCKS]))
  {
    SumBound(s.rem, MAXOPBLOCKS);
    assert (s.rem + [MAXOPBLOCKS])[..|s.rem|] == s.rem;
  }

  lemma CommittedKeepsInv(s: State)
    requires Inv(s) && s.committing
    ensures Inv(s.(blocks := [], committing := false))
  {
  }

  lemma EndKeepsInv(s: State, op: nat)
    requires Inv(s) && op < |s.rem|
    ensures Inv(s.(rem := s.rem[..op] + s.rem[op + 1..], committing := |s.rem| == 1))
  {
    SumRemove(s.rem, op);
    var r := s.rem[..op] + s.rem[op + 1..];
    assert forall i :: 0 <= i < |r| ==> r[i] == s.rem[if i < op then i else i + 1];
  }

  /** Every step keeps: lh.n plus the outstanding budgets fit in LOGSIZE, the
      recorded numbers are distinct, and a commit has no outstanding operation. */
  lemma StepKeepsInv(s: State, e: Event)
    requires Inv(s) && Disciplined(s, e) && Next(s, e).To?
    ensures Inv(Next(s, e).s)
  {
    hide Inv, Sum;
    match e
    case Begin =>
      BeginKeepsInv(s);
    case LogWrite(op, b) =>
      if b !in s.blocks {
        WriteKeepsInv(s, op, b);
      }
    case End(op) =>
      EndKeepsInv(s, op);
    case Committed =>
      CommittedKeepsInv(s);
  }

  /** With a log of more than LOGSIZE blocks a disciplined step panics in one case
      only: re-logging a recorded block while the log is exactly full.  end_op's
      panic and a block-adding log_write's panic are unreachable. */
  lemma PanicsExactly(s: State, e: Event)
    requires Inv(s) && Disciplined(s, e) && s.size > LOGSIZE
    ensures Next(s, e).Panics? <==> e.LogWrite? && e.b in s.blocks && |s.blocks| == LOGSIZE
  {
    if e.LogWrite? && e.b !in s.blocks {
      SumRemove(s.rem, e.op);
    }
  }

  /** The blocks being committed do not change until the commit is over. */
  lemma FrozenDuringCommit(s: State, e: Event)
    requires Inv(s) && Disciplined(s, e) && s.committing
    ensures e != Committed ==> Next(s, e) == Waits
    ensures e == Committed ==> Next(s, e) == To(Init(s.size))
  {
  }

  // ---------- runs ----------

  function Run(s: State, es: seq<Event>): Outcome
    decreases |es|
  {
    if es == [] then To(s)
    else
      var n := |es| - 1;
      match Run(s, es[..n])
      case To(t) => Next(t, es[n])
      case o => o
  }

  ghost predicate DisciplinedRun(s: State, es: seq<Event>)
    decreases |es|
  {
    es == [] ||
    var n := |es| - 1;
    DisciplinedRun(s, es[..n]) && (Run(s, es[..n]).To? ==> Disciplined(Run(s, es[..n]).s, es[n]))
  }

  /** The invariant holds in every state of every disciplined interleaving. */
  lemma {:induction false} RunKeepsInv(s: State, es: seq<Event>)
    requires Inv(s) && DisciplinedRun(s, es)
    ensures Run(s, es).To? ==> Inv(Run(s, es).s) && Run(s, es).s.size == s.size
    decreases |es|
  {
    if es != [] {
      var n := |es| - 1;
      RunKeepsInv(s, es[..n]);
      if Run(s, es[..n]).To? && Run(s, es).To? {
        StepKeepsInv(Run(s, es[..n]).s, es[n]);
      }
    }
  }

  /** Three operations fill the log: operation i/10 logs block 100 + i. */
  function FillEvents(k: nat): seq<Event> {
    [Begin, Begin, Begin] + seq(k, i requires 0 <= i < k => LogWrite(i / 10, 100 + i))
  }

  function Budget(k: nat, op: nat): nat {
    if k <= 10 * op then 10 else if k >= 10 * op + 10 then 0 else 10 * op + 10 - k
  }

  /** The budgets of three operations after k blocks, the first operation's ten first. */
  function Budgets(k: nat): (bs: seq<nat>)
    ensures |bs| == 3
  {
    [Budget(k, 0), Budget(k, 1), Budget(k, 2)]
  }

  function Filled(size: nat, k: nat): State {
    State(size, seq(k, i requires 0 <= i < k => 100 + i), Budgets(k), false)
  }

  lemma RunSnoc(s: State, es: seq<Event>, e: Event)
    requires DisciplinedRun(s, es) && Run(s, es).To? && Disciplined(Run(s, es).s, e)
    ensures DisciplinedRun(s, es + [e]) && Run(s, es + [e]) == Next(Run(s, es).s, e)
  {
    assert (es + [e])[..|es|] == es;
  }

  lemma ThreeBegin(size: nat)
    ensures DisciplinedRun(Init(size), [Begin, Begin, Begin])
    ensures Run(Init(size), [Begin, Begin, Begin]) == To(State(size, [], [10, 10, 10], false))
  {
    RunSnoc(Init(size), [], Begin);
    RunSnoc(Init(size), [] + [Begin], Begin);
    RunSnoc(Init(size), [] + [Begin] + [Begin], Begin);
    assert [] + [Begin] + [Begin] + [Begin] == [Begin, Begin, Begin];
  }

  lemma FillStep(size: nat, k: nat)
    requires k < LOGSIZE && k + 2 <= size
    ensures Disciplined(Filled(size, k), LogWrite(k / 10, 100 + k))
    ensures Next(Filled(size, k), LogWrite(k / 10, 100 + k)) == To(Filled(size, k + 1))
  {
    var t := Filled(size, k);
    assert 100 + k !in t.blocks;
    assert t.blocks + [100 + k] == Filled(size, k + 1).blocks;
  }

  lemma FillSnoc(k: nat)
    ensures FillEvents(k + 1) == FillEvents(k) + [LogWrite(k / 10, 100 + k)]
  {
  }

  lemma {:induction false} FillReaches(size: nat, k: nat)
    requires k <= LOGSIZE && k + 1 <= size
    ensures DisciplinedRun(Init(size), FillEvents(k)) && Run(Init(size), FillEvents(k)) == To(Filled(size, k))
    decreases k
  {
    if k == 0 {
      ThreeBegin(size);
      assert FillEvents(0) == [Begin, Begin, Begin];
    } else {
      hide Run, DisciplinedRun, Next, Filled, FillEvents;
      FillReaches(size, k - 1);
      FillStep(size, k - 1);
      RunSnoc(Init(size), FillEvents(k - 1), LogWrite((k - 1) / 10, 99 + k));
      FillSnoc(k - 1);
    }
  }

  ghost predicate AddingPanics(size: nat, es: seq<Event>, op: nat, b: nat) {
    && DisciplinedRun(Init(size), es) && Run(Init(size), es).To?
    && var s := Run(Init(size), es).s;
       Disciplined(s, LogWrite(op, b)) && b !in s.blocks && Next(s, LogWrite(op, b)).Panics?
  }

  /** A block-adding log_write within its budget can never panic if and only if
      the log has more than LOGSIZE blocks; a log of exactly LOGSIZE blocks, the
      header included, is one too small. */
  lemma AddingNeverPanicsIff(size: nat)
    requires size >= 1
    ensures size > LOGSIZE <==> forall es, op, b :: !AddingPanics(size, es, op, b)
  {
    if size > LOGSIZE {
      forall es, op, b ensures !AddingPanics(size, es, op, b) {
        if AddingPanics(size, es, op, b) {
          RunKeepsInv(Init(size), es);
          PanicsExactly(Run(Init(size), es).s, LogWrite(op, b));
        }
      }
    } else {
      FillReaches(size, size - 1);
      assert AddingPanics(size, FillEvents(size - 1), (size - 1) / 10, 99 + size);
    }
  }

  /** The exceptional panic is real: three operations within their budgets fill
      the log, and the first then logs its first block once more. */
  lemma AbsorptionCanPanic()
    ensures var es := FillEvents(LOGSIZE);
            && DisciplinedRun(Init(LOGSIZE + 1), es) && Run(Init(LOGSIZE + 1), es).To?
            && Disciplined(Run(Init(LOGSIZE + 1), es).s, LogWrite(0, 100))
            && Next(Run(Init(LOGSIZE + 1), es).s, LogWrite(0, 100)).Panics?
  {
    FillReaches(LOGSIZE + 1, LOGSIZE);
    assert Filled(LOGSIZE + 1, LOGSIZE).blocks[0] == 100;
  }
}
