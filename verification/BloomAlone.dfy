/** An insertion that is not disturbed: its steps together do what the operation as a whole
    is specified to do. */
module BloomAlone {
  import opened Outcomes
  import opened BloomPage
  import opened BloomStore
  import opened BloomConcurrent
  import opened BloomRuns
  import opened BloomHistory

  /** A step of insertion i. */
  predicate IsStepOf(a: Action, i: nat) {
    (a.ReadMeta? || a.TryPage? || a.LockMeta? || a.Walk? || a.Extend? || a.NewPage?) && a.i == i
  }

  /** The pages, with new ones added at the end. */
  function Longer(ps: seq<Page>, n: nat): seq<Page>
    requires |ps| <= n
  {
    ps + seq(n - |ps|, _ => New)
  }

  /** How far insertion i has come since state s0, when only it has made steps. */
  ghost predicate Progress(words: nat, s0: State, i: nat, s: State)
    requires i < |s0.inserters| && ValidMeta(s0.meta, |s0.pages|)
  {
    && |s.inserters| == |s0.inserters| && s.inserters[i].t == s0.inserters[i].t
    && |s0.pages| <= |s.pages|
    && var t, meta, was := s0.inserters[i].t, s0.meta, Longer(s0.pages, |s.pages|);
    match s.inserters[i].phase
    case Done => ValidMeta(meta, |was|) && Inserted(words, t, was, meta, s.pages, s.meta)
    case Ready => s.pages == s0.pages && s.meta == meta
    case Trying(b) =>
      s.pages == s0.pages && s.meta == meta && meta.nStart < meta.nEnd && b == meta.notFull[meta.nStart]
    case NeedsMeta(tried) =>
      && s.pages == s0.pages && s.meta == meta
      && (if meta.nStart < meta.nEnd then
            tried == Some(meta.notFull[meta.nStart]) && Placed(words, s.pages[meta.notFull[meta.nStart]], t).None?
          else tried == None)
    case Walking(n) =>
      && s.pages == was && s.meta == meta
      && meta.nStart <= n <= meta.nEnd && (n < meta.nEnd ==> s.pages == s0.pages)
      && FirstWithRoom(words, s0.pages, meta, t, meta.nStart) == FirstWithRoom(words, s0.pages, meta, t, n)
  }

  lemma {:induction false} FirstWithRoomIgnores(words: nat, ps: seq<Page>, qs: seq<Page>, meta: Meta, t: BloomTuple,
        n: nat)
    requires ValidMeta(meta, |ps|) && n <= meta.nEnd && ps <= qs
    ensures ValidMeta(meta, |qs|) && FirstWithRoom(words, qs, meta, t, n) == FirstWithRoom(words, ps, meta, t, n)
    decreases meta.nEnd - n
  {
    hide Placed;
    if n < meta.nEnd {
      FirstWithRoomIgnores(words, ps, qs, meta, t, n + 1);
    }
  }

  lemma LongerBySame(ps: seq<Page>)
    ensures Longer(ps, |ps|) == ps
  {
  }

  lemma LongerByOne(ps: seq<Page>, n: nat)
    requires |ps| <= n
    ensures Longer(ps, n) + [New] == Longer(ps, n + 1) && ps <= Longer(ps, n)
  {
  }

  lemma StepOfReader(words: nat, s0: State, i: nat, s: State, a: Action)
    requires i < |s0.inserters| && ValidMeta(s0.meta, |s0.pages|)
    requires Shape(words, s) && Progress(words, s0, i, s) && Enabled(words, s, a)
    requires (a.ReadMeta? || a.LockMeta?) && a.i == i
    ensures Progress(words, s0, i, After(words, s, a))
  {
    hide LegalLength, ValidPages, Placed;
    LongerBySame(s0.pages);
  }

  lemma StepOfPlacer(words: nat, s0: State, i: nat, s: State, a: Action)
    requires i < |s0.inserters| && ValidMeta(s0.meta, |s0.pages|)
    requires Shape(words, s) && Progress(words, s0, i, s) && Enabled(words, s, a)
    requires (a.TryPage? || a.Walk?) && a.i == i
    ensures Progress(words, s0, i, After(words, s, a))
  {
    hide LegalLength, ValidPages, Placed;
    assert PhaseOk(s, i);
    LongerBySame(s0.pages);
  }

  lemma StepOfExtender(words: nat, s0: State, i: nat, s: State, a: Action)
    requires i < |s0.inserters| && ValidMeta(s0.meta, |s0.pages|)
    requires Shape(words, s) && Progress(words, s0, i, s) && Enabled(words, s, a)
    requires (a.Extend? || a.NewPage?) && a.i == i
    ensures Progress(words, s0, i, After(words, s, a))
  {
    hide LegalLength, ValidPages, Placed, Longer, Reusable, FirstWithRoom;
    assert PhaseOk(s, i);
    LongerByOne(s0.pages, |s.pages|);
    FirstWithRoomIgnores(words, s0.pages, s.pages, s0.meta, s0.inserters[i].t, s0.meta.nStart);
    AtTheEnd(words, s0.pages, s0.meta, s0.inserters[i].t);
  }

  lemma AtTheEnd(words: nat, ps: seq<Page>, meta: Meta, t: BloomTuple)
    requires ValidMeta(meta, |ps|)
    ensures FirstWithRoom(words, ps, meta, t, meta.nEnd) == meta.nEnd
  {
  }

  lemma {:induction false} RunOfOne(words: nat, s0: State, i: nat, s: State, actions: seq<Action>)
    requires i < |s0.inserters| && ValidMeta(s0.meta, |s0.pages|)
    requires Shape(words, s) && CanRun(words, s, actions) && Progress(words, s0, i, s)
    requires forall k :: 0 <= k < |actions| ==> IsStepOf(actions[k], i)
    ensures Progress(words, s0, i, Final(words, s, actions))
    decreases |actions|
  {
    hide Shape, Enabled, After, Progress, ValidMeta;
    if actions != [] {
      var a := actions[0];
      if a.ReadMeta? || a.LockMeta? {
        StepOfReader(words, s0, i, s, a);
      } else if a.TryPage? || a.Walk? {
        StepOfPlacer(words, s0, i, s, a);
      } else {
        StepOfExtender(words, s0, i, s, a);
      }
      StepKeepsShape(words, s, a);
      RunOfOne(words, s0, i, After(words, s, a), actions[1..]);
    }
  }

  /** An insertion that runs by itself, in as many steps as it takes, ends with exactly the
      outcome of the whole operation: the tuple is on the first page of the list that has room,
      and the list starts there, or on a page that was not in use, which is then all the list
      has. (New pages added at the end count as not in use.) */
  lemma AloneIsInserted(words: nat, s: State, i: nat, actions: seq<Action>)
    requires Shape(words, s) && i < |s.inserters| && s.inserters[i].phase.Ready?
    requires CanRun(words, s, actions) && forall k :: 0 <= k < |actions| ==> IsStepOf(actions[k], i)
    ensures var r := Final(words, s, actions);
            && |s.pages| <= |r.pages| && i < |r.inserters|
            && (r.inserters[i].phase.Done? ==>
                  && ValidMeta(s.meta, |r.pages|)
                  && Inserted(words, s.inserters[i].t, Longer(s.pages, |r.pages|), s.meta, r.pages, r.meta))
  {
    hide CanRun, Final, ValidMeta, Inserted, LegalLength, ValidPages, InsertersOk, Enabled, After, FirstWithRoom,
         Placed;
    LongerBySame(s.pages);
    RunOfOne(words, s, i, s, actions);
  }

  // ---------------------------------------------------------------- every insertion can complete

  /** A run of steps of insertion i alone that ends with it done and the lock free. */
  ghost predicate Finishes(words: nat, s: State, i: nat, actions: seq<Action>)
    requires Shape(words, s)
  {
    && (forall k :: 0 <= k < |actions| ==> IsStepOf(actions[k], i))
    && CanRun(words, s, actions)
    && var r := Final(words, s, actions);
       i < |r.inserters| && r.inserters[i].phase.Done? && r.lock == None
  }

  lemma FinishesNow(words: nat, s: State, i: nat)
    requires Shape(words, s) && i < |s.inserters| && s.inserters[i].phase.Done? && s.lock == None
    ensures Finishes(words, s, i, [])
  {
    hide Shape;
  }

  lemma FinishesAfter(words: nat, s: State, i: nat, a: Action, rest: seq<Action>)
    requires Shape(words, s) && Enabled(words, s, a) && IsStepOf(a, i)
    requires Shape(words, After(words, s, a)) && Finishes(words, After(words, s, a), i, rest)
    ensures Finishes(words, s, i, [a] + rest)
  {
    hide Shape, Enabled, After, IsStepOf;
    assert ([a] + rest)[1..] == rest;
  }

  /** At the end of the list: the file is extended, and the new page taken. */
  lemma FinishOnNewPage(words: nat, s: State, i: nat) returns (actions: seq<Action>)
    requires Shape(words, s) && AtEndOfList(s, i)
    ensures Finishes(words, s, i, actions) && |actions| == 2
  {
    hide LegalLength, ValidPage, ValidMeta, CanRun, Finishes;
    assert PhaseOk(s, i);
    var b := |s.pages|;
    var s1 := After(words, s, Extend(i));
    StepKeepsShape(words, s, Extend(i));
    assert Enabled(words, s1, NewPage(i, b));
    StepKeepsShape(words, s1, NewPage(i, b));
    FinishesNow(words, After(words, s1, NewPage(i, b)), i);
    FinishesAfter(words, s1, i, NewPage(i, b), []);
    FinishesAfter(words, s, i, Extend(i), [NewPage(i, b)] + []);
    actions := [Extend(i)] + ([NewPage(i, b)] + []);
  }

  lemma {:induction false} FinishWalking(words: nat, s: State, i: nat) returns (actions: seq<Action>)
    requires Shape(words, s) && i < |s.inserters| && s.inserters[i].phase.Walking?
    ensures Finishes(words, s, i, actions) && s.inserters[i].phase.n <= s.meta.nEnd
    ensures |actions| <= s.meta.nEnd - s.inserters[i].phase.n + 2
    decreases s.meta.nEnd - s.inserters[i].phase.n
  {
    hide LegalLength, ValidPages, ValidMeta, CanRun, Finishes, Placed;
    assert PhaseOk(s, i);
    if s.inserters[i].phase.n >= s.meta.nEnd {
      actions := FinishOnNewPage(words, s, i);
    } else {
      var s1 := After(words, s, Walk(i));
      StepKeepsShape(words, s, Walk(i));
      if s1.inserters[i].phase.Done? {
        FinishesNow(words, s1, i);
        actions := [];
      } else {
        actions := FinishWalking(words, s1, i);
      }
      FinishesAfter(words, s, i, Walk(i), actions);
      actions := [Walk(i)] + actions;
    }
  }

  lemma FinishNeedsMeta(words: nat, s: State, i: nat) returns (actions: seq<Action>)
    requires Shape(words, s) && i < |s.inserters| && s.inserters[i].phase.NeedsMeta? && s.lock == None
    ensures Finishes(words, s, i, actions) && |actions| <= s.meta.nEnd - s.meta.nStart + 3
  {
    hide LegalLength, ValidPages, CanRun, Finishes;
    StepKeepsShape(words, s, LockMeta(i));
    actions := FinishWalking(words, After(words, s, LockMeta(i)), i);
    FinishesAfter(words, s, i, LockMeta(i), actions);
    actions := [LockMeta(i)] + actions;
  }

  lemma FinishTrying(words: nat, s: State, i: nat) returns (actions: seq<Action>)
    requires Shape(words, s) && i < |s.inserters| && s.inserters[i].phase.Trying? && s.lock == None
    ensures Finishes(words, s, i, actions) && |actions| <= s.meta.nEnd - s.meta.nStart + 4
  {
    hide LegalLength, ValidPages, ValidMeta, CanRun, Finishes, Placed;
    assert PhaseOk(s, i);
    assert s.meta.nStart <= s.meta.nEnd by { ListInOrder(words, s); }
    var s1 := After(words, s, TryPage(i));
    StepKeepsShape(words, s, TryPage(i));
    if s1.inserters[i].phase.Done? {
      FinishesNow(words, s1, i);
      actions := [];
    } else {
      actions := FinishNeedsMeta(words, s1, i);
    }
    FinishesAfter(words, s, i, TryPage(i), actions);
    actions := [TryPage(i)] + actions;
  }

  lemma ListInOrder(words: nat, s: State)
    requires Shape(words, s)
    ensures s.meta.nStart <= s.meta.nEnd
  {
  }

  /** Progress, from every state that a run can reach: an insertion that finds the lock free, or
      has it, can complete with steps of its own, at most five more than the list has entries,
      and then the lock is free. So nobody waits for ever for the holder of the lock. */
  lemma InsertionCompletes(words: nat, s: State, i: nat) returns (actions: seq<Action>)
    requires Shape(words, s) && i < |s.inserters| && !s.inserters[i].phase.Done?
    requires s.lock == None || s.lock == Some(i)
    ensures Finishes(words, s, i, actions) && |actions| <= s.meta.nEnd - s.meta.nStart + 5
  {
    hide LegalLength, ValidPages, ValidMeta, CanRun, Finishes;
    assert PhaseOk(s, i);
    ListInOrder(words, s);
    match s.inserters[i].phase
    case Walking(n) => actions := FinishWalking(words, s, i);
    case NeedsMeta(_) => actions := FinishNeedsMeta(words, s, i);
    case Trying(_) => actions := FinishTrying(words, s, i);
    case Ready =>
      StepKeepsShape(words, s, ReadMeta(i));
      var s1 := After(words, s, ReadMeta(i));
      if s1.inserters[i].phase.Trying? {
        actions := FinishTrying(words, s1, i);
      } else {
        actions := FinishNeedsMeta(words, s1, i);
      }
      FinishesAfter(words, s, i, ReadMeta(i), actions);
      actions := [ReadMeta(i)] + actions;
  }

  /** So an insertion that is left alone does complete, and with the outcome of the whole
      operation. */
  lemma AloneCompletes(words: nat, s: State, i: nat) returns (actions: seq<Action>)
    requires Shape(words, s) && i < |s.inserters| && s.inserters[i].phase.Ready? && s.lock == None
    ensures Finishes(words, s, i, actions) && |actions| <= s.meta.nEnd - s.meta.nStart + 5
    ensures var r := Final(words, s, actions);
            && |s.pages| <= |r.pages| && ValidMeta(s.meta, |r.pages|)
            && Inserted(words, s.inserters[i].t, Longer(s.pages, |r.pages|), s.meta, r.pages, r.meta)
  {
    hide Shape, CanRun, Final, ValidMeta, Inserted;
    actions := InsertionCompletes(words, s, i);
    AloneIsInserted(words, s, i, actions);
  }
}
