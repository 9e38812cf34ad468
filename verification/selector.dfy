/** The selector compiler: the condition vectors of a driver's implementations become a chain of
    basic blocks that picks an implementation by comparing the arguments. */
module FcnPtrSelector {
  datatype Option<T> = None | Some(value: T)

  /** One implementation: per argument the required string, empty when any will do. */
  datatype Impl = Impl(ptr: nat, cond: seq<string>)

  /** A basic block: still open, a comparison with two successors, or a return of a function
      pointer or of null. */
  datatype Block =
    | Open
    | Compare(arg: nat, str: string, ifTrue: nat, ifFalse: nat)
    | Return(ptr: Option<nat>)

  const EXIT := 1

  // ----- what is selected

  /** Every nonempty condition equals its argument. */
  predicate Matches(impl: Impl, args: seq<string>)
    requires |impl.cond| <= |args|
  {
    MatchesUpTo(impl, args, |impl.cond|)
  }

  predicate MatchesUpTo(impl: Impl, args: seq<string>, n: nat)
    requires |impl.cond| <= |args|
  {
    forall k | 0 <= k < n && k < |impl.cond| && impl.cond[k] != "" :: args[k] == impl.cond[k]
  }

  predicate Covers(impls: seq<Impl>, n: nat)
  {
    forall i | 0 <= i < |impls| :: |impls[i].cond| <= n
  }

  predicate IsFirst(impls: seq<Impl>, args: seq<string>, i: nat)
    requires Covers(impls, |args|) && i < |impls|
  {
    Matches(impls[i], args) && forall k | 0 <= k < i :: !Matches(impls[k], args)
  }

  /** The first implementation that matches, if any. */
  function Selected(impls: seq<Impl>, args: seq<string>): (r: Option<nat>)
    requires Covers(impls, |args|)
    ensures r.Some? <==> exists i :: 0 <= i < |impls| && Matches(impls[i], args)
    ensures r.Some? ==> exists i :: 0 <= i < |impls| && IsFirst(impls, args, i) && r.value == impls[i].ptr
  {
    if impls == [] then None
    else
      var front := Selected(impls[..|impls| - 1], args);
      assert forall i | 0 <= i < |impls| - 1 :: impls[i] == impls[..|impls| - 1][i];
      if front.Some? then
        assert forall i | 0 <= i < |impls| - 1 && IsFirst(impls[..|impls| - 1], args, i) :: IsFirst(impls, args, i);
        front
      else if Matches(impls[|impls| - 1], args) then Some(impls[|impls| - 1].ptr)
      else None
  }

  // ----- running a chain

  datatype Stop = Returned(ptr: Option<nat>) | At(block: nat) | Running

  ghost predicate Closed(blocks: seq<Block>, argSize: nat)
  {
    forall b | 0 <= b < |blocks| && blocks[b].Compare? ::
      blocks[b].arg < argSize && blocks[b].ifTrue < |blocks| && blocks[b].ifFalse < |blocks|
  }

  /** Where control is after at most the given number of comparisons: returned, at an open block,
      or still running. */
  function Walk(blocks: seq<Block>, args: seq<string>, b: nat, steps: nat): Stop
    requires Closed(blocks, |args|) && b < |blocks|
    decreases steps
  {
    match blocks[b]
    case Open => At(b)
    case Return(ptr) => Returned(ptr)
    case Compare(arg, str, ifTrue, ifFalse) =>
      if steps == 0 then Running
      else Walk(blocks, args, if args[arg] == str then ifTrue else ifFalse, steps - 1)
  }

  lemma {:induction false} WalkLonger(blocks: seq<Block>, args: seq<string>, b: nat, steps: nat, more: nat)
    requires Closed(blocks, |args|) && b < |blocks| && steps <= more && !Walk(blocks, args, b, steps).Running?
    ensures Walk(blocks, args, b, more) == Walk(blocks, args, b, steps)
    decreases steps
  {
    if blocks[b].Compare? {
      var next := if args[blocks[b].arg] == blocks[b].str then blocks[b].ifTrue else blocks[b].ifFalse;
      WalkLonger(blocks, args, next, steps - 1, more - 1);
    }
  }

  /** Appending open blocks changes no walk. */
  lemma {:induction false} WalkAppended(blocks: seq<Block>, args: seq<string>, b: nat, steps: nat)
    requires Closed(blocks, |args|) && b < |blocks|
    ensures Closed(blocks + [Open], |args|)
    ensures Walk(blocks + [Open], args, b, steps) == Walk(blocks, args, b, steps)
    decreases steps
  {
    if blocks[b].Compare? && steps > 0 {
      var next := if args[blocks[b].arg] == blocks[b].str then blocks[b].ifTrue else blocks[b].ifFalse;
      WalkAppended(blocks, args, next, steps - 1);
    }
  }

  /** Closing an open block: walks that arrived there go on, the others stay. */
  lemma {:induction false} WalkClosed(blocks: seq<Block>, args: seq<string>, b: nat, steps: nat, u: nat, content: Block)
    requires Closed(blocks, |args|) && b < |blocks| && u < |blocks| && blocks[u].Open? && !content.Open?
    requires Closed(blocks[u := content], |args|) && !Walk(blocks, args, b, steps).Running?
    requires !Walk(blocks[u := content], args, u, 1).Running?
    ensures var w := Walk(blocks, args, b, steps);
      Walk(blocks[u := content], args, b, steps + 1) == if w == At(u) then Walk(blocks[u := content], args, u, 1) else w
    decreases steps
  {
    var closed := blocks[u := content];
    if blocks[b].Compare? {
      var next := if args[blocks[b].arg] == blocks[b].str then blocks[b].ifTrue else blocks[b].ifFalse;
      WalkClosed(blocks, args, next, steps - 1, u, content);
    } else if b == u {
      WalkLonger(closed, args, u, 1, steps + 1);
    }
  }

  // ----- what holds while the chain is built

  /** Where control stops on entering a block that is not a comparison. */
  function Landing(blocks: seq<Block>, b: nat): Stop
    requires b < |blocks|
  {
    if blocks[b].Return? then Returned(blocks[b].ptr) else At(b)
  }

  /** Implementation i is being compiled and its first j arguments are done: control has returned an
      earlier match, or stands at the current block, or at the block for a mismatch. */
  ghost predicate Reaches(blocks: seq<Block>, impls: seq<Impl>, i: nat, j: nat, cur: nat, miss: nat, argSize: nat,
                          n: nat)
    requires i < |impls| && Covers(impls, argSize)
  {
    && Closed(blocks, argSize) && 0 < |blocks| && cur < |blocks| && miss < |blocks|
    && forall args: seq<string> {:trigger Walk(blocks, args, 0, n)} | |args| == argSize ::
         Walk(blocks, args, 0, n) ==
         if Selected(impls[..i], args).Some? then Returned(Selected(impls[..i], args))
         else if MatchesUpTo(impls[i], args, j) then Landing(blocks, cur)
         else Landing(blocks, miss)
  }

  /** The first i implementations are compiled: control has returned a match or stands at the
      current block. */
  ghost predicate Compiled(blocks: seq<Block>, impls: seq<Impl>, i: nat, cur: nat, argSize: nat, n: nat)
    requires i <= |impls| && Covers(impls, argSize)
  {
    && Closed(blocks, argSize) && 0 < |blocks| && cur < |blocks|
    && forall args: seq<string> {:trigger Walk(blocks, args, 0, n)} | |args| == argSize ::
         Walk(blocks, args, 0, n) ==
         if Selected(impls[..i], args).Some? then Returned(Selected(impls[..i], args)) else Landing(blocks, cur)
  }

  lemma AppendCompiled(blocks: seq<Block>, impls: seq<Impl>, i: nat, cur: nat, argSize: nat, n: nat)
    requires i <= |impls| && Covers(impls, argSize) && Compiled(blocks, impls, i, cur, argSize, n)
    ensures Compiled(blocks + [Open], impls, i, cur, argSize, n)
  {
    hide Walk, Selected;
    NewOpen(blocks, argSize);
    forall args: seq<string> | |args| == argSize ensures Walk(blocks + [Open], args, 0, n) == Walk(blocks, args, 0, n) {
      WalkAppended(blocks, args, 0, n);
    }
  }

  lemma NewOpen(blocks: seq<Block>, argSize: nat)
    requires Closed(blocks, argSize)
    ensures Closed(blocks + [Open], argSize)
  {}

  lemma BeginImpl(blocks: seq<Block>, impls: seq<Impl>, i: nat, cur: nat, miss: nat, argSize: nat, n: nat)
    requires i < |impls| && Covers(impls, argSize) && Compiled(blocks, impls, i, cur, argSize, n) && miss < |blocks|
    ensures Reaches(blocks, impls, i, 0, cur, miss, argSize, n)
  {
    hide Walk, Selected;
  }

  /** An argument without a condition needs no block. */
  lemma SkipArgument(blocks: seq<Block>, impls: seq<Impl>, i: nat, j: nat, cur: nat, miss: nat, argSize: nat, n: nat)
    requires i < |impls| && Covers(impls, argSize) && Reaches(blocks, impls, i, j, cur, miss, argSize, n)
    requires j >= |impls[i].cond| || impls[i].cond[j] == ""
    ensures Reaches(blocks, impls, i, j + 1, cur, miss, argSize, n)
  {
    hide Walk, Selected;
    forall args: seq<string> | |args| == argSize
      ensures MatchesUpTo(impls[i], args, j + 1) <==> MatchesUpTo(impls[i], args, j)
    {}
  }

  /** A condition becomes a comparison that goes on to a new block or to the mismatch block. */
  lemma AddComparison(blocks: seq<Block>, impls: seq<Impl>, i: nat, j: nat, cur: nat, miss: nat, argSize: nat, n: nat)
    requires i < |impls| && Covers(impls, argSize) && Reaches(blocks, impls, i, j, cur, miss, argSize, n)
    requires j < |impls[i].cond| && impls[i].cond[j] != "" && blocks[cur].Open? && cur != miss && !blocks[miss].Compare?
    ensures var new_ := (blocks + [Open])[cur := Compare(j, impls[i].cond[j], |blocks|, miss)];
      Reaches(new_, impls, i, j + 1, |blocks|, miss, argSize, n + 1)
  {
    hide Selected;
    var more, t := blocks + [Open], |blocks|;
    var content := Compare(j, impls[i].cond[j], t, miss);
    var done := more[cur := content];
    NewOpen(blocks, argSize);
    assert Closed(done, argSize);
    forall args: seq<string> | |args| == argSize
      ensures Walk(done, args, 0, n + 1) ==
        if Selected(impls[..i], args).Some? then Returned(Selected(impls[..i], args))
        else if MatchesUpTo(impls[i], args, j + 1) then At(t)
        else Landing(blocks, miss)
    {
      WalkAppended(blocks, args, 0, n);
      assert Walk(blocks, args, 0, n) == Walk(more, args, 0, n);
      assert Walk(done, args, cur, 1) == if args[j] == impls[i].cond[j] then At(t) else Landing(blocks, miss);
      WalkClosed(more, args, 0, n, cur, content);
      assert MatchesUpTo(impls[i], args, j + 1) <==> MatchesUpTo(impls[i], args, j) && args[j] == impls[i].cond[j];
      MissIsNotCurrent(blocks, cur, miss);
    }
  }

  lemma MissIsNotCurrent(blocks: seq<Block>, cur: nat, miss: nat)
    requires cur < |blocks| && miss < |blocks| && cur != miss && blocks[cur].Open?
    ensures Landing(blocks, miss) != At(cur) && Landing(blocks, cur) == At(cur)
  {}

  /** All conditions done: the current block returns the implementation and the mismatch block is next. */
  lemma EndImpl(blocks: seq<Block>, impls: seq<Impl>, i: nat, cur: nat, miss: nat, argSize: nat, n: nat)
    requires i < |impls| && Covers(impls, argSize) && Reaches(blocks, impls, i, argSize, cur, miss, argSize, n)
    requires blocks[cur].Open? && cur != miss && !blocks[miss].Compare?
    ensures Compiled(blocks[cur := Return(Some(impls[i].ptr))], impls, i + 1, miss, argSize, n + 1)
  {
    hide Selected;
    var content := Return(Some(impls[i].ptr));
    var done := blocks[cur := content];
    assert Closed(done, argSize);
    forall args: seq<string> | |args| == argSize
      ensures Walk(done, args, 0, n + 1) ==
        if Selected(impls[..i + 1], args).Some? then Returned(Selected(impls[..i + 1], args)) else Landing(done, miss)
    {
      WalkClosed(blocks, args, 0, n, cur, content);
      assert Walk(done, args, cur, 1) == Returned(content.ptr);
      MissIsNotCurrent(blocks, cur, miss);
      SelectedNext(impls, i, args);
    }
  }

  lemma SelectedNext(impls: seq<Impl>, i: nat, args: seq<string>)
    requires i < |impls| && Covers(impls, |args|)
    ensures Covers(impls[..i], |args|) && Covers(impls[..i + 1], |args|)
    ensures Selected(impls[..i + 1], args) ==
            if Selected(impls[..i], args).Some? then Selected(impls[..i], args)
            else if MatchesUpTo(impls[i], args, |args|) then Some(impls[i].ptr) else None
  {
    assert impls[..i + 1][..i] == impls[..i];
    assert MatchesUpTo(impls[i], args, |args|) <==> Matches(impls[i], args);
  }

  // ----- the compiler

  predicate HasCondition(impl: Impl)
  {
    exists k :: 0 <= k < |impl.cond| && impl.cond[k] != ""
  }

  /** The widest condition vector. */
  method ArgSize(impls: seq<Impl>) returns (n: nat)
    ensures Covers(impls, n) && (impls != [] ==> exists i :: 0 <= i < |impls| && n == |impls[i].cond|)
  {
    n := 0;
    for i := 0 to |impls|
      invariant Covers(impls[..i], n) && (if i == 0 then n == 0 else exists k :: 0 <= k < i && n == |impls[k].cond|)
    {
      if n < |impls[i].cond| { n := |impls[i].cond|; }
      assert impls[..i + 1] == impls[..i] + [impls[i]];
    }
    assert impls[..|impls|] == impls;
  }

  /** The chain for some implementations, each with at least one condition: run on any arguments, it
      returns the first implementation that matches, or null. */
  method MakeFcnPtrSelector(impls: seq<Impl>) returns (argSize: nat, blocks: seq<Block>, ghost steps: nat)
    requires impls != [] && forall i | 0 <= i < |impls| :: HasCondition(impls[i])
    ensures Covers(impls, argSize) && Closed(blocks, argSize) && |blocks| > 0
    ensures forall args: seq<string>, n: nat | |args| == argSize && n >= steps ::
              Walk(blocks, args, 0, n) == Returned(Selected(impls, args))
  {
    hide Walk, Selected, Compiled, Reaches, Closed, MatchesUpTo;
    argSize := ArgSize(impls);
    blocks := [Open, Open];
    var compareBB := 0;
    blocks := blocks[EXIT := Return(None)];
    steps := 0;
    assert blocks == [Open, Return(None)];
    BeginChain(impls, argSize);
    var i := 0;
    while i < |impls|
      invariant 0 <= i <= |impls| && |blocks| >= 2 && 0 <= compareBB < |blocks|
      invariant Compiled(blocks, impls, i, compareBB, argSize, steps)
      invariant blocks[EXIT] == Return(None) && (if i == |impls| then compareBB == EXIT else blocks[compareBB].Open?)
    {
      var falseBB := EXIT;
      if i + 1 < |impls| {
        AppendCompiled(blocks, impls, i, compareBB, argSize, steps);
        falseBB := |blocks|;
        blocks := blocks + [Open];
      }
      BeginImpl(blocks, impls, i, compareBB, falseBB, argSize, steps);
      var cond := impls[i].cond;
      var trueBB: Option<nat> := None;
      var vectorIndex: nat := 0;
      while vectorIndex < argSize
        invariant 0 <= vectorIndex <= argSize && |blocks| >= 2 && 0 <= compareBB < |blocks| && falseBB < |blocks|
        invariant Reaches(blocks, impls, i, vectorIndex, compareBB, falseBB, argSize, steps)
        invariant blocks[EXIT] == Return(None) && blocks[compareBB].Open? && compareBB != falseBB
        invariant if i + 1 < |impls| then blocks[falseBB].Open? else falseBB == EXIT
        invariant if exists k :: 0 <= k < vectorIndex && k < |cond| && cond[k] != ""
                  then trueBB == Some(compareBB) else trueBB == None
      {
        if vectorIndex < |cond| && cond[vectorIndex] != "" {
          AddComparison(blocks, impls, i, vectorIndex, compareBB, falseBB, argSize, steps);
          var next := |blocks|;
          blocks := blocks + [Open];
          trueBB := Some(next);
          blocks := blocks[compareBB := Compare(vectorIndex, cond[vectorIndex], next, falseBB)];
          compareBB := next;
          steps := steps + 1;
        } else {
          SkipArgument(blocks, impls, i, vectorIndex, compareBB, falseBB, argSize, steps);
        }
        vectorIndex := vectorIndex + 1;
      }
      EndImpl(blocks, impls, i, compareBB, falseBB, argSize, steps);
      assert HasCondition(impls[i]);
      assert trueBB == Some(compareBB);
      blocks := blocks[trueBB.value := Return(Some(impls[i].ptr))];
      compareBB := falseBB;
      steps := steps + 1;
      i := i + 1;
    }
    EndChain(blocks, impls, argSize, steps);
  }

  lemma BeginChain(impls: seq<Impl>, argSize: nat)
    requires Covers(impls, argSize)
    ensures Compiled([Open, Return(None)], impls, 0, 0, argSize, 0)
  {}

  lemma {:induction false} EndChain(blocks: seq<Block>, impls: seq<Impl>, argSize: nat, steps: nat)
    requires Covers(impls, argSize) && |blocks| >= 2 && blocks[EXIT] == Return(None)
    requires Compiled(blocks, impls, |impls|, EXIT, argSize, steps)
    ensures Closed(blocks, argSize)
    ensures forall args: seq<string>, n: nat | |args| == argSize && n >= steps ::
              Walk(blocks, args, 0, n) == Returned(Selected(impls, args))
  {
    assert impls[..|impls|] == impls;
    forall args: seq<string>, n: nat | |args| == argSize && n >= steps
      ensures Walk(blocks, args, 0, n) == Returned(Selected(impls, args))
    {
      WalkLonger(blocks, args, 0, steps, n);
    }
  }
}
