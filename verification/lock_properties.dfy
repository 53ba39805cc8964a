/**
 Properties of the lock handle that relate several calls: the handle
 invariant kept by every sequence of `Lock` and `Unlock` calls, what a retry
 after a failed `Lock` does, and a few acquisition scenarios.
 */
module LockProperties {
  import opened StringOrder
  import opened GoSort
  import opened GoPath
  import opened Coordination
  import opened LockRecipe

  /** A handle that holds the lock has a node recorded. */
  ghost predicate Valid(g: GlobalLock)
  {
    g.locked ==> g.ephemeralPath != ""
  }

  /** One call on the handle, with the service's answers for it. */
  datatype Op = DoLock(replies: Replies) | DoUnlock(reply: Status)

  function Step(g: GlobalLock, op: Op): GlobalLock
  {
    match op
    case DoLock(replies) => Lock(g, replies).handle
    case DoUnlock(reply) => Unlock(g, reply).handle
  }

  /** The handle after the calls `ops`, in order. */
  function Run(g: GlobalLock, ops: seq<Op>): GlobalLock
    decreases |ops|
  {
    if |ops| == 0 then g else Run(Step(g, ops[0]), ops[1..])
  }

  /** Every call keeps the invariant. */
  lemma StepPreservesValid(g: GlobalLock, op: Op)
    requires Valid(g)
    ensures Valid(Step(g, op))
    ensures Step(g, op).root == g.root
  {
  }

  /**
   Whatever the service answers and whatever calls are made, a handle created
   by `NewGlobalLock` never reports the lock held without a recorded node, and
   keeps its root.
   */
  lemma {:induction false} RunPreservesValid(g: GlobalLock, ops: seq<Op>)
    requires Valid(g)
    ensures Valid(Run(g, ops))
    ensures Run(g, ops).root == g.root
    decreases |ops|
  {
    if |ops| > 0 {
      StepPreservesValid(g, ops[0]);
      RunPreservesValid(Step(g, ops[0]), ops[1..]);
    }
  }

  lemma ReachableHandlesValid(root: string, ops: seq<Op>)
    ensures Valid(Run(NewGlobalLock(root), ops))
    ensures Run(NewGlobalLock(root), ops).root == root
  {
    RunPreservesValid(NewGlobalLock(root), ops);
  }

  /** The first `Lock` on a new handle passes both guards and creates one node. */
  lemma NewHandleCreatesNode(root: string, replies: Replies)
    ensures var r := Lock(NewGlobalLock(root), replies);
            |r.calls| > 0 && r.calls[0] == CreateCall(root + "/")
            && (r.outcome.Failed? ==> !r.outcome.error.AmbiguousState?)
  {
  }

  /**
   A `Lock` that created a node but did not get the lock leaves that node
   recorded, so the next `Lock` on the handle is refused without any call.
   */
  lemma RetryAfterFailedLockRejected(g: GlobalLock, replies: Replies, again: Replies)
    requires !g.locked && g.ephemeralPath == ""
    requires replies.create.Created?
    requires Lock(g, replies).outcome != Granted
    ensures var h := Lock(g, replies).handle;
            && !h.locked && h.ephemeralPath != ""
            && Lock(h, again) == LockRun(h, Failed(AmbiguousState(h.ephemeralPath)), [])
  {
  }

  /**
   A successful `Unlock` returns the handle to the state of a new one, so the
   next `Lock` creates a fresh node instead of reusing the deleted one.
   */
  lemma UnlockThenLockCreatesNode(g: GlobalLock, replies: Replies)
    ensures var h := Unlock(g, Ok).handle;
            && h == NewGlobalLock(g.root)
            && var r := Lock(h, replies);
               |r.calls| > 0 && r.calls[0] == CreateCall(g.root + "/")
  {
  }

  /**
   A lock granted on a new handle and then released with a successful delete
   leaves exactly a new handle: acquiring and releasing are inverse.
   */
  lemma LockUnlockRoundTrip(root: string, replies: Replies)
    requires Lock(NewGlobalLock(root), replies).outcome == Granted
    ensures var h := Lock(NewGlobalLock(root), replies).handle;
            && h.locked && replies.create.Created?
            && Unlock(h, Ok).calls == [DeleteCall(ChildPath(root, replies.create.name))]
            && Unlock(h, Ok).handle == NewGlobalLock(root)
  {
  }

  /** After a successful create, `Lock` is the create call followed by the acquisition loop. */
  lemma LockAfterCreate(g: GlobalLock, replies: Replies)
    requires !g.locked && g.ephemeralPath == "" && replies.create.Created?
    ensures var a := Acquire(g.(ephemeralPath := ChildPath(g.root, replies.create.name)), replies.rounds);
            Lock(g, replies) == LockRun(a.handle, a.outcome, [CreateCall(g.root + "/")] + a.calls)
  {
  }

  /**
   A created node whose first listing comes back empty fails the call with the
   empty-listing error naming that node, after one create and one listing. The
   node stays recorded and the lock is not held.
   */
  lemma LockEmptyListing(g: GlobalLock, replies: Replies)
    requires !g.locked && g.ephemeralPath == ""
    requires replies.create.Created?
    requires |replies.rounds| > 0 && |replies.rounds[0].children| == 0
    ensures var path := ChildPath(g.root, replies.create.name);
            Lock(g, replies)
              == LockRun(g.(ephemeralPath := path), Failed(NoChildren(path)),
                         [CreateCall(g.root + "/"), ChildrenCall(g.root)])
  {
    var path := ChildPath(g.root, replies.create.name);
    LockAfterCreate(g, replies);
    AcquireFirstPass(g.(ephemeralPath := path), replies.rounds);
  }

  /**
   A created node with a child below it checks the immediate predecessor; when
   a check fails, the call fails with that check's error after the create, the
   listing and the checks made. The node stays recorded and the lock is not
   held.
   */
  lemma LockWatchError(g: GlobalLock, replies: Replies)
    requires !g.locked && g.ephemeralPath == ""
    requires replies.create.Created? && |replies.rounds| > 0
    requires HasBelow(Base(ChildPath(g.root, replies.create.name)), replies.rounds[0].children)
    requires WaitFor(replies.rounds[0].probes).Aborted?
    ensures var path := ChildPath(g.root, replies.create.name);
            var w := WaitFor(replies.rounds[0].probes);
            exists p :: IsPredecessor(p, Base(path), replies.rounds[0].children)
                        && Lock(g, replies)
                             == LockRun(g.(ephemeralPath := path), Failed(WatchError(w.cause)),
                                        [CreateCall(g.root + "/")] + PassCalls(g.root, p, w.asked))
  {
    var path := ChildPath(g.root, replies.create.name);
    var h := g.(ephemeralPath := path);
    LockAfterCreate(g, replies);
    PredecessorExists(Own(h), replies.rounds[0].children);
    var p :| IsPredecessor(p, Base(path), replies.rounds[0].children);
    AcquireWatchesPredecessor(h, replies.rounds, p);
  }

  /**
   A created node with a child below it that the checks report absent runs the
   next pass: the call's calls are the create, this pass's listing and checks
   of the immediate predecessor, then those of the later passes, and its
   outcome and handle are theirs.
   */
  lemma LockWatchThenNextPass(g: GlobalLock, replies: Replies)
    requires !g.locked && g.ephemeralPath == ""
    requires replies.create.Created? && |replies.rounds| > 0
    requires HasBelow(Base(ChildPath(g.root, replies.create.name)), replies.rounds[0].children)
    requires WaitFor(replies.rounds[0].probes).Gone?
    ensures var path := ChildPath(g.root, replies.create.name);
            var w := WaitFor(replies.rounds[0].probes);
            var rest := Acquire(g.(ephemeralPath := path), replies.rounds[1..]);
            exists p :: IsPredecessor(p, Base(path), replies.rounds[0].children)
                        && Lock(g, replies)
                             == LockRun(rest.handle, rest.outcome,
                                        [CreateCall(g.root + "/")] + PassCalls(g.root, p, w.asked) + rest.calls)
  {
    var path := ChildPath(g.root, replies.create.name);
    var h := g.(ephemeralPath := path);
    LockAfterCreate(g, replies);
    PredecessorExists(Own(h), replies.rounds[0].children);
    var p :| IsPredecessor(p, Base(path), replies.rounds[0].children);
    AcquireWatchesPredecessor(h, replies.rounds, p);
    var rest := Acquire(h, replies.rounds[1..]);
    var pass := PassCalls(g.root, p, WaitFor(replies.rounds[0].probes).asked);
    var a := Acquire(h, replies.rounds);
    assert a == LockRun(rest.handle, rest.outcome, pass + rest.calls);
    var create := CreateCall(g.root + "/");
    assert [create] + (pass + rest.calls) == [create] + pass + rest.calls;
    assert Lock(g, replies) == LockRun(rest.handle, rest.outcome, [create] + pass + rest.calls);
  }

  /**
   The lock test of the source is "own name equals the first element of the
   sorted listing"; that is the same as own name being listed with nothing
   below it.
   */
  lemma MinimumIsFirstSorted(own: string, children: seq<string>)
    ensures IsMinimum(own, children) <==> |children| > 0 && SortStrings(children)[0] == own
  {
    DecideCorrect(own, children);
  }

  /**
   A handle whose created node is the only child gets the lock on the first
   listing, with no existence check at all.
   */
  lemma SoleChildGrantedWithoutWatch(root: string, name: string, first: Round, later: seq<Round>)
    requires name != "" && !HasSlash(name)
    requires first.children == [name]
    ensures var r := Lock(NewGlobalLock(root), Replies(Created(name), [first] + later));
            && r.outcome == Granted && r.handle.locked
            && r.calls == [CreateCall(root + "/"), ChildrenCall(root)]
  {
    BaseOfChild(root, name);
    LessIrreflexive(name);
    var rounds := [first] + later;
    assert rounds[0] == first;
    LockAfterCreate(NewGlobalLock(root), Replies(Created(name), rounds));
    AcquireFirstPass(NewGlobalLock(root).(ephemeralPath := ChildPath(root, name)), rounds);
  }

  /**
   In a pass where some child sorts below the handle's own node, the first
   existence check goes to the greatest such child, the immediate
   predecessor, and not to the holder of the lock.
   */
  lemma FirstWatchIsPredecessor(root: string, name: string, rounds: seq<Round>)
    requires name != "" && !HasSlash(name)
    requires |rounds| > 0 && |rounds[0].probes| > 0
    requires HasBelow(name, rounds[0].children)
    ensures var r := Lock(NewGlobalLock(root), Replies(Created(name), rounds));
            && |r.calls| > 2 && r.calls[1] == ChildrenCall(root)
            && exists p :: IsPredecessor(p, name, rounds[0].children)
                           && r.calls[2] == ExistsCall(ChildPath(root, p))
  {
    BaseOfChild(root, name);
    var g := NewGlobalLock(root).(ephemeralPath := ChildPath(root, name));
    LockAfterCreate(NewGlobalLock(root), Replies(Created(name), rounds));
    AcquireFirstPass(g, rounds);
    PredecessorExists(name, rounds[0].children);
    var p :| IsPredecessor(p, name, rounds[0].children);
    var w := WaitFor(rounds[0].probes);
    if w.StillWaiting? {
      assert PassCalls(root, p, |rounds[0].probes|)[1] == ExistsCall(ChildPath(root, p));
    } else {
      assert w.asked >= 1;
      assert PassCalls(root, p, w.asked)[1] == ExistsCall(ChildPath(root, p));
    }
  }

  /**
   A three-node example in general form: a holder, a waiter and a new node
   listed in that order. The new node watches the waiter, its immediate
   predecessor, and not the holder.
   */
  lemma WatchesImmediatePredecessor(holder: string, pred: string, own: string)
    requires Less(holder, pred) && Less(pred, own)
    ensures Decide(own, [holder, pred, own]) == Watch(pred)
  {
    var cs := [holder, pred, own];
    DecideCorrect(own, cs);
    assert cs[1] in cs;
    LessIrreflexive(own);
    LessAsymmetric(holder, pred);
  }

  /**
   The names of a three-node example (nodes 1, 3 and 4), sequence numbers
   padded to ten digits as the service names sequential nodes, are in that
   string order.
   */
  lemma ExampleNamesOrdered()
    ensures Less("0000000001", "0000000003") && Less("0000000003", "0000000004")
  {
  }

  /**
   The three-node example (nodes 1, 3 and 4): the node numbered 4 watches the
   one numbered 3, not the holder numbered 1.
   */
  lemma ExampleScenario()
    ensures Decide("0000000004", ["0000000001", "0000000003", "0000000004"]) == Watch("0000000003")
  {
    ExampleNamesOrdered();
    WatchesImmediatePredecessor("0000000001", "0000000003", "0000000004");
  }
}
