/**
 The global lock handle of the ZooKeeper lock recipe ("Locks" in the ZooKeeper
 Recipes and Solutions guide): a handle creates an ephemeral sequential node
 under the lock root, lists the root's children, holds the lock when its own
 node sorts first, and otherwise watches the child just below its own and
 lists again once that child is gone. Releasing deletes the node.

 The coordination client is an oracle: `Lock` and `Unlock` take its answers
 as inputs and return, besides the new handle and the outcome, the calls they
 made on it.
 */
module LockRecipe {
  import opened StringOrder
  import opened GoSort
  import opened GoPath
  import opened Coordination

  /** The handle: the lock root, the path of the node it created ("" if none), and whether it holds the lock. */
  datatype GlobalLock = GlobalLock(root: string, ephemeralPath: string, locked: bool)

  /** The errors `Lock` returns. */
  datatype LockError =
    | AmbiguousState(path: string)      // unlocked, but a node from an earlier attempt is still recorded
    | CreateError(cause: ClientError)   // creating the node failed
    | NoChildren(path: string)          // the child listing came back empty
    | WatchError(cause: ClientError)    // the existence check on the watched node failed

  /**
   How a `Lock` call ends. `Crashed` is the Go runtime panic of indexing a
   slice at -1; `Blocked` means the given answers ran out while the call was
   still waiting or about to list again, so it has not returned yet.
   */
  datatype Outcome = Granted | Failed(error: LockError) | Crashed | Blocked

  datatype LockRun = LockRun(handle: GlobalLock, outcome: Outcome, calls: seq<Call>)

  datatype UnlockRun = UnlockRun(handle: GlobalLock, status: Status, calls: seq<Call>)

  /** A fresh handle on `root`: no node, not locked. */
  function NewGlobalLock(root: string): (g: GlobalLock)
    ensures g.root == root && g.ephemeralPath == "" && !g.locked
  {
    GlobalLock(root, "", false)
  }

  /** `own` is listed and no listed name sorts below it. */
  ghost predicate IsMinimum(own: string, children: seq<string>)
  {
    own in children && forall c :: c in children ==> LessEq(own, c)
  }

  /** Some listed name sorts strictly below `own`. */
  ghost predicate HasBelow(own: string, children: seq<string>)
  {
    exists c :: c in children && Less(c, own)
  }

  /** `p` is the greatest listed name strictly below `own`. */
  ghost predicate IsPredecessor(p: string, own: string, children: seq<string>)
  {
    && p in children
    && Less(p, own)
    && forall c :: c in children && Less(c, own) ==> LessEq(c, p)
  }

  /** What one pass of the acquisition loop decides from a child listing. */
  datatype Decision =
    | Empty                       // no children: error
    | Holds                       // own name sorts first: the lock is held
    | Watch(predecessor: string)  // watch this child, the one just below own name
    | IndexOutOfRange             // the predecessor index is -1: Go panics

  /**
   The decision step of `Lock`: sort the listing, fail if it is empty, hold
   the lock if `own` comes first, otherwise take the element just before the
   position `sort.SearchStrings` finds for `own`.
   */
  function Decide(own: string, children: seq<string>): Decision
  {
    var sorted := SortStrings(children);
    if |sorted| == 0 then Empty
    else if sorted[0] == own then Holds
    else
      var i := SearchStrings(sorted, own);
      if i == 0 then IndexOutOfRange else Watch(sorted[i - 1])
  }

  /**
   The decision step, stated without reference to sorting or searching:
   it holds the lock exactly when `own` is listed and no listed name is below
   it; it watches exactly when some listed name is below `own`, and then the
   watched name is the greatest such; it panics exactly when the listing is
   non-empty and every listed name is above `own` (so `own` itself is not
   listed).
   */
  lemma DecideCorrect(own: string, children: seq<string>)
    ensures Decide(own, children) == Empty <==> |children| == 0
    ensures Decide(own, children) == Holds <==> IsMinimum(own, children)
    ensures Decide(own, children).Watch? <==> HasBelow(own, children)
    ensures Decide(own, children).Watch? ==> IsPredecessor(Decide(own, children).predecessor, own, children)
    ensures Decide(own, children) == IndexOutOfRange
            <==> |children| > 0 && forall c :: c in children ==> Less(own, c)
  {
    var sorted := SortStrings(children);
    forall x
      ensures x in sorted <==> x in children
    {
      SortStringsMembers(children, x);
    }
    assert |sorted| == |multiset(sorted)| == |multiset(children)| == |children|;
    if |sorted| > 0 {
      FirstIsMinimum(own, sorted, children);
      var i := SearchStrings(sorted, own);
      SearchAtStart(sorted, own);
      if sorted[0] != own {
        if i == 0 {
          AllAboveWhenNotFirst(own, sorted, children);
        } else {
          SearchPredecessor(sorted, own);
          BelowWhenSearchPositive(own, sorted, children);
        }
      } else {
        LessIrreflexive(own);
        NotAllAboveWhenFirst(own, sorted, children);
        assert !HasBelow(own, children) by {
          if HasBelow(own, children) {
            var c :| c in children && Less(c, own);
            LessAsymmetric(c, own);
          }
        }
      }
    }
  }

  lemma FirstIsMinimum(own: string, sorted: seq<string>, children: seq<string>)
    requires Sorted(sorted) && |sorted| > 0
    requires forall x :: x in sorted <==> x in children
    ensures sorted[0] == own <==> IsMinimum(own, children)
  {
    if IsMinimum(own, children) {
      assert LessEq(own, sorted[0]);
      var k :| 0 <= k < |sorted| && sorted[k] == own;
      assert LessEq(sorted[0], own);
      LessEqAntisymmetric(own, sorted[0]);
    }
    if sorted[0] == own {
      forall c | c in children
        ensures LessEq(own, c)
      {
        var k :| 0 <= k < |sorted| && sorted[k] == c;
      }
    }
  }

  lemma AllAboveWhenNotFirst(own: string, sorted: seq<string>, children: seq<string>)
    requires Sorted(sorted) && |sorted| > 0 && sorted[0] != own
    requires forall x :: x in sorted <==> x in children
    requires forall y :: y in sorted ==> LessEq(own, y)
    ensures forall c :: c in children ==> Less(own, c)
    ensures !HasBelow(own, children)
  {
    forall c | c in children
      ensures Less(own, c)
    {
      if c == own {
        var k :| 0 <= k < |sorted| && sorted[k] == c;
        assert LessEq(sorted[0], own);
        LessEqAntisymmetric(own, sorted[0]);
      }
    }
    if HasBelow(own, children) {
      var c :| c in children && Less(c, own);
      LessAsymmetric(c, own);
    }
  }

  lemma BelowWhenSearchPositive(own: string, sorted: seq<string>, children: seq<string>)
    requires Sorted(sorted) && |sorted| > 0
    requires forall x :: x in sorted <==> x in children
    requires Less(sorted[0], own)
    ensures HasBelow(own, children)
    ensures !(forall c :: c in children ==> Less(own, c))
  {
    assert sorted[0] in children;
    LessAsymmetric(sorted[0], own);
  }

  lemma NotAllAboveWhenFirst(own: string, sorted: seq<string>, children: seq<string>)
    requires |sorted| > 0 && sorted[0] == own
    requires forall x :: x in sorted <==> x in children
    ensures !(forall c :: c in children ==> Less(own, c))
  {
    assert own in children;
    LessIrreflexive(own);
  }

  /** How the inner wait loop ends. `asked` counts the existence checks made. */
  datatype WaitResult = Gone(asked: nat) | Aborted(cause: ClientError, asked: nat) | StillWaiting

  ghost predicate AllPresent(probes: seq<ExistsReply>)
  {
    forall i :: 0 <= i < |probes| ==> probes[i] == Present
  }

  /**
   The inner loop of `Lock` on one watched node: each answer "present" is
   followed by a wake-up and another check of the same node; "absent" leaves
   the loop so the children are listed again; an error leaves `Lock`.
   */
  function WaitFor(probes: seq<ExistsReply>): (w: WaitResult)
    ensures w.Gone? ==> 1 <= w.asked <= |probes| && probes[w.asked - 1] == Absent
                        && AllPresent(probes[..w.asked - 1])
    ensures w.Aborted? ==> 1 <= w.asked <= |probes| && probes[w.asked - 1] == ExistsFailed(w.cause)
                           && AllPresent(probes[..w.asked - 1])
    ensures w.StillWaiting? <==> AllPresent(probes)
  {
    if |probes| == 0 then StillWaiting
    else match probes[0]
      case Absent => Gone(1)
      case ExistsFailed(e) => Aborted(e, 1)
      case Present =>
        match WaitFor(probes[1..])
        case Gone(n) =>
          assert probes[..n] == [probes[0]] + probes[1..][..n - 1];
          Gone(n + 1)
        case Aborted(e, n) =>
          assert probes[..n] == [probes[0]] + probes[1..][..n - 1];
          Aborted(e, n + 1)
        case StillWaiting => StillWaiting
  }

  /** Only the calls the acquisition loop makes: listings of `root` and existence checks. */
  ghost predicate ListsAndWatches(calls: seq<Call>, root: string)
  {
    forall i :: 0 <= i < |calls| ==> calls[i] == ChildrenCall(root) || calls[i].ExistsCall?
  }

  /**
   After a wake-up the loop checks the same node again: an existence check
   comes right after a listing or right after a check of the same path.
   */
  ghost predicate RechecksSameNode(calls: seq<Call>, root: string)
  {
    forall i :: 0 < i < |calls| && calls[i].ExistsCall? ==>
      calls[i - 1] == ChildrenCall(root) || calls[i - 1] == calls[i]
  }

  /** The number of child listings among `calls`. */
  function Listings(calls: seq<Call>): nat
  {
    if |calls| == 0 then 0
    else (if calls[0].ChildrenCall? then 1 else 0) + Listings(calls[1..])
  }

  lemma {:induction false} ListingsAppend(a: seq<Call>, b: seq<Call>)
    ensures Listings(a + b) == Listings(a) + Listings(b)
    decreases |a|
  {
    if |a| > 0 {
      assert (a + b)[0] == a[0] && (a + b)[1..] == a[1..] + b;
      ListingsAppend(a[1..], b);
    } else {
      assert a + b == b;
    }
  }

  /** The own node name of a handle: the last element of its recorded path. */
  function Own(g: GlobalLock): string
  {
    Base(g.ephemeralPath)
  }

  /** The calls of one pass that watched child `p`: a listing, then `n` checks of `p`. */
  function PassCalls(root: string, p: string, n: nat): seq<Call>
  {
    [ChildrenCall(root)] + ExistsCalls(ChildPath(root, p), n)
  }

  /** A pass's calls are one listing followed by checks of a single path. */
  lemma PassTrace(root: string, p: string, n: nat)
    ensures var cs := PassCalls(root, p, n);
            && ListsAndWatches(cs, root) && RechecksSameNode(cs, root)
            && cs[0] == ChildrenCall(root) && Listings(cs) == 1
            && |cs| == n + 1 && (n > 0 ==> cs[1] == ExistsCall(ChildPath(root, p)))
  {
    var cs := PassCalls(root, p, n);
    ListingsAppend([ChildrenCall(root)], ExistsCalls(ChildPath(root, p), n));
    assert Listings(ExistsCalls(ChildPath(root, p), n)) == 0 by {
      NoListings(ExistsCalls(ChildPath(root, p), n));
    }
  }

  /** A lone listing of `root` has the trace shape and counts once. */
  lemma SingleListing(root: string)
    ensures var cs := [ChildrenCall(root)];
            && ListsAndWatches(cs, root) && RechecksSameNode(cs, root) && Listings(cs) == 1
  {
    assert [ChildrenCall(root)][1..] == [];
  }

  lemma {:induction false} NoListings(calls: seq<Call>)
    requires forall i :: 0 <= i < |calls| ==> calls[i].ExistsCall?
    ensures Listings(calls) == 0
    decreases |calls|
  {
    if |calls| > 0 {
      NoListings(calls[1..]);
    }
  }

  lemma TraceJoin(root: string, a: seq<Call>, b: seq<Call>)
    requires ListsAndWatches(a, root) && RechecksSameNode(a, root)
    requires ListsAndWatches(b, root) && RechecksSameNode(b, root)
    requires |b| > 0 ==> b[0] == ChildrenCall(root)
    ensures ListsAndWatches(a + b, root) && RechecksSameNode(a + b, root)
  {
    var ab := a + b;
    forall i | 0 < i < |ab| && ab[i].ExistsCall?
      ensures ab[i - 1] == ChildrenCall(root) || ab[i - 1] == ab[i]
    {
      if i > |a| {
        assert ab[i] == b[i - |a|] && ab[i - 1] == b[i - 1 - |a|];
      }
    }
  }

  /** A listing has at most one immediate predecessor of a name. */
  lemma PredecessorUnique(p: string, q: string, own: string, children: seq<string>)
    requires IsPredecessor(p, own, children) && IsPredecessor(q, own, children)
    ensures p == q
  {
    LessEqAntisymmetric(p, q);
  }

  /**
   A pass that watched `p` and saw it disappear, followed by the run of the
   remaining passes: the joined calls keep the trace shape, and a grant by the
   later run comes from the last listing of the joined calls.
   */
  lemma PassThenRest(g: GlobalLock, rounds: seq<Round>, p: string, n: nat, rest: LockRun)
    requires |rounds| > 0
    requires Listings(rest.calls) <= |rounds| - 1
    requires rest.outcome == Granted ==>
               Listings(rest.calls) >= 1 && IsMinimum(Own(g), rounds[1..][Listings(rest.calls) - 1].children)
    requires |rest.calls| > 0 ==> rest.calls[0] == ChildrenCall(g.root)
    requires ListsAndWatches(rest.calls, g.root) && RechecksSameNode(rest.calls, g.root)
    ensures var calls := PassCalls(g.root, p, n) + rest.calls;
            && Listings(calls) == Listings(rest.calls) + 1 <= |rounds|
            && (rest.outcome == Granted ==> IsMinimum(Own(g), rounds[Listings(calls) - 1].children))
            && calls[0] == ChildrenCall(g.root)
            && (n > 0 ==> calls[1] == ExistsCall(ChildPath(g.root, p)))
            && ListsAndWatches(calls, g.root) && RechecksSameNode(calls, g.root)
  {
    PassTrace(g.root, p, n);
    TraceJoin(g.root, PassCalls(g.root, p, n), rest.calls);
    ListingsAppend(PassCalls(g.root, p, n), rest.calls);
    if rest.outcome == Granted {
      var k := Listings(rest.calls) - 1;
      assert rounds[k + 1] == rounds[1..][k];
    }
  }

  /** When some child is below own name, one of them is its immediate predecessor. */
  lemma PredecessorExists(own: string, children: seq<string>)
    requires HasBelow(own, children)
    ensures exists p :: IsPredecessor(p, own, children)
  {
    DecideCorrect(own, children);
  }

  /**
   The acquisition loop of `Lock` from the first listing on, driven by the
   service's answers for successive passes. Each pass lists the children and
   then, by what the listing means for the handle's own name: fails on an
   empty listing, takes the lock when own name is the minimum, panics when
   every child is above own name, and otherwise checks the immediate
   predecessor until it is reported absent (then the next pass follows), a
   check fails (the call fails) or the answers run out. Only `locked`
   changes, and only on a grant, which comes from the last listing made.
   */
  function Acquire(g: GlobalLock, rounds: seq<Round>): (r: LockRun)
    ensures r.handle.root == g.root && r.handle.ephemeralPath == g.ephemeralPath
    ensures r.handle.locked == (g.locked || r.outcome == Granted)
    ensures Listings(r.calls) <= |rounds|
    ensures r.outcome == Granted ==>
              Listings(r.calls) >= 1 && IsMinimum(Own(g), rounds[Listings(r.calls) - 1].children)
    ensures r.outcome.Failed? ==>
              r.outcome.error == NoChildren(g.ephemeralPath) || r.outcome.error.WatchError?
    ensures |r.calls| > 0 ==> r.calls[0] == ChildrenCall(g.root)
    ensures ListsAndWatches(r.calls, g.root) && RechecksSameNode(r.calls, g.root)
    // no answers left: the call is still waiting and has made no call
    ensures |rounds| == 0 ==> r == LockRun(g, Blocked, [])
    decreases |rounds|, 1
  {
    if |rounds| == 0 then LockRun(g, Blocked, [])
    else
      var own := Own(g);
      var listed := [ChildrenCall(g.root)];
      DecideCorrect(own, rounds[0].children);
      SingleListing(g.root);
      match Decide(own, rounds[0].children)
      case Empty => LockRun(g, Failed(NoChildren(g.ephemeralPath)), listed)
      case Holds => LockRun(g.(locked := true), Granted, listed)
      case IndexOutOfRange => LockRun(g, Crashed, listed)
      case Watch(p) => Watching(g, rounds, p)
  }

  /**
   The rest of a pass of `Acquire` that watches child `p`: the existence
   checks on `p`, then the next pass once `p` is reported absent.
   */
  function Watching(g: GlobalLock, rounds: seq<Round>, p: string): (r: LockRun)
    requires |rounds| > 0
    ensures r.handle.root == g.root && r.handle.ephemeralPath == g.ephemeralPath
    ensures r.handle.locked == (g.locked || r.outcome == Granted)
    ensures Listings(r.calls) <= |rounds|
    ensures r.outcome == Granted ==>
              Listings(r.calls) >= 1 && IsMinimum(Own(g), rounds[Listings(r.calls) - 1].children)
    ensures r.outcome.Failed? ==>
              r.outcome.error == NoChildren(g.ephemeralPath) || r.outcome.error.WatchError?
    ensures |r.calls| > 0 && r.calls[0] == ChildrenCall(g.root)
    // the checks go to child `p`
    ensures |r.calls| > 1 ==> r.calls[1] == ExistsCall(ChildPath(g.root, p))
    ensures ListsAndWatches(r.calls, g.root) && RechecksSameNode(r.calls, g.root)
    decreases |rounds|, 0
  {
    match WaitFor(rounds[0].probes)
    case Gone(n) =>
      assert n >= 1;
      var rest := Acquire(g, rounds[1..]);
      PassThenRest(g, rounds, p, n, rest);
      LockRun(rest.handle, rest.outcome, PassCalls(g.root, p, n) + rest.calls)
    case Aborted(e, n) =>
      PassTrace(g.root, p, n);
      LockRun(g, Failed(WatchError(e)), PassCalls(g.root, p, n))
    case StillWaiting =>
      PassTrace(g.root, p, |rounds[0].probes|);
      LockRun(g, Blocked, PassCalls(g.root, p, |rounds[0].probes|))
  }

  /** A pass whose listing has `p` as own name's immediate predecessor watches `p`. */
  lemma AcquireWatchesPredecessor(g: GlobalLock, rounds: seq<Round>, p: string)
    requires |rounds| > 0 && IsPredecessor(p, Own(g), rounds[0].children)
    ensures Acquire(g, rounds) == Watching(g, rounds, p)
  {
    DecideCorrect(Own(g), rounds[0].children);
    PredecessorUnique(p, Decide(Own(g), rounds[0].children).predecessor, Own(g), rounds[0].children);
  }

  /**
   One pass of `Acquire`, by what its listing means for the handle's own name:
   an empty listing fails, a listing whose minimum is own name grants the lock,
   and a listing entirely above own name panics, each after that one listing.
   When some child is below own name, the checks go to the immediate
   predecessor `p` and are repeated after each "present"; "absent" leads to
   the next pass, whose calls follow, a failed check fails the call with the
   handle unchanged, and while every answer is "present" the call waits.
   */
  lemma AcquireFirstPass(g: GlobalLock, rounds: seq<Round>)
    requires |rounds| > 0
    ensures var r := Acquire(g, rounds);
            var cs := rounds[0].children;
            var w := WaitFor(rounds[0].probes);
            && (|cs| == 0 ==>
                  r == LockRun(g, Failed(NoChildren(g.ephemeralPath)), [ChildrenCall(g.root)]))
            && (IsMinimum(Own(g), cs) ==>
                  r == LockRun(g.(locked := true), Granted, [ChildrenCall(g.root)]))
            && (|cs| > 0 && (forall c :: c in cs ==> Less(Own(g), c)) ==>
                  r == LockRun(g, Crashed, [ChildrenCall(g.root)]))
            && (forall p :: IsPredecessor(p, Own(g), cs) && w.Gone? ==>
                  var rest := Acquire(g, rounds[1..]);
                  r == LockRun(rest.handle, rest.outcome, PassCalls(g.root, p, w.asked) + rest.calls))
            && (forall p :: IsPredecessor(p, Own(g), cs) && w.Aborted? ==>
                  r == LockRun(g, Failed(WatchError(w.cause)), PassCalls(g.root, p, w.asked)))
            && (forall p :: IsPredecessor(p, Own(g), cs) && w.StillWaiting? ==>
                  r == LockRun(g, Blocked, PassCalls(g.root, p, |rounds[0].probes|)))
  {
    var cs := rounds[0].children;
    DecideCorrect(Own(g), cs);
    var d := Decide(Own(g), cs);
    forall p | IsPredecessor(p, Own(g), cs)
      ensures d == Watch(p)
    {
      PredecessorUnique(p, d.predecessor, Own(g), cs);
    }
  }

  /**
   `Lock`: returns at once when the handle already holds the lock, refuses
   when an earlier node is still recorded, and otherwise creates one node and
   runs the acquisition loop on it.
   */
  function Lock(g: GlobalLock, replies: Replies): (r: LockRun)
    ensures r.handle.root == g.root
    ensures r.handle.locked <==> g.locked || r.outcome == Granted
    // already locked: success, no call, nothing changes
    ensures g.locked ==> r == LockRun(g, Granted, [])
    // a node is recorded but not locked: error, no call, nothing changes
    ensures !g.locked && g.ephemeralPath != "" ==>
              r == LockRun(g, Failed(AmbiguousState(g.ephemeralPath)), [])
    // otherwise exactly one node is created, by the first call
    ensures !g.locked && g.ephemeralPath == "" ==>
              && |r.calls| > 0 && r.calls[0] == CreateCall(g.root + "/")
              && ListsAndWatches(r.calls[1..], g.root) && RechecksSameNode(r.calls[1..], g.root)
    // creation failed: its error, path as the client returned it (none), not locked
    ensures !g.locked && g.ephemeralPath == "" && replies.create.CreateFailed? ==>
              r.outcome == Failed(CreateError(replies.create.cause))
              && r.handle.ephemeralPath == "" && |r.calls| == 1
    // creation succeeded: the created path stays recorded however the loop ends
    ensures !g.locked && g.ephemeralPath == "" && replies.create.Created? ==>
              r.handle.ephemeralPath == ChildPath(g.root, replies.create.name)
    // the lock is granted only to a node whose name is the minimum of the last listing made
    ensures !g.locked && r.handle.locked ==>
              && replies.create.Created?
              && r.handle.ephemeralPath == ChildPath(g.root, replies.create.name)
              && 1 <= Listings(r.calls) <= |replies.rounds|
              && IsMinimum(Own(r.handle), replies.rounds[Listings(r.calls) - 1].children)
  {
    if g.locked then LockRun(g, Granted, [])
    else if |g.ephemeralPath| > 0 then LockRun(g, Failed(AmbiguousState(g.ephemeralPath)), [])
    else
      var create := CreateCall(g.root + "/");
      match replies.create
      case CreateFailed(e) => LockRun(g.(ephemeralPath := ""), Failed(CreateError(e)), [create])
      case Created(name) =>
        var rest := Acquire(g.(ephemeralPath := ChildPath(g.root, name)), replies.rounds);
        assert ([create] + rest.calls)[1..] == rest.calls;
        assert Listings([create] + rest.calls) == Listings(rest.calls);
        LockRun(rest.handle, rest.outcome, [create] + rest.calls)
  }

  /**
   `Unlock`: deletes the recorded node (whatever `locked` says) and, when the
   delete succeeds, forgets it and the lock; when it fails, nothing changes.
   */
  function Unlock(g: GlobalLock, reply: Status): (r: UnlockRun)
    ensures r.calls == [DeleteCall(g.ephemeralPath)]
    ensures r.status == reply
    ensures reply == Ok ==> r.handle == NewGlobalLock(g.root)
    ensures reply.Err? ==> r.handle == g
  {
    match reply
    case Ok => UnlockRun(g.(ephemeralPath := "", locked := false), reply, [DeleteCall(g.ephemeralPath)])
    case Err(_) => UnlockRun(g, reply, [DeleteCall(g.ephemeralPath)])
  }
}
