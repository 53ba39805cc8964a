# ZooKeeper global lock: a Dafny model

This project models the global lock of the `lock` package (`lock/lock.go`). The
package implements the "Locks" recipe of the ZooKeeper Recipes and Solutions
guide. A `GlobalLock` handle has a lock root, the path of the ephemeral
sequential node it created (`ephemeralPath`) and a `locked` flag. `Lock` works
as follows:

- it returns at once if the handle is locked;
- it refuses if a node from an earlier attempt is still recorded;
- otherwise it creates one node under the root and loops:
  - it lists the children, sorts them with `sort.Strings` and fails on an empty list;
  - it holds the lock when its own node name (`path.Base` of the created path) is first;
  - otherwise it finds the name just below its own with `sort.SearchStrings` and
    checks that node with an existence watch, until the node is reported absent.

`Unlock` deletes the recorded node. When the delete succeeds, it clears both fields.

The coordination client is an oracle. `Lock` takes the answers of the service
as a `Replies` value:

- the answer to the create call;
- then, per pass of the loop, the child listing and the answers to the existence
  checks (one per wake-up).

`Unlock` takes the answer to the delete call. Both operations return the new
handle, the outcome and the list of calls they made on the client. That list is
how the model states "creates no node" and "checks the same node again after a
wake-up".

Files:

- `string_order.dfy` (module `StringOrder`): Go's `<` on strings. It is a strict
  total order, and its properties are proved.
- `go_sort.dfy` (module `GoSort`): `sort.Strings` and `sort.SearchStrings`.
- `go_path.dfy` (module `GoPath`): `path.Base`.
- `coordination.dfy` (module `Coordination`): oracle answers and client calls.
- `lock.dfy` (module `LockRecipe`): the handle, the decision step, the wait
  loop, `Lock` and `Unlock`.
- `lock_properties.dfy` (module `LockProperties`): properties that relate
  several calls.

On line 82, `children[myIndex-1]` indexes at -1 when `myIndex` is 0. Go panics
there. The model does not rule this out with a precondition. It has an explicit
outcome for it (`Decision.IndexOutOfRange`, `Outcome.Crashed`), and
`DecideCorrect` states exactly when it happens: the listing is non-empty and
every listed name sorts above the handle's own name. So the handle's own node
is missing from the listing, as after the session that created it has expired.

Strings are sequences of Unicode code points. Go compares the UTF-8 bytes, and
UTF-8 preserves code point order, so both orders agree.

## Model

| member | source | states |
|---|---|---|
| GoSort.SortStrings | lock/lock.go:66 | the result is sorted in Go's string order and is a permutation (same multiset) of the listing |
| GoSort.SortedPermutationUnique | lock/lock.go:66 | two sorted permutations of the same strings are equal, so every correct sort (Go's is unstable) gives the same list as the model |
| GoSort.SearchStrings | lock/lock.go:78 | on a sorted list the index splits it: every element before it is strictly below the searched name, every element from it on is at or above |
| GoSort.SearchWindow | lock/lock.go:78 | the halving search of `sort.Search` keeps the invariant that everything left of the window is below the name and everything right of it is at or above, and ends inside the window |
| GoSort.SearchPredecessor | lock/lock.go:78-82 | when the search index is at least 1, the element before it is strictly below the name and is the greatest element below it |
| GoSort.SearchAtStart | lock/lock.go:78-82 | the search index is 0 exactly when no element is strictly below the name, which is when `myIndex-1` is out of range |
| GoPath.Base | lock/lock.go:73 | `path.Base` is never empty and gives "." for the empty path. Otherwise it gives "/" exactly when the path is all slashes, and else the last element: a slash-free suffix of the path without its trailing slashes that starts at the beginning or right after a '/' |
| GoPath.BaseOfChild | lock/lock.go:52-73 | the base of `root + "/" + name` is `name` for every non-empty slash-free name, so the created path yields the name that the child listing shows |
| GoPath.TrimTrailingSlashes | lock/lock.go:73 | the trailing-slash loop of `path.Base` returns a prefix that does not end in '/' and drops only slashes |
| GoPath.LastSlash | lock/lock.go:73 | the index of the last '/' in the string, with no '/' after it, or -1 when there is none |
| LockRecipe.NewGlobalLock | lock/lock.go:37-39 | a new handle is unlocked, has no recorded node and keeps the given root |
| LockRecipe.DecideCorrect | lock/lock.go:63-82 | one pass: an empty listing fails. The lock is held exactly when own name is listed and nothing is below it. A watch is set exactly when some child is below own name, and the watched child is the greatest one below. The index panic happens exactly when every child is above own name |
| LockRecipe.WaitFor | lock/lock.go:80-92 | the wait loop leaves normally only on an "absent" answer after only "present" answers; it aborts on the first error; it keeps waiting while every answer is "present" |
| LockRecipe.Acquire | lock/lock.go:61-93 | the loop changes only `locked`. It sets `locked` only on a grant, and a grant comes from the last listing made, whose minimum is own name. It makes at most one listing per pass answered. It fails only with the empty-listing or watch error. With no answers it makes no call. It makes only listings and existence checks, and an existence check follows a listing or a check of the same path |
| LockRecipe.Watching | lock/lock.go:80-93 | the watch part of a pass starts with the pass's listing, and any existence check right after it targets the watched child `root + "/" + p`; it keeps the trace shape, fails only with the errors of the loop, and any grant comes from the last listing made |
| LockRecipe.AcquireWatchesPredecessor | lock/lock.go:73-82 | when own name has an immediate predecessor `p` in the listing, the pass watches exactly `p` |
| LockRecipe.AcquireFirstPass | lock/lock.go:63-92 | per pass: an empty listing fails with the empty-listing error naming the node; own name as the minimum grants the lock; every child above own name panics; each after that one listing. Otherwise the immediate predecessor is checked: "absent" leads to the next pass, whose calls follow; a failed check fails the call with its error and the handle unchanged; only "present" answers keep the call waiting |
| LockRecipe.Lock | lock/lock.go:41-96 | when already locked: success with no call and no change. When a node is recorded but not locked: the ambiguous-state error with no call and no change. Otherwise exactly one create call comes first. A failed create leaves no path. A created path stays recorded however the loop ends. The lock is granted only when own name is the minimum of the last listing made |
| LockRecipe.Unlock | lock/lock.go:98-104 | it always deletes the recorded path, without looking at `locked`. On success both fields are cleared (a new handle on the same root). On failure the handle is unchanged. The client's status is returned |
| LockProperties.StepPreservesValid | lock/lock.go:41-104 | one `Lock` or `Unlock` call keeps "locked implies a node is recorded" and keeps the root |
| LockProperties.RunPreservesValid | lock/lock.go:30-104 | every sequence of `Lock` and `Unlock` calls, with any answers from the service, keeps "locked implies a node is recorded" |
| LockProperties.ReachableHandlesValid | lock/lock.go:37-104 | every handle reachable from `NewGlobalLock` holds the lock only with a recorded node |
| LockProperties.NewHandleCreatesNode | lock/lock.go:37-52 | the first `Lock` on a new handle passes both guards: its first call creates a node and it never reports the ambiguous-state error |
| LockProperties.RetryAfterFailedLockRejected | lock/lock.go:47-49 | after a `Lock` that created a node but did not get the lock, the node stays recorded, so the next `Lock` is refused with no call |
| LockProperties.UnlockThenLockCreatesNode | lock/lock.go:98-104 | a successful `Unlock` gives a new handle, and the next `Lock` creates a fresh node |
| LockProperties.LockUnlockRoundTrip | lock/lock.go:37-104 | a lock granted on a new handle needed a created node; releasing it deletes exactly that node's path, and a successful delete leaves exactly a new handle |
| LockProperties.LockEmptyListing | lock/lock.go:52-70 | a created node whose first listing is empty fails `Lock` with the empty-listing error naming the node, after one create and one listing; the node stays recorded, unlocked |
| LockProperties.LockWatchError | lock/lock.go:52-85 | when a child is below the created node and a check of its immediate predecessor fails, `Lock` fails with that error after the create, the listing and the checks; the node stays recorded, unlocked |
| LockProperties.LockWatchThenNextPass | lock/lock.go:61-93 | when the checks report the immediate predecessor absent, `Lock` goes on with the next pass: its calls follow the create, the listing and the checks, and its outcome and handle are the call's |
| LockProperties.MinimumIsFirstSorted | lock/lock.go:66-73 | the source's test "own name equals the first sorted child" holds exactly when own name is listed and no child is below it |
| LockProperties.SoleChildGrantedWithoutWatch | lock/lock.go:52-75 | when the created node is the only child, `Lock` is granted after one create and one listing, with no existence check |
| LockProperties.FirstWatchIsPredecessor | lock/lock.go:78-82 | when some child is below the created node, the first existence check targets the greatest such child, not the current holder |
| LockProperties.WatchesImmediatePredecessor | lock/lock.go:78-82 | with a holder, a waiter and the new node listed in increasing order, the new node watches the waiter and not the holder |
| LockProperties.ExampleNamesOrdered | lock/lock.go:65-66 | the ten-digit names numbered 1, 3 and 4 are in that string order |
| LockProperties.ExampleScenario | lock/lock.go:65-82 | in a three-node example (nodes 1, 3 and 4, ten-digit names), the node numbered 4 watches the one numbered 3, its immediate predecessor, and not the holder numbered 1 |

## Left out

- The ZooKeeper session, the connection and ACLs are not modelled. The four client calls (`Create`, `Children`, `ExistsW`, `Delete`) are foreign I/O and appear only as oracle answers.
- The error returned by `Children` (line 63) is discarded by the source. The model's listing is whatever list the call returned, so a failed listing shows up only through the list it came with.
- The value `Create` returns together with an error is not modelled. The model takes it to be the empty path, which is what the client library reports on failure; line 52 assigns it to `ephemeralPath`.
- Blocking on the watch channel (`<-w`, line 91) is a notification primitive. In the model it is only "the oracle answers the next existence check".
- The outer loop is unbounded. The model runs it on a finite list of answers, and the outcome `Blocked` stands for "the call has not returned yet". Termination of the loop depends on other clients and is not modelled.
- Properties across many clients are not modelled: mutual exclusion, FIFO fairness, no herd wake-up. They depend on other processes and on the service's atomic sequence numbers.
- The numeric meaning of the sequence suffixes is not modelled. The code compares names only as strings.
- `sort.Strings` is modelled by an insertion sort, not Go's pattern-defeating quicksort. `SortedPermutationUnique` shows that the result is the same.
- Integer widths are not modelled: Go's overflow-safe midpoint `int(uint(i+j) >> 1)` is `(i + j) / 2` for the non-negative indices it sees.
- LockProperties.FirstWatchIsPredecessor: states the predecessor property for the first pass only. A later pass is the first pass of `Acquire` on the remaining answers, so `LockRecipe.AcquireFirstPass` applied to `rounds[k..]` gives the same property for pass `k`; the model has no lemma that quantifies over all passes at once.
