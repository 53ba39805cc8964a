/**
 The coordination client as the lock sees it: the answers its four calls can
 give, and a record of the calls the lock makes. The client itself (the
 ZooKeeper connection, its session, ACLs and wire protocol) is not modelled;
 each answer is an input the caller supplies.
 */
module Coordination {

  /** An error code reported by the client; the lock passes it on untouched. */
  datatype ClientError = ClientError(code: int)

  /**
   Answer to creating an ephemeral, sequential node under the lock root:
   the service picks the node's name (the sequence suffix).
   */
  datatype CreateReply = Created(name: string) | CreateFailed(cause: ClientError)

  /** Answer to an existence check that also registers a one-shot watch. */
  datatype ExistsReply = Present | Absent | ExistsFailed(cause: ClientError)

  /** Answer to a delete, and the shape of an error return: nil or an error. */
  datatype Status = Ok | Err(cause: ClientError)

  /**
   What the service answers during one pass of the acquisition loop: the
   child listing, then the answers to the existence checks on the watched
   node, one per wake-up. A listing error is not visible to the lock, so a
   failed listing appears here as whatever list came back with it.
   */
  datatype Round = Round(children: seq<string>, probes: seq<ExistsReply>)

  /** Everything the service answers during one `Lock` call, in order. */
  datatype Replies = Replies(create: CreateReply, rounds: seq<Round>)

  /** A call the lock makes on the client, with the path it passes. */
  datatype Call =
    | CreateCall(path: string)
    | ChildrenCall(path: string)
    | ExistsCall(path: string)
    | DeleteCall(path: string)

  /** The full path of child `name` of `root`. */
  function ChildPath(root: string, name: string): string
  {
    root + "/" + name
  }

  /** The calls of `n` existence checks on the same path. */
  function ExistsCalls(path: string, n: nat): (cs: seq<Call>)
    ensures |cs| == n
    ensures forall i :: 0 <= i < n ==> cs[i] == ExistsCall(path)
  {
    seq(n, _ => ExistsCall(path))
  }
}
