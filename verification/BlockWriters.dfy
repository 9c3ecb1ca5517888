/** Writing one block to all of its replicas at once. */
module BlockWriters {
  import opened Common
  import opened Clusters

  /** One worker's copy while it is written: what it holds, the position and size the client counts, and whether the
      worker is reached over the network. */
  datatype Replica = Replica(data: seq<byte>, pos: int, len: int, remote: bool)

  /** A worker does not open a block that has as many bytes as the client would write to it, nor a new block
      with an id it knows. */
  predicate Refuses(len: nat, blockSize: nat, known: bool) {
    if len > 0 then len >= blockSize else known
  }

  /** Which workers fail, in a reliable world none. */
  method AnyFailing(reliable: bool) returns (failing: set<nat>)
    ensures reliable ==> failing == {}
  {
    failing := *;
    failing := if reliable then {} else failing;
  }

  class BlockWriter {
    const id: int
    const locs: seq<nat>
    var replicas: seq<Replica>
    var completed: bool

    /** Every replica holds the same bytes, and the positions count them. */
    ghost predicate Valid()
      reads this
    {
      && |replicas| == |locs| > 0
      && forall i :: 0 <= i < |replicas| ==>
           && replicas[i].data == replicas[0].data && replicas[i].len == replicas[0].len
           && replicas[i].pos == |replicas[i].data|
    }

    ghost function Data(): seq<byte>
      requires Valid()
      reads this
    {
      replicas[0].data
    }

    constructor (block: LocatedBlock, blockSize: nat, held: seq<byte>, local: set<nat>)
      requires block.locs != [] && block.len == |held|
      ensures Valid() && Data() == held && id == block.id && replicas[0].len == blockSize && !completed
      ensures locs == block.locs && forall i :: 0 <= i < |locs| ==> replicas[i].remote == (locs[i] !in local)
    {
      id, locs, completed := block.id, block.locs, false;
      replicas := seq(|block.locs|, i requires 0 <= i < |block.locs| =>
                        Replica(held, block.len, blockSize, block.locs[i] !in local));
    }

    /** Open the block on each of its workers, which hold its bytes so far and know its id, or do not. It fails if there
        is none, if one `fails`, or if they refuse the block. */
    static method Open(block: LocatedBlock, blockSize: nat, held: seq<byte>, known: bool, local: set<nat>, fails: bool)
      returns (r: Result<BlockWriter>)
      requires block.len == |held|
      ensures r.Ok? <==> block.locs != [] && !fails && if held == [] then !known else |held| < blockSize
      ensures r.Err? ==> r.error == if block.locs == [] then NoWorker else if fails then Io else Rejected
      ensures r.Ok? ==> fresh(r.value) && r.value.Valid() && r.value.Data() == held && r.value.id == block.id
      ensures r.Ok? ==> r.value.replicas[0].len == blockSize && !r.value.completed && r.value.locs == block.locs
    {
      if block.locs == [] {
        return Err(NoWorker);
      }
      if fails {
        return Err(Io);
      }
      if Refuses(block.len, blockSize, known) {
        return Err(Rejected);
      }
      var writer := new BlockWriter(block, blockSize, held, local);
      r := Ok(writer);
    }

    function Pos(): int
      requires replicas != []
      reads this
    {
      replicas[0].pos
    }

    function Remaining(): int
      requires replicas != []
      reads this
    {
      replicas[0].len - replicas[0].pos
    }

    /** A replica does not take the chunk: its worker fails, or is reached over the network and has no room. */
    ghost predicate Misses(i: nat, chunk: seq<byte>, failing: set<nat>)
      requires i < |replicas|
      reads this
    {
      i in failing || (replicas[i].remote && replicas[i].pos + |chunk| > replicas[i].len)
    }

    /** The same bytes go to every replica, in whatever order the workers answer. One replica that misses them fails
        the write and leaves the copies apart. */
    method Write(chunk: seq<byte>, failing: set<nat>) returns (r: Result<()>)
      requires Valid() && !completed
      modifies this`replicas
      ensures r.Err? <==> exists i :: 0 <= i < |old(replicas)| && old(Misses(i, chunk, failing))
      ensures r.Err? ==> || (r.error == Io && exists i :: 0 <= i < |old(replicas)| && i in failing)
                         || (r.error == Rejected && |chunk| > old(Remaining()))
      ensures r.Ok? ==> Valid() && Data() == old(Data()) + chunk && replicas[0].len == old(replicas[0].len)
    {
      ghost var before := replicas;
      for i := 0 to |replicas|
        invariant |replicas| == |before|
        invariant forall j :: 0 <= j < i ==> !old(Misses(j, chunk, failing))
        invariant forall j :: 0 <= j < i ==>
                    && replicas[j].data == before[j].data + chunk && replicas[j].pos == before[j].pos + |chunk|
                    && replicas[j].len == before[j].len && replicas[j].remote == before[j].remote
        invariant forall j :: i <= j < |replicas| ==> replicas[j] == before[j]
      {
        var it := replicas[i];
        if i in failing {
          assert old(Misses(i, chunk, failing));
          return Err(Io);
        }
        if it.remote && it.pos + |chunk| > it.len {
          assert old(Misses(i, chunk, failing));
          return Err(Rejected);
        }
        replicas := replicas[i := Replica(it.data + chunk, it.pos + |chunk|, it.len, it.remote)];
      }
      r := Ok(());
    }

    /** Every worker commits its copy, once; the report names the length all of them hold. */
    method Complete(cluster: Cluster, failing: set<nat>) returns (r: Result<CommitBlock>)
      requires Valid() && !completed
      modifies this`completed, cluster`stored
      ensures r.Err? <==> exists i :: 0 <= i < |replicas| && i in failing
      ensures r.Err? ==> r.error == Io && cluster.stored == old(cluster.stored) && !completed
      ensures r.Ok? ==> Valid() && completed && r.value == CommitBlock(id, |Data()|)
      ensures r.Ok? ==> cluster.stored == old(cluster.stored)[id := Data()]
    {
      for i := 0 to |replicas|
        invariant Valid() && !completed && cluster.stored == old(cluster.stored)
        invariant forall j :: 0 <= j < i ==> j !in failing
      {
        if i in failing {
          return Err(Io);
        }
      }
      cluster.Store(id, replicas[0].data);
      completed := true;
      r := Ok(CommitBlock(id, Pos()));
    }
  }
}
