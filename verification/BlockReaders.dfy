/** Reading one block: the session with a replica, its one-shot offset header, and failover. */
module BlockReaders {
  import opened Common
  import opened FileBlocks

  /** A replica is reached over the network, or its block file is opened in place (short circuit). */
  datatype Kind = Local | Remote

  /**
    * One open read session. `pos` is the client's position in the block and `header` the offset it
    * will attach to the next request. `cursor` is the cursor of the open block file: the worker's
    * for a remote session, the process's own for a local one.
    */
  datatype Session = Session(kind: Kind, pos: int, cursor: int, header: Option<int>)

  /** How a read may go wrong, by how far it got before the error. */
  datatype Fault =
    | NoFault
    | RequestLost     // nothing happened at the replica
    | ReplicaError    // the replica took the header, then failed to read
    | HalfRead(n: nat) // the replica failed after so many bytes, and its cursor stayed there
    | ReplyLost       // the replica read, but the answer did not arrive

  function OpenSession(kind: Kind, off: int): Session {
    Session(kind, off, off, None)
  }

  /** Where the replica will read next: at the pending header if there is one, else at its cursor. */
  function Effective(s: Session): int {
    if s.header.Some? then s.header.value else s.cursor
  }

  /** The client's position and the replica's agree. */
  predicate InStep(s: Session) {
    Effective(s) == s.pos
  }

  /** A remote seek only records the header; a local seek to the position already held is skipped. */
  function SeekSession(s: Session, pos: int): Session {
    match s.kind
    case Remote => s.(pos := pos, header := Some(pos))
    case Local => if pos == s.pos then s else s.(pos := pos, cursor := pos)
  }

  /** How many bytes one read at `off` returns: a chunk, or what is left of the block. */
  function ReadLen(data: seq<byte>, chunkSize: nat, off: nat): (n: nat)
    requires off <= |data|
    ensures off + n <= |data|
  {
    Min(chunkSize, |data| - off)
  }

  /** One read request: the header is consumed whatever happens to the request. */
  function ReadSession(data: seq<byte>, chunkSize: nat, s: Session, fault: Fault): (Result<seq<byte>>, Session) {
    if |data| - s.pos <= 0 then
      (Err(Io), s)
    else if fault.RequestLost? then
      (Err(Io), s.(header := None))
    else
      var at := Effective(s);
      if at < 0 || at >= |data| || fault.ReplicaError? then
        (Err(Io), s.(header := None, cursor := at))
      else
        var n := ReadLen(data, chunkSize, at);
        if fault.HalfRead? then
          (Err(Io), s.(header := None, cursor := at + Min(fault.n, n)))
        else if fault.ReplyLost? then
          (Err(Io), s.(header := None, cursor := at + n))
        else
          (Ok(data[at..at + n]), s.(pos := s.pos + n, header := None, cursor := at + n))
  }

  /** A read that fails after this fault leaves the session in step. */
  predicate Harmless(s: Session, fault: Fault) {
    fault.ReplicaError? || fault == HalfRead(0) || (fault.RequestLost? && s.cursor == s.pos)
  }

  /** A failed read never moves the client. It leaves the session in step exactly when the replica failed before
      it read a byte, or the request was lost while the cursor was where the client is. */
  lemma FailedRead(data: seq<byte>, chunkSize: nat, s: Session, fault: Fault)
    requires InStep(s) && 0 <= s.pos < |data| && chunkSize > 0 && fault != NoFault
    ensures var (r, s') := ReadSession(data, chunkSize, s, fault);
            && r == Err(Io) && s'.pos == s.pos && s'.header == None
            && (InStep(s') <==> Harmless(s, fault))
  {
  }

  /** The calls a caller makes on one session. */
  datatype Op = SeekTo(pos: nat) | ReadWith(fault: Fault)

  /** Seeks stay inside the block, and after a failed read the caller seeks before it reads again. */
  predicate Disciplined(data: seq<byte>, chunkSize: nat, s: Session, ops: seq<Op>, failed: bool)
    decreases |ops|
  {
    ops == [] ||
    match ops[0]
    case SeekTo(p) => p <= |data| && Disciplined(data, chunkSize, SeekSession(s, p), ops[1..], false)
    case ReadWith(f) =>
      !failed &&
      var (r, s') := ReadSession(data, chunkSize, s, f);
      Disciplined(data, chunkSize, s', ops[1..], r.Err?)
  }

  /** The answers the session gives to the reads of a run. */
  function Answers(data: seq<byte>, chunkSize: nat, s: Session, ops: seq<Op>): seq<Result<seq<byte>>>
    decreases |ops|
  {
    if ops == [] then []
    else match ops[0]
      case SeekTo(p) => Answers(data, chunkSize, SeekSession(s, p), ops[1..])
      case ReadWith(f) =>
        var (r, s') := ReadSession(data, chunkSize, s, f);
        [r] + Answers(data, chunkSize, s', ops[1..])
  }

  /** The answers of a bare cursor over the block, without header, replica cursor or session. */
  function CursorAnswers(data: seq<byte>, chunkSize: nat, pos: nat, ops: seq<Op>): seq<Result<seq<byte>>>
    decreases |ops|
  {
    if ops == [] then []
    else match ops[0]
      case SeekTo(p) => CursorAnswers(data, chunkSize, p, ops[1..])
      case ReadWith(f) =>
        if f != NoFault || pos >= |data| then [Err(Io)] + CursorAnswers(data, chunkSize, pos, ops[1..])
        else
          var n := ReadLen(data, chunkSize, pos);
          [Ok(data[pos..pos + n])] + CursorAnswers(data, chunkSize, pos + n, ops[1..])
  }

  /** Over every disciplined run the one-shot header is invisible: a remote session answers each read
      as a plain cursor would, whatever requests and replies were lost on the way. */
  lemma {:induction false} HeaderInvisible(data: seq<byte>, chunkSize: nat, s: Session, ops: seq<Op>, failed: bool)
    requires s.kind.Remote? && 0 <= s.pos <= |data|
    requires failed || InStep(s)
    requires Disciplined(data, chunkSize, s, ops, failed)
    ensures Answers(data, chunkSize, s, ops) == CursorAnswers(data, chunkSize, s.pos, ops)
    decreases |ops|
  {
    if ops != [] {
      match ops[0]
      case SeekTo(p) =>
        HeaderInvisible(data, chunkSize, SeekSession(s, p), ops[1..], false);
      case ReadWith(f) =>
        var (r, s') := ReadSession(data, chunkSize, s, f);
        HeaderInvisible(data, chunkSize, s', ops[1..], r.Err?);
    }
  }

  /** Where the read after a failed one lands: behind the bytes that were lost with the reply or read in vain, or
      where the replica's cursor was when a request was lost together with its header. */
  function Landing(data: seq<byte>, chunkSize: nat, s: Session, fault: Fault): int
    requires 0 <= s.pos < |data|
  {
    match fault
    case RequestLost => s.cursor
    case HalfRead(n) => s.pos + Min(n, ReadLen(data, chunkSize, s.pos))
    case ReplyLost => s.pos + ReadLen(data, chunkSize, s.pos)
    case _ => s.pos
  }

  /** A read at `at` returns what a read at `pos` returns. */
  predicate SameBytes(data: seq<byte>, chunkSize: nat, at: int, pos: nat)
    requires pos < |data|
  {
    && 0 <= at < |data|
    && data[at..at + ReadLen(data, chunkSize, at)] == data[pos..pos + ReadLen(data, chunkSize, pos)]
  }

  /** A caller that just reads again after an error gets the right answer if and only if the block has the
      same bytes where the read lands. */
  lemma {:induction false} RetryAfterFault(data: seq<byte>, chunkSize: nat, s: Session, fault: Fault)
    requires InStep(s) && 0 <= s.pos < |data| && chunkSize > 0 && fault != NoFault
    ensures var ops := [ReadWith(fault), ReadWith(NoFault)];
            Answers(data, chunkSize, s, ops) == CursorAnswers(data, chunkSize, s.pos, ops)
            <==> SameBytes(data, chunkSize, Landing(data, chunkSize, s, fault), s.pos)
  {
    var ops := [ReadWith(fault), ReadWith(NoFault)];
    var s' := ReadSession(data, chunkSize, s, fault).1;
    TwoAnswers(data, chunkSize, s, s', s.pos, ops);
    assert Effective(s') == Landing(data, chunkSize, s, fault);
  }

  /** Just reading again is right for every content of the block if and only if the fault was harmless. */
  lemma {:induction false} RetryForAnyBlock(len: nat, chunkSize: nat, s: Session, fault: Fault)
    requires InStep(s) && 0 <= s.pos < len && chunkSize > 0 && fault != NoFault
    ensures Harmless(s, fault) <==>
            forall data: seq<byte> :: |data| == len ==>
              Answers(data, chunkSize, s, [ReadWith(fault), ReadWith(NoFault)])
              == CursorAnswers(data, chunkSize, s.pos, [ReadWith(fault), ReadWith(NoFault)])
  {
    var ops := [ReadWith(fault), ReadWith(NoFault)];
    if Harmless(s, fault) {
      forall data: seq<byte> | |data| == len
        ensures Answers(data, chunkSize, s, ops) == CursorAnswers(data, chunkSize, s.pos, ops)
      {
        RetryAfterFault(data, chunkSize, s, fault);
      }
    } else {
      var data: seq<byte> := seq(len, i => if i == s.pos then 1 else 0);
      RetryAfterFault(data, chunkSize, s, fault);
      ElsewhereDiffers(data, chunkSize, Landing(data, chunkSize, s, fault), s.pos);
    }
  }

  lemma {:induction false} ElsewhereDiffers(data: seq<byte>, chunkSize: nat, at: int, pos: nat)
    requires pos < |data| && chunkSize > 0 && at != pos
    requires forall i :: 0 <= i < |data| ==> data[i] == if i == pos then 1 else 0
    ensures !SameBytes(data, chunkSize, at, pos)
  {
    if 0 <= at < |data| {
      assert data[at..at + ReadLen(data, chunkSize, at)][0] == 0;
      assert data[pos..pos + ReadLen(data, chunkSize, pos)][0] == 1;
    }
  }

  /** Seeking to the same position first repairs a remote session, but not a local one: there the seek is
      skipped. */
  lemma {:induction false} SeekThenRetry(data: seq<byte>, chunkSize: nat, s: Session, fault: Fault)
    requires InStep(s) && 0 <= s.pos < |data| && chunkSize > 0 && fault != NoFault
    ensures var ops := [ReadWith(fault), SeekTo(s.pos), ReadWith(NoFault)];
            Answers(data, chunkSize, s, ops) == CursorAnswers(data, chunkSize, s.pos, ops)
            <==> s.kind.Remote? || SameBytes(data, chunkSize, Landing(data, chunkSize, s, fault), s.pos)
  {
    var ops := [ReadWith(fault), SeekTo(s.pos), ReadWith(NoFault)];
    var s' := ReadSession(data, chunkSize, s, fault).1;
    assert ops[1..] == [SeekTo(s.pos), ReadWith(NoFault)] && ops[1..][1..] == [ReadWith(NoFault)];
    TwoAnswers(data, chunkSize, s, SeekSession(s', s.pos), s.pos, [ReadWith(fault), ReadWith(NoFault)]);
    OneAnswer(data, chunkSize, SeekSession(s', s.pos), s.pos);
    assert Effective(s') == Landing(data, chunkSize, s, fault);
  }

  lemma {:induction false} OneAnswer(data: seq<byte>, chunkSize: nat, s: Session, pos: nat)
    requires pos == s.pos < |data|
    ensures Answers(data, chunkSize, s, [ReadWith(NoFault)]) == [ReadSession(data, chunkSize, s, NoFault).0]
    ensures CursorAnswers(data, chunkSize, pos, [ReadWith(NoFault)])
            == [Ok(data[pos..pos + ReadLen(data, chunkSize, pos)])]
    ensures Answers(data, chunkSize, s, [ReadWith(NoFault)]) == CursorAnswers(data, chunkSize, pos, [ReadWith(NoFault)])
            <==> SameBytes(data, chunkSize, Effective(s), pos)
  {
    var ops := [ReadWith(NoFault)];
    assert ops[1..] == [];
  }

  /** The answers of a failed read and of one more. */
  lemma {:induction false} TwoAnswers(data: seq<byte>, chunkSize: nat, s: Session, s': Session, pos: nat, ops: seq<Op>)
    requires InStep(s) && pos == s.pos == s'.pos < |data| && chunkSize > 0
    requires |ops| == 2 && ops[0].ReadWith? && ops[0].fault != NoFault && ops[1] == ReadWith(NoFault)
    ensures ops[1..] == [ReadWith(NoFault)]
    ensures ReadSession(data, chunkSize, s, ops[0].fault).1 == s' ==>
              (Answers(data, chunkSize, s, ops) == CursorAnswers(data, chunkSize, pos, ops)
               <==> SameBytes(data, chunkSize, Effective(s'), pos))
  {
    assert ops[1..] == [ReadWith(NoFault)];
    OneAnswer(data, chunkSize, s', pos);
    FailedRead(data, chunkSize, s, ops[0].fault);
    if ReadSession(data, chunkSize, s, ops[0].fault).1 == s' {
      var mine, flat := Answers(data, chunkSize, s, ops), CursorAnswers(data, chunkSize, pos, ops);
      assert mine == [Err(Io)] + Answers(data, chunkSize, s', [ReadWith(NoFault)]);
      assert flat == [Err(Io)] + CursorAnswers(data, chunkSize, pos, [ReadWith(NoFault)]);
      assert mine[1..] == Answers(data, chunkSize, s', [ReadWith(NoFault)]);
      assert flat[1..] == CursorAnswers(data, chunkSize, pos, [ReadWith(NoFault)]);
    }
  }

  /** It does happen: the reply to the first of two one-byte reads is lost, and the retry returns the second
      byte as if it were the first. */
  lemma {:induction false} RetryGoesWrong()
    ensures var ops := [ReadWith(ReplyLost), ReadWith(NoFault)];
            Answers([1, 2], 1, OpenSession(Remote, 0), ops) != CursorAnswers([1, 2], 1, 0, ops)
  {
    RetryAfterFault([1, 2], 1, OpenSession(Remote, 0), ReplyLost);
    assert [1, 2][1..2] == [2] && [1, 2][0..1] == [1];
  }

  datatype Worker = Worker(id: int, host: string)

  /** The first and the `i`-th replica change places. */
  function Swapped(locs: seq<Worker>, i: nat): seq<Worker>
    requires i < |locs|
  {
    locs[0 := locs[i]][i := locs[0]]
  }

  /** The first replica on the client's host, if there is one, changes places with the first of all. */
  method LocalFirst(locs: seq<Worker>, host: string) returns (r: seq<Worker>, ghost n: nat)
    requires locs != []
    ensures multiset(r) == multiset(locs) && r != []
    ensures n <= |locs| && forall j :: 0 <= j < n ==> locs[j].host != host
    ensures n < |locs| ==> locs[n].host == host
    ensures r == if n < |locs| then Swapped(locs, n) else locs
  {
    for i := 0 to |locs|
      invariant forall j :: 0 <= j < i ==> locs[j].host != host
    {
      if locs[i].host == host {
        SwapKeepsElements(locs, i);
        return locs[0 := locs[i]][i := locs[0]], i;
      }
    }
    r, n := locs, |locs|;
  }

  lemma {:induction false} SameElements(a: seq<Worker>, b: seq<Worker>, w: Worker)
    requires multiset(a) == multiset(b)
    ensures w in a <==> w in b
  {
    assert w in a <==> w in multiset(a);
    assert w in b <==> w in multiset(b);
  }

  /** `sort_locs`: an arbitrary shuffle; on short circuit the first local replica is then swapped to the front. */
  method SortLocs(locs: seq<Worker>, shortCircuit: bool, host: string)
    returns (r: Result<seq<Worker>>, ghost shuffled: seq<Worker>)
    ensures r == Err(NoWorker) <==> locs == []
    ensures r.Err? ==> locs == []
    ensures multiset(shuffled) == multiset(locs)
    ensures r.Ok? ==> multiset(r.value) == multiset(locs) && r.value != []
    ensures r.Ok? && !shortCircuit ==> r.value == shuffled
    ensures r.Ok? && shortCircuit && (forall w :: w in locs ==> w.host != host) ==> r.value == shuffled
    ensures r.Ok? && shortCircuit && (exists w :: w in locs && w.host == host) ==>
              r.value[0].host == host && exists i :: 0 <= i < |shuffled| && r.value == Swapped(shuffled, i)
  {
    if locs == [] {
      return Err(NoWorker), [];
    }
    var order: seq<Worker> :| multiset(order) == multiset(locs);
    shuffled := order;
    forall w ensures w in order <==> w in locs {
      SameElements(order, locs, w);
    }
    assert locs[0] in order;
    if !shortCircuit {
      return Ok(order), order;
    }
    var sorted, n := LocalFirst(order, host);
    assert n < |order| ==> order[n] in locs;
    r := Ok(sorted);
  }

  /** The first replica that is not excluded. */
  function Candidate(locs: seq<Worker>, excluded: set<int>): (c: Option<Worker>)
    ensures c.None? <==> forall w :: w in locs ==> w.id in excluded
    ensures c.Some? ==> exists i :: 0 <= i < |locs| && c.value == locs[i] && locs[i].id !in excluded
                                    && forall j :: 0 <= j < i ==> locs[j].id in excluded
  {
    if locs == [] then None
    else if locs[0].id !in excluded then Some(locs[0])
    else
      var c := Candidate(locs[1..], excluded);
      assert locs == [locs[0]] + locs[1..];
      c
  }

  /** `get_reader`: the first replica that is not excluded; if opening it fails, the call fails. */
  method PickReplica(locs: seq<Worker>, excluded: set<int>, opens: bool) returns (r: Result<Worker>)
    ensures r == match Candidate(locs, excluded)
                 case None => Err(NoWorker)
                 case Some(w) => if opens then Ok(w) else Err(Io)
  {
    for i := 0 to |locs|
      invariant Candidate(locs, excluded) == Candidate(locs[i..], excluded)
    {
      if locs[i].id !in excluded {
        return if opens then Ok(locs[i]) else Err(Io);
      }
    }
    r := Err(NoWorker);
  }

  /** What the world does to one read of a block: to the first request, and, if that fails, which replicas are
      excluded beside the failing one, whether the replacement can be opened, and what happens to its request. */
  datatype Fate = Fate(first: Fault, excluded: set<int>, opens: bool, second: Fault)

  const CALM: Fate := Fate(NoFault, {}, true, NoFault)

  /** What is asked of a block reader, and what happens to it. */
  datatype BlockOp = ReadOp(fate: Fate) | SeekOp(pos: nat, fails: bool)

  /** However often a replica is replaced, there is another one, and it serves. */
  ghost predicate Tolerable(locs: seq<Worker>, op: BlockOp) {
    match op
    case SeekOp(_, fails) => !fails
    case ReadOp(fate) =>
      fate.first == NoFault ||
      (fate.opens && fate.second == NoFault &&
       forall w :: w in locs ==> HasOther(locs, w, fate.excluded))
  }

  ghost predicate HasOther(locs: seq<Worker>, w: Worker, excluded: set<int>) {
    exists v :: v in locs && v.id != w.id && v.id !in excluded
  }

  /** The answers to the reads of a run, by a cursor over the block. */
  function BlockAnswers(data: seq<byte>, chunkSize: nat, pos: nat, ops: seq<BlockOp>): seq<Result<seq<byte>>>
    requires pos <= |data| && forall i :: 0 <= i < |ops| && ops[i].SeekOp? ==> ops[i].pos <= |data|
    decreases |ops|
  {
    if ops == [] then []
    else match ops[0]
      case SeekOp(p, _) => BlockAnswers(data, chunkSize, p, ops[1..])
      case ReadOp(_) =>
        var end := pos + ReadLen(data, chunkSize, pos);
        [Ok(data[pos..end])] + BlockAnswers(data, chunkSize, end, ops[1..])
  }

  /** `BlockReader`: a block, its replicas and the session with the replica being read. */
  class BlockReader {
    const block: Block
    const locs: seq<Worker>
    const chunkSize: nat
    const localHost: Option<string>    // the client's host when short circuit is on
    var worker: Worker
    var session: Session
    var completed: bool

    predicate Valid()
      reads this
    {
      && chunkSize > 0
      && worker in locs
      && 0 <= session.pos <= |block.data|
      && InStep(session)
      && (session.kind.Local? ==> session.header.None?)
      && !completed
    }

    function Remaining(): int
      reads this
    {
      |block.data| - session.pos
    }

    function KindOf(w: Worker): Kind {
      if localHost == Some(w.host) then Local else Remote
    }

    constructor (block: Block, locs: seq<Worker>, chunkSize: nat, localHost: Option<string>, worker: Worker, off: nat)
      requires chunkSize > 0 && worker in locs && off <= |block.data|
      ensures Valid() && session == OpenSession(KindOf(worker), off) && this.worker == worker && this.locs == locs
      ensures this.block == block && this.chunkSize == chunkSize && this.localHost == localHost
    {
      this.block, this.locs, this.chunkSize, this.localHost := block, locs, chunkSize, localHost;
      this.worker := worker;
      session := OpenSession(if localHost == Some(worker.host) then Local else Remote, off);
      completed := false;
    }

    /** There are replicas on the client's host, and none of them is excluded. */
    static ghost predicate LocalUsable(locs: seq<Worker>, localHost: Option<string>, excluded: set<int>) {
      && (exists w :: w in locs && localHost == Some(w.host))
      && (forall w :: w in locs && localHost == Some(w.host) ==> w.id !in excluded)
    }

    /** `BlockReader::new`: sort the replicas, open the first one that is not excluded. */
    static method Open(block: Block, locs: seq<Worker>, chunkSize: nat, localHost: Option<string>, excluded: set<int>,
                       opens: bool, off: nat)
      returns (r: Result<BlockReader>)
      requires chunkSize > 0 && off <= |block.data|
      ensures r.Ok? <==> opens && exists w :: w in locs && w.id !in excluded
      ensures r.Err? ==> r.error == if exists w :: w in locs && w.id !in excluded then Io else NoWorker
      ensures r.Ok? ==> fresh(r.value) && r.value.Valid() && r.value.worker.id !in excluded
      ensures r.Ok? ==> r.value.block == block && r.value.chunkSize == chunkSize && r.value.session.pos == off
      ensures r.Ok? ==> multiset(r.value.locs) == multiset(locs) && r.value.localHost == localHost
      ensures r.Ok? && LocalUsable(locs, localHost, excluded) ==> r.value.session.kind.Local?
    {
      var sorted, _ := SortLocs(locs, localHost.Some?, if localHost.Some? then localHost.value else "");
      if sorted.Err? {
        return Err(sorted.error);
      }
      forall w ensures w in locs <==> w in sorted.value {
        SameElements(locs, sorted.value, w);
      }
      var w := PickReplica(sorted.value, excluded, opens);
      if w.Err? {
        return Err(w.error);
      }
      var reader := new BlockReader(block, sorted.value, chunkSize, localHost, w.value, off);
      r := Ok(reader);
    }

    /** A seek fails only on a local file, and then changes nothing. */
    method Seek(pos: nat, fails: bool) returns (r: Result<()>)
      requires Valid() && pos <= |block.data|
      modifies this`session
      ensures r.Err? <==> fails && old(session).kind.Local?
      ensures r.Ok? ==> Valid() && session.pos == pos
      ensures r.Err? ==> r.error == Io && session == old(session)
    {
      if session.kind.Local? && fails {
        return Err(Io);
      }
      session := SeekSession(session, pos);
      r := Ok(());
    }

    /** The replica that takes over when the present one fails. */
    function Replacement(fate: Fate): Option<Worker>
      reads this
    {
      Candidate(locs, fate.excluded + {worker.id})
    }

    /** A read fails exactly if the first request fails and no replacement is left, or it cannot be opened, or it
        fails too. A read that succeeds returns the bytes at the position, whoever served it. After an error the
        reader can go on exactly if the last fault was harmless for the session it hit. */
    method Read(fate: Fate) returns (r: Result<seq<byte>>)
      requires Valid()
      modifies this`worker, this`session
      ensures r.Ok? <==> || old(Remaining()) <= 0 || fate.first == NoFault
                         || (old(Replacement(fate)).Some? && fate.opens && fate.second == NoFault)
      ensures r.Ok? ==> session.pos == old(session.pos) + ReadLen(block.data, chunkSize, old(session.pos))
      ensures r.Ok? ==> Valid() && r.value == block.data[old(session.pos)..session.pos]
      ensures r.Err? ==> session.pos == old(session.pos)
      ensures r.Err? ==> r.error == if old(Replacement(fate)).Some? then Io else NoWorker
      ensures r.Err? ==>
                if old(Replacement(fate)).Some? && fate.opens
                then worker == old(Replacement(fate)).value
                     && (Valid() <==> Harmless(OpenSession(KindOf(worker), old(session.pos)), fate.second))
                else worker == old(worker) && (Valid() <==> Harmless(old(session), fate.first))
    {
      if Remaining() <= 0 {
        return Ok([]);
      }
      if fate.first != NoFault {
        FailedRead(block.data, chunkSize, session, fate.first);
      }
      var (bytes, s) := ReadSession(block.data, chunkSize, session, fate.first);
      session := s;
      if bytes.Ok? {
        return bytes;
      }
      // The failing worker has just been excluded.
      var w := PickReplica(locs, fate.excluded + {worker.id}, fate.opens);
      if w.Err? {
        return Err(w.error);
      }
      worker := w.value;
      r := ReadReplacement(fate.second);
    }

    /** The replacement starts at the same offset of the block. */
    method ReadReplacement(fault: Fault) returns (r: Result<seq<byte>>)
      requires chunkSize > 0 && worker in locs && 0 <= session.pos < |block.data| && !completed
      modifies this`session
      ensures r.Ok? <==> fault == NoFault
      ensures r.Ok? ==> session.pos == old(session.pos) + ReadLen(block.data, chunkSize, old(session.pos))
      ensures r.Ok? ==> Valid() && r.value == block.data[old(session.pos)..session.pos]
      ensures r.Err? ==> session.pos == old(session.pos) && r.error == Io
      ensures r.Err? ==> (Valid() <==> Harmless(OpenSession(KindOf(worker), old(session.pos)), fault))
    {
      session := OpenSession(KindOf(worker), session.pos);
      if fault != NoFault {
        FailedRead(block.data, chunkSize, session, fault);
      }
      var (bytes, s) := ReadSession(block.data, chunkSize, session, fault);
      session, r := s, bytes;
    }

    lemma TolerableServes(fate: Fate)
      requires worker in locs && Tolerable(locs, ReadOp(fate)) && fate.first != NoFault
      ensures Replacement(fate).Some? && fate.opens && fate.second == NoFault
    {
      assert HasOther(locs, worker, fate.excluded);
      var v :| v in locs && v.id != worker.id && v.id !in fate.excluded;
      assert v.id !in fate.excluded + {worker.id};
    }

    /** One step of a run, with the answer to it if it is a read. */
    method RunOne(op: BlockOp, ghost rest: seq<BlockOp>) returns (answer: seq<Result<seq<byte>>>)
      requires Valid() && Tolerable(locs, op) && (op.SeekOp? ==> op.pos <= |block.data|)
      requires forall i :: 0 <= i < |rest| && rest[i].SeekOp? ==> rest[i].pos <= |block.data|
      modifies this`worker, this`session
      ensures Valid()
      ensures answer + BlockAnswers(block.data, chunkSize, session.pos, rest)
              == BlockAnswers(block.data, chunkSize, old(session.pos), [op] + rest)
    {
      hide ReadLen, Tolerable, InStep;
      assert ([op] + rest)[0] == op && ([op] + rest)[1..] == rest;
      match op
      case SeekOp(p, fails) =>
        assert !fails by {
          NoFailingSeek(p, fails);
        }
        var r := Seek(p, fails);
        answer := [];
      case ReadOp(fate) =>
        if fate.first != NoFault {
          TolerableServes(fate);
        }
        var r := Read(fate);
        answer := [r];
    }

    lemma NoFailingSeek(p: nat, fails: bool)
      requires Tolerable(locs, SeekOp(p, fails))
      ensures !fails
    {
    }

    /** Over every run of reads and seeks in which no read meets two faults, the answers are those of a cursor:
        failing replicas cannot be noticed. */
    method Run(ops: seq<BlockOp>) returns (answers: seq<Result<seq<byte>>>)
      requires Valid() && forall i :: 0 <= i < |ops| && ops[i].SeekOp? ==> ops[i].pos <= |block.data|
      requires forall i :: 0 <= i < |ops| ==> Tolerable(locs, ops[i])
      modifies this`worker, this`session
      ensures Valid() && answers == BlockAnswers(block.data, chunkSize, old(session.pos), ops)
    {
      hide BlockAnswers, Tolerable, InStep;
      answers := [];
      ghost var all := BlockAnswers(block.data, chunkSize, session.pos, ops);
      assert ops[0..] == ops;
      for i := 0 to |ops|
        invariant Valid() && answers + BlockAnswers(block.data, chunkSize, session.pos, ops[i..]) == all
      {
        assert [ops[i]] + ops[i + 1..] == ops[i..];
        ghost var before := answers;
        var answer := RunOne(ops[i], ops[i + 1..]);
        answers := answers + answer;
        ghost var tail := BlockAnswers(block.data, chunkSize, session.pos, ops[i + 1..]);
        assert (before + answer) + tail == before + (answer + tail);
      }
      NothingLeft(ops);
    }

    lemma NothingLeft(ops: seq<BlockOp>)
      requires 0 <= session.pos <= |block.data|
      ensures ops[|ops|..] == [] && BlockAnswers(block.data, chunkSize, session.pos, []) == []
    {
    }

    method Complete(fails: bool) returns (r: Result<()>)
      requires !completed
      modifies this`completed
      ensures r.Err? <==> fails
      ensures r.Err? ==> r.error == Io
      ensures completed <==> r.Ok?
    {
      if fails {
        return Err(Io);
      }
      completed := true;
      r := Ok(());
    }
  }
}
