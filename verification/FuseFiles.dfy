/** An open file handle of the FUSE layer: it reads or it writes, changes direction at most once, and
    accepts only writes that continue where the last one ended. */
module FuseFiles {
  import opened Common

  /** One write the handle passed on: its offset and its bytes. */
  datatype Piece = Piece(off: nat, data: seq<byte>)

  /** Where the first `n` pieces end, and their bytes. */
  function EndOf(pieces: seq<Piece>, n: nat): nat
    requires n <= |pieces|
  {
    if n == 0 then 0 else EndOf(pieces, n - 1) + |pieces[n - 1].data|
  }

  function BytesOf(pieces: seq<Piece>, n: nat): (d: seq<byte>)
    requires n <= |pieces|
    ensures |d| == EndOf(pieces, n)
  {
    if n == 0 then [] else BytesOf(pieces, n - 1) + pieces[n - 1].data
  }

  /** Piece `i` starts where those before it end. */
  predicate Placed(pieces: seq<Piece>, i: nat)
    requires i < |pieces|
  {
    pieces[i].off == EndOf(pieces, i) && pieces[i].data != []
  }

  ghost predicate Tiled(pieces: seq<Piece>) {
    forall i :: 0 <= i < |pieces| ==> Placed(pieces, i)
  }

  predicate Covers(piece: Piece, p: nat) {
    piece.off <= p < piece.off + |piece.data|
  }

  lemma {:induction false} EndMonotone(pieces: seq<Piece>, i: nat, j: nat)
    requires i <= j <= |pieces|
    ensures EndOf(pieces, i) <= EndOf(pieces, j)
  {
    if i < j {
      EndMonotone(pieces, i, j - 1);
    }
  }

  /** The piece, among the first `n`, that covers a position. */
  function PieceAt(pieces: seq<Piece>, n: nat, p: nat): (i: nat)
    requires Tiled(pieces) && n <= |pieces| && p < EndOf(pieces, n)
    ensures i < n && Covers(pieces[i], p)
    ensures BytesOf(pieces, n)[p] == pieces[i].data[p - pieces[i].off]
  {
    assert Placed(pieces, n - 1);
    if EndOf(pieces, n - 1) <= p then n - 1 else PieceAt(pieces, n - 1, p)
  }

  /** Every position written belongs to exactly one piece, which holds the byte the file has there: there
      is no gap and no overlap. */
  lemma {:induction false} TiledIsPartition(pieces: seq<Piece>, p: nat)
    requires Tiled(pieces)
    ensures p < EndOf(pieces, |pieces|) <==> exists i :: 0 <= i < |pieces| && Covers(pieces[i], p)
    ensures forall i, j :: 0 <= i < j < |pieces| ==> !(Covers(pieces[i], p) && Covers(pieces[j], p))
  {
    if p < EndOf(pieces, |pieces|) {
      assert Covers(pieces[PieceAt(pieces, |pieces|, p)], p);
    }
    forall i | 0 <= i < |pieces| && Covers(pieces[i], p) ensures p < EndOf(pieces, |pieces|) {
      assert Placed(pieces, i);
      EndMonotone(pieces, i + 1, |pieces|);
    }
    forall i, j | 0 <= i < j < |pieces| ensures !(Covers(pieces[i], p) && Covers(pieces[j], p)) {
      assert Placed(pieces, i) && Placed(pieces, j);
      EndMonotone(pieces, i + 1, j);
    }
  }

  lemma {:induction false} SameFront(pieces: seq<Piece>, piece: Piece, n: nat)
    requires n <= |pieces|
    ensures EndOf(pieces + [piece], n) == EndOf(pieces, n) && BytesOf(pieces + [piece], n) == BytesOf(pieces, n)
  {
    if n > 0 {
      SameFront(pieces, piece, n - 1);
    }
  }

  lemma {:induction false} TileMore(pieces: seq<Piece>, piece: Piece)
    requires Tiled(pieces) && piece.off == EndOf(pieces, |pieces|) && piece.data != []
    ensures Tiled(pieces + [piece]) && EndOf(pieces + [piece], |pieces| + 1) == piece.off + |piece.data|
  {
    SameFront(pieces, piece, |pieces|);
    forall i | 0 <= i < |pieces + [piece]| ensures Placed(pieces + [piece], i) {
      SameFront(pieces, piece, i);
      assert i < |pieces| ==> Placed(pieces, i);
    }
  }

  /** How many bytes of each of the first pieces the file took, and whether that is what was answered. */
  ghost predicate Takes(pieces: seq<Piece>, took: seq<nat>, answers: seq<bool>) {
    && |took| == |answers| <= |pieces|
    && forall i :: 0 <= i < |took| ==> took[i] <= |pieces[i].data| && (answers[i] <==> took[i] == |pieces[i].data|)
  }

  /** What the file has when each piece was put behind the one before, as far as it was taken. */
  ghost function Taken(pieces: seq<Piece>, took: seq<nat>, answers: seq<bool>): (d: seq<byte>)
    requires Takes(pieces, took, answers)
    ensures |d| <= EndOf(pieces, |took|)
  {
    if took == [] then []
    else
      var n := |took| - 1;
      Taken(pieces, took[..n], answers[..n]) + pieces[n].data[..took[n]]
  }

  /** The file has exactly the bytes of the pieces if and only if every write was answered with success. */
  lemma {:induction false} TakenIsAll(pieces: seq<Piece>, took: seq<nat>, answers: seq<bool>)
    requires Takes(pieces, took, answers)
    ensures Taken(pieces, took, answers) == BytesOf(pieces, |took|) <==> false !in answers
    ensures false in answers ==> |Taken(pieces, took, answers)| < EndOf(pieces, |took|)
  {
    if took != [] {
      var n := |took| - 1;
      TakenIsAll(pieces, took[..n], answers[..n]);
      assert answers == answers[..n] + [answers[n]];
    }
  }

  /** Two writes of one byte, of which the first failed: the second byte is in the place of the first. */
  lemma {:induction false} FailedWriteShifts(a: byte, b: byte)
    requires a != b
    ensures var pieces, took, answers := [Piece(0, [a]), Piece(1, [b])], [0, 1], [false, true];
            && Tiled(pieces) && Takes(pieces, took, answers) && EndOf(pieces, 2) == 2
            && BytesOf(pieces, 2)[0] == a && Taken(pieces, took, answers) == [b]
  {
    var pieces, took, answers := [Piece(0, [a]), Piece(1, [b])], [0, 1], [false, true];
    assert EndOf(pieces, 1) == 1 && BytesOf(pieces, 1) == [a];
    assert Placed(pieces, 0) && Placed(pieces, 1);
    assert took[..1] == [0] && answers[..1] == [false] && Taken(pieces, [0], [false]) == [];
  }

  lemma {:induction false} TakenFront(pieces: seq<Piece>, piece: Piece, took: seq<nat>, answers: seq<bool>)
    requires Takes(pieces, took, answers)
    ensures |took| <= |pieces| && Takes(pieces + [piece], took, answers)
    ensures Taken(pieces + [piece], took, answers) == Taken(pieces, took, answers)
  {
    if took != [] {
      TakenFront(pieces, piece, took[..|took| - 1], answers[..|took| - 1]);
    }
  }

  lemma {:induction false} TakenMore(pieces: seq<Piece>, took: seq<nat>, answers: seq<bool>, n: nat)
    requires Takes(pieces, took, answers) && |took| < |pieces| && n <= |pieces[|took|].data|
    ensures var took', answers' := took + [n], answers + [n == |pieces[|took|].data|];
            && Takes(pieces, took', answers')
            && Taken(pieces, took', answers') == Taken(pieces, took, answers) + pieces[|took|].data[..n]
  {
    var took', answers' := took + [n], answers + [n == |pieces[|took|].data|];
    assert took'[..|took|] == took && answers'[..|took|] == answers;
  }

  datatype WriteTask = WriteData(piece: Piece) | FlushTask | CompleteTask

  /** The pieces among the tasks of a queue. */
  function Pieces(tasks: seq<WriteTask>): seq<Piece> {
    if tasks == [] then []
    else (if tasks[0].WriteData? then [tasks[0].piece] else []) + Pieces(tasks[1..])
  }

  lemma {:induction false} PiecesMore(tasks: seq<WriteTask>, task: WriteTask)
    ensures Pieces(tasks + [task]) == Pieces(tasks) + if task.WriteData? then [task.piece] else []
  {
    if tasks != [] {
      PiecesMore(tasks[1..], task);
      assert (tasks + [task])[1..] == tasks[1..] + [task];
    }
  }

  /** The writer of a handle: a queue, and a task that takes from its front and writes to the file. */
  class FuseWriter {
    const capacity: nat
    const reliable: bool               // nothing outside the handle fails
    var queue: seq<WriteTask>
    var pos: nat
    var running: bool
    var sink: seq<byte>
    var answers: seq<bool>
    ghost var pieces: seq<Piece>
    ghost var took: seq<nat>
    ghost var sent: seq<WriteTask>     // all messages so far
    ghost var served: nat              // how many of them the task has taken

    /** The accepted writes tile the file. Of those served the file has, in order, what it took of them; the
        others are queued. */
    ghost predicate Valid()
      reads this
    {
      && capacity > 0 && Tiled(pieces) && pos == EndOf(pieces, |pieces|)
      && Takes(pieces, took, answers) && sink == Taken(pieces, took, answers)
      && (running ==> Pieces(queue) == pieces[|took|..])
      && served <= |sent| && queue == sent[served..] && |queue| <= capacity
      && (reliable ==> running && false !in answers)
    }

    /** The last message was this one, and it has been served. */
    ghost predicate Did(task: WriteTask)
      reads this
    {
      served == |sent| > 0 && sent[|sent| - 1] == task
    }

    /** Every accepted write was answered, and the file has what was written if and only if all answers were
        successes; otherwise it is shorter. */
    ghost predicate Settled()
      reads this
    {
      && |answers| == |pieces|
      && (sink == BytesOf(pieces, |pieces|) <==> false !in answers)
      && (false in answers ==> |sink| < pos)
      && (reliable ==> false !in answers)
    }

    lemma AllServed()
      requires Valid() && running && queue == []
      ensures Settled()
    {
      assert pieces[|took|..] == [];
      TakenIsAll(pieces, took, answers);
    }

    constructor (capacity: nat, reliable: bool)
      requires capacity > 0
      ensures Valid() && pos == 0 && pieces == [] && answers == [] && running && this.reliable == reliable
      ensures sent == [] && this.capacity == capacity
    {
      this.capacity, this.reliable := capacity, reliable;
      queue, pos, running, sink, pieces, took, answers := [], 0, true, [], [], [], [];
      sent, served := [], 0;
    }

    /** The task takes one message. A write that fails, of which the file may have taken a part, is reported
        to the kernel and the task goes on; an answer, a flush or a completion that fails ends the task. */
    method Serve()
      requires Valid() && running && queue != []
      modifies this
      ensures Valid() && pos == old(pos) && pieces == old(pieces) && queue == old(queue)[1..]
      ensures sent == old(sent) && served == old(served) + 1
      ensures match old(queue)[0]
              case WriteData(piece) =>
                && |took| == |old(took)| + 1 && took[..|old(took)|] == old(took)
                && answers == old(answers) + [took[|old(took)|] == |piece.data|]
                && sink == old(sink) + piece.data[..took[|old(took)|]]
              case _ => answers == old(answers) && sink == old(sink)
    {
      hide Tiled, EndOf, Taken;
      var task := queue[0];
      queue, served := queue[1..], served + 1;
      match task {
      case WriteData(piece) =>
        assert pieces[|took|..][0] == piece && pieces[|took|..][1..] == pieces[|took| + 1..];
        var n: nat :| n <= |piece.data| && (reliable ==> n == |piece.data|);
        TakenMore(pieces, took, answers, n);
        sink, took, answers := sink + piece.data[..n], took + [n], answers + [n == |piece.data|];
      case _ =>
      }
      var failed: bool := *;
      running := !failed || reliable;
    }

    /** The task runs for a while. */
    method Preempt()
      requires Valid()
      modifies this
      ensures Valid() && pos == old(pos) && pieces == old(pieces) && sent == old(sent)
    {
      var n: nat := *;
      while n > 0 && running && queue != []
        invariant Valid() && pos == old(pos) && pieces == old(pieces) && sent == old(sent)
        decreases n
      {
        Serve();
        n := n - 1;
      }
    }

    /** The client waits for room in the queue, while the task gets its turn. */
    method Await()
      requires Valid()
      modifies this
      ensures Valid() && pos == old(pos) && pieces == old(pieces) && sent == old(sent)
      ensures running ==> |queue| < capacity
    {
      Preempt();
      while running && |queue| >= capacity
        invariant Valid() && pos == old(pos) && pieces == old(pieces) && sent == old(sent)
        decreases |queue|
      {
        Serve();
      }
    }

    /** Queue a write. */
    method Write(piece: Piece) returns (r: Result<()>)
      requires Valid() && piece.off == pos && piece.data != []
      modifies this
      ensures Valid()
      ensures if r.Ok? then pieces == old(pieces) + [piece] && pos == old(pos) + |piece.data| && running
                            && sent == old(sent) + [WriteData(piece)]
              else pieces == old(pieces) && pos == old(pos) && !running && !reliable && sent == old(sent)
    {
      hide Tiled, EndOf, Takes, Taken, Pieces;
      Await();
      if !running {
        return Err(FsError.Closed);
      }
      PiecesMore(queue, WriteData(piece));
      TileMore(pieces, piece);
      TakenFront(pieces, piece, took, answers);
      assert (pieces + [piece])[|took|..] == pieces[|took|..] + [piece];
      queue, pos, pieces := queue + [WriteData(piece)], pos + |piece.data|, pieces + [piece];
      sent := sent + [WriteData(piece)];
      r := Ok(());
    }

    /** Send a flush or a completion and wait for its answer: by then every write accepted before was
        answered, and the file has all that was written exactly if no answer was a failure. */
    method Request(task: WriteTask) returns (r: Result<()>)
      requires Valid() && !task.WriteData?
      modifies this
      ensures Valid() && pos == old(pos) && pieces == old(pieces)
      ensures r.Ok? ==> Settled() && sent == old(sent) + [task] && Did(task)
      ensures r.Err? ==> r.error.Closed? && !reliable && !running
    {
      hide Tiled, EndOf, Takes, Taken, Pieces, Settled;
      Await();
      if !running {
        return Err(FsError.Closed);
      }
      PiecesMore(queue, task);
      queue, sent := queue + [task], sent + [task];
      while running && queue != []
        invariant Valid() && pos == old(pos) && pieces == old(pieces) && sent == old(sent) + [task]
        decreases |queue|
      {
        Serve();
      }
      if !running {
        return Err(FsError.Closed);
      }
      AllServed();
      r := Ok(());
    }
  }

  /** One read the handle passed on. */
  datatype Ask = Ask(off: nat, len: nat)

  datatype ReadTask = ReadData(ask: Ask) | CompleteRead

  /** The reads among the tasks of a queue. */
  function Asks(tasks: seq<ReadTask>): seq<Ask> {
    if tasks == [] then []
    else (if tasks[0].ReadData? then [tasks[0].ask] else []) + Asks(tasks[1..])
  }

  lemma {:induction false} AsksMore(tasks: seq<ReadTask>, task: ReadTask)
    ensures Asks(tasks + [task]) == Asks(tasks) + if task.ReadData? then [task.ask] else []
  {
    if tasks != [] {
      AsksMore(tasks[1..], task);
      assert (tasks + [task])[1..] == tasks[1..] + [task];
    }
  }

  /** The reader of a handle: a queue, and a task that takes from its front and reads the file. */
  class FuseReader {
    const capacity: nat
    const reliable: bool
    const file: seq<byte>
    var queue: seq<ReadTask>
    var running: bool
    var answers: seq<Result<seq<byte>>>
    ghost var asked: seq<Ask>
    ghost var sent: seq<ReadTask>
    ghost var served: nat

    /** The reads are answered in the order they were asked, with the bytes of the file there or with an error. */
    ghost predicate Valid()
      reads this
    {
      && capacity > 0 && |answers| <= |asked| && (running ==> Asks(queue) == asked[|answers|..])
      && (forall i :: 0 <= i < |answers| ==>
            if answers[i].Ok? then answers[i].value == Window(file, asked[i].off, asked[i].len) else !reliable)
      && served <= |sent| && queue == sent[served..] && |queue| <= capacity
      && (reliable ==> running)
    }

    /** Every read has been answered, and the reader was completed after that. */
    ghost predicate Finished()
      reads this
    {
      |answers| == |asked| && served == |sent| > 0 && sent[|sent| - 1] == CompleteRead
    }

    constructor (capacity: nat, reliable: bool, file: seq<byte>)
      requires capacity > 0
      ensures Valid() && asked == [] && answers == [] && this.reliable == reliable && this.file == file
    {
      this.capacity, this.reliable, this.file := capacity, reliable, file;
      queue, running, answers, asked, sent, served := [], true, [], [], [], 0;
    }

    /** The task takes one message. A read that fails is reported to the kernel and the task goes on; an answer or a
        completion that fails ends it. */
    method Serve()
      requires Valid() && running && queue != []
      modifies this
      ensures Valid() && asked == old(asked) && queue == old(queue)[1..] && old(answers) <= answers
      ensures sent == old(sent) && served == old(served) + 1
      ensures |answers| == |old(answers)| + if old(queue)[0].ReadData? then 1 else 0
    {
      hide Window;
      var task := queue[0];
      queue, served := queue[1..], served + 1;
      var failed: bool := *;
      if task.ReadData? {
        assert asked[|answers|..][0] == task.ask && asked[|answers|..][1..] == asked[|answers| + 1..];
        answers := answers + [if failed && !reliable then Err(Io) else Ok(Window(file, task.ask.off, task.ask.len))];
      }
      failed := *;
      running := !failed || reliable;
    }

    /** The task runs for a while. */
    method Preempt()
      requires Valid()
      modifies this
      ensures Valid() && asked == old(asked) && sent == old(sent)
    {
      var n: nat := *;
      while n > 0 && running && queue != []
        invariant Valid() && asked == old(asked) && sent == old(sent)
        decreases n
      {
        Serve();
        n := n - 1;
      }
    }

    /** Send a message, when there is room for it. */
    method Send(task: ReadTask) returns (r: Result<()>)
      requires Valid()
      modifies this
      ensures Valid()
      ensures r.Err? ==> asked == old(asked) && sent == old(sent) && !reliable && !running
      ensures r.Err? && task.CompleteRead? ==> r.error.Closed?
      ensures r.Ok? ==> sent == old(sent) + [task]
      ensures r.Ok? ==> running && asked == old(asked) + if task.ReadData? then [task.ask] else []
    {
      hide Window;
      Preempt();
      while running && |queue| >= capacity
        invariant Valid() && asked == old(asked) && sent == old(sent)
        decreases |queue|
      {
        Serve();
      }
      if !running {
        return Err(FsError.Closed);
      }
      AsksMore(queue, task);
      if task.ReadData? {
        assert (asked + [task.ask])[|answers|..] == asked[|answers|..] + [task.ask];
        asked := asked + [task.ask];
      }
      queue, sent := queue + [task], sent + [task];
      r := Ok(());
    }

    /** Wait until every read has been answered. */
    method Complete() returns (r: Result<()>)
      requires Valid()
      modifies this
      ensures Valid() && asked == old(asked) && (r.Err? ==> r.error.Closed? && !reliable) && (r.Ok? ==> Finished())
      ensures r.Ok? ==> sent == old(sent) + [CompleteRead]
    {
      r := Send(CompleteRead);
      if r.Err? {
        return;
      }
      while running && queue != []
        invariant Valid() && asked == old(asked) && sent == old(sent) + [CompleteRead]
        decreases |queue|
      {
        Serve();
      }
      if !running {
        return Err(FsError.Closed);
      }
      assert asked[|answers|..] == [];
    }
  }

  datatype OpenAction = ReadOnly | WriteOnly | ReadWrite

  datatype IoPhase = Unset | Reading | Writing | SealedToReading | SealedToWriting

  datatype Direction = In | Out

  /** A phase never goes back. */
  predicate Forward(a: IoPhase, b: IoPhase) {
    a == b || a.Unset? || (a.Reading? && b.SealedToWriting?) || (a.Writing? && b.SealedToReading?)
  }

  /** Where a write leads a handle that still accepts one, and a read. */
  function Outward(phase: IoPhase): IoPhase {
    match phase
    case Unset => Writing
    case Reading => SealedToWriting
    case _ => phase
  }

  function Inward(phase: IoPhase): IoPhase {
    match phase
    case Unset => Reading
    case Writing => SealedToReading
    case _ => phase
  }

  predicate All(log: seq<Direction>, d: Direction) {
    forall i :: 0 <= i < |log| ==> log[i] == d
  }

  /** First all in one direction, then all in the other. */
  ghost predicate OneSwitch(log: seq<Direction>, d: Direction) {
    exists k :: 0 <= k <= |log| && All(log[..k], d) && All(log[k..], if d.In? then Out else In)
  }

  lemma {:induction false} OneSwitchMore(log: seq<Direction>, d: Direction)
    requires OneSwitch(log, d)
    ensures OneSwitch(log + [if d.In? then Out else In], d)
  {
    var k :| 0 <= k <= |log| && All(log[..k], d) && All(log[k..], if d.In? then Out else In);
    var more := log + [if d.In? then Out else In];
    assert more[..k] == log[..k];
    assert more[k..] == log[k..] + [if d.In? then Out else In];
  }

  lemma {:induction false} AllIsOneSwitch(log: seq<Direction>, d: Direction)
    requires All(log, d)
    ensures OneSwitch(log, d)
  {
    assert log[..|log|] == log && log[|log|..] == [];
  }

  datatype Outcome = Done | Busy | BadHandle | NotSequential | Skipped | Fail

  class FuseFile {
    const action: OpenAction
    const truncates: bool              // an existing file may be overwritten
    const channelSize: nat
    const reliable: bool
    var phase: IoPhase
    var writer: FuseWriter?
    var reader: FuseReader?
    var stored: Option<seq<byte>>      // the file, if there is one
    ghost var log: seq<Direction>

    ghost function Repr(): set<object>
      reads this
    {
      {this} + (if writer == null then {} else {writer}) + if reader == null then {} else {reader}
    }

    /** Never a reader and a writer at once, and what was done so far fits the phase. */
    ghost predicate Valid()
      reads this, writer, reader
    {
      && channelSize > 0
      && (writer != null ==> writer.Valid() && writer.reliable == reliable && reader == null)
      && (writer != null ==> stored.Some? && (phase.Writing? || phase.SealedToWriting?))
      && (reader != null ==> reader.Valid() && reader.reliable == reliable && Some(reader.file) == stored)
      && (reader != null ==> (phase.Reading? || phase.SealedToReading?) && !action.WriteOnly?)
      && ValidLog()
    }

    ghost predicate ValidLog()
      reads this
    {
      match phase
      case Unset => log == []
      case Reading => All(log, In)
      case Writing => All(log, Out)
      case SealedToReading => OneSwitch(log, Out)
      case SealedToWriting => OneSwitch(log, In)
    }

    constructor (action: OpenAction, truncates: bool, channelSize: nat, reliable: bool, stored: Option<seq<byte>>)
      requires channelSize > 0
      ensures Valid() && phase.Unset? && writer == null && reader == null && this.stored == stored
      ensures this.action == action && this.truncates == truncates && this.reliable == reliable
    {
      this.action, this.truncates, this.channelSize, this.reliable := action, truncates, channelSize, reliable;
      phase, writer, reader, log, this.stored := Unset, null, null, [], stored;
    }

    /** A file cannot be made anew where there is one that may not be overwritten. */
    predicate InTheWay()
      reads this
    {
      stored.Some? && !truncates
    }

    /** Opening starts a reader, or a new writer on a file now empty, or neither yet; `creates` is the flag for it, and
        `made` says that the kernel asks for a new file. */
    static method Open(action: OpenAction, creates: bool, truncates: bool, made: bool, channelSize: nat, reliable: bool,
                       contents: Option<seq<byte>>)
      returns (r: Result<FuseFile>)
      requires channelSize > 0
      ensures var writes := made || action.WriteOnly? || (action.ReadWrite? && (creates || truncates));
              var refused := if writes then contents.Some? && !truncates else action.ReadOnly? && contents.None?;
              && (refused ==> r.Err?)
              && (r.Err? ==> (IsFault(r.error) && !reliable) || (r.error.Rejected? && refused))
              && (r.Ok? ==>
                    && fresh(r.value) && fresh(r.value.Repr()) && r.value.Valid() && r.value.log == []
                    && r.value.action == action && r.value.reliable == reliable && r.value.truncates == truncates
                    && (r.value.writer != null <==> writes) && (r.value.reader != null <==> !writes && action.ReadOnly?)
                    && r.value.phase == (if writes then Writing else if action.ReadOnly? then Reading else Unset)
                    && (writes ==> r.value.writer.pos == 0 && r.value.writer.pieces == [])
                    && r.value.stored == if writes then Some([]) else contents)
    {
      var file := new FuseFile(action, truncates, channelSize, reliable, contents);
      var done := Done;
      if made || action.WriteOnly? || (action.ReadWrite? && (creates || truncates)) {
        if file.InTheWay() {
          return Err(Rejected);
        }
        file.phase := Writing;
        done := file.CreateWriter();
      } else if action.ReadOnly? {
        if contents.None? {
          return Err(Rejected);
        }
        file.phase := Reading;
        done := file.CreateReader();
      }
      r := if done.Done? then Ok(file) else Err(Io);
    }

    method CreateWriter() returns (r: Outcome)
      requires Valid() && writer == null && reader == null && (phase.Writing? || phase.SealedToWriting?)
      modifies this`writer, this`stored
      ensures Valid() && (r.Done? || r.Fail?)
      ensures r.Done? ==>
              writer != null && fresh(writer) && writer.pos == 0 && writer.pieces == [] && stored == Some([])
      ensures r.Fail? ==> writer == null && stored == old(stored) && (old(InTheWay()) || !reliable)
      ensures old(InTheWay()) ==> r.Fail?
    {
      hide OneSwitch;
      var failed: bool := *;
      if InTheWay() || (failed && !reliable) {
        return Fail;
      }
      writer := new FuseWriter(channelSize, reliable);
      stored := Some([]);
      r := Done;
    }

    method CreateReader() returns (r: Outcome)
      requires Valid() && writer == null && reader == null && (phase.Reading? || phase.SealedToReading?)
      requires !action.WriteOnly?
      modifies this`reader
      ensures Valid() && (r.Done? || r.Fail?)
      ensures r.Done? ==> reader != null && fresh(reader) && reader.asked == []
      ensures r.Fail? ==> reader == null && (stored.None? || !reliable)
      ensures stored.None? ==> r.Fail?
    {
      hide OneSwitch;
      var failed: bool := *;
      if stored.None? || (failed && !reliable) {
        return Fail;
      }
      reader := new FuseReader(channelSize, reliable, stored.value);
      r := Done;
    }

    /** Where the next write must start. */
    ghost function Next(): nat
      reads this, writer
    {
      if writer == null then 0 else writer.pos
    }

    /** The writes passed on so far by the present writer. */
    ghost function Pieces(): seq<Piece>
      reads this, writer
    {
      if writer == null then [] else writer.pieces
    }

    /** A write is passed on exactly where the writer stands. Bytes already written are taken as success,
        anything else is refused. A handle that has turned to reading, or may not write, refuses all. If there are no
        faults a write fails only because a file would have to be made anew where there is one. */
    method Write(off: nat, data: seq<byte>) returns (r: Outcome)
      requires Valid()
      modifies Repr()
      ensures Valid() && fresh(Repr() - old(Repr())) && Forward(old(phase), phase)
      ensures old(phase).SealedToReading? <==> r.Busy?
      ensures phase == if r.Busy? || (r.Fail? && old(phase).Reading? && phase.Reading?) then old(phase)
                       else Outward(old(phase))
      ensures r.Done? ==> off == old(Next()) && data != [] && log == old(log) + [Out]
      ensures r.Done? ==> writer != null && writer.pos == off + |data|
                          && writer.pieces == old(Pieces()) + [Piece(off, data)]
      ensures !r.Done? ==> log == old(log) && (writer != null ==> writer.pieces == old(Pieces()))
      ensures r.NotSequential? ==> off != old(Next()) && off + |data| > old(Next())
      ensures r.Skipped? ==> off + |data| <= old(Next())
      ensures r.BadHandle? ==> action.ReadOnly?
      ensures action.ReadOnly? && old(phase).Reading? && !r.Fail? ==> r.BadHandle? && phase.SealedToWriting?
      ensures r.Fail? && reliable ==> old(writer) == null && old(InTheWay())
      ensures old(writer) == null && old(InTheWay()) && !old(phase).SealedToReading? && !action.ReadOnly? ==> r.Fail?
    {
      hide FuseWriter.Valid, FuseReader.Valid, OneSwitch;
      r := TurnToWriting();
      if !r.Done? {
        return;
      }
      if writer == null {
        if action.ReadOnly? {
          return BadHandle;
        }
        r := CreateWriter();
        if !r.Done? {
          return;
        }
      }
      r := PassOn(off, data);
    }

    /** A write reaches the writer. */
    method PassOn(off: nat, data: seq<byte>) returns (r: Outcome)
      requires Valid() && writer != null
      modifies this, writer
      ensures Valid() && writer == old(writer) && reader == old(reader) && phase == old(phase)
      ensures r.Done? || r.NotSequential? || r.Skipped? || r.Fail?
      ensures r.Done? ==> off == old(writer.pos) && data != [] && log == old(log) + [Out]
      ensures r.Done? ==> writer.pos == off + |data| && writer.pieces == old(writer.pieces) + [Piece(off, data)]
      ensures !r.Done? ==> log == old(log) && writer.pieces == old(writer.pieces)
      ensures r.NotSequential? ==> off != old(writer.pos) && off + |data| > old(writer.pos)
      ensures r.Skipped? ==> off + |data| <= old(writer.pos)
      ensures r.Fail? ==> !reliable
    {
      hide FuseWriter.Valid, FuseReader.Valid, OneSwitch;
      if off != writer.pos && off + |data| > writer.pos {
        return NotSequential;
      }
      if off + |data| <= writer.pos {
        return Skipped;
      }
      var sent := writer.Write(Piece(off, data));
      if sent.Err? {
        return Fail;
      }
      if phase.SealedToWriting? {
        OneSwitchMore(log, In);
      }
      log := log + [Out];
      r := Done;
    }

    /** Leave reading for good, if the handle was reading; every read has been answered then. */
    method TurnToWriting() returns (r: Outcome)
      requires Valid()
      modifies Repr()
      ensures Valid() && Forward(old(phase), phase) && log == old(log) && writer == old(writer) && stored == old(stored)
      ensures writer != null ==> unchanged(writer)
      ensures reader == null || reader == old(reader)
      ensures r.Done? || r.Busy? || r.Fail?
      ensures old(phase).SealedToReading? <==> r.Busy?
      ensures phase == if r.Done? then Outward(old(phase)) else old(phase)
      ensures r.Done? ==> reader == null && (phase.Writing? || phase.SealedToWriting?)
      ensures r.Done? && old(reader) != null ==> old(reader).Valid() && old(reader).asked == old(reader.asked)
                                                 && old(reader).Finished()
      ensures r.Fail? ==> old(phase).Reading? && !reliable
    {
      hide FuseWriter.Valid, FuseReader.Valid, OneSwitch;
      match phase {
        case Unset => phase := Writing;
        case Reading =>
          if reader != null {
            var leaving := reader;
            reader := null;
            var completed := leaving.Complete();
            if completed.Err? {
              return Fail;
            }
          }
          AllIsOneSwitch(log, In);
          phase := SealedToWriting;
        case SealedToReading => return Busy;
        case _ =>
      }
      r := Done;
    }

    /** The writer this handle had has answered everything, and the file is what it left. */
    twostate predicate LeftBy(was: FuseWriter?)
      reads this, was
    {
      if was == null then stored == old(stored)
      else stored == Some(was.sink) && was.pieces == old(was.pieces) && was.Settled() && was.Did(CompleteTask)
    }

    /** Leave writing for good, if the handle was writing; the file is then what the writes made of it. */
    method TurnToReading() returns (r: Outcome)
      requires Valid()
      modifies Repr()
      ensures Valid() && Forward(old(phase), phase) && log == old(log)
      ensures (writer == null || writer == old(writer)) && reader == old(reader)
      ensures reader != null ==> unchanged(reader)
      ensures r.Done? || r.Busy? || r.Fail?
      ensures old(phase).SealedToWriting? <==> r.Busy?
      ensures r.Busy? ==> unchanged(this) && (writer != null ==> unchanged(writer))
      ensures phase == if r.Done? then Inward(old(phase)) else old(phase)
      ensures r.Done? ==> writer == null && (phase.Reading? || phase.SealedToReading?)
      ensures r.Done? ==> LeftBy(old(writer))
      ensures r.Done? && old(writer) != null ==> old(writer).sent == old(writer.sent) + [FlushTask, CompleteTask]
      ensures r.Fail? ==> old(phase).Writing? && writer == null && !reliable
    {
      hide OneSwitch, FuseWriter.Valid, FuseWriter.Settled, FuseReader.Valid;
      match phase {
        case Unset => phase := Reading;
        case Writing =>
          if writer != null {
            var leaving := writer;
            writer, stored := null, *;
            var flushed := leaving.Request(FlushTask);
            if flushed.Err? {
              return Fail;
            }
            var completed := leaving.Request(CompleteTask);
            if completed.Err? {
              return Fail;
            }
            stored := Some(leaving.sink);
          }
          AllIsOneSwitch(log, Out);
          phase := SealedToReading;
        case SealedToWriting => return Busy;
        case _ =>
      }
      r := Done;
    }

    /** Any offset may be read, until the handle has turned to writing. The read joins those to be answered, in order,
        from the file; after writing, the file is what was written if and only if no write was answered with a
        failure. If there are no faults a read fails only because there is no file. */
    method Read(off: nat, len: nat) returns (r: Outcome)
      requires Valid()
      modifies Repr()
      ensures Valid() && fresh(Repr() - old(Repr())) && Forward(old(phase), phase)
      ensures old(phase).SealedToWriting? <==> r.Busy?
      ensures phase == if r.Busy? || (r.Fail? && old(phase).Writing? && phase.Writing?) then old(phase)
                       else Inward(old(phase))
      ensures r.Done? || r.Busy? || r.BadHandle? || r.Fail?
      ensures if r.Done? then log == old(log) + [In] && reader != null && writer == null else log == old(log)
      ensures r.Done? ==> LeftBy(old(writer)) && Some(reader.file) == stored
      ensures r.Done? ==> reader.asked == (if old(reader) == null then [] else old(reader.asked)) + [Ask(off, len)]
      ensures writer == null || (r.Busy? && writer == old(writer) && writer.pieces == old(writer.pieces))
      ensures r.BadHandle? ==> action.WriteOnly?
      ensures action.WriteOnly? && old(phase).Writing? && !r.Fail? ==> r.BadHandle? && phase.SealedToReading?
      ensures r.Fail? && reliable ==> old(writer) == null && old(stored).None?
    {
      hide FuseWriter.Valid, FuseReader.Valid, FuseWriter.Settled, OneSwitch;
      r := TurnToReading();
      if !r.Done? {
        return;
      }
      if reader == null {
        if action.WriteOnly? {
          return BadHandle;
        }
        r := CreateReader();
        if !r.Done? {
          return;
        }
      }
      var sent := reader.Send(ReadData(Ask(off, len)));
      if sent.Err? {
        return Fail;
      }
      if phase.SealedToReading? {
        OneSwitchMore(log, Out);
      }
      log := log + [In];
    }

    /** Wait until everything written was answered. */
    method Flush() returns (r: Outcome)
      requires Valid()
      modifies Repr()
      ensures Valid() && Repr() == old(Repr()) && phase == old(phase) && log == old(log) && reader == old(reader)
      ensures r.Done? || (r.Fail? && !reliable)
      ensures r.Done? && writer != null ==>
                writer.pieces == old(writer.pieces) && writer.Settled() && writer.Did(FlushTask)
    {
      hide OneSwitch, FuseWriter.Valid, FuseWriter.Settled, FuseReader.Valid;
      if writer != null {
        var flushed := writer.Request(FlushTask);
        if flushed.Err? {
          return Fail;
        }
      }
      r := Done;
    }

    /** Let go of the reader and the writer; the handle keeps its phase. */
    method Complete() returns (r: Outcome)
      requires Valid()
      modifies Repr()
      ensures Valid() && Repr() <= old(Repr()) && phase == old(phase) && log == old(log) && writer == null
      ensures r.Done? || (r.Fail? && !reliable)
      ensures r.Done? ==> reader == null && LeftBy(old(writer))
      ensures r.Done? && old(reader) != null ==> old(reader).Valid() && old(reader).asked == old(reader.asked)
                                                 && old(reader).Finished()
    {
      hide OneSwitch, FuseWriter.Valid, FuseWriter.Settled, FuseReader.Valid;
      if writer != null {
        var leaving := writer;
        writer, stored := null, *;
        var completed := leaving.Request(CompleteTask);
        if completed.Err? {
          return Fail;
        }
        stored := Some(leaving.sink);
      }
      if reader != null {
        var leaving := reader;
        reader := null;
        var completed := leaving.Complete();
        if completed.Err? {
          return Fail;
        }
      }
      r := Done;
    }

    method Perform(call: Call) returns (r: Outcome)
      requires Valid()
      modifies Repr()
      ensures Valid() && fresh(Repr() - old(Repr())) && Forward(old(phase), phase)
      ensures log == old(log) +
                     if r.Done? && call.WriteAt? then [Out] else if r.Done? && call.ReadAt? then [In] else []
      ensures r.Done? && call.WriteAt? ==> writer != null && writer.pieces == old(Pieces()) + [call.piece]
      ensures r.Done? && call.ReadAt? ==>
                reader != null && reader.asked == (if old(reader) == null then [] else old(reader.asked)) + [call.ask]
    {
      hide FuseWriter.Valid, FuseReader.Valid, OneSwitch, LeftBy;
      match call
      case WriteAt(piece) => r := Write(piece.off, piece.data);
      case ReadAt(ask) => r := Read(ask.off, ask.len);
      case FlushAll => r := Flush();
      case Close => r := Complete();
    }

    /** Whatever is asked of a handle, in whatever order: the transfers it made are those that were answered
        with success, and they change direction at most once. */
    method Session(calls: seq<Call>) returns (outcomes: seq<Outcome>)
      requires Valid() && log == []
      modifies Repr()
      ensures Valid() && |outcomes| == |calls| && log == Transfers(calls, outcomes)
      ensures OneSwitch(log, In) || OneSwitch(log, Out)
    {
      hide FuseWriter.Valid, FuseReader.Valid, OneSwitch;
      outcomes := [];
      for i := 0 to |calls|
        invariant Valid() && fresh(Repr() - old(Repr())) && |outcomes| == i && log == Transfers(calls[..i], outcomes)
      {
        var r := Perform(calls[i]);
        assert calls[..i + 1][..i] == calls[..i] && (outcomes + [r])[..i] == outcomes;
        outcomes := outcomes + [r];
      }
      assert calls[..|calls|] == calls;
      if phase.Reading? {
        AllIsOneSwitch(log, In);
      } else if phase.Writing? || phase.Unset? {
        AllIsOneSwitch(log, Out);
      }
    }
  }

  lemma {:induction false} BytesOfMore(pieces: seq<Piece>, piece: Piece)
    ensures BytesOf(pieces + [piece], |pieces| + 1) == BytesOf(pieces, |pieces|) + piece.data
  {
    SameFront(pieces, piece, |pieces|);
  }

  /** Where nothing fails, a new handle for reading and writing takes any sequence of writes, and gives them back. */
  method WriteThenRead(creates: bool, truncates: bool, made: bool, contents: Option<seq<byte>>,
                       chunks: seq<seq<byte>>, ask: Ask, channelSize: nat)
    returns (answer: Result<seq<byte>>)
    requires (creates || truncates || made) && (contents.Some? ==> truncates)
    requires channelSize > 0 && forall i :: 0 <= i < |chunks| ==> chunks[i] != []
    ensures answer == Ok(Window(Flatten(chunks), ask.off, ask.len))
  {
    hide FuseWriter.Valid, FuseReader.Valid, OneSwitch, Window, Flatten;
    var handle := FuseFile.Open(ReadWrite, creates, truncates, made, channelSize, true, contents);
    var file := handle.value;
    FlattenNothing();
    var pos := 0;
    assert chunks[..0] == [];
    for i := 0 to |chunks|
      invariant file.Valid() && fresh(file.Repr()) && file.phase.Writing? && file.writer != null && file.reader == null
      invariant file.writer.pos == pos && BytesOf(file.writer.pieces, |file.writer.pieces|) == Flatten(chunks[..i])
    {
      FlattenMore(chunks[..i], chunks[i]);
      assert chunks[..i + 1] == chunks[..i] + [chunks[i]];
      BytesOfMore(file.writer.pieces, Piece(pos, chunks[i]));
      var written := file.Write(pos, chunks[i]);
      pos := pos + |chunks[i]|;
    }
    assert chunks[..|chunks|] == chunks;
    answer := ReadOnce(file, ask);
  }

  /** Read once, and close. */
  method ReadOnce(file: FuseFile, ask: Ask) returns (answer: Result<seq<byte>>)
    requires file.Valid() && file.phase.Writing? && file.writer != null && file.reliable && file.action.ReadWrite?
    modifies file.Repr()
    ensures answer == Ok(Window(old(BytesOf(file.writer.pieces, |file.writer.pieces|)), ask.off, ask.len))
  {
    hide FuseWriter.Valid, FuseReader.Valid, OneSwitch, Window, BytesOf;
    var read := file.Read(ask.off, ask.len);
    var reader := file.reader;
    var closed := file.Complete();
    FirstAnswer(reader, ask);
    answer := reader.answers[0];
  }

  lemma {:induction false} FirstAnswer(reader: FuseReader, ask: Ask)
    requires reader.Valid() && reader.reliable && reader.asked == [ask] && |reader.answers| == 1
    ensures reader.answers[0] == Ok(Window(reader.file, ask.off, ask.len))
  {
  }

  /** What the kernel asks of a handle. */
  datatype Call = WriteAt(piece: Piece) | ReadAt(ask: Ask) | FlushAll | Close

  /** The directions of the calls that moved data. */
  function Transfers(calls: seq<Call>, outcomes: seq<Outcome>): seq<Direction>
    requires |calls| == |outcomes|
  {
    if calls == [] then []
    else
      var n := |calls| - 1;
      Transfers(calls[..n], outcomes[..n]) +
      if outcomes[n].Done? && calls[n].WriteAt? then [Out]
      else if outcomes[n].Done? && calls[n].ReadAt? then [In]
      else []
  }
}
