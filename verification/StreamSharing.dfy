/**
 * Any number of collectors and readers on clones of one stream body, under every interleaving.
 * A collector holds the cell's lock from taking the stream until it ends; a reader only tries
 * the lock.  Either may be dropped at any moment.
 */
module StreamSharing {
  import opened Text
  import opened StreamBody

  type Id = nat

  datatype Process =
    | Waiting(limit: nat)
    | Collecting(limit: nat, rest: Stream, buffer: Bytes)
    | Finished(limit: nat, result: Result, owner: bool)
    | Reading(reader: Reader)
    | Dropped(owner: bool)

  datatype System = System(cell: Option<Stream>, lock: Option<Id>, processes: map<Id, Process>)

  datatype Action =
    | Call(id: Id, limit: nat)
    | Open(id: Id)
    | Lock(id: Id)
    | Pull(id: Id)
    | PollOnce(id: Id, n: nat)
    | Drop(id: Id)

  function Initial(stream: Stream): System {
    System(Some(stream), None, map[])
  }

  predicate Enabled(s: System, a: Action) {
    match a
    case Call(id, _) => id !in s.processes
    case Open(id) => id !in s.processes
    case Lock(id) => id in s.processes && s.processes[id].Waiting? && s.lock.None?
    case Pull(id) => id in s.processes && s.processes[id].Collecting?
    case PollOnce(id, _) => id in s.processes && s.processes[id].Reading?
    case Drop(id) => id in s.processes
  }

  /** Whether the process has ever held the stream. */
  predicate Owns(p: Process) {
    match p
    case Waiting(_) => false
    case Collecting(_, _, _) => true
    case Finished(_, _, owner) => owner
    case Reading(reader) => reader.Active?
    case Dropped(owner) => owner
  }

  /** One turn of the collecting loop. */
  function Pulled(p: Process): Process
    requires p.Collecting?
  {
    if p.rest == [] then Finished(p.limit, Ok(p.buffer), true)
    else
      match p.rest[0]
      case Fail(e) => Finished(p.limit, Err(e), true)
      case Data(b) =>
        if |p.buffer| + |b| > p.limit then Finished(p.limit, Err(LimitExceeded(p.limit)), true)
        else Collecting(p.limit, p.rest[1..], p.buffer + b)
  }

  function Locked(s: System, id: Id): System
    requires Enabled(s, Lock(id))
  {
    var limit := s.processes[id].limit;
    if s.cell.None? then s.(processes := s.processes[id := Finished(limit, Err(AlreadyConsumed), false)])
    else System(None, Some(id), s.processes[id := Collecting(limit, s.cell.value, [])])
  }

  function Apply(s: System, a: Action): System
    requires Enabled(s, a)
  {
    match a
    case Call(id, limit) => s.(processes := s.processes[id := Waiting(limit)])
    case Open(id) => s.(processes := s.processes[id := Reading(Fresh)])
    case Lock(id) => Locked(s, id)
    case Pull(id) =>
      var p := Pulled(s.processes[id]);
      System(s.cell, if p.Collecting? then s.lock else None, s.processes[id := p])
    case PollOnce(id, n) =>
      var r := PollReader(s.cell, s.processes[id].reader, s.lock.Some?, n);
      System(r.cell, s.lock, s.processes[id := Reading(r.reader)])
    case Drop(id) =>
      System(s.cell, if s.processes[id].Collecting? then None else s.lock, s.processes[id := Dropped(Owns(s.processes[id]))])
  }

  ghost predicate Reaches(s: System, run: seq<Action>, t: System)
    decreases |run|
  {
    if run == [] then s == t else Enabled(s, run[0]) && Reaches(Apply(s, run[0]), run[1..], t)
  }

  // ---- the invariant ----

  /** What a process shows is right for the stream. */
  ghost predicate Right(stream: Stream, p: Process) {
    match p
    case Waiting(_) => true
    case Collecting(limit, rest, buffer) => Collect(rest, buffer, limit) == Collect(stream, [], limit)
    case Finished(limit, result, owner) => result == if owner then Collect(stream, [], limit) else Err(AlreadyConsumed)
    case Reading(reader) => reader.Active? ==> Whole(reader.source) == Concat(stream)
    case Dropped(_) => true
  }

  /** The process was turned away because the stream was gone. */
  predicate TurnedAway(p: Process) {
    (p.Finished? && !p.owner) || p == Reading(Refused)
  }

  ghost predicate OneOwner(s: System) {
    forall i, j | i in s.processes && j in s.processes && Owns(s.processes[i]) && Owns(s.processes[j]) :: i == j
  }

  /** The stream is in the cell, or exactly one process has taken it. */
  ghost predicate CellOrOwner(stream: Stream, s: System) {
    && OneOwner(s)
    && (s.cell.Some? ==> s.cell.value == stream && forall i | i in s.processes :: !Owns(s.processes[i]) && !TurnedAway(s.processes[i]))
    && (s.cell.None? ==> exists i :: i in s.processes && Owns(s.processes[i]))
  }

  ghost predicate LockHeld(s: System) {
    forall i | i in s.processes :: s.processes[i].Collecting? ==> s.lock == Some(i)
  }

  ghost predicate Inv(stream: Stream, s: System) {
    && CellOrOwner(stream, s)
    && LockHeld(s)
    && forall i | i in s.processes :: Right(stream, s.processes[i])
  }

  lemma ProcessIsRight(stream: Stream, s: System, a: Action, i: Id)
    requires Inv(stream, s) && Enabled(s, a) && i in Apply(s, a).processes
    ensures Right(stream, Apply(s, a).processes[i])
  {
    if a.PollOnce? && i == a.id {
      PollIsRight(stream, s, a.id, a.n);
    } else if i in s.processes {
      assert Right(stream, s.processes[i]);
    }
  }

  lemma PollIsRight(stream: Stream, s: System, id: Id, n: nat)
    requires Inv(stream, s) && Enabled(s, PollOnce(id, n))
    ensures Right(stream, Apply(s, PollOnce(id, n)).processes[id])
  {
    var reader := s.processes[id].reader;
    assert Right(stream, s.processes[id]);
    if reader.Active? {
      ReadConserves(reader.source, n);
    } else if reader.Fresh? && s.lock.None? && s.cell.Some? {
      ReadConserves(Source(stream, [], []), n);
    }
  }

  /** Only a process that finds the stream in the cell becomes an owner. */
  lemma OwnerStep(s: System, a: Action, i: Id)
    requires Enabled(s, a) && i in Apply(s, a).processes && Owns(Apply(s, a).processes[i])
    ensures (i in s.processes && Owns(s.processes[i])) || (i == a.id && s.cell.Some? && Apply(s, a).cell.None?)
  {
  }

  lemma OwnerStays(s: System, a: Action, i: Id)
    requires Enabled(s, a) && i in s.processes && Owns(s.processes[i])
    ensures i in Apply(s, a).processes && Owns(Apply(s, a).processes[i])
  {
  }

  lemma CellStep(s: System, a: Action)
    requires Enabled(s, a)
    ensures Apply(s, a).cell == s.cell || (Apply(s, a).cell.None? && Owns(Apply(s, a).processes[a.id]))
    ensures s.cell.Some? && Apply(s, a).cell == s.cell && a.id in s.processes && !TurnedAway(s.processes[a.id])
            ==> !TurnedAway(Apply(s, a).processes[a.id])
  {
  }

  lemma OneOwnerStep(stream: Stream, s: System, a: Action)
    requires Inv(stream, s) && Enabled(s, a)
    ensures OneOwner(Apply(s, a))
  {
    var t := Apply(s, a);
    forall i, j | i in t.processes && j in t.processes && Owns(t.processes[i]) && Owns(t.processes[j])
      ensures i == j
    {
      OwnerStep(s, a, i);
      OwnerStep(s, a, j);
    }
  }

  lemma CellOrOwnerStep(stream: Stream, s: System, a: Action)
    requires Inv(stream, s) && Enabled(s, a)
    ensures CellOrOwner(stream, Apply(s, a))
  {
    var t := Apply(s, a);
    OneOwnerStep(stream, s, a);
    CellStep(s, a);
    if t.cell.Some? {
      forall i | i in t.processes
        ensures !Owns(t.processes[i]) && !TurnedAway(t.processes[i])
      {
        if Owns(t.processes[i]) {
          OwnerStep(s, a, i);
        }
      }
    } else if s.cell.None? {
      var i :| i in s.processes && Owns(s.processes[i]);
      OwnerStays(s, a, i);
    }
  }

  lemma InvStep(stream: Stream, s: System, a: Action)
    requires Inv(stream, s) && Enabled(s, a)
    ensures Inv(stream, Apply(s, a))
  {
    var t := Apply(s, a);
    CellOrOwnerStep(stream, s, a);
    forall i | i in t.processes
      ensures Right(stream, t.processes[i])
    {
      ProcessIsRight(stream, s, a, i);
    }
    LockStep(s, a);
  }

  lemma LockStep(s: System, a: Action)
    requires LockHeld(s) && Enabled(s, a)
    ensures LockHeld(Apply(s, a))
  {
  }

  lemma {:induction false} InvRun(stream: Stream, s: System, run: seq<Action>, t: System)
    requires Inv(stream, s) && Reaches(s, run, t)
    ensures Inv(stream, t)
    decreases |run|
  {
    if run != [] {
      InvStep(stream, s, run[0]);
      InvRun(stream, Apply(s, run[0]), run[1..], t);
    }
  }

  // ---- results over every run ----

  /** At most one consumer ever obtains the stream, and exactly one once the handle is empty. */
  lemma SingleConsumption(stream: Stream, run: seq<Action>, s: System)
    requires Reaches(Initial(stream), run, s)
    ensures OneOwner(s)
    ensures s.cell.None? <==> exists i :: i in s.processes && Owns(s.processes[i])
    ensures s.cell.Some? ==> s.cell.value == stream
  {
    InvRun(stream, Initial(stream), run, s);
  }

  /** A call that ends found the stream and collected it, or was told that it is gone. */
  lemma CallsEndRight(stream: Stream, run: seq<Action>, s: System, id: Id)
    requires Reaches(Initial(stream), run, s) && id in s.processes && s.processes[id].Finished?
    ensures s.cell.None?
    ensures s.processes[id].owner ==> s.processes[id].result == Collect(stream, [], s.processes[id].limit)
    ensures !s.processes[id].owner ==>
              && s.processes[id].result == Err(AlreadyConsumed)
              && exists i :: i in s.processes && i != id && Owns(s.processes[i])
  {
    InvRun(stream, Initial(stream), run, s);
    assert Right(stream, s.processes[id]);
  }

  /** Whatever a reader has delivered is a prefix of the stream's data. */
  lemma ReadersDeliverPrefixes(stream: Stream, run: seq<Action>, s: System, id: Id)
    requires Reaches(Initial(stream), run, s) && id in s.processes && s.processes[id].Reading?
    requires s.processes[id].reader.Active?
    ensures s.processes[id].reader.source.out <= Concat(stream)
    ensures forall i | i in s.processes && Owns(s.processes[i]) :: i == id
  {
    InvRun(stream, Initial(stream), run, s);
    assert Right(stream, s.processes[id]);
  }

  /** A reader is refused only because someone else has the stream, and stays refused. */
  lemma RefusalIsFinal(stream: Stream, run: seq<Action>, s: System, id: Id, n: nat)
    requires Reaches(Initial(stream), run, s) && id in s.processes && s.processes[id] == Reading(Refused)
    ensures exists i :: i in s.processes && i != id && Owns(s.processes[i])
    ensures Apply(s, PollOnce(id, n)) == s
  {
    InvRun(stream, Initial(stream), run, s);
    assert s.processes[id := Reading(Refused)] == s.processes;
  }
}
