/** The map-ip writer as a stateful object. It owns the translation set, which is
    created lazily on the first event, and a serial executor whose queue runs one task
    at a time in the order the tasks were scheduled. Receiving an event schedules its
    mutation; running a mutation changes the set and then schedules a write of the
    flat table to the output file. */
module Writer {
  import opened Wrappers
  import opened Translations
  import opened TranslationStore

  /** A task waiting in the executor's queue. */
  datatype Task = Mutate(event: Event) | Persist

  /** The events of the mutation tasks of q, in queue order. */
  function Mutations(q: seq<Task>): seq<Event>
    decreases |q|
  {
    if q == [] then []
    else (if q[0].Mutate? then [q[0].event] else []) + Mutations(q[1..])
  }

  /** The mutations of a concatenated queue are those of each part, in order. */
  lemma {:induction false} MutationsAppend(a: seq<Task>, b: seq<Task>)
    ensures Mutations(a + b) == Mutations(a) + Mutations(b)
    decreases |a|
  {
    if a == [] {
      assert a + b == b;
    } else {
      assert (a + b)[1..] == a[1..] + b;
      MutationsAppend(a[1..], b);
    }
  }

  /** A queue of one write task holds no mutation. */
  lemma MutationsOfPersist()
    ensures Mutations([Persist]) == []
  {
    assert [Persist][1..] == [];
  }

  class MapIPWriter {
    /** Where the table is written; only passed on to the file system. */
    const outputPath: string
    /** True until the first mutation creates the translation set. */
    var isNil: bool
    /** The translation set, meaningful once isNil is false. */
    var internalToExternal: set<Translation>
    /** Tasks scheduled on the serial executor and not yet run. */
    var pending: seq<Task>
    /** The last table this writer wrote to outputPath in full, if any. */
    var written: Option<map<string, string>>
    /** Every event received, in arrival order. */
    ghost var received: seq<Event>
    /** The events whose mutation has run, in the order they ran. */
    ghost var applied: seq<Event>
    /** Whether the most recent write task failed to write the file. */
    ghost var lastWriteFailed: bool

    /** The translation set as the code sees it: a nil set is empty. */
    function Active(): set<Translation>
      reads this
    {
      if isNil then {} else internalToExternal
    }

    /** The file is current: it holds a table of the set as it is now. */
    ghost predicate FileCurrent()
      reads this
    {
      written.Some? && IsProjection(Active(), written.value)
    }

    /** The object invariant: the set is the fold of the mutations run so far; the
        events still queued follow them in arrival order; and once a mutation has run,
        the file is current unless a write is still queued or the last write failed. */
    ghost predicate Valid()
      reads this
    {
      && (isNil <==> applied == [])
      && Active() == ApplyAll({}, applied)
      && received == applied + Mutations(pending)
      && (applied != [] && Persist !in pending && !lastWriteFailed ==> FileCurrent())
    }

    /** A writer with no set yet, an empty queue and no file written. */
    constructor (outputPath: string)
      ensures Valid()
      ensures this.outputPath == outputPath
      ensures isNil && Active() == {}
      ensures pending == [] && received == [] && written == None
      ensures !lastWriteFailed
    {
      this.outputPath := outputPath;
      isNil := true;
      internalToExternal := {};
      pending := [];
      written := None;
      received := [];
      applied := [];
      lastWriteFailed := false;
    }

    /** The flat table the write task builds: every translation's From is set to its
        To, in an unspecified iteration order. */
    method Project() returns (outmap: map<string, string>)
      ensures IsProjection(Active(), outmap)
    {
      outmap := map[];
      var rest := Active();
      ghost var done: set<Translation> := {};
      while rest != {}
        invariant done + rest == Active() && done !! rest
        invariant IsProjection(done, outmap)
        decreases |rest|
      {
        var t :| t in rest;
        ProjectionInsert(done, outmap, t);
        outmap := outmap[t.from := t.to];
        rest := rest - {t};
        done := done + {t};
      }
    }

    /** The write task: build the table and, when the file system accepts the write
        (writeOk), record it as the file's contents; a failed write records no new
        table. */
    method WriteToFile(writeOk: bool)
      modifies this`written, this`lastWriteFailed
      ensures writeOk ==> FileCurrent()
      ensures !writeOk ==> written == old(written)
      ensures lastWriteFailed == !writeOk
    {
      var outmap := Project();
      if writeOk {
        written := Some(outmap);
      }
      lastWriteFailed := !writeOk;
    }

    /** The mutation task without its bookkeeping: create the set if it is nil, then
        delete the event's translation for Deleted and insert it for any other kind. */
    method ApplyToSet(e: Event)
      modifies this`isNil, this`internalToExternal
      ensures !isNil
      ensures Active() == Apply(old(Active()), e)
    {
      if isNil {
        internalToExternal := {};
        isNil := false;
      }
      if e.kind == Deleted {
        internalToExternal := internalToExternal - {e.translation};
      } else {
        internalToExternal := internalToExternal + {e.translation};
      }
    }

    /** One turn of the receive loop: the event's mutation is scheduled behind every
        task already queued. */
    method Receive(e: Event)
      requires Valid()
      modifies this`pending, this`received
      ensures Valid()
      ensures pending == old(pending) + [Mutate(e)]
      ensures received == old(received) + [e]
    {
      MutationsAppend(pending, [Mutate(e)]);
      assert Mutations([Mutate(e)]) == [e] by {
        assert [Mutate(e)][1..] == [];
      }
      pending := pending + [Mutate(e)];
      received := received + [e];
    }

    /** The executor runs the task at the head of its queue. A mutation changes the set
        and schedules a write at the tail; a write replaces the file when writeOk. */
    method RunNext(writeOk: bool)
      requires Valid() && pending != []
      modifies this
      ensures Valid()
      ensures received == old(received)
      ensures old(pending[0]).Mutate? ==>
        && Active() == Apply(old(Active()), old(pending[0].event))
        && pending == old(pending[1..]) + [Persist]
        && applied == old(applied) + [old(pending[0].event)]
        && written == old(written)
        && lastWriteFailed == old(lastWriteFailed)
      ensures old(pending[0]) == Persist ==>
        && Active() == old(Active())
        && pending == old(pending[1..])
        && applied == old(applied)
        && (writeOk ==> FileCurrent())
        && (!writeOk ==> written == old(written))
        && lastWriteFailed == !writeOk
    {
      var task := pending[0];
      assert pending == [task] + pending[1..];
      MutationsAppend([task], pending[1..]);
      assert [task][1..] == [];
      match task
      case Mutate(e) =>
        ApplyToSet(e);
        ApplyAllSnoc({}, applied, e);
        applied := applied + [e];
        MutationsAppend(pending[1..], [Persist]);
        MutationsOfPersist();
        pending := pending[1..] + [Persist];
        assert Persist in pending by {
          assert pending[|pending| - 1] == Persist;
        }
      case Persist =>
        WriteToFile(writeOk);
        pending := pending[1..];
    }

    /** One event handled on an idle writer: it is received, its mutation runs, and the
        write that mutation schedules runs. */
    method ApplyEvent(e: Event, writeOk: bool)
      requires Valid() && pending == []
      modifies this
      ensures Valid() && pending == []
      ensures Active() == Apply(old(Active()), e)
      ensures received == old(received) + [e]
      ensures writeOk ==> FileCurrent()
      ensures !writeOk ==> written == old(written)
      ensures lastWriteFailed == !writeOk
    {
      Receive(e);
      RunNext(writeOk);
      RunNext(writeOk);
    }

    /** Events handled one at a time in arrival order, the i-th write succeeding when
        writeOks[i]: the set ends as the fold of the events over the set it started
        from, and the file is current when the last write succeeded. */
    method ProcessEvents(events: seq<Event>, writeOks: seq<bool>)
      requires Valid() && pending == []
      requires |writeOks| == |events|
      modifies this
      ensures Valid() && pending == []
      ensures Active() == ApplyAll(old(Active()), events)
      ensures received == old(received) + events
      ensures events != [] && writeOks[|events| - 1] ==> FileCurrent()
      ensures events != [] ==> lastWriteFailed == !writeOks[|events| - 1]
      ensures events == [] ==> lastWriteFailed == old(lastWriteFailed)
      ensures (forall j :: 0 <= j < |events| ==> !writeOks[j]) ==> written == old(written)
    {
      var i := 0;
      while i < |events|
        invariant 0 <= i <= |events|
        invariant Valid() && pending == []
        invariant Active() == ApplyAll(old(Active()), events[..i])
        invariant received == old(received) + events[..i]
        invariant i > 0 && writeOks[i - 1] ==> FileCurrent()
        invariant i > 0 ==> lastWriteFailed == !writeOks[i - 1]
        invariant i == 0 ==> lastWriteFailed == old(lastWriteFailed)
        invariant (forall j :: 0 <= j < i ==> !writeOks[j]) ==> written == old(written)
      {
        ApplyAllSnoc(old(Active()), events[..i], events[i]);
        assert events[..i + 1] == events[..i] + [events[i]];
        ApplyEvent(events[i], writeOks[i]);
        i := i + 1;
      }
      assert events[..i] == events;
    }
  }

  /** Under any interleaving of receiving and running, once the queue is empty the set
      is the fold of every event received, in arrival order, and the file holds a table
      of it unless the last write failed. */
  lemma Quiescent(w: MapIPWriter)
    requires w.Valid() && w.pending == []
    ensures w.Active() == ApplyAll({}, w.received)
    ensures w.received != [] && !w.lastWriteFailed ==>
      w.written.Some? && IsProjection(ApplyAll({}, w.received), w.written.value)
  {
    assert Mutations(w.pending) == [];
    assert w.received == w.applied + [] == w.applied;
  }

  /** The writer's test scenario: add 127.0.0.1 -> 148.142.120.1 and 1.1.1.1 -> 1.1.1.1,
      then delete 1.1.1.1 -> 1.1.1.1, every write succeeding. */
  method WriterScenario() returns (afterAdds: Option<map<string, string>>, afterDelete: Option<map<string, string>>)
    ensures afterAdds == Some(map["127.0.0.1" := "148.142.120.1", "1.1.1.1" := "1.1.1.1"])
    ensures afterDelete == Some(map["127.0.0.1" := "148.142.120.1"])
  {
    var a := Translation("127.0.0.1", "148.142.120.1");
    var b := Translation("1.1.1.1", "1.1.1.1");
    var w := new MapIPWriter("output.yaml");
    w.ApplyEvent(Event(a, Added), true);
    w.ApplyEvent(Event(b, Added), true);
    assert w.Active() == {a, b};
    ProjectionUnique({a, b}, w.written.value, map[a.from := a.to, b.from := b.to]);
    afterAdds := w.written;
    w.ApplyEvent(Event(b, Deleted), true);
    assert w.Active() == {a};
    ProjectionUnique({a}, w.written.value, map[a.from := a.to]);
    afterDelete := w.written;
  }

  /** Adding a translation to a new writer and then deleting it, both writes
      succeeding, leaves an empty table in the file. */
  method AddDeleteScenario(t: Translation) returns (afterDelete: Option<map<string, string>>)
    ensures afterDelete == Some(map[])
  {
    var w := new MapIPWriter("output.yaml");
    w.ApplyEvent(Event(t, Added), true);
    w.ApplyEvent(Event(t, Deleted), true);
    assert w.Active() == {};
    ProjectionOfEmpty(w.written.value);
    afterDelete := w.written;
  }
}
