/**
 The element stream behind an export (crates/xmtp_archive/src/export_stream): record streamers
 that page through a table, one after another, flattened into single elements.
 */
module ExportStream {
  import opened Bytes
  import opened Wrappers
  import opened Archive
  import opened Exporter

  const BATCH_SIZE: nat := 100

  /** A table as its provider sees it, in page order: each record's element, or None for one it skips. */
  type Records = seq<Option<BackupElement>>

  function Kept(rs: Records): seq<BackupElement>
  {
    if rs == [] then [] else (if rs[0].Some? then [rs[0].value] else []) + Kept(rs[1..])
  }

  function Page(rs: Records): Records
  {
    if |rs| < BATCH_SIZE then rs else rs[..BATCH_SIZE]
  }

  function AfterPage(rs: Records): Records
  {
    if |rs| < BATCH_SIZE then [] else rs[BATCH_SIZE..]
  }

  /** What is left of a table from an offset on. */
  function From(rs: Records, offset: nat): Records
  {
    if offset <= |rs| then rs[offset..] else []
  }

  /** The elements a streamer exports: page after page, up to the first page that yields none. */
  function Exported(rs: Records): seq<BackupElement>
    decreases |rs|
  {
    var batch := Kept(Page(rs));
    if batch == [] then [] else batch + Exported(AfterPage(rs))
  }

  // ----- what is exported -----

  ghost predicate AllSkipped(rs: Records)
  {
    forall i :: 0 <= i < |rs| ==> rs[i] == None
  }

  /** Page k is skipped throughout, and a record that should be exported follows it. */
  ghost predicate Gap(rs: Records, k: nat)
  {
    && AllSkipped(Page(From(rs, k * BATCH_SIZE)))
    && !AllSkipped(From(rs, k * BATCH_SIZE))
  }

  lemma {:induction false} KeptJoins(a: Records, b: Records)
    ensures Kept(a + b) == Kept(a) + Kept(b)
  {
    if a == [] {
      assert a + b == b;
    } else {
      assert (a + b)[1..] == a[1..] + b;
      KeptJoins(a[1..], b);
      ConcatAssoc(if a[0].Some? then [a[0].value] else [], Kept(a[1..]), Kept(b));
    }
  }

  lemma {:induction false} KeptNothing(rs: Records)
    ensures Kept(rs) == [] <==> AllSkipped(rs)
  {
    if rs != [] {
      KeptNothing(rs[1..]);
      assert AllSkipped(rs) <==> rs[0] == None && AllSkipped(rs[1..]) by {
        assert forall i :: 0 < i < |rs| ==> rs[i] == rs[1..][i - 1];
      }
    }
  }

  lemma KeptByPages(rs: Records)
    ensures Kept(rs) == Kept(Page(rs)) + Kept(AfterPage(rs))
  {
    assert rs == Page(rs) + AfterPage(rs);
    KeptJoins(Page(rs), AfterPage(rs));
  }

  lemma FromFrom(rs: Records, k: nat)
    ensures From(AfterPage(rs), k * BATCH_SIZE) == From(rs, (k + 1) * BATCH_SIZE)
  {
  }

  /** Nothing is exported out of order, twice or made up. */
  lemma {:induction false} ExportedInOrder(rs: Records)
    ensures Exported(rs) <= Kept(rs)
    decreases |rs|
  {
    KeptByPages(rs);
    if Kept(Page(rs)) != [] {
      ExportedInOrder(AfterPage(rs));
    }
  }

  /**
   A whole table is exported exactly when it has no gap.  A run of skipped records that fills a
   page in front of others loses everything after it: the streamer takes the empty batch for the end.
   */
  lemma {:induction false} ExportedWholeIff(rs: Records)
    ensures Exported(rs) == Kept(rs) <==> forall k: nat :: !Gap(rs, k)
    decreases |rs|
  {
    KeptNothing(Page(rs));
    if Kept(Page(rs)) == [] {
      SkippedPage(rs);
    } else {
      KeptByPages(rs);
      ExportedWholeIff(AfterPage(rs));
      GapsMove(rs);
      if Exported(rs) == Kept(rs) {
        Cancel(Kept(Page(rs)), Kept(Page(rs)), Exported(AfterPage(rs)), Kept(AfterPage(rs)));
      }
    }
  }

  /** A first page that is skipped throughout ends the export, rightly only if all the rest is skipped too. */
  lemma SkippedPage(rs: Records)
    requires AllSkipped(Page(rs))
    ensures Exported(rs) == []
    ensures Kept(rs) == [] <==> forall k: nat :: !Gap(rs, k)
  {
    KeptNothing(Page(rs));
    KeptNothing(rs);
    assert From(rs, 0 * BATCH_SIZE) == rs;
    assert Gap(rs, 0) <==> !AllSkipped(rs);
    if AllSkipped(rs) {
      forall k: nat ensures !Gap(rs, k) {
        assert AllSkipped(From(rs, k * BATCH_SIZE));
      }
    }
  }

  /** For instance: a readable record after a hundred unreadable ones is not exported. */
  lemma LostBehindSkippedPage(e: BackupElement, rs: Records)
    requires rs == seq(100, i => None) + [Some(e)]
    ensures Exported(rs) == [] && Kept(rs) == [e]
  {
    assert Page(rs) == seq(BATCH_SIZE, i => None);
    SkippedPage(rs);
    KeptByPages(rs);
    KeptNothing(Page(rs));
    assert AfterPage(rs) == [Some(e)];
    assert Kept([Some(e)]) == [e];
  }

  lemma GapsMove(rs: Records)
    requires !AllSkipped(Page(rs))
    ensures (forall k: nat :: !Gap(rs, k)) <==> (forall k: nat :: !Gap(AfterPage(rs), k))
  {
    assert From(rs, 0 * BATCH_SIZE) == rs;
    forall k: nat ensures Gap(rs, k + 1) <==> Gap(AfterPage(rs), k) {
      FromFrom(rs, k);
    }
    if k: nat :| Gap(rs, k) {
      assert k > 0;
      assert Gap(AfterPage(rs), k - 1);
    }
  }

  lemma KeptFirst(rest: Records)
    ensures rest == [] ==> AllSkipped(rest)
    ensures rest != [] && rest[0].Some? ==> !AllSkipped(Page(rest))
  {
    assert rest != [] ==> Page(rest)[0] == rest[0];
  }

  /** The consent and message providers skip nothing, so they export everything. */
  lemma NothingSkippedIsWhole(rs: Records)
    requires forall i :: 0 <= i < |rs| ==> rs[i].Some?
    ensures Exported(rs) == Kept(rs)
  {
    ExportedWholeIff(rs);
    forall k: nat ensures !Gap(rs, k) {
      var rest := From(rs, k * BATCH_SIZE);
      KeptFirst(rest);
    }
  }

  // ----- one table -----

  /** One poll of a query: not ready, or failed; a query beyond the script is answered. */
  datatype DbPoll = Later | Fails | Answers

  /** One poll of a record streamer. */
  datatype SourceEvent = Batch(elements: seq<BackupElement>) | Stalled | Broken

  /** What the polls of a streamer give until it reports its end. */
  function Script(rs: Records, db: seq<DbPoll>): seq<SourceEvent>
    decreases |rs|, |db|
  {
    var db' := if db == [] then [] else db[1..];
    if db != [] && db[0] == Later then [Stalled] + Script(rs, db')
    else if db != [] && db[0] == Fails then [Broken] + Script(rs, db')
    else
      var batch := Kept(Page(rs));
      if batch == [] then [] else [Batch(batch)] + Script(AfterPage(rs), db')
  }

  class BackupRecordStreamer {
    const table: Records
    var cursor: nat
    var db: seq<DbPoll>

    constructor (table: Records, db: seq<DbPoll>)
      ensures Rest() == Script(table, db)
    {
      this.table, cursor, this.db := table, 0, db;
      new;
      assert From(table, 0) == table;
    }

    ghost function Rest(): seq<SourceEvent>
      reads this
    {
      Script(From(table, cursor), db)
    }

    /** A page is asked for at the cursor, again after an error; an empty batch is the end. */
    method PollNext() returns (r: Option<SourceEvent>)
      modifies this
      ensures old(Rest()) == [] ==> r == None
      ensures old(Rest()) != [] ==> r == Some(old(Rest())[0]) && Rest() == old(Rest())[1..]
      ensures r == Some(Stalled) <==> old(db) != [] && old(db)[0] == Later
      ensures r == Some(Broken) <==> old(db) != [] && old(db)[0] == Fails
      ensures cursor == if r.Some? && r.value.Batch? then old(cursor) + BATCH_SIZE else old(cursor)
    {
      var poll := Answers;
      if db != [] {
        poll := db[0];
        db := db[1..];
      }
      match poll {
        case Later => return Some(Stalled);
        case Fails => return Some(Broken);
        case Answers =>
      }
      var batch := Kept(Page(From(table, cursor)));
      if batch == [] {
        return None;
      }
      assert From(table, cursor + BATCH_SIZE) == AfterPage(From(table, cursor));
      cursor := cursor + BATCH_SIZE;
      r := Some(Batch(batch));
    }
  }

  // ----- all tables -----

  function Items(es: seq<BackupElement>): (r: seq<StreamEvent>)
    ensures |r| == |es|
  {
    seq(|es|, i requires 0 <= i < |es| => Item(es[i]))
  }

  /** What one event of a streamer becomes. */
  function Spread(e: SourceEvent): seq<StreamEvent>
  {
    match e
    case Batch(es) => Items(es)
    case Stalled => [NotReady]
    case Broken => [Failure]
  }

  function Flatten(source: seq<SourceEvent>): seq<StreamEvent>
  {
    if source == [] then [] else Spread(source[0]) + Flatten(source[1..])
  }

  /** Events are spread out each in its place. */
  lemma {:induction false} FlattenLaw(a: seq<SourceEvent>, b: seq<SourceEvent>, es: seq<BackupElement>)
    ensures Flatten(a + b) == Flatten(a) + Flatten(b)
    ensures Flatten([Stalled]) == [NotReady] && Flatten([Broken]) == [Failure] && Flatten([Batch(es)]) == Items(es)
  {
    assert forall e: SourceEvent :: [e][1..] == [];
    if a == [] {
      assert a + b == b;
    } else {
      assert (a + b)[1..] == a[1..] + b;
      FlattenLaw(a[1..], b, es);
      ConcatAssoc(Spread(a[0]), Flatten(a[1..]), Flatten(b));
    }
  }

  /** The sources one after another. */
  function Merged(sources: seq<seq<SourceEvent>>): seq<StreamEvent>
  {
    if sources == [] then [] else Flatten(sources[0]) + Merged(sources[1..])
  }

  function Reverse<T>(s: seq<T>): (r: seq<T>)
    ensures |r| == |s|
    ensures forall i :: 0 <= i < |s| ==> r[i] == s[|s| - 1 - i]
  {
    if s == [] then [] else [s[|s| - 1]] + Reverse(s[..|s| - 1])
  }

  lemma ReverseTwice<T>(s: seq<T>)
    ensures Reverse(Reverse(s)) == s
  {
  }

  /** What a stream will still report, given its buffer and its sources, both used from the back. */
  function FlowOf(buffer: seq<BackupElement>, inputs: seq<seq<SourceEvent>>): seq<StreamEvent>
  {
    Items(Reverse(buffer)) + Merged(Reverse(inputs))
  }

  lemma NoBuffer(inputs: seq<seq<SourceEvent>>)
    ensures FlowOf([], inputs) == Merged(Reverse(inputs))
  {
    assert Items(Reverse([])) == [];
  }

  lemma PopMerged(inputs: seq<seq<SourceEvent>>)
    requires inputs != []
    ensures Merged(Reverse(inputs)) == Flatten(inputs[|inputs| - 1]) + Merged(Reverse(inputs[..|inputs| - 1]))
  {
    assert Reverse(inputs)[1..] == Reverse(inputs[..|inputs| - 1]);
  }

  /** An exhausted source adds nothing. */
  lemma DropSource(inputs: seq<seq<SourceEvent>>)
    requires inputs != [] && inputs[|inputs| - 1] == []
    ensures FlowOf([], inputs) == FlowOf([], inputs[..|inputs| - 1])
  {
    PopMerged(inputs);
    NoBuffer(inputs);
    NoBuffer(inputs[..|inputs| - 1]);
  }

  /** The first event of the source in use comes first. */
  lemma TakeEvent(inputs: seq<seq<SourceEvent>>)
    requires inputs != [] && inputs[|inputs| - 1] != []
    ensures var n, top := |inputs| - 1, inputs[|inputs| - 1];
            FlowOf([], inputs) == Spread(top[0]) + Merged(Reverse(inputs[n := top[1..]]))
  {
    var n, top := |inputs| - 1, inputs[|inputs| - 1];
    var inputs' := inputs[n := top[1..]];
    NoBuffer(inputs);
    PopMerged(inputs);
    PopMerged(inputs');
    assert inputs'[..n] == inputs[..n];
    ConcatAssoc(Spread(top[0]), Flatten(top[1..]), Merged(Reverse(inputs[..n])));
  }

  lemma TakeBatch(inputs: seq<seq<SourceEvent>>)
    requires inputs != [] && inputs[|inputs| - 1] != [] && inputs[|inputs| - 1][0].Batch?
    ensures var n, top := |inputs| - 1, inputs[|inputs| - 1];
            FlowOf([], inputs) == FlowOf(Reverse(top[0].elements), inputs[n := top[1..]])
  {
    TakeEvent(inputs);
    ReverseTwice(inputs[|inputs| - 1][0].elements);
  }

  lemma TakeOther(inputs: seq<seq<SourceEvent>>)
    requires inputs != [] && inputs[|inputs| - 1] != [] && !inputs[|inputs| - 1][0].Batch?
    ensures var n, top := |inputs| - 1, inputs[|inputs| - 1];
            FlowOf([], inputs) == [if top[0].Stalled? then NotReady else Failure] + FlowOf([], inputs[n := top[1..]])
  {
    TakeEvent(inputs);
    NoBuffer(inputs[|inputs| - 1 := inputs[|inputs| - 1][1..]]);
  }

  lemma TakeBuffered(buffer: seq<BackupElement>, inputs: seq<seq<SourceEvent>>)
    requires buffer != []
    ensures var n := |buffer| - 1;
            FlowOf(buffer, inputs) == [Item(buffer[n])] + FlowOf(buffer[..n], inputs)
  {
    var n := |buffer| - 1;
    assert Items(Reverse(buffer)) == [Item(buffer[n])] + Items(Reverse(buffer[..n]));
    ConcatAssoc([Item(buffer[n])], Items(Reverse(buffer[..n])), Merged(Reverse(inputs)));
  }

  class BatchExportStream {
    // both are used from the back
    var buffer: seq<BackupElement>
    var inputStreams: seq<seq<SourceEvent>>

    /** Everything this stream will still report before its end. */
    ghost function Flow(): seq<StreamEvent>
      reads this
    {
      FlowOf(buffer, inputStreams)
    }

    constructor (sources: seq<seq<SourceEvent>>)
      ensures Flow() == Merged(sources)
    {
      buffer := [];
      inputStreams := Reverse(sources);
      new;
      ReverseTwice(sources);
      NoBuffer(inputStreams);
    }

    /** Reports the events in order, one a poll, and after the last one its end, for ever. */
    method PollNext() returns (r: Option<StreamEvent>)
      modifies this
      ensures r == None ==> old(Flow()) == [] == Flow()
      ensures r.Some? ==> old(Flow()) == [r.value] + Flow()
    {
      if buffer != [] {
        r := PopBuffer();
        return;
      }
      while inputStreams != []
        invariant buffer == [] && Flow() == old(Flow())
        decreases |inputStreams|, if inputStreams == [] then 0 else |inputStreams[|inputStreams| - 1]|
      {
        var n := |inputStreams| - 1;
        var top := inputStreams[n];
        if top == [] {
          DropSource(inputStreams);
          inputStreams := inputStreams[..n];
        } else if top[0].Batch? {
          TakeBatch(inputStreams);
          inputStreams := inputStreams[n := top[1..]];
          buffer := Reverse(top[0].elements);
          if buffer != [] {
            r := PopBuffer();
            return;
          }
        } else {
          TakeOther(inputStreams);
          inputStreams := inputStreams[n := top[1..]];
          return Some(if top[0].Stalled? then NotReady else Failure);
        }
      }
      NoBuffer([]);
      r := None;
    }

    method PopBuffer() returns (r: Option<StreamEvent>)
      requires buffer != []
      modifies this`buffer
      ensures r.Some? && old(Flow()) == [r.value] + Flow()
    {
      TakeBuffered(buffer, inputStreams);
      r := Some(Item(buffer[|buffer| - 1]));
      buffer := buffer[..|buffer| - 1];
    }
  }

  // ----- from options and tables to elements -----

  datatype Kind = ConsentRecords | Groups | GroupMessages

  function KindsOf(selection: Selection): seq<Kind>
  {
    match selection
    case Consent => [ConsentRecords]
    case Messages => [Groups, GroupMessages]
    case Event => []
    case Unspecified => []
  }

  function Kinds(selections: seq<Selection>): seq<Kind>
  {
    if selections == [] then [] else KindsOf(selections[0]) + Kinds(selections[1..])
  }

  /** Messages always come right after the groups they belong to. */
  lemma {:induction false} GroupsBeforeMessages(selections: seq<Selection>, i: nat)
    requires i < |Kinds(selections)| && Kinds(selections)[i] == GroupMessages
    ensures i > 0 && Kinds(selections)[i - 1] == Groups
  {
    var here := |Kinds(selections)| - |Kinds(selections[1..])|;
    if i >= here {
      GroupsBeforeMessages(selections[1..], i - here);
    }
  }

  /** The polls of the streamers, in the order they are drained; `db` is how the queries of each go. */
  function Sources(tables: Kind -> Records, db: nat -> seq<DbPoll>, kinds: seq<Kind>): seq<seq<SourceEvent>>
  {
    if kinds == [] then [] else [Script(tables(kinds[0]), db(|kinds|))] + Sources(tables, db, kinds[1..])
  }

  function AllExported(tables: Kind -> Records, kinds: seq<Kind>): seq<BackupElement>
  {
    if kinds == [] then [] else Exported(tables(kinds[0])) + AllExported(tables, kinds[1..])
  }

  lemma {:induction false} DeliveredJoins(a: seq<StreamEvent>, b: seq<StreamEvent>)
    ensures Delivered(a + b) == Delivered(a) + Delivered(b)
  {
    if a == [] {
      assert a + b == b;
    } else {
      assert (a + b)[1..] == a[1..] + b;
      DeliveredJoins(a[1..], b);
      ConcatAssoc(if a[0].Item? then [a[0].element] else [], Delivered(a[1..]), Delivered(b));
    }
  }

  lemma {:induction false} DeliveredItems(es: seq<BackupElement>)
    ensures Delivered(Items(es)) == es
  {
    if es != [] {
      assert Items(es)[1..] == Items(es[1..]);
      DeliveredItems(es[1..]);
    }
  }

  /** One event and what follows it. */
  lemma DeliveredCons(e: SourceEvent, rest: seq<SourceEvent>)
    ensures Delivered(Flatten([e] + rest)) ==
            (if e.Batch? then e.elements else []) + Delivered(Flatten(rest))
  {
    assert ([e] + rest)[1..] == rest;
    DeliveredJoins(Spread(e), Flatten(rest));
    if e.Batch? {
      DeliveredItems(e.elements);
    } else {
      assert Delivered(Spread(e)) == [];
    }
  }

  /** However its queries go, a streamer delivers what its table exports. */
  lemma {:induction false} ScriptDelivers(rs: Records, db: seq<DbPoll>)
    ensures Delivered(Flatten(Script(rs, db))) == Exported(rs)
    decreases |rs|, |db|
  {
    var db' := if db == [] then [] else db[1..];
    if db != [] && db[0] != Answers {
      ScriptDelivers(rs, db');
      DeliveredCons(if db[0] == Later then Stalled else Broken, Script(rs, db'));
    } else if Kept(Page(rs)) != [] {
      ScriptDelivers(AfterPage(rs), db');
      DeliveredCons(Batch(Kept(Page(rs))), Script(AfterPage(rs), db'));
    }
  }

  /** The whole stream delivers the tables of the selected kinds, in the order of the selections. */
  lemma {:induction false} StreamDelivers(tables: Kind -> Records, db: nat -> seq<DbPoll>, kinds: seq<Kind>)
    ensures Delivered(Merged(Sources(tables, db, kinds))) == AllExported(tables, kinds)
  {
    if kinds != [] {
      var sources := Sources(tables, db, kinds);
      DeliveredJoins(Flatten(sources[0]), Merged(sources[1..]));
      ScriptDelivers(tables(kinds[0]), db(|kinds|));
      StreamDelivers(tables, db, kinds[1..]);
    }
  }

  function AllKept(tables: Kind -> Records, kinds: seq<Kind>): seq<BackupElement>
  {
    if kinds == [] then [] else Kept(tables(kinds[0])) + AllKept(tables, kinds[1..])
  }

  ghost predicate Gapless(tables: Kind -> Records, kinds: seq<Kind>)
  {
    forall i :: 0 <= i < |kinds| ==> forall k: nat :: !Gap(tables(kinds[i]), k)
  }

  lemma {:induction false} GaplessExportsAll(tables: Kind -> Records, kinds: seq<Kind>)
    requires Gapless(tables, kinds)
    ensures AllExported(tables, kinds) == AllKept(tables, kinds)
  {
    if kinds != [] {
      ExportedWholeIff(tables(kinds[0]));
      assert Gapless(tables, kinds[1..]) by {
        assert forall i :: 0 <= i < |kinds[1..]| ==> kinds[1..][i] == kinds[i + 1];
      }
      GaplessExportsAll(tables, kinds[1..]);
    }
  }
}
