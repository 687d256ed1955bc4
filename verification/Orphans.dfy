/**
 Messages and the groups they belong to, in an export (crates/xmtp_archive/src/export_stream): a
 client that does not have the group cannot restore a message that comes without it.
 */
module Orphans {
  import opened Bytes
  import opened Wrappers
  import opened Archive
  import opened ExportStream

  /** How elements refer to groups: the group an element is, and the group a message belongs to. */
  datatype Reference = Reference(self: BackupElement -> Option<bytes>, owner: BackupElement -> Option<bytes>)

  /** Group records are groups, message records belong to one, and consent records are neither. */
  ghost predicate Typed(f: Reference, tables: Kind -> Records)
  {
    && (forall e :: e in Exported(tables(Groups)) ==> f.self(e).Some? && f.owner(e) == None)
    && (forall e :: e in Exported(tables(GroupMessages)) ==> f.self(e) == None && f.owner(e).Some?)
    && (forall e :: e in Exported(tables(ConsentRecords)) ==> f.self(e) == None && f.owner(e) == None)
  }

  ghost predicate HasGroup(f: Reference, before: seq<BackupElement>, e: BackupElement)
  {
    exists g :: g in before && f.self(g) == f.owner(e)
  }

  /** Every message comes after its group. */
  ghost predicate NoOrphans(f: Reference, es: seq<BackupElement>)
  {
    forall i :: 0 <= i < |es| && f.owner(es[i]).Some? ==> HasGroup(f, es[..i], es[i])
  }

  lemma OrphansJoin(f: Reference, a: seq<BackupElement>, b: seq<BackupElement>)
    requires NoOrphans(f, a)
    requires forall i :: 0 <= i < |b| && f.owner(b[i]).Some? ==> HasGroup(f, a + b[..i], b[i])
    ensures NoOrphans(f, a + b)
  {
    var es := a + b;
    forall i | 0 <= i < |es| && f.owner(es[i]).Some? ensures HasGroup(f, es[..i], es[i]) {
      if i < |a| {
        assert es[..i] == a[..i];
        assert HasGroup(f, a[..i], a[i]);
      } else {
        assert es[..i] == a + b[..i - |a|];
        assert HasGroup(f, a + b[..i - |a|], b[i - |a|]);
      }
    }
  }

  lemma MoreBefore(f: Reference, a: seq<BackupElement>, b: seq<BackupElement>, e: BackupElement)
    requires HasGroup(f, b, e) || HasGroup(f, a, e)
    ensures HasGroup(f, a + b, e)
  {
    if HasGroup(f, b, e) {
      var g :| g in b && f.self(g) == f.owner(e);
      assert g in a + b;
    } else {
      var g :| g in a && f.self(g) == f.owner(e);
      assert g in a + b;
    }
  }

  /** Every message of the table has its group in what the group table exports. */
  ghost predicate Adopted(f: Reference, tables: Kind -> Records)
  {
    forall e :: e in Exported(tables(GroupMessages)) ==> HasGroup(f, Exported(tables(Groups)), e)
  }

  /** One selection's elements. */
  function Selected(tables: Kind -> Records, selection: Selection): seq<BackupElement>
  {
    AllExported(tables, KindsOf(selection))
  }

  lemma SelectedIs(tables: Kind -> Records, selection: Selection)
    ensures Selected(tables, selection) ==
            match selection
            case Consent => Exported(tables(ConsentRecords))
            case Messages => Exported(tables(Groups)) + Exported(tables(GroupMessages))
            case _ => []
  {
    if selection == Messages {
      assert [Groups, GroupMessages][1..] == [GroupMessages] && [GroupMessages][1..] == [];
    } else if selection == Consent {
      assert [ConsentRecords][1..] == [];
    }
  }

  lemma SelectedAdopted(f: Reference, tables: Kind -> Records, selection: Selection)
    requires Typed(f, tables) && Adopted(f, tables)
    ensures NoOrphans(f, Selected(tables, selection))
  {
    SelectedIs(tables, selection);
    if selection == Messages {
      var gs, ms := Exported(tables(Groups)), Exported(tables(GroupMessages));
      forall i | 0 <= i < |gs| ensures f.owner(gs[i]) == None {
        assert gs[i] in gs;
      }
      forall i | 0 <= i < |ms| ensures HasGroup(f, gs + ms[..i], ms[i]) {
        assert ms[i] in ms;
        MoreBefore(f, gs, ms[..i], ms[i]);
      }
      OrphansJoin(f, gs, ms);
    } else if selection == Consent {
      var cs := Exported(tables(ConsentRecords));
      forall i | 0 <= i < |cs| ensures f.owner(cs[i]) == None {
        assert cs[i] in cs;
      }
    }
  }

  lemma {:induction false} ExportedJoins(tables: Kind -> Records, a: seq<Kind>, b: seq<Kind>)
    ensures AllExported(tables, a + b) == AllExported(tables, a) + AllExported(tables, b)
  {
    if a == [] {
      assert a + b == b;
    } else {
      assert (a + b)[1..] == a[1..] + b;
      ExportedJoins(tables, a[1..], b);
      ConcatAssoc(Exported(tables(a[0])), AllExported(tables, a[1..]), AllExported(tables, b));
    }
  }

  lemma {:induction false} AdoptedNoOrphans(f: Reference, tables: Kind -> Records, selections: seq<Selection>)
    requires Typed(f, tables) && Adopted(f, tables)
    ensures NoOrphans(f, AllExported(tables, Kinds(selections)))
  {
    if selections != [] {
      var a, b := Selected(tables, selections[0]), AllExported(tables, Kinds(selections[1..]));
      SelectedAdopted(f, tables, selections[0]);
      AdoptedNoOrphans(f, tables, selections[1..]);
      forall i | 0 <= i < |b| && f.owner(b[i]).Some? ensures HasGroup(f, a + b[..i], b[i]) {
        MoreBefore(f, a, b[..i], b[i]);
      }
      OrphansJoin(f, a, b);
      ExportedJoins(tables, KindsOf(selections[0]), Kinds(selections[1..]));
    }
  }

  /** What is exported comes from the tables, all of it. */
  lemma {:induction false} ExportedFrom(tables: Kind -> Records, kinds: seq<Kind>, e: BackupElement)
    ensures e in AllExported(tables, kinds) <==> exists kind :: kind in kinds && e in Exported(tables(kind))
  {
    if kinds != [] {
      ExportedFrom(tables, kinds[1..], e);
      assert kinds == [kinds[0]] + kinds[1..];
    }
  }

  lemma {:induction false} MessagesAreDrained(selections: seq<Selection>)
    requires Messages in selections
    ensures GroupMessages in Kinds(selections)
  {
    if selections[0] != Messages {
      MessagesAreDrained(selections[1..]);
    } else {
      assert GroupMessages in [Groups, GroupMessages];
    }
  }

  /** A group found anywhere in an export comes from the group table. */
  lemma GroupFromTable(f: Reference, tables: Kind -> Records, kinds: seq<Kind>, g: BackupElement)
    requires Typed(f, tables) && g in AllExported(tables, kinds) && f.self(g).Some?
    ensures g in Exported(tables(Groups))
  {
    ExportedFrom(tables, kinds, g);
    var kind :| kind in kinds && g in Exported(tables(kind));
    assert kind == Groups || kind == GroupMessages || kind == ConsentRecords;
  }

  lemma OrphanFreeAdopts(f: Reference, tables: Kind -> Records, kinds: seq<Kind>, e: BackupElement)
    requires Typed(f, tables) && NoOrphans(f, AllExported(tables, kinds))
    requires GroupMessages in kinds && e in Exported(tables(GroupMessages))
    ensures HasGroup(f, Exported(tables(Groups)), e)
  {
    var es := AllExported(tables, kinds);
    ExportedFrom(tables, kinds, e);
    var i :| 0 <= i < |es| && es[i] == e;
    assert HasGroup(f, es[..i], es[i]);
    var g :| g in es[..i] && f.self(g) == f.owner(e);
    assert g in es;
    GroupFromTable(f, tables, kinds, g);
  }

  /**
   No exported message lacks its group, in any export that selects messages, if and only if every
   group that an exported message belongs to is itself exported.
   */
  lemma NoOrphansIff(f: Reference, tables: Kind -> Records, selections: seq<Selection>)
    requires Typed(f, tables) && Messages in selections
    ensures NoOrphans(f, AllExported(tables, Kinds(selections))) <==> Adopted(f, tables)
  {
    if Adopted(f, tables) {
      AdoptedNoOrphans(f, tables, selections);
    }
    if NoOrphans(f, AllExported(tables, Kinds(selections))) {
      MessagesAreDrained(selections);
      forall e | e in Exported(tables(GroupMessages)) ensures HasGroup(f, Exported(tables(Groups)), e) {
        OrphanFreeAdopts(f, tables, Kinds(selections), e);
      }
    }
  }

  /** For instance: a message is orphaned whose only group lies behind a page of groups that are skipped. */
  lemma LostGroupOrphans(f: Reference, tables: Kind -> Records, selections: seq<Selection>, m: BackupElement)
    requires Typed(f, tables) && Messages in selections
    requires AllSkipped(Page(tables(Groups))) && m in Exported(tables(GroupMessages))
    ensures !NoOrphans(f, AllExported(tables, Kinds(selections)))
  {
    SkippedPage(tables(Groups));
    NoOrphansIff(f, tables, selections);
    assert !HasGroup(f, Exported(tables(Groups)), m);
  }

  // ----- a time window -----

  /** A group record with its time of creation. */
  datatype GroupRow = GroupRow(record: Option<BackupElement>, createdAtNs: int)

  predicate Within(at: int, startNs: Option<int>, endNs: Option<int>)
  {
    (startNs.Some? ==> at > startNs.value) && (endNs.Some? ==> at <= endNs.value)
  }

  /** The groups a query returns: those created within the window of the options. */
  function Window(rows: seq<GroupRow>, startNs: Option<int>, endNs: Option<int>): Records
  {
    if rows == [] then []
    else
      (if Within(rows[0].createdAtNs, startNs, endNs) then [rows[0].record] else []) + Window(rows[1..], startNs, endNs)
  }

  lemma {:induction false} KeptFrom(rs: Records, e: BackupElement)
    requires e in Kept(rs)
    ensures Some(e) in rs
  {
    if rs[0] != Some(e) {
      KeptFrom(rs[1..], e);
    }
  }

  lemma {:induction false} WindowFrom(rows: seq<GroupRow>, startNs: Option<int>, endNs: Option<int>,
                                      r: Option<BackupElement>)
    requires r in Window(rows, startNs, endNs)
    ensures exists row :: row in rows && row.record == r && Within(row.createdAtNs, startNs, endNs)
  {
    if rows[0].record != r || !Within(rows[0].createdAtNs, startNs, endNs) {
      WindowFrom(rows[1..], startNs, endNs, r);
    }
  }

  /**
   The window applies to the creation of groups and to the sending of messages, so it orphans: a
   message sent within it, in a group created outside it, does not follow its group.
   */
  lemma WindowOrphans(f: Reference, tables: Kind -> Records, selections: seq<Selection>, rows: seq<GroupRow>,
                      startNs: Option<int>, endNs: Option<int>, m: BackupElement)
    requires Typed(f, tables) && Messages in selections && m in Exported(tables(GroupMessages))
    requires tables(Groups) == Window(rows, startNs, endNs)
    requires forall row :: row in rows && row.record.Some? && f.self(row.record.value) == f.owner(m) ==>
               !Within(row.createdAtNs, startNs, endNs)
    ensures !NoOrphans(f, AllExported(tables, Kinds(selections)))
  {
    var gs := Exported(tables(Groups));
    if HasGroup(f, gs, m) {
      var g :| g in gs && f.self(g) == f.owner(m);
      ExportedInOrder(tables(Groups));
      assert g in Kept(tables(Groups));
      KeptFrom(tables(Groups), g);
      WindowFrom(rows, startNs, endNs, Some(g));
      assert false;
    }
    NoOrphansIff(f, tables, selections);
  }
}
