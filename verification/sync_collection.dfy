/** The collection synchronisers of pkg/server/event/sync/store.go:
    StoreComponents and StorePolicy. Both make the components (policies) of
    one application in the datastore converge to the desired list: records
    of the application that sync itself created and that are no longer
    desired are deleted, each desired record is added or overwritten, and an
    overwritten record keeps its stored creation time. The two differ only in
    the creator tag that marks a record as created by sync, so they share one
    routine, SyncOwned, parameterised by that tag. */
module SyncCollection {
  import opened Datastore
  import opened Model
  import Utils

  /** The table after a collection sync, the error returned, and the desired
      records as the caller holds them afterwards (a record that overwrites a
      stored one has inherited its creation time, in place). */
  datatype Applied = Applied(rows: map<Key, OwnedRecord>, outcome: Outcome, records: seq<OwnedRecord>)

  /** The names of `rs`, in order. */
  function Names(rs: seq<OwnedRecord>): (r: seq<string>)
    ensures |r| == |rs|
  {
    seq(|rs|, j requires 0 <= j < |rs| => rs[j].name)
  }

  /** A stored record sync may delete: it belongs to application `app`, sync
      created it (its creator is `tag`), and no desired record has its name. */
  ghost predicate Eligible(rec: OwnedRecord, app: string, ts: seq<OwnedRecord>, tag: string)
  {
    rec.app == app && rec.creator == tag && rec.name !in Names(ts)
  }

  /** The keys the deletion pass removes: the eligible records whose
      deletion does not fail. A failed deletion is ignored. */
  ghost function Deleted(rows: map<Key, OwnedRecord>, faults: map<Op<Key>, Error>, app: string,
                         ts: seq<OwnedRecord>, tag: string): set<Key>
  {
    set k | k in rows && Eligible(rows[k], app, ts, tag) && DeleteOp(k) !in faults
  }

  /** The desired record as it is written: when the application already
      stored a record of that name, with that record's creation time. */
  function Stamp(rows0: map<Key, OwnedRecord>, app: string, d: OwnedRecord): OwnedRecord
  {
    if Key(app, d.name) in rows0 then d.(createTime := rows0[Key(app, d.name)].createTime) else d
  }

  /** The write pass from position i on, `rows0` being the table as listed
      before the deletion pass: a desired record whose name the application
      did not have is added; any other is stamped and overwritten; the first
      failing write stops the pass and is returned. */
  ghost function UpsertFrom(rows: map<Key, OwnedRecord>, faults: map<Op<Key>, Error>, rows0: map<Key, OwnedRecord>,
                            app: string, ts: seq<OwnedRecord>, i: nat): (r: Applied)
    requires i <= |ts|
    ensures |r.records| == |ts|
    // records already written keep their value, and every record keeps its key
    ensures forall j | 0 <= j < i :: r.records[j] == ts[j]
    ensures forall j | 0 <= j < |ts| :: OwnedKey(r.records[j]) == OwnedKey(ts[j])
    decreases |ts| - i
  {
    if i == |ts| then Applied(rows, Pass, ts)
    else
      var d := ts[i];
      if Key(app, d.name) !in rows0 then
        var s := AddRow(rows, faults, OwnedKey(d), d);
        if s.outcome.Fail? then Applied(rows, s.outcome, ts)
        else UpsertFrom(s.rows, faults, rows0, app, ts, i + 1)
      else
        var d' := Stamp(rows0, app, d);
        var s := PutRow(rows, faults, OwnedKey(d'), d');
        if s.outcome.Fail? then Applied(rows, s.outcome, ts[i := d'])
        else UpsertFrom(s.rows, faults, rows0, app, ts[i := d'], i + 1)
  }

  /** The write of desired record d on table `rows`: an add when the
      application did not have a record of that name, otherwise an overwrite
      of the stamped record. */
  function WriteStep(rows: map<Key, OwnedRecord>, faults: map<Op<Key>, Error>, rows0: map<Key, OwnedRecord>,
                     app: string, d: OwnedRecord): (r: Step<Key, OwnedRecord>)
    // a failed write changes nothing; a successful one stores the stamped
    // record under the record's own key and touches no other key
    ensures r.outcome.Fail? ==> r.rows == rows
    ensures r.outcome == Pass ==> r.rows == rows[OwnedKey(d) := Stamp(rows0, app, d)]
  {
    if Key(app, d.name) !in rows0 then AddRow(rows, faults, OwnedKey(d), d)
    else PutRow(rows, faults, OwnedKey(Stamp(rows0, app, d)), Stamp(rows0, app, d))
  }

  /** Run r of the write pass from i stopped at record j: the pass over the
      records before j succeeds, r keeps the table it left and the records it
      wrote, leaves the records after j untouched, and reports the failure of
      the write of record j on that table. */
  ghost predicate UpsertAbortsAt(rows: map<Key, OwnedRecord>, faults: map<Op<Key>, Error>, rows0: map<Key, OwnedRecord>,
                                 app: string, ts: seq<OwnedRecord>, i: nat, j: nat, r: Applied)
    requires i <= j < |ts|
  {
    var p := UpsertFrom(rows, faults, rows0, app, ts[..j], i);
    && p.outcome == Pass
    && r.rows == p.rows
    && r.records == p.records + [Stamp(rows0, app, ts[j])] + ts[j + 1..]
    && r.outcome.Fail?
    && WriteStep(p.rows, faults, rows0, app, ts[j]).outcome == r.outcome
  }

  /** The pass over no remaining records succeeds and changes nothing. */
  lemma UpsertDone(rows: map<Key, OwnedRecord>, faults: map<Op<Key>, Error>, rows0: map<Key, OwnedRecord>,
                   app: string, ts: seq<OwnedRecord>, i: nat)
    requires i <= |ts|
    ensures UpsertFrom(rows, faults, rows0, app, ts[..i], i) == Applied(rows, Pass, ts[..i])
  {
  }

  /** A successful write of record i happens in the same way whether or not
      the pass runs past position j. */
  lemma UpsertWrittenPrefix(rows: map<Key, OwnedRecord>, faults: map<Op<Key>, Error>, rows0: map<Key, OwnedRecord>,
                            app: string, ts: seq<OwnedRecord>, i: nat, j: nat)
    requires i < j <= |ts|
    requires WriteStep(rows, faults, rows0, app, ts[i]).outcome == Pass
    ensures UpsertFrom(rows, faults, rows0, app, ts[..j], i)
         == UpsertFrom(WriteStep(rows, faults, rows0, app, ts[i]).rows, faults, rows0, app, ts[i := Stamp(rows0, app, ts[i])][..j], i + 1)
  {
    var d' := Stamp(rows0, app, ts[i]);
    assert ts[..j][i] == ts[i];
    assert ts[i := d'][..j] == ts[..j][i := d'];
    if Key(app, ts[i].name) !in rows0 {
      assert ts[..j][i := d'] == ts[..j];
    }
  }

  /** A pass that stops after writing record i stops where the pass from
      i + 1 on the written table stops. */
  lemma UpsertAbortWritten(rows: map<Key, OwnedRecord>, faults: map<Op<Key>, Error>, rows0: map<Key, OwnedRecord>,
                           app: string, ts: seq<OwnedRecord>, i: nat, j: nat, r: Applied)
    requires i < j < |ts|
    requires WriteStep(rows, faults, rows0, app, ts[i]).outcome == Pass
    requires UpsertAbortsAt(WriteStep(rows, faults, rows0, app, ts[i]).rows, faults, rows0, app,
                            ts[i := Stamp(rows0, app, ts[i])], i + 1, j, r)
    ensures UpsertAbortsAt(rows, faults, rows0, app, ts, i, j, r)
  {
    var ts' := ts[i := Stamp(rows0, app, ts[i])];
    UpsertWrittenPrefix(rows, faults, rows0, app, ts, i, j);
    assert ts'[j + 1..] == ts[j + 1..];
    assert ts'[j] == ts[j];
  }

  /** A pass whose write of record i fails stops there. */
  lemma UpsertAbortHere(rows: map<Key, OwnedRecord>, faults: map<Op<Key>, Error>, rows0: map<Key, OwnedRecord>,
                        app: string, ts: seq<OwnedRecord>, i: nat)
    requires i < |ts|
    requires WriteStep(rows, faults, rows0, app, ts[i]).outcome.Fail?
    ensures UpsertAbortsAt(rows, faults, rows0, app, ts, i, i, UpsertFrom(rows, faults, rows0, app, ts, i))
  {
    UpsertDone(rows, faults, rows0, app, ts, i);
    assert ts[..i] + [ts[i]] + ts[i + 1..] == ts;
    assert ts[..i] + [Stamp(rows0, app, ts[i])] + ts[i + 1..] == ts[i := Stamp(rows0, app, ts[i])];
  }

  /** The write pass stops at the first failing write and returns its
      error: a failed pass is a successful pass over the records before some
      j, followed by the failed write of record j on the table that pass
      left; the records after j are not attempted, and the earlier writes
      remain. */
  lemma {:induction false} UpsertAbort(rows: map<Key, OwnedRecord>, faults: map<Op<Key>, Error>,
                                       rows0: map<Key, OwnedRecord>, app: string, ts: seq<OwnedRecord>, i: nat)
    requires i <= |ts|
    ensures var r := UpsertFrom(rows, faults, rows0, app, ts, i);
      r.outcome.Fail? ==> exists j | i <= j < |ts| :: UpsertAbortsAt(rows, faults, rows0, app, ts, i, j, r)
    decreases |ts| - i
  {
    var r := UpsertFrom(rows, faults, rows0, app, ts, i);
    if i < |ts| && r.outcome.Fail? {
      var s := WriteStep(rows, faults, rows0, app, ts[i]);
      if s.outcome.Pass? {
        var ts' := ts[i := Stamp(rows0, app, ts[i])];
        UpsertAbort(s.rows, faults, rows0, app, ts', i + 1);
        assert r == UpsertFrom(s.rows, faults, rows0, app, ts', i + 1) by {
          if Key(app, ts[i].name) !in rows0 {
            assert ts' == ts;
          }
        }
        var j :| i + 1 <= j < |ts| && UpsertAbortsAt(s.rows, faults, rows0, app, ts', i + 1, j, r);
        UpsertAbortWritten(rows, faults, rows0, app, ts, i, j, r);
      } else {
        UpsertAbortHere(rows, faults, rows0, app, ts, i);
      }
    }
  }

  /** A whole collection sync: a failed listing is returned before anything
      is written; otherwise the deletion pass, then the write pass. */
  ghost function OwnedSync(rows: map<Key, OwnedRecord>, faults: map<Op<Key>, Error>, app: string,
                           ts: seq<OwnedRecord>, tag: string): (r: Applied)
    ensures |r.records| == |ts|
    ensures ListOp in faults ==> r == Applied(rows, Fail(faults[ListOp]), ts)
  {
    if ListOp in faults then Applied(rows, Fail(faults[ListOp]), ts)
    else UpsertFrom(rows - Deleted(rows, faults, app, ts, tag), faults, rows, app, ts, 0)
  }

  /** One step of the write pass, with the add case written as a stamp that
      changes nothing: a successful write of record i continues from i + 1
      on the written table, with record i stamped. */
  lemma UpsertStep(rows: map<Key, OwnedRecord>, faults: map<Op<Key>, Error>, rows0: map<Key, OwnedRecord>,
                   app: string, ts: seq<OwnedRecord>, i: nat)
    requires i < |ts|
    requires WriteStep(rows, faults, rows0, app, ts[i]).outcome == Pass
    ensures UpsertFrom(rows, faults, rows0, app, ts, i)
         == UpsertFrom(WriteStep(rows, faults, rows0, app, ts[i]).rows, faults, rows0, app, ts[i := Stamp(rows0, app, ts[i])], i + 1)
  {
    if Key(app, ts[i].name) !in rows0 {
      assert ts[i := Stamp(rows0, app, ts[i])] == ts;
    }
  }

  /** A failed write of record i stops the pass with that write's error and
      record i stamped. */
  lemma UpsertStepFail(rows: map<Key, OwnedRecord>, faults: map<Op<Key>, Error>, rows0: map<Key, OwnedRecord>,
                       app: string, ts: seq<OwnedRecord>, i: nat)
    requires i < |ts|
    requires WriteStep(rows, faults, rows0, app, ts[i]).outcome.Fail?
    ensures UpsertFrom(rows, faults, rows0, app, ts, i)
         == Applied(rows, WriteStep(rows, faults, rows0, app, ts[i]).outcome, ts[i := Stamp(rows0, app, ts[i])])
  {
    if Key(app, ts[i].name) !in rows0 {
      assert ts[i := Stamp(rows0, app, ts[i])] == ts;
    }
  }

  /** The write pass removes nothing, and keeps every record under its own
      key. */
  lemma {:induction false} UpsertKeeps(rows: map<Key, OwnedRecord>, faults: map<Op<Key>, Error>,
                                       rows0: map<Key, OwnedRecord>, app: string, ts: seq<OwnedRecord>, i: nat)
    requires i <= |ts|
    ensures var r := UpsertFrom(rows, faults, rows0, app, ts, i);
      && (forall k | k in rows :: k in r.rows)
      && (Keyed(rows) ==> Keyed(r.rows))
    decreases |ts| - i
  {
    if i < |ts| {
      var d := ts[i];
      var ts' := ts[i := Stamp(rows0, app, d)];
      var s := WriteStep(rows, faults, rows0, app, d);
      if s.outcome.Pass? {
        UpsertStep(rows, faults, rows0, app, ts, i);
        WriteStepKeeps(rows, faults, rows0, app, d);
        UpsertKeeps(s.rows, faults, rows0, app, ts', i + 1);
      }
    }
  }

  /** One write removes nothing and stores its record under the record's
      own key. */
  lemma WriteStepKeeps(rows: map<Key, OwnedRecord>, faults: map<Op<Key>, Error>, rows0: map<Key, OwnedRecord>,
                       app: string, d: OwnedRecord)
    ensures var s := WriteStep(rows, faults, rows0, app, d);
      && (forall k | k in rows :: k in s.rows)
      && (Keyed(rows) ==> Keyed(s.rows))
  {
    assert OwnedKey(Stamp(rows0, app, d)) == OwnedKey(d);
  }

  /** A write pass that succeeds leaves every desired record from i on
      stored under its own key. */
  lemma {:induction false} UpsertStores(rows: map<Key, OwnedRecord>, faults: map<Op<Key>, Error>,
                                        rows0: map<Key, OwnedRecord>, app: string, ts: seq<OwnedRecord>, i: nat)
    requires i <= |ts|
    ensures var r := UpsertFrom(rows, faults, rows0, app, ts, i);
      r.outcome == Pass ==> forall j | i <= j < |ts| :: OwnedKey(ts[j]) in r.rows
    decreases |ts| - i
  {
    if i < |ts| {
      var d := ts[i];
      var ts' := ts[i := Stamp(rows0, app, d)];
      var s := WriteStep(rows, faults, rows0, app, d);
      if s.outcome.Pass? {
        UpsertStep(rows, faults, rows0, app, ts, i);
        UpsertStores(s.rows, faults, rows0, app, ts', i + 1);
        UpsertKeeps(s.rows, faults, rows0, app, ts', i + 1);
        assert forall j | i < j < |ts| :: ts'[j] == ts[j];
      }
    }
  }

  /** The write pass writes only the keys of desired records. */
  lemma {:induction false} UpsertWrites(rows: map<Key, OwnedRecord>, faults: map<Op<Key>, Error>,
                                        rows0: map<Key, OwnedRecord>, app: string, ts: seq<OwnedRecord>, i: nat)
    requires i <= |ts|
    ensures var r := UpsertFrom(rows, faults, rows0, app, ts, i);
      forall k | k in r.rows && (k !in rows || r.rows[k] != rows[k]) :: exists j | i <= j < |ts| :: k == OwnedKey(ts[j])
    decreases |ts| - i
  {
    if i < |ts| {
      var d := ts[i];
      var ts' := ts[i := Stamp(rows0, app, d)];
      var s := WriteStep(rows, faults, rows0, app, d);
      if s.outcome.Pass? {
        UpsertStep(rows, faults, rows0, app, ts, i);
        UpsertWrites(s.rows, faults, rows0, app, ts', i + 1);
        WritesDone(rows, s.rows, rows0, app, ts, ts', i, UpsertFrom(s.rows, faults, rows0, app, ts', i + 1));
      } else {
        UpsertStepFail(rows, faults, rows0, app, ts, i);
      }
    }
  }

  /** What UpsertWrites states at i + 1, on the table after the write of
      record i, it states at i on the table before. */
  lemma WritesDone(rows: map<Key, OwnedRecord>, rows': map<Key, OwnedRecord>, rows0: map<Key, OwnedRecord>, app: string,
                   ts: seq<OwnedRecord>, ts': seq<OwnedRecord>, i: nat, r: Applied)
    requires i < |ts|
    requires rows' == rows[OwnedKey(ts[i]) := Stamp(rows0, app, ts[i])]
    requires ts' == ts[i := Stamp(rows0, app, ts[i])]
    requires forall k | k in r.rows && (k !in rows' || r.rows[k] != rows'[k]) :: exists j | i + 1 <= j < |ts'| :: k == OwnedKey(ts'[j])
    ensures forall k | k in r.rows && (k !in rows || r.rows[k] != rows[k]) :: exists j | i <= j < |ts| :: k == OwnedKey(ts[j])
  {
    forall k | k in r.rows && (k !in rows || r.rows[k] != rows[k])
      ensures exists j | i <= j < |ts| :: k == OwnedKey(ts[j])
    {
      if k != OwnedKey(ts[i]) {
        var j :| i + 1 <= j < |ts| && k == OwnedKey(ts'[j]);
        assert ts'[j] == ts[j];
      }
    }
  }

  /** Deletion is gated by ownership. Given a successful listing, a stored
      record disappears exactly when it is eligible (this application's,
      created by sync, no longer desired) and its deletion does not fail; in
      particular a record sync did not create is never deleted. Every other
      record that is not desired is left as it was, a new key is the key of a
      desired record, and every record stays under its own key. */
  lemma OwnedSyncFrame(rows: map<Key, OwnedRecord>, faults: map<Op<Key>, Error>, app: string,
                       ts: seq<OwnedRecord>, tag: string)
    requires Keyed(rows) && ListOp !in faults
    ensures var r := OwnedSync(rows, faults, app, ts, tag);
      && (forall k | k in rows :: k !in r.rows <==> k in Deleted(rows, faults, app, ts, tag))
      && (forall k | k in rows && rows[k].creator != tag :: k in r.rows)
      && (forall k | k in rows && k !in Deleted(rows, faults, app, ts, tag) && (forall j | 0 <= j < |ts| :: k != OwnedKey(ts[j]))
            :: r.rows[k] == rows[k])
      && (forall k | k in r.rows && k !in rows :: exists j | 0 <= j < |ts| :: k == OwnedKey(ts[j]))
      && Keyed(r.rows)
  {
    var del := Deleted(rows, faults, app, ts, tag);
    var r := OwnedSync(rows, faults, app, ts, tag);
    UpsertKeeps(rows - del, faults, rows, app, ts, 0);
    UpsertWrites(rows - del, faults, rows, app, ts, 0);
    forall j | 0 <= j < |ts|
      ensures OwnedKey(ts[j]) !in del
    {
      assert Names(ts)[j] == ts[j].name;
    }
  }

  /** A whole sync with a successful listing either leaves every desired
      record stored under its own key, or stops at the first failing write
      of the write pass and returns that write's error, with the writes
      before it kept and none after it attempted. */
  lemma OwnedSyncOutcome(rows: map<Key, OwnedRecord>, faults: map<Op<Key>, Error>, app: string,
                         ts: seq<OwnedRecord>, tag: string)
    requires ListOp !in faults
    ensures var r := OwnedSync(rows, faults, app, ts, tag);
      && (r.outcome == Pass ==> forall j | 0 <= j < |ts| :: OwnedKey(ts[j]) in r.rows)
      && (r.outcome.Fail? ==> exists j | 0 <= j < |ts| ::
            UpsertAbortsAt(rows - Deleted(rows, faults, app, ts, tag), faults, rows, app, ts, 0, j, r))
  {
    var del := Deleted(rows, faults, app, ts, tag);
    UpsertStores(rows - del, faults, rows, app, ts, 0);
    UpsertAbort(rows - del, faults, rows, app, ts, 0);
  }

  /** The write pass consults only the Add and Put faults of the desired
      keys. */
  lemma {:induction false} UpsertFaultsAgree(rows: map<Key, OwnedRecord>, faults: map<Op<Key>, Error>,
                                             faults': map<Op<Key>, Error>, rows0: map<Key, OwnedRecord>,
                                             app: string, ts: seq<OwnedRecord>, i: nat)
    requires i <= |ts|
    requires forall j | i <= j < |ts| ::
      && (AddOp(OwnedKey(ts[j])) in faults <==> AddOp(OwnedKey(ts[j])) in faults')
      && (AddOp(OwnedKey(ts[j])) in faults ==> faults[AddOp(OwnedKey(ts[j]))] == faults'[AddOp(OwnedKey(ts[j]))])
      && (PutOp(OwnedKey(ts[j])) in faults <==> PutOp(OwnedKey(ts[j])) in faults')
      && (PutOp(OwnedKey(ts[j])) in faults ==> faults[PutOp(OwnedKey(ts[j]))] == faults'[PutOp(OwnedKey(ts[j]))])
    ensures UpsertFrom(rows, faults', rows0, app, ts, i) == UpsertFrom(rows, faults, rows0, app, ts, i)
    decreases |ts| - i, 1
  {
    if i < |ts| {
      var d := ts[i];
      if Key(app, d.name) !in rows0 {
        var s := AddRow(rows, faults, OwnedKey(d), d);
        if s.outcome.Pass? {
          UpsertFaultsAgree(s.rows, faults, faults', rows0, app, ts, i + 1);
        }
      } else {
        UpsertFaultsAgreePut(rows, faults, faults', rows0, app, ts, i);
      }
    }
  }

  /** The overwrite case of UpsertFaultsAgree. */
  lemma {:induction false} UpsertFaultsAgreePut(rows: map<Key, OwnedRecord>, faults: map<Op<Key>, Error>,
                                                faults': map<Op<Key>, Error>, rows0: map<Key, OwnedRecord>,
                                                app: string, ts: seq<OwnedRecord>, i: nat)
    requires i < |ts| && Key(app, ts[i].name) in rows0
    requires forall j | i <= j < |ts| ::
      && (AddOp(OwnedKey(ts[j])) in faults <==> AddOp(OwnedKey(ts[j])) in faults')
      && (AddOp(OwnedKey(ts[j])) in faults ==> faults[AddOp(OwnedKey(ts[j]))] == faults'[AddOp(OwnedKey(ts[j]))])
      && (PutOp(OwnedKey(ts[j])) in faults <==> PutOp(OwnedKey(ts[j])) in faults')
      && (PutOp(OwnedKey(ts[j])) in faults ==> faults[PutOp(OwnedKey(ts[j]))] == faults'[PutOp(OwnedKey(ts[j]))])
    ensures UpsertFrom(rows, faults', rows0, app, ts, i) == UpsertFrom(rows, faults, rows0, app, ts, i)
    decreases |ts| - i, 0
  {
    var d' := Stamp(rows0, app, ts[i]);
    var s := PutRow(rows, faults, OwnedKey(d'), d');
    if s.outcome.Pass? {
      UpsertFaultsAgree(s.rows, faults, faults', rows0, app, ts[i := d'], i + 1);
    }
  }

  /** Removing a key that no desired record is written to before the write
      pass removes it from the result and changes nothing else. */
  lemma {:induction false} UpsertWithout(rows: map<Key, OwnedRecord>, faults: map<Op<Key>, Error>,
                                         rows0: map<Key, OwnedRecord>, app: string, ts: seq<OwnedRecord>, i: nat, k: Key)
    requires i <= |ts|
    requires forall j | i <= j < |ts| :: OwnedKey(ts[j]) != k
    ensures var r := UpsertFrom(rows, faults, rows0, app, ts, i);
      UpsertFrom(rows - {k}, faults, rows0, app, ts, i) == Applied(r.rows - {k}, r.outcome, r.records)
    decreases |ts| - i
  {
    if i < |ts| {
      var d := ts[i];
      var ts' := ts[i := Stamp(rows0, app, d)];
      var s := WriteStep(rows, faults, rows0, app, d);
      var s' := WriteStep(rows - {k}, faults, rows0, app, d);
      WriteStepWithout(rows, faults, rows0, app, d, k);
      if s.outcome.Pass? {
        UpsertStep(rows, faults, rows0, app, ts, i);
        UpsertStep(rows - {k}, faults, rows0, app, ts, i);
        WithoutReady(rows, faults, rows0, app, ts, ts', i, k);
        UpsertWithout(s.rows, faults, rows0, app, ts', i + 1, k);
      } else {
        UpsertStepFail(rows, faults, rows0, app, ts, i);
        UpsertStepFail(rows - {k}, faults, rows0, app, ts, i);
      }
    }
  }

  /** Under the conditions of UpsertWithout, a successful write of record i
      leaves k out of the table if it was out, and the conditions hold again
      at i + 1. */
  lemma WithoutReady(rows: map<Key, OwnedRecord>, faults: map<Op<Key>, Error>, rows0: map<Key, OwnedRecord>,
                     app: string, ts: seq<OwnedRecord>, ts': seq<OwnedRecord>, i: nat, k: Key)
    requires i < |ts| && ts' == ts[i := Stamp(rows0, app, ts[i])]
    requires forall j | i <= j < |ts| :: OwnedKey(ts[j]) != k
    requires WriteStep(rows, faults, rows0, app, ts[i]).outcome == Pass
    ensures WriteStep(rows - {k}, faults, rows0, app, ts[i]).rows == WriteStep(rows, faults, rows0, app, ts[i]).rows - {k}
    ensures forall j | i + 1 <= j < |ts'| :: OwnedKey(ts'[j]) != k
  {
    WriteStepWithout(rows, faults, rows0, app, ts[i], k);
    forall j | i + 1 <= j < |ts'|
      ensures OwnedKey(ts'[j]) != k
    {
      assert ts'[j] == ts[j];
    }
  }

  /** A write to another key succeeds or fails alike whether or not k is
      stored, and leaves k out if it was out. */
  lemma WriteStepWithout(rows: map<Key, OwnedRecord>, faults: map<Op<Key>, Error>, rows0: map<Key, OwnedRecord>,
                         app: string, d: OwnedRecord, k: Key)
    requires OwnedKey(d) != k
    ensures WriteStep(rows - {k}, faults, rows0, app, d).outcome == WriteStep(rows, faults, rows0, app, d).outcome
  {
  }

  /** Deletion is best effort: a failing deletion is ignored. Compared with
      the same sync where that deletion succeeds, the result and the caller's
      records are the same, and the table differs at most in still holding
      the record whose deletion failed. */
  lemma DeleteFailureIgnored(rows: map<Key, OwnedRecord>, faults: map<Op<Key>, Error>, app: string,
                             ts: seq<OwnedRecord>, tag: string, k: Key)
    requires Keyed(rows) && DeleteOp(k) in faults
    ensures var r := OwnedSync(rows, faults, app, ts, tag);
      var r' := OwnedSync(rows, faults - {DeleteOp(k)}, app, ts, tag);
      r'.outcome == r.outcome && r'.records == r.records && (r'.rows == r.rows || r'.rows == r.rows - {k})
  {
    var faults' := faults - {DeleteOp(k)};
    if ListOp !in faults {
      var del := Deleted(rows, faults, app, ts, tag);
      var del' := Deleted(rows, faults', app, ts, tag);
      UpsertFaultsAgree(rows - del', faults, faults', rows, app, ts, 0);
      if k in rows && Eligible(rows[k], app, ts, tag) {
        assert del' == del + {k};
        assert rows - del' == (rows - del) - {k};
        forall j | 0 <= j < |ts|
          ensures OwnedKey(ts[j]) != k
        {
          assert Names(ts)[j] == ts[j].name;
        }
        UpsertWithout(rows - del, faults, rows, app, ts, 0, k);
      } else {
        assert del' == del;
      }
    }
  }

  /** The write pass under the conditions of OwnedConverge, from position i
      on: every desired record ends up stored, stamped, under its key. */
  lemma {:induction false} UpsertConverge(rows: map<Key, OwnedRecord>, faults: map<Op<Key>, Error>,
                                          rows0: map<Key, OwnedRecord>, app: string, ts: seq<OwnedRecord>, i: nat)
    requires i <= |ts|
    requires forall j | i <= j < |ts| :: ts[j].app == app && AddOp(OwnedKey(ts[j])) !in faults && PutOp(OwnedKey(ts[j])) !in faults
    requires forall j | i <= j < |ts| :: OwnedKey(ts[j]) in rows <==> OwnedKey(ts[j]) in rows0
    requires forall j, j' | 0 <= j < j' < |ts| :: ts[j].name != ts[j'].name
    requires forall j | 0 <= j < i :: OwnedKey(ts[j]) in rows && rows[OwnedKey(ts[j])] == ts[j]
    ensures var r := UpsertFrom(rows, faults, rows0, app, ts, i);
      && r.outcome == Pass
      && (forall j | 0 <= j < |ts| :: OwnedKey(ts[j]) in r.rows && r.rows[OwnedKey(ts[j])] == r.records[j])
      && (forall j | i <= j < |ts| :: r.records[j] == Stamp(rows0, app, ts[j]))
    decreases |ts| - i
  {
    if i < |ts| {
      var d' := Stamp(rows0, app, ts[i]);
      var ts' := ts[i := d'];
      var rows' := rows[OwnedKey(ts[i]) := d'];
      ConvergeReady(rows, faults, rows0, app, ts, i);
      UpsertStep(rows, faults, rows0, app, ts, i);
      UpsertConverge(rows', faults, rows0, app, ts', i + 1);
      ConvergeDone(rows0, app, ts, i, UpsertFrom(rows', faults, rows0, app, ts', i + 1));
    }
  }

  /** Under the conditions of UpsertConverge at position i, the write of
      record i succeeds, and the conditions hold again at i + 1 on the
      written table with record i stamped. */
  lemma ConvergeReady(rows: map<Key, OwnedRecord>, faults: map<Op<Key>, Error>,
                      rows0: map<Key, OwnedRecord>, app: string, ts: seq<OwnedRecord>, i: nat)
    requires i < |ts|
    requires forall j | i <= j < |ts| :: ts[j].app == app && AddOp(OwnedKey(ts[j])) !in faults && PutOp(OwnedKey(ts[j])) !in faults
    requires forall j | i <= j < |ts| :: OwnedKey(ts[j]) in rows <==> OwnedKey(ts[j]) in rows0
    requires forall j, j' | 0 <= j < j' < |ts| :: ts[j].name != ts[j'].name
    requires forall j | 0 <= j < i :: OwnedKey(ts[j]) in rows && rows[OwnedKey(ts[j])] == ts[j]
    ensures WriteStep(rows, faults, rows0, app, ts[i]).outcome == Pass
    ensures var ts' := ts[i := Stamp(rows0, app, ts[i])];
      var rows' := rows[OwnedKey(ts[i]) := Stamp(rows0, app, ts[i])];
      && (forall j | i + 1 <= j < |ts'| :: ts'[j].app == app && AddOp(OwnedKey(ts'[j])) !in faults && PutOp(OwnedKey(ts'[j])) !in faults)
      && (forall j | i + 1 <= j < |ts'| :: OwnedKey(ts'[j]) in rows' <==> OwnedKey(ts'[j]) in rows0)
      && (forall j, j' | 0 <= j < j' < |ts'| :: ts'[j].name != ts'[j'].name)
      && (forall j | 0 <= j < i + 1 :: OwnedKey(ts'[j]) in rows' && rows'[OwnedKey(ts'[j])] == ts'[j])
  {
    var d := ts[i];
    var ts' := ts[i := Stamp(rows0, app, d)];
    forall j | 0 <= j < |ts| && j != i
      ensures OwnedKey(ts[j]) != OwnedKey(d)
    {
      assert ts[j].name != d.name;
    }
    forall j | 0 <= j < |ts|
      ensures ts'[j].name == ts[j].name && OwnedKey(ts'[j]) == OwnedKey(ts[j])
    {
    }
  }

  /** What UpsertConverge states at i + 1 about the records with record i
      stamped is what it states at i about the records as given. */
  lemma ConvergeDone(rows0: map<Key, OwnedRecord>, app: string, ts: seq<OwnedRecord>, i: nat, r: Applied)
    requires i < |ts| && |r.records| == |ts|
    requires var ts' := ts[i := Stamp(rows0, app, ts[i])];
      && (forall j | 0 <= j < |ts| :: OwnedKey(ts'[j]) in r.rows && r.rows[OwnedKey(ts'[j])] == r.records[j])
      && (forall j | i + 1 <= j < |ts| :: r.records[j] == Stamp(rows0, app, ts'[j]))
      && (forall j | 0 <= j < i + 1 :: r.records[j] == ts'[j])
    ensures forall j | 0 <= j < |ts| :: OwnedKey(ts[j]) in r.rows && r.rows[OwnedKey(ts[j])] == r.records[j]
    ensures forall j | i <= j < |ts| :: r.records[j] == Stamp(rows0, app, ts[j])
  {
    var ts' := ts[i := Stamp(rows0, app, ts[i])];
    forall j | 0 <= j < |ts|
      ensures OwnedKey(ts[j]) in r.rows && r.rows[OwnedKey(ts[j])] == r.records[j]
    {
      assert OwnedKey(ts'[j]) == OwnedKey(ts[j]);
    }
    forall j | i <= j < |ts|
      ensures r.records[j] == Stamp(rows0, app, ts[j])
    {
      if j != i {
        assert ts'[j] == ts[j];
      }
    }
  }

  /** Convergence. When listing succeeds, every desired record belongs to the
      application, their names are distinct and none of their writes fails,
      the sync succeeds and afterwards every desired record is stored under
      its key as the caller holds it: unchanged if new, and with the stored
      creation time if it overwrote a record of the same name. */
  lemma OwnedConverge(rows: map<Key, OwnedRecord>, faults: map<Op<Key>, Error>, app: string,
                      ts: seq<OwnedRecord>, tag: string)
    requires Keyed(rows) && ListOp !in faults
    requires forall j | 0 <= j < |ts| :: ts[j].app == app && AddOp(OwnedKey(ts[j])) !in faults && PutOp(OwnedKey(ts[j])) !in faults
    requires forall j, j' | 0 <= j < j' < |ts| :: ts[j].name != ts[j'].name
    ensures var r := OwnedSync(rows, faults, app, ts, tag);
      && r.outcome == Pass
      && forall j | 0 <= j < |ts| ::
           r.records[j] == Stamp(rows, app, ts[j]) && OwnedKey(ts[j]) in r.rows && r.rows[OwnedKey(ts[j])] == r.records[j]
  {
    var del := Deleted(rows, faults, app, ts, tag);
    forall j | 0 <= j < |ts|
      ensures OwnedKey(ts[j]) !in del
    {
      assert Names(ts)[j] == ts[j].name;
    }
    UpsertConverge(rows - del, faults, rows, app, ts, 0);
  }

  /** The write pass changes nothing once every desired record from i on is
      stored, under this application's key, exactly as given. */
  lemma {:induction false} UpsertStable(rows: map<Key, OwnedRecord>, faults: map<Op<Key>, Error>, app: string,
                                        ts: seq<OwnedRecord>, i: nat)
    requires i <= |ts|
    requires forall j | i <= j < |ts| ::
      ts[j].app == app && OwnedKey(ts[j]) in rows && rows[OwnedKey(ts[j])] == ts[j] && PutOp(OwnedKey(ts[j])) !in faults
    ensures UpsertFrom(rows, faults, rows, app, ts, i) == Applied(rows, Pass, ts)
    decreases |ts| - i
  {
    if i < |ts| {
      assert Stamp(rows, app, ts[i]) == ts[i];
      assert rows[OwnedKey(ts[i]) := ts[i]] == rows;
      assert ts[i := ts[i]] == ts;
      UpsertStable(rows, faults, app, ts, i + 1);
    }
  }

  /** Idempotence: under the conditions of OwnedConverge, syncing again with
      the records as the caller now holds them changes nothing and succeeds. */
  lemma OwnedIdempotent(rows: map<Key, OwnedRecord>, faults: map<Op<Key>, Error>, app: string,
                        ts: seq<OwnedRecord>, tag: string)
    requires Keyed(rows) && ListOp !in faults
    requires forall j | 0 <= j < |ts| :: ts[j].app == app && AddOp(OwnedKey(ts[j])) !in faults && PutOp(OwnedKey(ts[j])) !in faults
    requires forall j, j' | 0 <= j < j' < |ts| :: ts[j].name != ts[j'].name
    ensures var r := OwnedSync(rows, faults, app, ts, tag);
      OwnedSync(r.rows, faults, app, r.records, tag) == Applied(r.rows, Pass, r.records)
  {
    var r := OwnedSync(rows, faults, app, ts, tag);
    OwnedConverge(rows, faults, app, ts, tag);
    OwnedSyncFrame(rows, faults, app, ts, tag);
    assert Names(r.records) == Names(ts) by {
      forall j | 0 <= j < |ts|
        ensures Names(r.records)[j] == Names(ts)[j]
      {
        assert OwnedKey(r.records[j]) == OwnedKey(ts[j]);
      }
    }
    var del := Deleted(r.rows, faults, app, r.records, tag);
    forall k | k in r.rows && DeleteOp(k) !in faults
      ensures !Eligible(r.rows[k], app, r.records, tag)
    {
      if j :| 0 <= j < |ts| && k == OwnedKey(ts[j]) {
        assert Names(ts)[j] == r.rows[k].name;
      } else {
        assert k in rows && k !in Deleted(rows, faults, app, ts, tag);
        assert rows[k] == r.rows[k];
      }
    }
    assert del == {};
    assert r.rows - del == r.rows;
    UpsertStable(r.rows, faults, app, r.records, 0);
  }

  // ------------------------------------------------------------- the routine

  /** The names of the listed records, and each listed record by its name. */
  method IndexByName(listed: seq<OwnedRecord>) returns (names: seq<string>, byName: map<string, OwnedRecord>)
    ensures names == Names(listed)
    ensures forall m | 0 <= m < |listed| :: listed[m].name in byName
    ensures forall n | n in byName :: byName[n] in listed && byName[n].name == n
  {
    names, byName := [], map[];
    var m := 0;
    while m < |listed|
      invariant 0 <= m <= |listed|
      invariant names == Names(listed[..m])
      invariant forall m' | 0 <= m' < m :: listed[m'].name in byName
      invariant forall n | n in byName :: byName[n] in listed && byName[n].name == n
    {
      names := names + [listed[m].name];
      byName := byName[listed[m].name := listed[m]];
      m := m + 1;
    }
    assert listed[..m] == listed;
  }

  /** The names of the desired records. */
  method DesiredNames(expected: array<OwnedRecord>) returns (names: seq<string>)
    ensures names == Names(expected[..])
  {
    names := [];
    var j := 0;
    while j < expected.Length
      invariant 0 <= j <= expected.Length
      invariant names == Names(expected[..j])
    {
      names := names + [expected[j].name];
      j := j + 1;
    }
    assert expected[..j] == expected[..];
  }

  /** The keys among the first j listed records that the deletion pass
      removes. */
  ghost function DeletedAmong(listed: seq<OwnedRecord>, toDelete: seq<string>, faults: map<Op<Key>, Error>,
                              tag: string, j: nat): set<Key>
  {
    set m | 0 <= m < j && m < |listed| && listed[m].creator == tag && listed[m].name in toDelete
                && DeleteOp(OwnedKey(listed[m])) !in faults :: OwnedKey(listed[m])
  }

  /** The deletion pass over the listed records. */
  method DeletePhase(listed: seq<OwnedRecord>, toDelete: seq<string>, ds: Table<Key, OwnedRecord>, tag: string)
    requires forall m | 0 <= m < |listed| :: OwnedKey(listed[m]) in ds.rows
    requires forall m, m' | 0 <= m < m' < |listed| :: OwnedKey(listed[m]) != OwnedKey(listed[m'])
    modifies ds`rows
    ensures ds.rows == old(ds.rows) - DeletedAmong(listed, toDelete, ds.faults, tag, |listed|)
  {
    var j := 0;
    while j < |listed|
      invariant 0 <= j <= |listed|
      invariant ds.rows == old(ds.rows) - DeletedAmong(listed, toDelete, ds.faults, tag, j)
    {
      var rec := listed[j];
      ghost var before := DeletedAmong(listed, toDelete, ds.faults, tag, j);
      if rec.creator == tag && rec.name in toDelete {
        var k := OwnedKey(rec);
        assert k !in before;
        var _ := ds.Delete(k);
        assert DeletedAmong(listed, toDelete, ds.faults, tag, j + 1)
            == before + (if DeleteOp(k) in ds.faults then {} else {k});
      } else {
        assert DeletedAmong(listed, toDelete, ds.faults, tag, j + 1) == before;
      }
      j := j + 1;
    }
  }

  /** The write pass over the desired records. */
  method UpsertPhase(expected: array<OwnedRecord>, toAdd: seq<string>, byName: map<string, OwnedRecord>,
                     ds: Table<Key, OwnedRecord>, ghost rows0: map<Key, OwnedRecord>, ghost app: string)
    returns (err: Outcome)
    requires forall j | 0 <= j < expected.Length :: expected[j].name in toAdd <==> Key(app, expected[j].name) !in rows0
    requires forall j | 0 <= j < expected.Length :: Key(app, expected[j].name) in rows0 ==> expected[j].name in byName
    requires forall n | n in byName :: Key(app, n) in rows0 && byName[n] == rows0[Key(app, n)]
    modifies expected, ds`rows
    ensures var r := UpsertFrom(old(ds.rows), ds.faults, rows0, app, old(expected[..]), 0);
      ds.rows == r.rows && err == r.outcome && expected[..] == r.records
  {
    ghost var T := expected[..];
    ghost var whole := UpsertFrom(ds.rows, ds.faults, rows0, app, T, 0);
    var i := 0;
    while i < expected.Length
      invariant 0 <= i <= expected.Length
      invariant forall j | 0 <= j < expected.Length :: expected[j].name == T[j].name
      invariant UpsertFrom(ds.rows, ds.faults, rows0, app, expected[..], i) == whole
    {
      var d := expected[i];
      if d.name in toAdd {
        err := ds.Add(OwnedKey(d), d);
      } else {
        if d.name in byName {
          d := d.(createTime := byName[d.name].createTime);
          ghost var before := expected[..];
          expected[i] := d;
          assert expected[..] == before[i := d];
        }
        err := ds.Put(OwnedKey(d), d);
      }
      if err.Fail? {
        return;
      }
      i := i + 1;
    }
    assert expected[..] == expected[..i];
    return Pass;
  }

  /** `listed`, stored under the distinct keys `keys`, are exactly the records
      of application `app`. */
  ghost predicate AppListing(rows: map<Key, OwnedRecord>, app: string, keys: seq<Key>, listed: seq<OwnedRecord>)
  {
    && |keys| == |listed|
    && (forall m | 0 <= m < |keys| :: keys[m] in rows && listed[m] == rows[keys[m]])
    && (forall m, m' | 0 <= m < m' < |keys| :: keys[m] != keys[m'])
    && (forall k | k in rows :: k in keys <==> rows[k].app == app)
  }

  /** In a keyed table, the listing of an application holds each record
      under its own key, and lists exactly the names the application has. */
  lemma ListingOfApp(rows: map<Key, OwnedRecord>, app: string, keys: seq<Key>, listed: seq<OwnedRecord>)
    requires Keyed(rows) && AppListing(rows, app, keys, listed)
    ensures forall m | 0 <= m < |listed| :: keys[m] == OwnedKey(listed[m]) && listed[m].app == app
    ensures forall n :: n in Names(listed) <==> Key(app, n) in rows
  {
    forall m | 0 <= m < |listed|
      ensures keys[m] == OwnedKey(listed[m]) && listed[m].app == app
    {
      assert keys[m] in keys;
    }
    forall n
      ensures n in Names(listed) <==> Key(app, n) in rows
    {
      if n in Names(listed) {
        var m :| 0 <= m < |listed| && Names(listed)[m] == n;
        assert keys[m] in keys;
      }
      if Key(app, n) in rows {
        assert Key(app, n) in keys;
        var m :| 0 <= m < |keys| && keys[m] == Key(app, n);
        assert Names(listed)[m] == n;
      }
    }
  }

  /** The deletion pass over the listing removes exactly Deleted. */
  lemma DeletedByListing(rows: map<Key, OwnedRecord>, faults: map<Op<Key>, Error>, app: string, keys: seq<Key>,
                         listed: seq<OwnedRecord>, ts: seq<OwnedRecord>, toDelete: seq<string>, tag: string)
    requires Keyed(rows) && AppListing(rows, app, keys, listed)
    requires forall n :: n in toDelete <==> n in Names(listed) && n !in Names(ts)
    ensures DeletedAmong(listed, toDelete, faults, tag, |listed|) == Deleted(rows, faults, app, ts, tag)
  {
    ListingOfApp(rows, app, keys, listed);
    forall k | k in Deleted(rows, faults, app, ts, tag)
      ensures k in DeletedAmong(listed, toDelete, faults, tag, |listed|)
    {
      assert k in keys;
      var m :| 0 <= m < |keys| && keys[m] == k;
      assert Names(listed)[m] == listed[m].name;
    }
    forall k | k in DeletedAmong(listed, toDelete, faults, tag, |listed|)
      ensures k in Deleted(rows, faults, app, ts, tag)
    {
      var m :| 0 <= m < |listed| && listed[m].creator == tag && listed[m].name in toDelete
               && DeleteOp(OwnedKey(listed[m])) !in faults && k == OwnedKey(listed[m]);
      assert keys[m] == k;
    }
  }

  /** One collection sync of application `app` towards the desired records
      `expected`, deleting only records whose creator is `tag`. */
  method SyncOwned(app: string, expected: array<OwnedRecord>, ds: Table<Key, OwnedRecord>, tag: string)
    returns (err: Outcome)
    requires Keyed(ds.rows)
    modifies expected, ds`rows
    ensures var r := OwnedSync(old(ds.rows), ds.faults, app, old(expected[..]), tag);
      ds.rows == r.rows && err == r.outcome && expected[..] == r.records
  {
    ghost var rows0 := ds.rows;
    ghost var T := expected[..];
    var listing: Result<seq<OwnedRecord>>;
    ghost var keys: seq<Key>;
    listing, keys := ds.List((rec: OwnedRecord) => rec.app == app);
    if listing.Err? {
      return Fail(listing.error);
    }
    var listed := listing.value;
    assert AppListing(rows0, app, keys, listed);
    ListingOfApp(rows0, app, keys, listed);
    var originNames, byName := IndexByName(listed);
    var targetNames := DesiredNames(expected);
    var cmp := Utils.ThreeWaySliceCompare(originNames, targetNames);
    DeletePhase(listed, cmp.toDelete, ds, tag);
    DeletedByListing(rows0, ds.faults, app, keys, listed, T, cmp.toDelete, tag);
    assert forall j | 0 <= j < expected.Length :: targetNames[j] == expected[j].name;
    err := UpsertPhase(expected, cmp.toAdd, byName, ds, rows0, app);
  }

  method StoreComponents(app: string, expComps: array<ApplicationComponent>, ds: Table<Key, ApplicationComponent>)
    returns (err: Outcome)
    requires Keyed(ds.rows)
    modifies expComps, ds`rows
    ensures var r := OwnedSync(old(ds.rows), ds.faults, app, old(expComps[..]), AutoGenComp);
      ds.rows == r.rows && err == r.outcome && expComps[..] == r.records
  {
    err := SyncOwned(app, expComps, ds, AutoGenComp);
  }

  method StorePolicy(app: string, expPolicies: array<ApplicationPolicy>, ds: Table<Key, ApplicationPolicy>)
    returns (err: Outcome)
    requires Keyed(ds.rows)
    modifies expPolicies, ds`rows
    ensures var r := OwnedSync(old(ds.rows), ds.faults, app, old(expPolicies[..]), AutoGenPolicy);
      ds.rows == r.rows && err == r.outcome && expPolicies[..] == r.records
  {
    err := SyncOwned(app, expPolicies, ds, AutoGenPolicy);
  }
}
