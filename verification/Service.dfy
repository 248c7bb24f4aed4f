/** The document service's use cases over the stores they change. Every method is
  * proved against the states and the answer that module `Documents` lists for it. */
module Service {
  import opened Wrappers
  import opened Documents

  class DocumentService {
    var rows: map<string, Row>
    var objects: map<string, nat>
    var stream: seq<Message>
    /** Every state reached so far, in order. */
    ghost var passed: seq<Store>

    constructor ()
      ensures Now() == EMPTY && passed == []
    {
      rows, objects, stream, passed := map[], map[], [], [];
    }

    ghost function Now(): Store
      reads this`rows, this`objects, this`stream
    {
      Store(rows, objects, stream)
    }

    /** The call made exactly the changes `states`, one after the other. */
    twostate predicate Passes(states: seq<Store>)
      reads this
    {
      passed == old(passed) + states && Now() == After(old(Now()), states)
    }

    // ---- storage ----

    method SavePdf(id: string, size: nat, w: Write) returns (ok: bool)
      modifies this
      ensures ok == (w == Done)
      ensures Passes(if w == Lost then [] else [Saved(old(Now()), id, size)])
    {
      if w != Lost {
        objects := objects[Key(id) := size];
        passed := passed + [Now()];
      }
      return w == Done;
    }

    method DeleteObject(id: string, e: Erasure) returns (ok: bool)
      modifies this
      ensures ok == !e.raised
      ensures Passes(Cleanup(old(Now()), id, e))
    {
      if e.applied {
        objects := objects - {Key(id)};
        passed := passed + [Now()];
      }
      return !e.raised;
    }

    // ---- repository ----

    method InsertRow(id: string, filename: string, uploadedAt: int, w: Write) returns (ok: bool)
      modifies this
      ensures ok == (w == Done && id !in old(rows))
      ensures Passes(if id in old(rows) || w == Lost then [] else [Inserted(old(Now()), id, filename, uploadedAt)])
    {
      if id in rows || w == Lost {
        return false;
      }
      rows := rows[id := Row(filename, uploadedAt, Queued, |stream|)];
      passed := passed + [Now()];
      return w == Done;
    }

    method MarkFailed(id: string, w: Write) returns (ok: bool)
      requires id in rows
      modifies this
      ensures ok == (w == Done)
      ensures Passes(if w == Lost then [] else [Marked(old(Now()), id)])
    {
      if w != Lost {
        rows := rows[id := rows[id].(status := Failed)];
        passed := passed + [Now()];
      }
      return w == Done;
    }

    method DeleteRow(id: string, w: Write) returns (ok: bool)
      modifies this
      ensures ok == (w == Done)
      ensures Passes(if w == Lost then [] else [Dropped(old(Now()), id)])
    {
      if w != Lost {
        rows := rows - {id};
        passed := passed + [Now()];
      }
      return w == Done;
    }

    method ResetToQueued(id: string, w: Write) returns (ok: bool)
      requires id in rows
      modifies this
      ensures ok == (w == Done)
      ensures Passes(if w == Lost then [] else [Requeued(old(Now()), id)])
    {
      if w != Lost {
        var row := rows[id];
        var since := if row.status == Queued then row.since else |stream|;
        rows := rows[id := row.(status := Queued, since := since)];
        passed := passed + [Now()];
      }
      return w == Done;
    }

    // ---- publisher ----

    method Publish(m: Message, send: Sending)
      modifies this
      ensures Passes(if send in {Accepted, Doubtful} then [Sent(old(Now()), m)] else [])
    {
      if send in {Accepted, Doubtful} {
        stream := stream + [m];
        passed := passed + [Now()];
      }
    }

    /** The `try` block both use cases end with: `true` after a Redis error whose
      * row could be marked failed, or after none. */
    method Submit(id: string, m: Message, send: Sending, mark: Write) returns (ok: bool, handled: bool)
      requires id in rows
      modifies this
      ensures ok == Submitting(old(Now()), id, m, send, mark).1
      ensures handled == (ok || (send != Broken && mark == Done))
      ensures Passes(Submitting(old(Now()), id, m, send, mark).0)
    {
      Publish(m, send);
      if send == Accepted {
        return true, true;
      }
      if send == Broken {
        return false, false;
      }
      handled := MarkFailed(id, mark);
      ok := false;
    }

    // ---- use cases ----

    method Create(u: Upload, f: UploadFaults) returns (reply: Reply)
      modifies this
      ensures reply == Creating(old(Now()), u, f).reply
      ensures reply == ReplyTo(old(Now()), u, f)
      ensures reply == Created <==>
                && u.filename.Some? && f.save == Done && u.id !in old(rows) && f.insert == Done && f.send == Accepted
      ensures reply == Created ==>
                var key := "documents/" + u.id + ".pdf";
                && rows == old(rows)[u.id := Row(u.filename.value, u.uploadedAt, Queued, |old(stream)|)]
                && objects == old(objects)[key := u.size]
                && stream == old(stream) + [Message(u.id, key, u.filename.value, u.size, u.uploadedAt)]
      ensures Passes(Creating(old(Now()), u, f).states)
    {
      CreatingCases(Now(), u, f);
      ReplyTellsOutcome(Now(), u, f);
      hide Key, Creating, Submitting, Sent, Marked, Erased;
      if u.filename.None? {
        return Rejected;
      }
      var saved := SavePdf(u.id, u.size, f.save);
      if !saved {
        return NotSaved;
      }
      var inserted := InsertRow(u.id, u.filename.value, u.uploadedAt, f.insert);
      if !inserted {
        var _ := DeleteObject(u.id, f.cleanup);
        return NotInserted;
      }
      var m := Message(u.id, Key(u.id), u.filename.value, u.size, u.uploadedAt);
      var ok, handled := Submit(u.id, m, f.send, f.mark);
      reply := if ok then Created else if handled then NotSubmitted else Crashed;
    }

    /** One pass of the deletion loop. */
    method DeleteOne(id: string, f: ItemFaults) returns (v: Option<Verdict>)
      modifies this
      ensures v == Item(Delete, old(Now()), id, f).verdict
      ensures Passes(Item(Delete, old(Now()), id, f).states)
    {
      if id !in rows {
        return Some(Missing);
      }
      var dropped := DeleteRow(id, f.row);
      if !dropped {
        return None;
      }
      var erased := DeleteObject(id, f.erase);
      v := if erased then Some(Succeeded) else None;
    }

    /** One pass of the reprocessing loop. */
    method ReprocessOne(id: string, f: ItemFaults) returns (v: Option<Verdict>)
      modifies this
      ensures v == Item(Reprocess, old(Now()), id, f).verdict
      ensures Passes(Item(Reprocess, old(Now()), id, f).states)
    {
      if id !in rows {
        return Some(Missing);
      }
      var reset := ResetToQueued(id, f.row);
      if !reset || f.size == Unavailable {
        return None;
      }
      var size := SizeOf(Store(rows, objects, stream), id, f.size);
      var m := Message(id, Key(id), rows[id].filename, size, rows[id].uploadedAt);
      var ok, handled := Submit(id, m, f.send, f.mark);
      v := if ok then Some(Succeeded) else if handled then Some(NotEnqueued(m.filename)) else None;
    }

    /** `bulk_delete`; no answer means that an exception escaped. */
    method BulkDelete(ids: seq<string>, fs: seq<ItemFaults>) returns (r: Option<BulkResult>)
      requires |ids| == |fs|
      modifies this
      ensures r == Answer(Delete, old(Now()), ids, fs)
      ensures r.None? <==> exists i: nat :: i < |ids| && DeletionFails(old(Now()), ids, fs, i)
      ensures r.Some? ==> rows == old(rows) - Listed(ids) && DeletionAnswered(old(Now()), ids, r.value)
      ensures Passes(Batch(Delete, old(Now()), ids, fs, |ids|).states)
    {
      ghost var s := Now();
      var succeeded, failed := [], [];
      hide Batch, Item, After, Successes, Failures, Listing, Answer, FailedOf, DeletionFails, DeletionAnswered, Listed;
      BatchStarts(Delete, s, ids, fs);
      DeletionAnswersEachId(s, ids, fs);
      DeletionReturned(s, ids, fs);
      for i := 0 to |ids|
        invariant Listing(Delete, s, ids, fs, i, succeeded, failed)
        invariant Passes(Batch(Delete, s, ids, fs, i).states)
      {
        BatchGrows(Delete, s, ids, fs, i, succeeded, failed);
        var v := DeleteOne(ids[i], fs[i]);
        if v.None? {
          return None;
        }
        if v.value == Succeeded {
          succeeded := succeeded + [ids[i]];
        } else {
          failed := failed + [FailedOf(ids[i], v.value)];
        }
      }
      AnswerOf(Delete, s, ids, fs, succeeded, failed);
      r := Some(BulkResult(|ids|, succeeded, failed));
    }

    /** `bulk_reprocess`; no answer means that an exception escaped. */
    method BulkReprocess(ids: seq<string>, fs: seq<ItemFaults>) returns (r: Option<BulkResult>)
      requires |ids| == |fs|
      modifies this
      ensures r == Answer(Reprocess, old(Now()), ids, fs)
      ensures r.None? <==> exists i: nat :: i < |ids| && RequeueFails(old(Now()), ids, fs, i)
      ensures r.Some? ==> RequeueAnswered(old(Now()), ids, fs, r.value)
      ensures Passes(Batch(Reprocess, old(Now()), ids, fs, |ids|).states)
    {
      ghost var s := Now();
      var succeeded, failed := [], [];
      hide Batch, Item, After, Successes, Failures, Listing, Answer, FailedOf, RequeueFails, RequeueAnswered;
      BatchStarts(Reprocess, s, ids, fs);
      RequeueAnswersEachId(s, ids, fs);
      for i := 0 to |ids|
        invariant Listing(Reprocess, s, ids, fs, i, succeeded, failed)
        invariant Passes(Batch(Reprocess, s, ids, fs, i).states)
      {
        BatchGrows(Reprocess, s, ids, fs, i, succeeded, failed);
        var v := ReprocessOne(ids[i], fs[i]);
        if v.None? {
          return None;
        }
        if v.value == Succeeded {
          succeeded := succeeded + [ids[i]];
        } else {
          failed := failed + [FailedOf(ids[i], v.value)];
        }
      }
      AnswerOf(Reprocess, s, ids, fs, succeeded, failed);
      r := Some(BulkResult(|ids|, succeeded, failed));
    }
  }

  /** The two lists of the loop after `k` ids. */
  predicate Listing(op: Op, s: Store, ids: seq<string>, fs: seq<ItemFaults>, k: nat, ok: seq<string>, bad: seq<FailedItem>)
    requires k <= |ids| == |fs|
  {
    var p := Batch(op, s, ids, fs, k);
    !p.raised && ok == Successes(ids, p.verdicts) && bad == Failures(ids, p.verdicts)
  }

  lemma DeletionReturned(s: Store, ids: seq<string>, fs: seq<ItemFaults>)
    requires |ids| == |fs|
    ensures Answer(Delete, s, ids, fs).Some? ==>
              After(s, Batch(Delete, s, ids, fs, |ids|).states).rows == s.rows - Listed(ids)
  {
    if Answer(Delete, s, ids, fs).Some? {
      DeletedRows(s, ids, fs, |ids|);
      assert ids[..|ids|] == ids;
    }
  }

  /** An upload, branch by branch. */
  lemma CreatingCases(s: Store, u: Upload, f: UploadFaults)
    ensures u.filename.None? ==> Creating(s, u, f) == Trail([], Rejected)
    ensures u.filename.Some? ==>
      var s1 := Saved(s, u.id, u.size);
      && (f.save == Lost ==> Creating(s, u, f) == Trail([], NotSaved))
      && (f.save == Unconfirmed ==> Creating(s, u, f) == Trail([s1], NotSaved))
      && (f.save == Done && (u.id in s.rows || f.insert == Lost) ==>
            Creating(s, u, f) == Trail([s1] + Cleanup(s1, u.id, f.cleanup), NotInserted))
      && (f.save == Done && u.id !in s.rows && f.insert != Lost ==>
            var s2 := Inserted(s1, u.id, u.filename.value, u.uploadedAt);
            && s1.rows == s.rows && u.id in s2.rows
            && (f.insert == Unconfirmed ==>
                  Creating(s, u, f) == Trail([s1, s2] + Cleanup(s2, u.id, f.cleanup), NotInserted))
            && (f.insert == Done ==>
                  var m := Message(u.id, Key(u.id), u.filename.value, u.size, u.uploadedAt);
                  var (tail, ok) := Submitting(s2, u.id, m, f.send, f.mark);
                  Creating(s, u, f) ==
                    Trail([s1, s2] + tail,
                          if ok then Created else if f.send == Broken || f.mark != Done then Crashed else NotSubmitted)))
  {
    hide Key, Cleanup, Submitting;
  }

  lemma BatchStarts(op: Op, s: Store, ids: seq<string>, fs: seq<ItemFaults>)
    requires |ids| == |fs|
    ensures Batch(op, s, ids, fs, 0).states == [] && After(s, []) == s && Listing(op, s, ids, fs, 0, [], [])
  {
  }

  lemma AnswerOf(op: Op, s: Store, ids: seq<string>, fs: seq<ItemFaults>, ok: seq<string>, bad: seq<FailedItem>)
    requires |ids| == |fs| && Listing(op, s, ids, fs, |ids|, ok, bad)
    ensures Answer(op, s, ids, fs) == Some(BulkResult(|ids|, ok, bad))
  {
  }

  /** What one pass of the loop does to the request and to its lists. */
  lemma BatchGrows(op: Op, s: Store, ids: seq<string>, fs: seq<ItemFaults>, k: nat, ok: seq<string>, bad: seq<FailedItem>)
    requires k < |ids| == |fs| && Listing(op, s, ids, fs, k, ok, bad)
    ensures var states := Batch(op, s, ids, fs, k).states; var now := After(s, states);
            var step := Item(op, now, ids[k], fs[k]); var more := Batch(op, s, ids, fs, k + 1);
            && more.states == states + step.states && After(s, more.states) == After(now, step.states)
            && match step.verdict
               case None => Answer(op, s, ids, fs) == None && Batch(op, s, ids, fs, |ids|) == more
               case Some(v) =>
                 if v == Succeeded then Listing(op, s, ids, fs, k + 1, ok + [ids[k]], bad)
                 else Listing(op, s, ids, fs, k + 1, ok, bad + [FailedOf(ids[k], v)])
  {
    var p := Batch(op, s, ids, fs, k);
    var step := Item(op, After(s, p.states), ids[k], fs[k]);
    AfterAppend(s, p.states, step.states);
    match step.verdict
    case None => RaisedStays(op, s, ids, fs, k + 1, |ids|);
    case Some(v) =>
      ListsGrow(ids, p.verdicts, v);
      hide Item, After, Successes, Failures;
  }

  lemma ListsGrow(ids: seq<string>, vs: seq<Verdict>, v: Verdict)
    requires |vs| < |ids|
    ensures Successes(ids, vs + [v]) == if v == Succeeded then Successes(ids, vs) + [ids[|vs|]] else Successes(ids, vs)
    ensures Failures(ids, vs + [v]) == if v == Succeeded then Failures(ids, vs) else Failures(ids, vs) + [FailedOf(ids[|vs|], v)]
  {
    assert (vs + [v])[..|vs|] == vs;
  }

  lemma {:induction false} RaisedStays(op: Op, s: Store, ids: seq<string>, fs: seq<ItemFaults>, k: nat, n: nat)
    requires k <= n <= |ids| == |fs| && Batch(op, s, ids, fs, k).raised
    ensures Batch(op, s, ids, fs, n) == Batch(op, s, ids, fs, k)
  {
    if k < n { RaisedStays(op, s, ids, fs, k, n - 1); }
  }
}
