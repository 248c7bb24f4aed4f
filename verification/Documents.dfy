/** The document-service saga over table, object store and stream, with faults. */
module Documents {
  import opened Wrappers

  // One upload, one deletion or one requeue touches the `documents` table, the object store and the Redis
  // stream in turn, and any of these calls can fail.

  /** Where the object of a document is stored. */
  function Key(id: string): string {
    "documents/" + id + ".pdf"
  }

  datatype Status = Queued | Processing | Completed | Failed

  /** `since` is a history variable: the length the stream had when the row last
    * became queued, or the message a worker gave back when it queued the row again. */
  datatype Row = Row(filename: string, uploadedAt: int, status: Status, since: nat)

  datatype Message = Message(id: string, key: string, filename: string, size: nat, uploadedAt: int)

  datatype Store = Store(rows: map<string, Row>, objects: map<string, nat>, stream: seq<Message>)

  lemma KeyInjective(a: string, b: string)
    requires Key(a) == Key(b)
    ensures a == b
  {
    var n := |"documents/"|;
    assert a == Key(a)[n..n + |a|] && b == Key(b)[n..n + |b|];
  }

  lemma KeysApart(id: string)
    ensures forall other :: other != id ==> Key(other) != Key(id)
  {
    forall other | other != id
      ensures Key(other) != Key(id)
    {
      if Key(other) == Key(id) { KeyInjective(other, id); }
    }
  }

  // ---- One change each: the calls that write ----

  function Saved(s: Store, id: string, size: nat): Store {
    s.(objects := s.objects[Key(id) := size])
  }

  function Erased(s: Store, id: string): Store {
    s.(objects := s.objects - {Key(id)})
  }

  function Inserted(s: Store, id: string, filename: string, uploadedAt: int): Store {
    s.(rows := s.rows[id := Row(filename, uploadedAt, Queued, |s.stream|)])
  }

  function Dropped(s: Store, id: string): Store {
    s.(rows := s.rows - {id})
  }

  function Marked(s: Store, id: string): Store {
    if id in s.rows then s.(rows := s.rows[id := s.rows[id].(status := Failed)]) else s
  }

  function Requeued(s: Store, id: string): Store
    requires id in s.rows
  {
    var row := s.rows[id];
    var since := if row.status == Queued then row.since else |s.stream|;
    s.(rows := s.rows[id := row.(status := Queued, since := since)])
  }

  function Payload(s: Store, id: string, size: nat): Message
    requires id in s.rows
  {
    Message(id, Key(id), s.rows[id].filename, size, s.rows[id].uploadedAt)
  }

  function Sent(s: Store, m: Message): Store {
    s.(stream := s.stream + [m])
  }

  // ---- Faults ----

  /** A write that raises may or may not have taken effect: `commit` followed by a
    * failing `refresh`, or an answer lost on the way back. */
  datatype Write = Done | Lost | Unconfirmed

  /** `storage.delete`: one back end swallows its errors, the other raises them. */
  datatype Erasure = Erasure(applied: bool, raised: bool)

  /** `xadd`: accepted, or a Redis error with the message lost or in the stream,
    * or an exception that is no Redis error. */
  datatype Sending = Accepted | Refused | Doubtful | Broken

  datatype Sizing = Reported | Unreported | Unavailable

  datatype UploadFaults = UploadFaults(save: Write, insert: Write, cleanup: Erasure, send: Sending, mark: Write)

  datatype ItemFaults = ItemFaults(row: Write, erase: Erasure, size: Sizing, send: Sending, mark: Write)

  // ---- Upload ----

  /** An upload; `filename` is `None` when `_safe_pdf_filename` rejects it. */
  datatype Upload = Upload(id: string, filename: Option<string>, size: nat, uploadedAt: int)

  datatype Reply = Created | Rejected | NotSaved | NotInserted | NotSubmitted | Crashed

  datatype Trail = Trail(states: seq<Store>, reply: Reply)

  function After(s: Store, states: seq<Store>): Store {
    if states == [] then s else states[|states| - 1]
  }

  function Creating(s: Store, u: Upload, f: UploadFaults): Trail {
    if u.filename.None? then Trail([], Rejected)
    else if f.save == Lost then Trail([], NotSaved)
    else
      var s1 := Saved(s, u.id, u.size);
      if f.save == Unconfirmed then Trail([s1], NotSaved)
      else if u.id in s.rows || f.insert == Lost then Trail([s1] + Cleanup(s1, u.id, f.cleanup), NotInserted)
      else
        var s2 := Inserted(s1, u.id, u.filename.value, u.uploadedAt);
        if f.insert == Unconfirmed then Trail([s1, s2] + Cleanup(s2, u.id, f.cleanup), NotInserted)
        else
          var (tail, ok) := Submitting(s2, u.id, Payload(s2, u.id, u.size), f.send, f.mark);
          Trail([s1, s2] + tail, if ok then Created else if f.send == Broken || f.mark != Done then Crashed else NotSubmitted)
  }

  function Cleanup(s: Store, id: string, e: Erasure): seq<Store> {
    if e.applied then [Erased(s, id)] else []
  }

  /** Publish; on a Redis error mark the row failed. */
  function Submitting(s: Store, id: string, m: Message, send: Sending, mark: Write): (seq<Store>, bool) {
    match send
    case Accepted => ([Sent(s, m)], true)
    case Broken => ([], false)
    case Refused => (if mark == Lost then [] else [Marked(s, id)], false)
    case Doubtful =>
      var sent := Sent(s, m);
      (if mark == Lost then [sent] else [sent, Marked(sent, id)], false)
  }

  // ---- Bulk requests ----

  datatype Op = Delete | Reprocess

  datatype Verdict = Succeeded | Missing | NotEnqueued(name: string)

  datatype Step = Step(states: seq<Store>, verdict: Option<Verdict>)

  /** One id of a bulk request; no verdict means that an exception ends the request. */
  function Item(op: Op, s: Store, id: string, f: ItemFaults): Step {
    if id !in s.rows then Step([], Some(Missing))
    else if f.row == Lost then Step([], None)
    else match op
      case Delete =>
        var s1 := Dropped(s, id);
        if f.row == Unconfirmed then Step([s1], None)
        else Step([s1] + Cleanup(s1, id, f.erase), if f.erase.raised then None else Some(Succeeded))
      case Reprocess =>
        var s1 := Requeued(s, id);
        if f.row == Unconfirmed || f.size == Unavailable then Step([s1], None)
        else
          var (tail, ok) := Submitting(s1, id, Payload(s1, id, SizeOf(s1, id, f.size)), f.send, f.mark);
          Step([s1] + tail,
               if ok then Some(Succeeded)
               else if f.send == Broken || f.mark != Done then None
               else Some(NotEnqueued(s.rows[id].filename)))
  }

  /** `size_bytes(key) or 0`. */
  function SizeOf(s: Store, id: string, size: Sizing): nat {
    if size == Reported && Key(id) in s.objects then s.objects[Key(id)] else 0
  }

  datatype Progress = Progress(states: seq<Store>, verdicts: seq<Verdict>, raised: bool)

  /** The request after its first `k` ids; nothing happens after an exception. */
  function Batch(op: Op, s: Store, ids: seq<string>, fs: seq<ItemFaults>, k: nat): (p: Progress)
    requires k <= |ids| == |fs|
    ensures |p.verdicts| <= k && (!p.raised ==> |p.verdicts| == k)
  {
    if k == 0 then Progress([], [], false)
    else
      var p := Batch(op, s, ids, fs, k - 1);
      if p.raised then p
      else
        var step := Item(op, After(s, p.states), ids[k - 1], fs[k - 1]);
        Progress(p.states + step.states,
                 if step.verdict.Some? then p.verdicts + [step.verdict.value] else p.verdicts,
                 step.verdict.None?)
  }

  datatype FailedItem = FailedItem(id: string, name: string, reason: string)

  datatype BulkResult = BulkResult(requested: nat, succeeded: seq<string>, failed: seq<FailedItem>)

  function FailedOf(id: string, v: Verdict): FailedItem
    requires v != Succeeded
  {
    if v == Missing then FailedItem(id, "unknown", "Document not found")
    else FailedItem(id, v.name, "Failed to enqueue processing job")
  }

  function Successes(ids: seq<string>, vs: seq<Verdict>): seq<string>
    requires |vs| <= |ids|
  {
    if vs == [] then []
    else
      var k := |vs| - 1;
      Successes(ids, vs[..k]) + if vs[k] == Succeeded then [ids[k]] else []
  }

  function Failures(ids: seq<string>, vs: seq<Verdict>): seq<FailedItem>
    requires |vs| <= |ids|
  {
    if vs == [] then []
    else
      var k := |vs| - 1;
      Failures(ids, vs[..k]) + if vs[k] == Succeeded then [] else [FailedOf(ids[k], vs[k])]
  }

  // ---- Invariants ----

  /** Every row has its object in the store. */
  ghost predicate Held(s: Store) {
    forall id :: id in s.rows ==> Key(id) in s.objects
  }

  ghost predicate HasMessage(s: Store, id: string, since: nat) {
    exists i :: since <= i < |s.stream| && s.stream[i].id == id
  }

  /** Every queued row has a message in the stream from the time it became queued. */
  ghost predicate Waiting(s: Store) {
    forall id :: id in s.rows && s.rows[id].status == Queued ==> HasMessage(s, id, s.rows[id].since)
  }

  /** A message about a row is the one its upload published. */
  predicate TrueTo(s: Store, m: Message) {
    m.id in s.rows ==>
      && m.key == "documents/" + m.id + ".pdf" && m.key in s.objects && m.size == s.objects[m.key]
      && m.filename == s.rows[m.id].filename && m.uploadedAt == s.rows[m.id].uploadedAt
  }

  ghost predicate Faithful(s: Store) {
    forall m :: m in s.stream ==> TrueTo(s, m)
  }

  // ---- What an upload keeps ----

  /** The clean-up after a failed insert erases the object of a row that exists:
    * the insert was committed and only `refresh` failed, or the id was taken. */
  predicate Orphans(s: Store, u: Upload, f: UploadFaults) {
    u.filename.Some? && f.save == Done && f.cleanup.applied && (u.id in s.rows || f.insert == Unconfirmed)
  }

  /** A queued row was committed, and neither its message nor its failure was recorded. */
  predicate Strands(s: Store, u: Upload, f: UploadFaults) {
    && u.filename.Some? && f.save == Done && u.id !in s.rows
    && (f.insert == Unconfirmed || (f.insert == Done && Unsent(f.send, f.mark)))
  }

  predicate Unsent(send: Sending, mark: Write) {
    send == Broken || (send == Refused && mark == Lost)
  }

  lemma ErasingKeepsHeld(s: Store, id: string)
    requires Held(s)
    ensures Held(Erased(s, id)) <==> id !in s.rows
  {
    KeysApart(id);
    assert id in s.rows ==> id in Erased(s, id).rows && Key(id) !in Erased(s, id).objects;
  }

  lemma SubmittingKeepsHeld(s: Store, id: string, m: Message, send: Sending, mark: Write)
    requires Held(s)
    ensures forall t :: t in Submitting(s, id, m, send, mark).0 ==> Held(t)
  {
  }

  lemma CreatingHoldsExactly(s: Store, u: Upload, f: UploadFaults)
    requires Held(s)
    ensures (forall t :: t in Creating(s, u, f).states ==> Held(t)) <==> !Orphans(s, u, f)
  {
    var states := Creating(s, u, f).states;
    if u.filename.Some? && f.save != Lost {
      var s1 := Saved(s, u.id, u.size);
      assert Held(s1);
      if f.save == Done {
        if u.id in s.rows || f.insert == Lost {
          ErasingKeepsHeld(s1, u.id);
          assert states == [s1] + Cleanup(s1, u.id, f.cleanup);
          assert f.cleanup.applied ==> states[1] == Erased(s1, u.id);
        } else {
          var s2 := Inserted(s1, u.id, u.filename.value, u.uploadedAt);
          assert Held(s2);
          if f.insert == Unconfirmed {
            ErasingKeepsHeld(s2, u.id);
            assert states == [s1, s2] + Cleanup(s2, u.id, f.cleanup);
            assert f.cleanup.applied ==> states[2] == Erased(s2, u.id);
          } else {
            SubmittingKeepsHeld(s2, u.id, Payload(s2, u.id, u.size), f.send, f.mark);
          }
        }
      }
    }
  }

  lemma HasMessageKept(s: Store, t: Store, id: string, since: nat)
    requires HasMessage(s, id, since) && s.stream <= t.stream
    ensures HasMessage(t, id, since)
  {
    var i :| since <= i < |s.stream| && s.stream[i].id == id;
    assert t.stream[i] == s.stream[i];
  }

  /** Only the row of `id` changes and the stream only grows. */
  ghost predicate Touches(s: Store, t: Store, id: string) {
    && s.stream <= t.stream
    && forall other :: other != id ==>
         (other in t.rows <==> other in s.rows) && (other in s.rows ==> t.rows[other] == s.rows[other])
  }

  lemma TouchingKeepsWaiting(s: Store, t: Store, id: string)
    requires Touches(s, t, id) && Waiting(s)
    requires id in t.rows && t.rows[id].status == Queued ==> HasMessage(t, id, t.rows[id].since)
    ensures Waiting(t)
  {
    forall other | other in t.rows && t.rows[other].status == Queued && other != id
      ensures HasMessage(t, other, t.rows[other].since)
    {
      HasMessageKept(s, t, other, s.rows[other].since);
    }
  }

  /** Publishing after a row was queued at the end of the stream. */
  lemma SubmittingWaitsExactly(s: Store, t: Store, id: string, m: Message, send: Sending, mark: Write)
    requires Waiting(s) && Touches(s, t, id) && m.id == id && t.stream == s.stream
    requires id in t.rows && t.rows[id].status == Queued && t.rows[id].since == |t.stream|
    ensures Waiting(After(t, Submitting(t, id, m, send, mark).0)) <==> !Unsent(send, mark)
    ensures Touches(s, After(t, Submitting(t, id, m, send, mark).0), id)
  {
    var r := After(t, Submitting(t, id, m, send, mark).0);
    if Unsent(send, mark) {
      assert r == t && !HasMessage(r, id, |t.stream|);
    } else {
      if r.rows[id].status == Queued {
        assert r.stream[|t.stream|] == m;
      }
      TouchingKeepsWaiting(s, r, id);
    }
  }

  lemma CreatingWaitsExactly(s: Store, u: Upload, f: UploadFaults)
    requires Waiting(s)
    ensures Waiting(After(s, Creating(s, u, f).states)) <==> !Strands(s, u, f)
  {
    var states := Creating(s, u, f).states;
    var r := After(s, states);
    if u.filename.Some? && f.save == Done && u.id !in s.rows && f.insert != Lost {
      var s1 := Saved(s, u.id, u.size);
      var s2 := Inserted(s1, u.id, u.filename.value, u.uploadedAt);
      assert Waiting(s1);
      if f.insert == Done {
        var m := Payload(s2, u.id, u.size);
        SubmittingWaitsExactly(s1, s2, u.id, m, f.send, f.mark);
        assert states == [s1, s2] + Submitting(s2, u.id, m, f.send, f.mark).0;
        AfterAppend(s, [s1, s2], Submitting(s2, u.id, m, f.send, f.mark).0);
      } else {
        assert states == [s1, s2] + Cleanup(s2, u.id, f.cleanup);
        AfterAppend(s, [s1, s2], Cleanup(s2, u.id, f.cleanup));
        assert r.rows == s2.rows && r.stream == s.stream && !HasMessage(r, u.id, |s.stream|);
        assert u.id in r.rows && r.rows[u.id].status == Queued && r.rows[u.id].since == |s.stream|;
      }
    } else {
      assert r.rows == s.rows && r.stream == s.stream;
      TouchingKeepsWaiting(s, r, u.id) by {
        if u.id in r.rows && r.rows[u.id].status == Queued { HasMessageKept(s, r, u.id, s.rows[u.id].since); }
      }
    }
  }

  lemma AfterAppend(s: Store, a: seq<Store>, b: seq<Store>)
    ensures After(s, a + b) == After(After(s, a), b)
  {
  }

  /** The first call that does not go through decides the answer. */
  function ReplyTo(s: Store, u: Upload, f: UploadFaults): Reply {
    if u.filename.None? then Rejected
    else if f.save != Done then NotSaved
    else if u.id in s.rows || f.insert != Done then NotInserted
    else match f.send
      case Accepted => Created
      case Broken => Crashed
      case _ => if f.mark == Done then NotSubmitted else Crashed
  }

  /** What the uploader may conclude from the answer. */
  lemma ReplyTellsOutcome(s: Store, u: Upload, f: UploadFaults)
    ensures var t := Creating(s, u, f); var now := After(s, t.states);
            && (t.reply == Created ==>
                  var key := "documents/" + u.id + ".pdf";
                  && u.filename.Some? && u.id !in s.rows
                  && now.rows == s.rows[u.id := Row(u.filename.value, u.uploadedAt, Queued, |s.stream|)]
                  && now.objects == s.objects[key := u.size]
                  && now.stream == s.stream + [Message(u.id, key, u.filename.value, u.size, u.uploadedAt)])
            && (t.reply == NotSubmitted ==>
                  u.id !in s.rows && u.id in now.rows && now.rows[u.id].status == Failed && Key(u.id) in now.objects)
            && (t.reply == Rejected ==> now == s)
            && (t.reply in {Rejected, NotSaved, NotInserted} ==> now.stream == s.stream)
            && (t.reply == NotInserted && now.rows != s.rows ==> f.insert == Unconfirmed)
            && (t.reply == Created <==>
                  u.filename.Some? && f.save == Done && u.id !in s.rows && f.insert == Done && f.send == Accepted)
            && t.reply == ReplyTo(s, u, f)
  {
  }

  // ---- What one id of a bulk request keeps ----

  /** A row became queued, and neither its message nor its failure was recorded. */
  predicate ItemStrands(op: Op, s: Store, id: string, f: ItemFaults) {
    && op == Reprocess && id in s.rows && s.rows[id].status != Queued && f.row != Lost
    && (f.row == Unconfirmed || f.size == Unavailable || Unsent(f.send, f.mark))
  }

  lemma ItemKeepsHeld(op: Op, s: Store, id: string, f: ItemFaults)
    requires Held(s)
    ensures forall t :: t in Item(op, s, id, f).states ==> Held(t)
  {
    if id in s.rows && f.row != Lost {
      if op == Delete {
        assert Held(Dropped(s, id));
        ErasingKeepsHeld(Dropped(s, id), id);
      } else {
        var s1 := Requeued(s, id);
        assert Held(s1);
        SubmittingKeepsHeld(s1, id, Payload(s1, id, SizeOf(s1, id, f.size)), f.send, f.mark);
      }
    }
  }

  lemma ItemWaitsExactly(op: Op, s: Store, id: string, f: ItemFaults)
    requires Waiting(s)
    ensures Waiting(After(s, Item(op, s, id, f).states)) <==> !ItemStrands(op, s, id, f)
    ensures ItemStrands(op, s, id, f) ==> Item(op, s, id, f).verdict.None?
  {
    var r := After(s, Item(op, s, id, f).states);
    if id in s.rows && f.row != Lost {
      if op == Delete {
        assert r.rows == s.rows - {id} && r.stream == s.stream;
        TouchingKeepsWaiting(s, r, id);
      } else {
        ReprocessWaitsExactly(s, id, f);
      }
    }
  }

  lemma ReprocessWaitsExactly(s: Store, id: string, f: ItemFaults)
    requires Waiting(s) && id in s.rows && f.row != Lost
    ensures Waiting(After(s, Item(Reprocess, s, id, f).states)) <==> !ItemStrands(Reprocess, s, id, f)
  {
    var s1 := Requeued(s, id);
    var m := Payload(s1, id, SizeOf(s1, id, f.size));
    var r := After(s, Item(Reprocess, s, id, f).states);
    if s.rows[id].status == Queued {
      assert s.stream <= r.stream && r.rows[id].since == s.rows[id].since;
      HasMessageKept(s, r, id, s.rows[id].since);
      TouchingKeepsWaiting(s, r, id);
    } else if f.row == Unconfirmed || f.size == Unavailable {
      assert r == s1 && !HasMessage(r, id, |s.stream|);
    } else {
      AfterAppend(s, [s1], Submitting(s1, id, m, f.send, f.mark).0);
      SubmittingWaitsExactly(s, s1, id, m, f.send, f.mark);
    }
  }

  // ---- What a whole bulk request keeps ----

  lemma {:induction false} BatchKeepsHeld(op: Op, s: Store, ids: seq<string>, fs: seq<ItemFaults>, k: nat)
    requires k <= |ids| == |fs| && Held(s)
    ensures forall t :: t in Batch(op, s, ids, fs, k).states ==> Held(t)
  {
    if k > 0 {
      BatchKeepsHeld(op, s, ids, fs, k - 1);
      var now := After(s, Batch(op, s, ids, fs, k - 1).states);
      ItemKeepsHeld(op, now, ids[k - 1], fs[k - 1]);
    }
  }

  /** The request reaches an id that strands its row. */
  ghost predicate BatchStrands(op: Op, s: Store, ids: seq<string>, fs: seq<ItemFaults>, n: nat)
    requires n <= |ids| == |fs|
  {
    exists k: nat :: k < n && StrandsAt(op, s, ids, fs, k)
  }

  predicate StrandsAt(op: Op, s: Store, ids: seq<string>, fs: seq<ItemFaults>, k: nat)
    requires k < |ids| == |fs|
  {
    var p := Batch(op, s, ids, fs, k);
    !p.raised && ItemStrands(op, After(s, p.states), ids[k], fs[k])
  }

  lemma {:induction false} BatchWaitsExactly(op: Op, s: Store, ids: seq<string>, fs: seq<ItemFaults>, k: nat)
    requires k <= |ids| == |fs| && Waiting(s)
    ensures Waiting(After(s, Batch(op, s, ids, fs, k).states)) <==> !BatchStrands(op, s, ids, fs, k)
    ensures BatchStrands(op, s, ids, fs, k) ==> Batch(op, s, ids, fs, k).raised
  {
    hide *;
    if k == 0 {
      BatchOfNothing(op, s, ids, fs);
    } else {
      var p := Batch(op, s, ids, fs, k - 1);
      BatchWaitsExactly(op, s, ids, fs, k - 1);
      BatchGoesOn(op, s, ids, fs, k - 1);
      if !p.raised {
        ItemWaitsExactly(op, After(s, p.states), ids[k - 1], fs[k - 1]);
      }
    }
  }

  lemma BatchOfNothing(op: Op, s: Store, ids: seq<string>, fs: seq<ItemFaults>)
    requires |ids| == |fs|
    ensures After(s, Batch(op, s, ids, fs, 0).states) == s && !BatchStrands(op, s, ids, fs, 0)
  {
  }

  /** The store and the verdict on the queue after one more id. */
  lemma BatchGoesOn(op: Op, s: Store, ids: seq<string>, fs: seq<ItemFaults>, k: nat)
    requires k < |ids| == |fs|
    ensures var p, p' := Batch(op, s, ids, fs, k), Batch(op, s, ids, fs, k + 1);
            var now := After(s, p.states);
            if p.raised then p' == p && (BatchStrands(op, s, ids, fs, k + 1) <==> BatchStrands(op, s, ids, fs, k))
            else
              var step := Item(op, now, ids[k], fs[k]);
              && After(s, p'.states) == After(now, step.states) && p'.raised == step.verdict.None?
              && (BatchStrands(op, s, ids, fs, k + 1)
                  <==> BatchStrands(op, s, ids, fs, k) || ItemStrands(op, now, ids[k], fs[k]))
  {
    hide *;
    StrandsBefore(op, s, ids, fs, k);
    BatchTurn(op, s, ids, fs, k);
  }

  lemma StrandsBefore(op: Op, s: Store, ids: seq<string>, fs: seq<ItemFaults>, k: nat)
    requires k < |ids| == |fs|
    ensures var p := Batch(op, s, ids, fs, k);
            BatchStrands(op, s, ids, fs, k + 1)
            <==> BatchStrands(op, s, ids, fs, k) || (!p.raised && ItemStrands(op, After(s, p.states), ids[k], fs[k]))
  {
    hide Batch, ItemStrands, After;
    assert BatchStrands(op, s, ids, fs, k + 1) <==> BatchStrands(op, s, ids, fs, k) || StrandsAt(op, s, ids, fs, k);
  }

  lemma BatchTurn(op: Op, s: Store, ids: seq<string>, fs: seq<ItemFaults>, k: nat)
    requires k < |ids| == |fs|
    ensures var p, p' := Batch(op, s, ids, fs, k), Batch(op, s, ids, fs, k + 1);
            if p.raised then p' == p
            else
              var step := Item(op, After(s, p.states), ids[k], fs[k]);
              After(s, p'.states) == After(After(s, p.states), step.states) && p'.raised == step.verdict.None?
  {
    var p := Batch(op, s, ids, fs, k);
    hide Item, After;
    if !p.raised {
      AfterAppend(s, p.states, Item(op, After(s, p.states), ids[k], fs[k]).states);
    }
  }

  /** The last id of a request that has not raised. */
  lemma BatchStep(op: Op, s: Store, ids: seq<string>, fs: seq<ItemFaults>, k: nat) returns (now: Store, step: Step)
    requires 0 < k <= |ids| == |fs| && !Batch(op, s, ids, fs, k).raised
    ensures !Batch(op, s, ids, fs, k - 1).raised
    ensures now == After(s, Batch(op, s, ids, fs, k - 1).states) && step == Item(op, now, ids[k - 1], fs[k - 1])
    ensures step.verdict.Some? && After(s, Batch(op, s, ids, fs, k).states) == After(now, step.states)
    ensures Batch(op, s, ids, fs, k).verdicts == Batch(op, s, ids, fs, k - 1).verdicts + [step.verdict.value]
  {
    var p := Batch(op, s, ids, fs, k - 1);
    now := After(s, p.states);
    step := Item(op, now, ids[k - 1], fs[k - 1]);
    AfterAppend(s, p.states, step.states);
  }

  /** Ids that came before `k`. */
  predicate Repeated(ids: seq<string>, k: nat)
    requires k < |ids|
  {
    ids[k] in ids[..k]
  }

  /** A deletion that returns has removed exactly the listed rows. */
  lemma {:induction false} DeletedRows(s: Store, ids: seq<string>, fs: seq<ItemFaults>, k: nat)
    requires k <= |ids| == |fs| && !Batch(Delete, s, ids, fs, k).raised
    ensures After(s, Batch(Delete, s, ids, fs, k).states).rows == s.rows - Listed(ids[..k])
  {
    if k > 0 {
      var now, step := BatchStep(Delete, s, ids, fs, k);
      DeletedRows(s, ids, fs, k - 1);
      ListedGrows(ids, k);
      DeletedItem(now, ids[k - 1], fs[k - 1]);
      hide *;
    }
  }

  function Listed(ids: seq<string>): set<string> {
    set id | id in ids
  }

  lemma ListedGrows(ids: seq<string>, k: nat)
    requires 0 < k <= |ids|
    ensures Listed(ids[..k]) == Listed(ids[..k - 1]) + {ids[k - 1]}
  {
    assert ids[..k] == ids[..k - 1] + [ids[k - 1]];
  }

  /** The id names a row, is not a repetition, and its deletion or the erasure of its object raises. */
  predicate DeletionFails(s: Store, ids: seq<string>, fs: seq<ItemFaults>, i: nat)
    requires i < |ids| == |fs|
  {
    ids[i] in s.rows && !Repeated(ids, i) && (fs[i].row != Done || fs[i].erase.raised)
  }

  /** An id succeeds iff it named a row and stands in the list for the first time. */
  lemma {:induction false} DeletionVerdict(s: Store, ids: seq<string>, fs: seq<ItemFaults>, k: nat, i: nat)
    requires i < k <= |ids| == |fs| && !Batch(Delete, s, ids, fs, k).raised
    ensures Batch(Delete, s, ids, fs, k).verdicts[i] ==
      if ids[i] in s.rows && !Repeated(ids, i) then Succeeded else Missing
  {
    var now, step := BatchStep(Delete, s, ids, fs, k);
    if i < k - 1 {
      DeletionVerdict(s, ids, fs, k - 1, i);
    } else {
      DeletedRows(s, ids, fs, i);
      DeletedItem(now, ids[i], fs[i]);
    }
  }

  lemma DeletedItem(s: Store, id: string, f: ItemFaults)
    requires Item(Delete, s, id, f).verdict.Some?
    ensures var now := After(s, Item(Delete, s, id, f).states);
            && now.rows == s.rows - {id} && now.stream == s.stream
            && now.objects == if id in s.rows && f.erase.applied then s.objects - {Key(id)} else s.objects
    ensures Item(Delete, s, id, f).verdict.value == if id in s.rows then Succeeded else Missing
  {
  }

  /** Deleting the same ids again finds none of them. */
  lemma DeletingAgainFindsNothing(s: Store, ids: seq<string>, fs: seq<ItemFaults>, more: seq<ItemFaults>)
    requires |ids| == |fs| == |more| && !Batch(Delete, s, ids, fs, |ids|).raised
    ensures var now := After(s, Batch(Delete, s, ids, fs, |ids|).states);
            var again := Batch(Delete, now, ids, more, |ids|);
            !again.raised && again.states == [] && forall i :: 0 <= i < |ids| ==> again.verdicts[i] == Missing
  {
    DeletedRows(s, ids, fs, |ids|);
    assert ids[..|ids|] == ids;
    AbsentIdsAreMissing(After(s, Batch(Delete, s, ids, fs, |ids|).states), ids, more, |ids|);
  }

  lemma {:induction false} AbsentIdsAreMissing(s: Store, ids: seq<string>, fs: seq<ItemFaults>, k: nat)
    requires k <= |ids| == |fs| && forall id :: id in ids ==> id !in s.rows
    ensures var p := Batch(Delete, s, ids, fs, k);
            !p.raised && p.states == [] && forall i :: 0 <= i < k ==> p.verdicts[i] == Missing
  {
    if k > 0 {
      AbsentIdsAreMissing(s, ids, fs, k - 1);
    }
  }

  /** The rows keep their names and their ids. */
  ghost predicate SameNames(s: Store, t: Store) {
    && t.rows.Keys == s.rows.Keys
    && forall id :: id in s.rows ==> t.rows[id].filename == s.rows[id].filename
  }

  /** Requeuing removes, adds and renames no row. */
  lemma {:induction false} RequeuedRows(s: Store, ids: seq<string>, fs: seq<ItemFaults>, k: nat)
    requires k <= |ids| == |fs| && !Batch(Reprocess, s, ids, fs, k).raised
    ensures SameNames(s, After(s, Batch(Reprocess, s, ids, fs, k).states))
  {
    if k > 0 {
      var now, step := BatchStep(Reprocess, s, ids, fs, k);
      RequeuedRows(s, ids, fs, k - 1);
      RequeuedItem(now, ids[k - 1], fs[k - 1]);
      hide Batch, Item, After;
    }
  }

  /** The id names a row, and one of the calls made for it raises something other than the Redis error. */
  predicate RequeueFails(s: Store, ids: seq<string>, fs: seq<ItemFaults>, i: nat)
    requires i < |ids| == |fs|
  {
    && ids[i] in s.rows
    && (fs[i].row != Done || fs[i].size == Unavailable || fs[i].send == Broken
        || (fs[i].send in {Refused, Doubtful} && fs[i].mark != Done))
  }

  ghost predicate SomeFails(op: Op, s: Store, ids: seq<string>, fs: seq<ItemFaults>, k: nat)
    requires k <= |ids| == |fs|
  {
    exists i: nat :: i < k && if op == Delete then DeletionFails(s, ids, fs, i) else RequeueFails(s, ids, fs, i)
  }

  lemma NothingFails(op: Op, s: Store, ids: seq<string>, fs: seq<ItemFaults>)
    requires |ids| == |fs|
    ensures !SomeFails(op, s, ids, fs, 0) && !Batch(op, s, ids, fs, 0).raised
  {
  }

  lemma SomeFailsStep(op: Op, s: Store, ids: seq<string>, fs: seq<ItemFaults>, k: nat)
    requires k < |ids| == |fs|
    ensures SomeFails(op, s, ids, fs, k + 1)
       <==> SomeFails(op, s, ids, fs, k)
            || if op == Delete then DeletionFails(s, ids, fs, k) else RequeueFails(s, ids, fs, k)
  {
    hide DeletionFails, RequeueFails;
  }

  /** Which id raises is decided by the rows the request found, the ids and the faults. */
  lemma {:induction false} RaisesExactly(op: Op, s: Store, ids: seq<string>, fs: seq<ItemFaults>, k: nat)
    requires k <= |ids| == |fs|
    ensures Batch(op, s, ids, fs, k).raised <==> SomeFails(op, s, ids, fs, k)
  {
    hide *;
    NothingFails(op, s, ids, fs);
    if k > 0 {
      RaisesExactly(op, s, ids, fs, k - 1);
      SomeFailsStep(op, s, ids, fs, k - 1);
      if Batch(op, s, ids, fs, k - 1).raised {
        RaisedOnce(op, s, ids, fs, k - 1);
      } else if op == Delete {
        DeletedRows(s, ids, fs, k - 1);
        DeletionStep(s, ids, fs, k - 1);
      } else {
        RequeuedRows(s, ids, fs, k - 1);
        RequeueStep(s, ids, fs, k - 1);
      }
    }
  }

  /** A deletion raises exactly when one of its ids fails; nothing else ends it early. */
  lemma DeletionRaisesExactly(s: Store, ids: seq<string>, fs: seq<ItemFaults>)
    requires |ids| == |fs|
    ensures Batch(Delete, s, ids, fs, |ids|).raised <==> exists i: nat :: i < |ids| && DeletionFails(s, ids, fs, i)
  {
    RaisesExactly(Delete, s, ids, fs, |ids|);
    hide Batch, DeletionFails;
  }

  /** A requeue raises exactly when one of its ids fails; a Redis error alone does not end it. */
  lemma RequeueRaisesExactly(s: Store, ids: seq<string>, fs: seq<ItemFaults>)
    requires |ids| == |fs|
    ensures Batch(Reprocess, s, ids, fs, |ids|).raised <==> exists i: nat :: i < |ids| && RequeueFails(s, ids, fs, i)
  {
    RaisesExactly(Reprocess, s, ids, fs, |ids|);
    hide Batch, RequeueFails;
  }

  lemma RaisedOnce(op: Op, s: Store, ids: seq<string>, fs: seq<ItemFaults>, k: nat)
    requires k < |ids| == |fs|
    ensures Batch(op, s, ids, fs, k).raised ==> Batch(op, s, ids, fs, k + 1).raised
  {
    hide Item;
  }

  lemma DeletionStep(s: Store, ids: seq<string>, fs: seq<ItemFaults>, k: nat)
    requires k < |ids| == |fs| && !Batch(Delete, s, ids, fs, k).raised
    requires After(s, Batch(Delete, s, ids, fs, k).states).rows == s.rows - Listed(ids[..k])
    ensures Batch(Delete, s, ids, fs, k + 1).raised <==> DeletionFails(s, ids, fs, k)
  {
    hide After;
  }

  lemma RequeueStep(s: Store, ids: seq<string>, fs: seq<ItemFaults>, k: nat)
    requires k < |ids| == |fs| && !Batch(Reprocess, s, ids, fs, k).raised
    requires SameNames(s, After(s, Batch(Reprocess, s, ids, fs, k).states))
    ensures Batch(Reprocess, s, ids, fs, k + 1).raised <==> RequeueFails(s, ids, fs, k)
  {
    hide After;
  }

  /** An id succeeds iff it named a row and Redis accepted its message. */
  lemma {:induction false} RequeueVerdict(s: Store, ids: seq<string>, fs: seq<ItemFaults>, k: nat, i: nat)
    requires i < k <= |ids| == |fs| && !Batch(Reprocess, s, ids, fs, k).raised
    ensures Batch(Reprocess, s, ids, fs, k).verdicts[i] ==
      if ids[i] !in s.rows then Missing
      else if fs[i].send == Accepted then Succeeded
      else NotEnqueued(s.rows[ids[i]].filename)
  {
    var now, step := BatchStep(Reprocess, s, ids, fs, k);
    if i < k - 1 {
      RequeueVerdict(s, ids, fs, k - 1, i);
    } else {
      RequeuedRows(s, ids, fs, i);
      RequeuedItem(now, ids[i], fs[i]);
    }
  }

  lemma RequeuedItem(s: Store, id: string, f: ItemFaults)
    requires Item(Reprocess, s, id, f).verdict.Some?
    ensures SameNames(s, After(s, Item(Reprocess, s, id, f).states))
    ensures Item(Reprocess, s, id, f).verdict.value ==
      if id !in s.rows then Missing else if f.send == Accepted then Succeeded else NotEnqueued(s.rows[id].filename)
    ensures id in s.rows ==>
      var now := After(s, Item(Reprocess, s, id, f).states);
      if f.send == Accepted
      then now.rows[id].status == Queued && now.stream == s.stream + [Payload(s, id, SizeOf(s, id, f.size))]
      else now.rows[id].status == Failed && s.stream <= now.stream
  {
  }

  /** How many of the first `k` ids succeeded. */
  function Rank(vs: seq<Verdict>, k: nat): (r: nat)
    requires k <= |vs|
    ensures r <= k
  {
    if k == 0 then 0 else Rank(vs, k - 1) + if vs[k - 1] == Succeeded then 1 else 0
  }

  /** Id `k` stands in the list of its kind, after those of its predecessors. */
  predicate Placed(ids: seq<string>, vs: seq<Verdict>, ok: seq<string>, bad: seq<FailedItem>, k: nat)
    requires k < |vs| <= |ids|
  {
    var r := Rank(vs, k);
    if vs[k] == Succeeded then r < |ok| && ok[r] == ids[k]
    else k - r < |bad| && bad[k - r] == FailedOf(ids[k], vs[k])
  }

  lemma PlacedInLonger(ids: seq<string>, vs: seq<Verdict>, n: nat, k: nat,
      ok: seq<string>, bad: seq<FailedItem>, ok': seq<string>, bad': seq<FailedItem>)
    requires k < n <= |vs| <= |ids| && Placed(ids, vs[..n], ok, bad, k) && ok <= ok' && bad <= bad'
    ensures Placed(ids, vs, ok', bad', k)
  {
    RankOfPrefix(vs, n, k);
  }

  /** The answer splits the request in order: every id is in exactly one of the two lists. */
  lemma {:induction false} AnswerSplitsInOrder(ids: seq<string>, vs: seq<Verdict>)
    requires |vs| <= |ids|
    ensures |Successes(ids, vs)| == Rank(vs, |vs|)
    ensures |Successes(ids, vs)| + |Failures(ids, vs)| == |vs|
    ensures forall k: nat :: k < |vs| ==> Placed(ids, vs, Successes(ids, vs), Failures(ids, vs), k)
  {
    hide *;
    if vs == [] {
      AnswerOfNothing(ids);
    } else {
      var n := |vs| - 1;
      AnswerSplitsInOrder(ids, vs[..n]);
      AnswerOfOneMore(ids, vs, n);
      forall k: nat | k < n
        ensures Placed(ids, vs, Successes(ids, vs), Failures(ids, vs), k)
      {
        PlacedInLonger(ids, vs, n, k, Successes(ids, vs[..n]), Failures(ids, vs[..n]), Successes(ids, vs), Failures(ids, vs));
      }
    }
  }

  lemma AnswerOfNothing(ids: seq<string>)
    ensures Successes(ids, []) == [] && Failures(ids, []) == [] && Rank([], 0) == 0
  {
  }

  lemma AnswerOfOneMore(ids: seq<string>, vs: seq<Verdict>, n: nat)
    requires |vs| == n + 1 <= |ids|
    requires |Successes(ids, vs[..n])| == Rank(vs[..n], n) && |Successes(ids, vs[..n])| + |Failures(ids, vs[..n])| == n
    ensures Successes(ids, vs[..n]) <= Successes(ids, vs) && Failures(ids, vs[..n]) <= Failures(ids, vs)
    ensures |Successes(ids, vs)| == Rank(vs, n + 1) && |Successes(ids, vs)| + |Failures(ids, vs)| == n + 1
    ensures Placed(ids, vs, Successes(ids, vs), Failures(ids, vs), n)
  {
    RankOfPrefix(vs, n, n);
    var ok, bad := Successes(ids, vs[..n]), Failures(ids, vs[..n]);
    if vs[n] == Succeeded {
      assert Successes(ids, vs) == ok + [ids[n]] && Failures(ids, vs) == bad;
    } else {
      assert Successes(ids, vs) == ok && Failures(ids, vs) == bad + [FailedOf(ids[n], vs[n])];
    }
    hide Successes, Failures;
  }

  lemma {:induction false} RankOfPrefix(vs: seq<Verdict>, n: nat, k: nat)
    requires k <= n <= |vs|
    ensures Rank(vs[..n], k) == Rank(vs, k)
  {
    if k > 0 { RankOfPrefix(vs, n, k - 1); }
  }

  // ---- What a bulk request answers ----

  /** What the caller of a bulk request gets. */
  function Answer(op: Op, s: Store, ids: seq<string>, fs: seq<ItemFaults>): Option<BulkResult>
    requires |ids| == |fs|
  {
    var p := Batch(op, s, ids, fs, |ids|);
    if p.raised then None else Some(BulkResult(|ids|, Successes(ids, p.verdicts), Failures(ids, p.verdicts)))
  }

  /** How many of the first `k` ids name a row and repeat none before them. */
  function Firsts(s: Store, ids: seq<string>, k: nat): (n: nat)
    requires k <= |ids|
    ensures n <= k
  {
    if k == 0 then 0
    else Firsts(s, ids, k - 1) + if ids[k - 1] in s.rows && !Repeated(ids, k - 1) then 1 else 0
  }

  /** How many of the first `k` ids name a row and have their message accepted. */
  function Sends(s: Store, ids: seq<string>, fs: seq<ItemFaults>, k: nat): (n: nat)
    requires k <= |ids| == |fs|
    ensures n <= k
  {
    if k == 0 then 0
    else Sends(s, ids, fs, k - 1) + if ids[k - 1] in s.rows && fs[k - 1].send == Accepted then 1 else 0
  }

  /** Id `i` stands in its list of the answer to a deletion, after those of its predecessors there. */
  predicate DeletionListed(s: Store, ids: seq<string>, r: BulkResult, i: nat)
    requires i < |ids|
  {
    var n := Firsts(s, ids, i);
    if ids[i] in s.rows && !Repeated(ids, i) then n < |r.succeeded| && r.succeeded[n] == ids[i]
    else i - n < |r.failed| && r.failed[i - n] == FailedItem(ids[i], "unknown", "Document not found")
  }

  ghost predicate DeletionAnswered(s: Store, ids: seq<string>, r: BulkResult) {
    r.requested == |ids| == |r.succeeded| + |r.failed| && forall i: nat :: i < |ids| ==> DeletionListed(s, ids, r, i)
  }

  predicate RequeueListed(s: Store, ids: seq<string>, fs: seq<ItemFaults>, r: BulkResult, i: nat)
    requires i < |ids| == |fs|
  {
    var n := Sends(s, ids, fs, i);
    if ids[i] in s.rows && fs[i].send == Accepted then n < |r.succeeded| && r.succeeded[n] == ids[i]
    else
      && i - n < |r.failed|
      && r.failed[i - n] == if ids[i] !in s.rows then FailedItem(ids[i], "unknown", "Document not found")
                            else FailedItem(ids[i], s.rows[ids[i]].filename, "Failed to enqueue processing job")
  }

  ghost predicate RequeueAnswered(s: Store, ids: seq<string>, fs: seq<ItemFaults>, r: BulkResult)
    requires |ids| == |fs|
  {
    && r.requested == |ids| == |r.succeeded| + |r.failed|
    && forall i: nat :: i < |ids| ==> RequeueListed(s, ids, fs, r, i)
  }

  lemma {:induction false} RankIsFirsts(s: Store, ids: seq<string>, vs: seq<Verdict>, k: nat)
    requires k <= |vs| == |ids|
    requires forall i: nat :: i < |ids| ==> vs[i] == if ids[i] in s.rows && !Repeated(ids, i) then Succeeded else Missing
    ensures Rank(vs, k) == Firsts(s, ids, k)
  {
    if k > 0 { RankIsFirsts(s, ids, vs, k - 1); }
  }

  lemma {:induction false} RankIsSends(s: Store, ids: seq<string>, fs: seq<ItemFaults>, vs: seq<Verdict>, k: nat)
    requires k <= |vs| == |ids| == |fs|
    requires forall i: nat :: i < |ids| ==> (vs[i] == Succeeded <==> ids[i] in s.rows && fs[i].send == Accepted)
    ensures Rank(vs, k) == Sends(s, ids, fs, k)
  {
    if k > 0 { RankIsSends(s, ids, fs, vs, k - 1); }
  }

  lemma AnswerIs(op: Op, s: Store, ids: seq<string>, fs: seq<ItemFaults>)
    requires |ids| == |fs|
    ensures var p, r := Batch(op, s, ids, fs, |ids|), Answer(op, s, ids, fs);
            && (p.raised <==> r.None?)
            && (r.Some? ==>
                  && |p.verdicts| == |ids|
                  && r.value == BulkResult(|ids|, Successes(ids, p.verdicts), Failures(ids, p.verdicts))
                  && |r.value.succeeded| + |r.value.failed| == |ids|
                  && forall k: nat :: k < |ids| ==> Placed(ids, p.verdicts, r.value.succeeded, r.value.failed, k))
  {
    hide Batch, Successes, Failures, Placed, Rank;
    var p := Batch(op, s, ids, fs, |ids|);
    if !p.raised { AnswerSplitsInOrder(ids, p.verdicts); }
  }

  lemma PlacedIsDeletionListed(s: Store, ids: seq<string>, vs: seq<Verdict>, r: BulkResult, i: nat)
    requires i < |ids| == |vs| && Placed(ids, vs, r.succeeded, r.failed, i)
    requires forall k: nat :: k < |ids| ==> vs[k] == if ids[k] in s.rows && !Repeated(ids, k) then Succeeded else Missing
    ensures DeletionListed(s, ids, r, i)
  {
    RankIsFirsts(s, ids, vs, i);
    hide Rank, Firsts, Repeated;
  }

  lemma PlacedIsRequeueListed(
    s: Store, ids: seq<string>, fs: seq<ItemFaults>, vs: seq<Verdict>, r: BulkResult, i: nat)
    requires i < |ids| == |vs| == |fs| && Placed(ids, vs, r.succeeded, r.failed, i)
    requires forall k: nat :: k < |ids| ==>
      vs[k] == if ids[k] !in s.rows then Missing
               else if fs[k].send == Accepted then Succeeded
               else NotEnqueued(s.rows[ids[k]].filename)
    ensures RequeueListed(s, ids, fs, r, i)
  {
    RankIsSends(s, ids, fs, vs, i);
    hide Rank, Sends;
  }

  /** A deletion that returns lists the rows it removed and reports every other id as unknown. */
  lemma DeletionAnswersEachId(s: Store, ids: seq<string>, fs: seq<ItemFaults>)
    requires |ids| == |fs|
    ensures Answer(Delete, s, ids, fs).None? <==> exists i: nat :: i < |ids| && DeletionFails(s, ids, fs, i)
    ensures Answer(Delete, s, ids, fs).Some? ==> DeletionAnswered(s, ids, Answer(Delete, s, ids, fs).value)
  {
    hide Batch, Answer, DeletionFails, DeletionListed, Placed, Repeated, Successes, Failures;
    AnswerIs(Delete, s, ids, fs);
    DeletionRaisesExactly(s, ids, fs);
    var vs, r := Batch(Delete, s, ids, fs, |ids|).verdicts, Answer(Delete, s, ids, fs);
    if r.Some? {
      forall i: nat | i < |ids|
        ensures vs[i] == if ids[i] in s.rows && !Repeated(ids, i) then Succeeded else Missing
      {
        DeletionVerdict(s, ids, fs, |ids|, i);
      }
      forall i: nat | i < |ids|
        ensures DeletionListed(s, ids, r.value, i)
      {
        PlacedIsDeletionListed(s, ids, vs, r.value, i);
      }
    }
  }

  /** A requeue that returns lists the ids whose message was accepted and says of every other what failed. */
  lemma RequeueAnswersEachId(s: Store, ids: seq<string>, fs: seq<ItemFaults>)
    requires |ids| == |fs|
    ensures Answer(Reprocess, s, ids, fs).None? <==> exists i: nat :: i < |ids| && RequeueFails(s, ids, fs, i)
    ensures Answer(Reprocess, s, ids, fs).Some? ==> RequeueAnswered(s, ids, fs, Answer(Reprocess, s, ids, fs).value)
  {
    hide Batch, Answer, RequeueFails, RequeueListed, Placed, Successes, Failures;
    AnswerIs(Reprocess, s, ids, fs);
    RequeueRaisesExactly(s, ids, fs);
    var vs, r := Batch(Reprocess, s, ids, fs, |ids|).verdicts, Answer(Reprocess, s, ids, fs);
    if r.Some? {
      forall i: nat | i < |ids|
        ensures vs[i] == if ids[i] !in s.rows then Missing
                         else if fs[i].send == Accepted then Succeeded
                         else NotEnqueued(s.rows[ids[i]].filename)
      {
        RequeueVerdict(s, ids, fs, |ids|, i);
      }
      forall i: nat | i < |ids|
        ensures RequeueListed(s, ids, fs, r.value, i)
      {
        PlacedIsRequeueListed(s, ids, fs, vs, r.value, i);
      }
    }
  }

  // ---- The same job, whoever publishes it ----

  ghost predicate FreshId(s: Store, id: string) {
    id !in s.rows && forall i :: 0 <= i < |s.stream| ==> s.stream[i].id != id
  }

  /** The rows and objects other than those of `id` are the same in both stores. */
  ghost predicate SameJobs(s: Store, t: Store, id: string) {
    forall other :: other != id && other in t.rows ==>
      && other in s.rows && Payload(t, other, 0) == Payload(s, other, 0)
      && (Key(other) in s.objects ==> Key(other) in t.objects && t.objects[Key(other)] == s.objects[Key(other)])
  }

  lemma SameJobsStayTrue(s: Store, t: Store, id: string, m: Message)
    requires SameJobs(s, t, id) && TrueTo(s, m) && m.id != id
    ensures TrueTo(t, m)
  {
  }

  /** What an upload leaves of the other rows and objects, and of the stream. */
  lemma CreatingTouches(s: Store, u: Upload, f: UploadFaults)
    ensures SameJobs(s, After(s, Creating(s, u, f).states), u.id)
  {
    KeysApart(u.id);
    hide Key;
  }

  lemma CreatingSends(s: Store, u: Upload, f: UploadFaults)
    ensures var r := After(s, Creating(s, u, f).states);
            r.stream == s.stream || exists m :: r.stream == s.stream + [m] && TrueTo(r, m)
  {
    var r := After(s, Creating(s, u, f).states);
    if u.filename.Some? && r.stream != s.stream {
      var m := Message(u.id, Key(u.id), u.filename.value, u.size, u.uploadedAt);
      assert r.stream == s.stream + [m] && TrueTo(r, m);
    }
  }

  /** An upload under a fresh id keeps every message true to its row. */
  lemma CreatingKeepsFaithful(s: Store, u: Upload, f: UploadFaults)
    requires Faithful(s) && FreshId(s, u.id)
    ensures Faithful(After(s, Creating(s, u, f).states))
  {
    var r := After(s, Creating(s, u, f).states);
    hide Creating, After, TrueTo, SameJobs;
    CreatingTouches(s, u, f);
    CreatingSends(s, u, f);
    forall m | m in s.stream
      ensures TrueTo(r, m)
    {
      SameJobsStayTrue(s, r, u.id, m);
    }
  }

  /** A requeue that published an item whose size the store did not report. */
  predicate Understates(op: Op, s: Store, id: string, f: ItemFaults) {
    && op == Reprocess && id in s.rows && f.row == Done && f.send in {Accepted, Doubtful}
    && f.size == Unreported && Key(id) in s.objects && s.objects[Key(id)] != 0
  }

  lemma ItemKeepsFaithfulExactly(op: Op, s: Store, id: string, f: ItemFaults)
    requires Faithful(s) && Held(s)
    ensures Faithful(After(s, Item(op, s, id, f).states)) <==> !Understates(op, s, id, f)
  {
    if op == Delete {
      DeletionKeepsFaithful(s, id, f);
    } else {
      RequeueKeepsFaithfulExactly(s, id, f);
    }
  }

  lemma DeletionKeepsFaithful(s: Store, id: string, f: ItemFaults)
    requires Faithful(s)
    ensures Faithful(After(s, Item(Delete, s, id, f).states))
  {
    var r := After(s, Item(Delete, s, id, f).states);
    if r != s {
      assert id !in r.rows && r.stream == s.stream;
      KeysApart(id);
      assert SameJobs(s, r, id);
      forall m | m in s.stream
        ensures TrueTo(r, m)
      {
        if m.id != id { SameJobsStayTrue(s, r, id, m); }
      }
    }
  }

  lemma RequeueTruths(s: Store, id: string, f: ItemFaults, m: Message)
    ensures TrueTo(After(s, Item(Reprocess, s, id, f).states), m) <==> TrueTo(s, m)
  {
    var r := After(s, Item(Reprocess, s, id, f).states);
    assert r.rows.Keys == s.rows.Keys && r.objects == s.objects;
    assert m.id in s.rows ==> Payload(r, m.id, 0) == Payload(s, m.id, 0);
    hide Key;
  }

  lemma RequeueSends(s: Store, id: string, f: ItemFaults)
    requires Held(s)
    ensures var r := After(s, Item(Reprocess, s, id, f).states);
            if id in s.rows && f.row == Done && f.size != Unavailable && f.send in {Accepted, Doubtful}
            then exists m :: r.stream == s.stream + [m] && (TrueTo(s, m) <==> !Understates(Reprocess, s, id, f))
            else r.stream == s.stream && !Understates(Reprocess, s, id, f)
  {
    var r := After(s, Item(Reprocess, s, id, f).states);
    if id in s.rows && f.row == Done && f.size != Unavailable && f.send in {Accepted, Doubtful} {
      var m := Payload(Requeued(s, id), id, SizeOf(s, id, f.size));
      assert r.stream == s.stream + [m];
      assert TrueTo(s, m) <==> !Understates(Reprocess, s, id, f);
    }
  }

  lemma RequeueKeepsFaithfulExactly(s: Store, id: string, f: ItemFaults)
    requires Faithful(s) && Held(s)
    ensures Faithful(After(s, Item(Reprocess, s, id, f).states)) <==> !Understates(Reprocess, s, id, f)
  {
    hide Item, After, TrueTo, Understates, Held;
    var r := After(s, Item(Reprocess, s, id, f).states);
    RequeueSends(s, id, f);
    forall m
      ensures TrueTo(r, m) <==> TrueTo(s, m)
    {
      RequeueTruths(s, id, f, m);
    }
    if r.stream != s.stream {
      var m :| r.stream == s.stream + [m] && (TrueTo(s, m) <==> !Understates(Reprocess, s, id, f));
      assert m in r.stream && forall x :: x in r.stream <==> x in s.stream || x == m;
    }
  }

  // ---- Runs ----

  datatype Request =
    | Uploading(upload: Upload, faults: UploadFaults)
    | Bulk(op: Op, ids: seq<string>, outcomes: seq<ItemFaults>)
    | Working(message: nat, status: Status)
  {
    predicate Sane(s: Store) {
      match this
      case Uploading(_, _) => true
      case Bulk(_, ids, outcomes) => |ids| == |outcomes|
      case Working(message, _) => message < |s.stream|
    }
  }

  /** A worker that holds a message sets the status of its document; giving the
    * message back for a retry queues the document again. */
  function Worked(s: Store, i: nat, status: Status): Store
    requires i < |s.stream|
  {
    var id := s.stream[i].id;
    if id !in s.rows then s
    else
      var row := s.rows[id];
      s.(rows := s.rows[id := row.(status := status, since := if status == Queued then i else row.since)])
  }

  /** The states one request passes through. */
  function Serve(s: Store, r: Request): seq<Store>
    requires r.Sane(s)
  {
    match r
    case Uploading(u, f) => Creating(s, u, f).states
    case Bulk(op, ids, fs) => Batch(op, s, ids, fs, |ids|).states
    case Working(i, status) => [Worked(s, i, status)]
  }

  ghost predicate SaneRun(s: Store, rs: seq<Request>)
    decreases |rs|
  {
    rs != [] ==> rs[0].Sane(s) && SaneRun(After(s, Serve(s, rs[0])), rs[1..])
  }

  /** The states between requests. */
  ghost function Boundaries(s: Store, rs: seq<Request>): seq<Store>
    requires SaneRun(s, rs)
    decreases |rs|
  {
    [s] + if rs == [] then [] else Boundaries(After(s, Serve(s, rs[0])), rs[1..])
  }

  /** Every state of the run, those inside a request included. */
  ghost function Passed(s: Store, rs: seq<Request>): seq<Store>
    requires SaneRun(s, rs)
    decreases |rs|
  {
    if rs == [] then [s] else [s] + Serve(s, rs[0]) + Passed(After(s, Serve(s, rs[0])), rs[1..])
  }

  /** Some upload of the run erases the object of a row that exists. */
  ghost predicate RunOrphans(s: Store, rs: seq<Request>)
    requires SaneRun(s, rs)
    decreases |rs|
  {
    && rs != []
    && ((rs[0].Uploading? && Orphans(s, rs[0].upload, rs[0].faults)) || RunOrphans(After(s, Serve(s, rs[0])), rs[1..]))
  }

  ghost predicate RequestStrands(s: Store, r: Request)
    requires r.Sane(s)
  {
    match r
    case Uploading(u, f) => Strands(s, u, f)
    case Bulk(op, ids, fs) => BatchStrands(op, s, ids, fs, |ids|)
    case Working(_, _) => false
  }

  /** Some request of the run leaves a queued row without a message. */
  ghost predicate RunStrands(s: Store, rs: seq<Request>)
    requires SaneRun(s, rs)
    decreases |rs|
  {
    rs != [] && (RequestStrands(s, rs[0]) || RunStrands(After(s, Serve(s, rs[0])), rs[1..]))
  }

  lemma ServingHoldsExactly(s: Store, r: Request)
    requires r.Sane(s) && Held(s)
    ensures (forall t :: t in Serve(s, r) ==> Held(t)) <==> !(r.Uploading? && Orphans(s, r.upload, r.faults))
  {
    match r
    case Uploading(u, f) => CreatingHoldsExactly(s, u, f);
    case Bulk(op, ids, fs) => BatchKeepsHeld(op, s, ids, fs, |ids|);
    case Working(i, status) => assert Held(Worked(s, i, status));
  }

  lemma ServingWaitsExactly(s: Store, r: Request)
    requires r.Sane(s) && Waiting(s)
    ensures Waiting(After(s, Serve(s, r))) <==> !RequestStrands(s, r)
  {
    match r
    case Uploading(u, f) => CreatingWaitsExactly(s, u, f);
    case Bulk(op, ids, fs) => BatchWaitsExactly(op, s, ids, fs, |ids|);
    case Working(i, status) =>
      var t := Worked(s, i, status);
      var id := s.stream[i].id;
      if id in t.rows && t.rows[id].status == Queued {
        assert t.stream[i].id == id && t.rows[id].since <= i;
      }
      TouchingKeepsWaiting(s, t, id);
  }

  /** In every state of every run each row has its object, unless an upload's
    * clean-up erased the object of a committed row: then some state lacks one. */
  lemma {:induction false} RunHoldsExactly(s: Store, rs: seq<Request>)
    requires SaneRun(s, rs) && Held(s)
    ensures (forall t :: t in Passed(s, rs) ==> Held(t)) <==> !RunOrphans(s, rs)
    decreases |rs|
  {
    if rs != [] {
      ServingHoldsExactly(s, rs[0]);
      var states := Serve(s, rs[0]);
      var now := After(s, states);
      assert forall t :: t in Passed(s, rs) <==> t == s || t in states || t in Passed(now, rs[1..]);
      if Held(now) {
        RunHoldsExactly(now, rs[1..]);
      } else {
        assert now in states;
      }
    }
  }

  /** Between the requests of every run each queued row has its message in the
    * stream, unless a request stranded one: then some boundary lacks it. */
  lemma {:induction false} RunWaitsExactly(s: Store, rs: seq<Request>)
    requires SaneRun(s, rs) && Waiting(s)
    ensures (forall t :: t in Boundaries(s, rs) ==> Waiting(t)) <==> !RunStrands(s, rs)
    decreases |rs|
  {
    if rs != [] {
      ServingWaitsExactly(s, rs[0]);
      var now := After(s, Serve(s, rs[0]));
      var later := Boundaries(now, rs[1..]);
      assert later[0] == now;
      assert forall t :: t in Boundaries(s, rs) <==> t == s || t in later;
      if Waiting(now) {
        RunWaitsExactly(now, rs[1..]);
      }
    }
  }

  predicate UnderstatesAt(op: Op, s: Store, ids: seq<string>, fs: seq<ItemFaults>, k: nat)
    requires k < |ids| == |fs|
  {
    var p := Batch(op, s, ids, fs, k);
    !p.raised && Understates(op, After(s, p.states), ids[k], fs[k])
  }

  lemma {:induction false} BatchKeepsFaithful(op: Op, s: Store, ids: seq<string>, fs: seq<ItemFaults>, k: nat)
    requires k <= |ids| == |fs| && Held(s) && Faithful(s)
    requires forall i: nat :: i < k ==> !UnderstatesAt(op, s, ids, fs, i)
    ensures Held(After(s, Batch(op, s, ids, fs, k).states)) && Faithful(After(s, Batch(op, s, ids, fs, k).states))
  {
    if k > 0 {
      BatchKeepsFaithful(op, s, ids, fs, k - 1);
      BatchKeepsHeld(op, s, ids, fs, k);
      var p := Batch(op, s, ids, fs, k - 1);
      if !p.raised {
        var now := After(s, p.states);
        assert !UnderstatesAt(op, s, ids, fs, k - 1);
        ItemKeepsFaithfulExactly(op, now, ids[k - 1], fs[k - 1]);
        AfterAppend(s, p.states, Item(op, now, ids[k - 1], fs[k - 1]).states);
      }
    }
  }

  /** No id is ever used twice, no clean-up erases a committed upload, and the
    * store reports its sizes to the requests that requeue. */
  ghost predicate OneJobRun(s: Store, rs: seq<Request>)
    requires SaneRun(s, rs)
    decreases |rs|
  {
    rs != [] ==>
      && (match rs[0]
          case Uploading(u, f) => FreshId(s, u.id) && !Orphans(s, u, f)
          case Bulk(op, ids, fs) => forall k: nat :: k < |ids| ==> !UnderstatesAt(op, s, ids, fs, k)
          case Working(_, _) => true)
      && OneJobRun(After(s, Serve(s, rs[0])), rs[1..])
  }

  /** A job is the same whoever publishes it: at every boundary of such a run each
    * message about a row equals the one its upload published. */
  lemma {:induction false} RequeuesRepeatTheUpload(s: Store, rs: seq<Request>)
    requires SaneRun(s, rs) && OneJobRun(s, rs) && Held(s) && Faithful(s)
    ensures forall t :: t in Boundaries(s, rs) ==> Faithful(t)
    ensures forall t, m, n :: t in Boundaries(s, rs) && m in t.stream && n in t.stream && m.id == n.id && m.id in t.rows ==> m == n
    decreases |rs|
  {
    if rs != [] {
      var now := After(s, Serve(s, rs[0]));
      match rs[0] {
        case Uploading(u, f) =>
          CreatingHoldsExactly(s, u, f);
          CreatingKeepsFaithful(s, u, f);
        case Bulk(op, ids, fs) => BatchKeepsFaithful(op, s, ids, fs, |ids|);
        case Working(i, status) =>
          assert forall m :: TrueTo(now, m) <==> TrueTo(s, m);
      }
      hide *;
      RequeuesRepeatTheUpload(now, rs[1..]);
      BoundariesStep(s, rs);
    }
    FaithfulIsOneMessage();
  }

  lemma BoundariesStep(s: Store, rs: seq<Request>)
    requires SaneRun(s, rs) && rs != []
    ensures forall t :: t in Boundaries(s, rs) <==> t == s || t in Boundaries(After(s, Serve(s, rs[0])), rs[1..])
  {
  }

  lemma FaithfulIsOneMessage()
    ensures forall t: Store, m, n :: Faithful(t) && m in t.stream && n in t.stream && m.id == n.id && m.id in t.rows ==> m == n
  {
  }

  // ---- Witnesses ----

  const EMPTY := Store(map[], map[], [])

  /** One upload whose `refresh` fails after the commit: the caller is told that it
    * failed, and the row stays, queued, with neither object nor message. */
  lemma FailedRefreshLeavesEmptyRow(id: string, size: nat, at: int)
    ensures var u := Upload(id, Some("a.pdf"), size, at);
            var f := UploadFaults(Done, Unconfirmed, Erasure(true, false), Accepted, Done);
            var now := After(EMPTY, Creating(EMPTY, u, f).states);
            && Creating(EMPTY, u, f).reply == NotInserted
            && id in now.rows && now.rows[id].status == Queued && Key(id) !in now.objects && now.stream == []
  {
    var u := Upload(id, Some("a.pdf"), size, at);
    var f := UploadFaults(Done, Unconfirmed, Erasure(true, false), Accepted, Done);
    var s2 := Inserted(Saved(EMPTY, id, size), id, "a.pdf", at);
    assert Creating(EMPTY, u, f).states[2] == Erased(s2, id);
  }

  /** A size look-up that raises between `reset_to_queued` and the publication
    * turns a finished document into a queued one that no worker will see. */
  lemma FailedSizeStrandsRow(s: Store, id: string, f: ItemFaults)
    requires Waiting(s) && id in s.rows && s.rows[id].status == Completed
    requires f.row == Done && f.size == Unavailable
    ensures var p := Batch(Reprocess, s, [id], [f], 1); var now := After(s, p.states);
            p.raised && id in now.rows && now.rows[id].status == Queued && now.stream == s.stream && !Waiting(now)
  {
    var p := Batch(Reprocess, s, [id], [f], 1);
    assert Batch(Reprocess, s, [id], [f], 0) == Progress([], [], false);
    assert p.states == Item(Reprocess, s, id, f).states == [Requeued(s, id)];
    ItemWaitsExactly(Reprocess, s, id, f);
  }
}
