/**
 * The Question admin's save hook: before handing the object to the
 * model-layer save it records who created the question (only when the
 * object is new) and who last updated it (always).
 */
module FaqAdmin {

  import opened FaqModels

  /** The two audit fields of a question. */
  datatype AuditStamp = AuditStamp(createdBy: Option<UserId>, updatedBy: Option<UserId>)

  /** What the hook does to the audit fields when `user` saves; `change`
      is false for a new object and true for an edit. */
  function Stamp(a: AuditStamp, user: UserId, change: bool): (r: AuditStamp)
    ensures r.updatedBy == Some(user)
    ensures !change ==> r.createdBy == Some(user)
    ensures change ==> r.createdBy == a.createdBy
  {
    if change then AuditStamp(a.createdBy, Some(user))
    else AuditStamp(Some(user), Some(user))
  }

  function AuditOf(q: Question): AuditStamp
    reads q
  {
    AuditStamp(q.createdBy, q.updatedBy)
  }

  /** Stamping twice with the same user and flag is stamping once. */
  lemma StampIdempotent(a: AuditStamp, user: UserId, change: bool)
    ensures Stamp(Stamp(a, user, change), user, change) == Stamp(a, user, change)
  {
  }

  /** After `creator` creates a question and `editor` edits it, the
      question was created by `creator` and last updated by `editor`,
      whatever the audit fields held before. */
  lemma StampCreateThenEdit(a: AuditStamp, creator: UserId, editor: UserId)
    ensures Stamp(Stamp(a, creator, false), editor, true) == AuditStamp(Some(creator), Some(editor))
  {
  }

  /** The audit stamps after successive saves: `saves[k]` is the acting
      user and the change flag of the k-th save. */
  function StampAll(a: AuditStamp, saves: seq<(UserId, bool)>): AuditStamp
    decreases |saves|
  {
    if |saves| == 0 then a else StampAll(Stamp(a, saves[0].0, saves[0].1), saves[1..])
  }

  /** Over any run of edits that follows a creation, the creator stays
      recorded and the last editor is the updater. */
  lemma {:induction false} EditsKeepCreator(a: AuditStamp, creator: UserId, edits: seq<(UserId, bool)>)
    requires forall k :: 0 <= k < |edits| ==> edits[k].1
    ensures StampAll(Stamp(a, creator, false), edits).createdBy == Some(creator)
    ensures StampAll(Stamp(a, creator, false), edits).updatedBy
            == Some(if |edits| == 0 then creator else edits[|edits| - 1].0)
  {
    EditsKeepCreatorFrom(Stamp(a, creator, false), edits);
  }

  /** A run of edits never changes the recorded creator, and leaves the
      last editor as the updater. */
  lemma {:induction false} EditsKeepCreatorFrom(a: AuditStamp, edits: seq<(UserId, bool)>)
    requires forall k :: 0 <= k < |edits| ==> edits[k].1
    ensures StampAll(a, edits).createdBy == a.createdBy
    ensures StampAll(a, edits).updatedBy
            == if |edits| == 0 then a.updatedBy else Some(edits[|edits| - 1].0)
    decreases |edits|
  {
    if |edits| > 0 {
      EditsKeepCreatorFrom(Stamp(a, edits[0].0, true), edits[1..]);
    }
  }

  /** The hook's own assignments: only the two audit fields change. */
  method StampAudit(q: Question, user: UserId, change: bool)
    modifies q`createdBy, q`updatedBy
    ensures AuditOf(q) == Stamp(old(AuditOf(q)), user, change)
  {
    if !change {
      q.createdBy := Some(user);
    }
    q.updatedBy := Some(user);
  }

  /** The admin save: stamp the audit fields, then let the model layer
      store the object and stamp its times. */
  method SaveModel(q: Question, user: UserId, change: bool, now: nat)
    modifies q`createdBy, q`updatedBy, q`created, q`updated, q`persisted
    ensures AuditOf(q) == Stamp(old(AuditOf(q)), user, change)
    ensures q.Times() == AfterSave(old(q.Times()), now)
  {
    StampAudit(q, user, change);
    q.Save(now);
  }

  /** A question created by `creator` at `t1` and edited by `editor` at
      `t2` records both users and both times. */
  method CreateThenEdit(creator: UserId, editor: UserId, t1: nat, t2: nat,
                        text: string, answer: string, topic: nat, slug: string)
    returns (q: Question)
    ensures q.createdBy == Some(creator) && q.updatedBy == Some(editor)
    ensures q.created == t1 && q.updated == t2 && q.persisted
    ensures q.text == text && q.status == INACTIVE && !q.protected && q.position == 0
  {
    q := new Question(text, answer, topic, slug);
    SaveModel(q, creator, false, t1);
    SaveModel(q, editor, true, t2);
  }
}
