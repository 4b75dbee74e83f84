/**
 * The FAQ data model: the Faq, Topic and Question records, the Question
 * status enumeration and the two predicates that read it, the display rule
 * for protected questions, the default orderings of Topics and Questions,
 * the canonical Topic URL, and the model-layer timestamps a save applies.
 */
module FaqModels {

  datatype Option<T> = None | Some(value: T)

  /** An authenticated user, known to this model only by identity. */
  datatype UserId = UserId(id: nat)

  // ---------------------------------------------------------------------
  // Question status
  // ---------------------------------------------------------------------

  const HEADER: int := 2
  const ACTIVE: int := 1
  const INACTIVE: int := 0

  /** The three declared status choices; stored as the integer Code(). */
  datatype Status = Inactive | Active | Header {

    /** The integer stored in the status column. */
    function Code(): (c: int)
      ensures c in {INACTIVE, ACTIVE, HEADER}
      ensures this == Active <==> c == ACTIVE
    {
      match this
      case Inactive => INACTIVE
      case Active => ACTIVE
      case Header => HEADER
    }
  }

  /** The choices in the order the status field lists them. */
  const STATUS_CHOICES: seq<Status> := [Active, Inactive, Header]

  /** Validation of a stored integer against the declared choices. */
  function StatusFromCode(code: int): (r: Option<Status>)
    ensures r.Some? ==> r.value.Code() == code && r.value in STATUS_CHOICES
    ensures r.None? <==> code !in {INACTIVE, ACTIVE, HEADER}
  {
    if code == INACTIVE then Some(Inactive)
    else if code == ACTIVE then Some(Active)
    else if code == HEADER then Some(Header)
    else None
  }

  /** Every status survives the trip through its stored integer. */
  lemma StatusCodeRoundTrip(s: Status)
    ensures StatusFromCode(s.Code()) == Some(s)
  {
  }

  /** Distinct statuses are stored as distinct integers. */
  lemma StatusCodeInjective(s: Status, t: Status)
    requires s.Code() == t.Code()
    ensures s == t
  {
  }

  // ---------------------------------------------------------------------
  // Faq and Topic records
  // ---------------------------------------------------------------------

  datatype Faq = Faq(name: string, slug: string)

  /** A Topic; `faq` is the primary key of the Faq that owns it. */
  datatype Topic = Topic(name: string, slug: string, faq: nat, position: nat) {

    /** The canonical URL path of the topic. */
    function AbsoluteUrl(): (url: string)
      ensures |url| == 5 + |slug|
      ensures url[..5] == "/faq/"
      ensures url[5..] == slug
    {
      "/faq/" + slug
    }
  }

  /** Two topics share a URL only if they share a slug. */
  lemma AbsoluteUrlInjective(t: Topic, u: Topic)
    requires t.slug != u.slug
    ensures t.AbsoluteUrl() != u.AbsoluteUrl()
  {
  }

  // ---------------------------------------------------------------------
  // Ordering of names: code-point lexicographic order
  // ---------------------------------------------------------------------

  /** `a` sorts no later than `b`: a proper prefix sorts first. */
  predicate NameLe(a: string, b: string)
  {
    if |a| == 0 then true
    else if |b| == 0 then false
    else if a[0] != b[0] then a[0] < b[0]
    else NameLe(a[1..], b[1..])
  }

  /** NameLe agrees with the textbook definition of lexicographic order:
      `a` is a prefix of `b`, or at the first position where they differ
      `a` has the smaller character. */
  lemma {:induction false} NameLeIsLexicographic(a: string, b: string)
    ensures NameLe(a, b) <==>
            (a <= b || exists k :: 0 <= k < |a| && k < |b| && a[..k] == b[..k] && a[k] < b[k])
  {
    if |a| == 0 {
    } else if |b| == 0 {
    } else if a[0] != b[0] {
      if a[0] < b[0] {
        assert a[..0] == b[..0];
      }
      forall k | 0 < k < |a| && k < |b|
        ensures a[..k] != b[..k]
      {
        assert a[..k][0] == a[0] && b[..k][0] == b[0];
      }
    } else {
      NameLeIsLexicographic(a[1..], b[1..]);
      assert a == [a[0]] + a[1..] && b == [b[0]] + b[1..];
      assert a <= b <==> a[1..] <= b[1..];
      if k :| 0 <= k < |a| && k < |b| && a[..k] == b[..k] && a[k] < b[k] {
        assert k > 0;
        assert a[1..][..k - 1] == a[..k][1..] == b[..k][1..] == b[1..][..k - 1];
      }
      if k :| 0 <= k < |a| - 1 && k < |b| - 1 && a[1..][..k] == b[1..][..k] && a[1..][k] < b[1..][k] {
        assert a[..k + 1] == [a[0]] + a[1..][..k] && b[..k + 1] == [b[0]] + b[1..][..k];
      }
    }
  }

  lemma {:induction false} NameLeReflexive(a: string)
    ensures NameLe(a, a)
  {
    if |a| > 0 {
      NameLeReflexive(a[1..]);
    }
  }

  lemma {:induction false} NameLeTotal(a: string, b: string)
    ensures NameLe(a, b) || NameLe(b, a)
  {
    if |a| > 0 && |b| > 0 && a[0] == b[0] {
      NameLeTotal(a[1..], b[1..]);
    }
  }

  lemma {:induction false} NameLeTransitive(a: string, b: string, c: string)
    requires NameLe(a, b) && NameLe(b, c)
    ensures NameLe(a, c)
  {
    if |a| > 0 && |b| > 0 && |c| > 0 && a[0] == b[0] && b[0] == c[0] {
      NameLeTransitive(a[1..], b[1..], c[1..]);
    }
  }

  lemma {:induction false} NameLeAntisymmetric(a: string, b: string)
    requires NameLe(a, b) && NameLe(b, a)
    ensures a == b
  {
    if |a| > 0 && |b| > 0 {
      NameLeAntisymmetric(a[1..], b[1..]);
      assert a == [a[0]] + a[1..] && b == [b[0]] + b[1..];
    }
  }

  // ---------------------------------------------------------------------
  // Default Topic ordering: by position, then by name
  // ---------------------------------------------------------------------

  predicate TopicLe(t: Topic, u: Topic)
  {
    t.position < u.position || (t.position == u.position && NameLe(t.name, u.name))
  }

  lemma TopicLeTotal(t: Topic, u: Topic)
    ensures TopicLe(t, u) || TopicLe(u, t)
  {
    NameLeTotal(t.name, u.name);
  }

  lemma TopicLeTransitive(t: Topic, u: Topic, v: Topic)
    requires TopicLe(t, u) && TopicLe(u, v)
    ensures TopicLe(t, v)
  {
    if t.position == u.position == v.position {
      NameLeTransitive(t.name, u.name, v.name);
    }
  }

  /** Each topic sorts no earlier than the one before it. */
  predicate TopicsSorted(ts: seq<Topic>)
  {
    forall i :: 0 < i < |ts| ==> TopicLe(ts[i - 1], ts[i])
  }

  /** Insert `t` before the first topic it does not sort after. */
  function InsertTopic(t: Topic, ts: seq<Topic>): (r: seq<Topic>)
    ensures multiset(r) == multiset(ts) + multiset{t}
    ensures |r| == |ts| + 1
    ensures r[0] == t || (|ts| > 0 && r[0] == ts[0])
    ensures TopicsSorted(ts) ==> TopicsSorted(r)
  {
    if |ts| == 0 then [t]
    else if TopicLe(t, ts[0]) then [t] + ts
    else
      TopicLeTotal(t, ts[0]);
      assert ts == [ts[0]] + ts[1..];
      [ts[0]] + InsertTopic(t, ts[1..])
  }

  /** The default retrieval order of topics, as a stable sort. */
  function OrderTopics(ts: seq<Topic>): (r: seq<Topic>)
    ensures multiset(r) == multiset(ts)
    ensures TopicsSorted(r)
  {
    if |ts| == 0 then []
    else
      assert ts == [ts[0]] + ts[1..];
      InsertTopic(ts[0], OrderTopics(ts[1..]))
  }

  /** Ordering a list that is already in order leaves it unchanged. */
  lemma {:induction false} OrderTopicsKeepsSorted(ts: seq<Topic>)
    requires TopicsSorted(ts)
    ensures OrderTopics(ts) == ts
  {
    if |ts| > 0 {
      OrderTopicsKeepsSorted(ts[1..]);
      assert ts == [ts[0]] + ts[1..];
    }
  }

  /** Ordering is idempotent. */
  lemma OrderTopicsIdempotent(ts: seq<Topic>)
    ensures OrderTopics(OrderTopics(ts)) == OrderTopics(ts)
  {
    OrderTopicsKeepsSorted(OrderTopics(ts));
  }

  lemma {:induction false} TopicsSortedPairwise(ts: seq<Topic>, i: int, j: int)
    requires TopicsSorted(ts)
    requires 0 <= i < j < |ts|
    ensures TopicLe(ts[i], ts[j])
  {
    if i + 1 < j {
      TopicsSortedPairwise(ts, i, j - 1);
      TopicLeTransitive(ts[i], ts[j - 1], ts[j]);
    }
  }

  /** In a sorted topic list positions never decrease, and among equal
      positions names never decrease. */
  lemma SortedTopicsByPositionThenName(ts: seq<Topic>, i: int, j: int)
    requires TopicsSorted(ts)
    requires 0 <= i < j < |ts|
    ensures ts[i].position <= ts[j].position
    ensures ts[i].position == ts[j].position ==> NameLe(ts[i].name, ts[j].name)
  {
    TopicsSortedPairwise(ts, i, j);
  }

  // ---------------------------------------------------------------------
  // Question record
  // ---------------------------------------------------------------------

  /** The save-time state of a question: whether it is stored yet, and
      its creation and last-update times. */
  datatype Timestamps = Timestamps(persisted: bool, created: nat, updated: nat)

  /** What one save does to the timestamps at time `now`. */
  function AfterSave(t: Timestamps, now: nat): (r: Timestamps)
    ensures r.persisted
    ensures r.updated == now
    ensures r.created == if t.persisted then t.created else now
  {
    Timestamps(true, if t.persisted then t.created else now, now)
  }

  /** The timestamps after saves at the successive times `nows`. */
  function AfterSaves(t: Timestamps, nows: seq<nat>): Timestamps
    decreases |nows|
  {
    if |nows| == 0 then t else AfterSaves(AfterSave(t, nows[0]), nows[1..])
  }

  /** `created` is fixed by the first save that stores the record and no
      later save changes it; `updated` is the time of the last save. */
  lemma {:induction false} CreatedSetOnce(t: Timestamps, nows: seq<nat>)
    requires |nows| > 0
    ensures AfterSaves(t, nows).persisted
    ensures AfterSaves(t, nows).created == if t.persisted then t.created else nows[0]
    ensures AfterSaves(t, nows).updated == nows[|nows| - 1]
    decreases |nows|
  {
    if |nows| > 1 {
      CreatedSetOnce(AfterSave(t, nows[0]), nows[1..]);
    }
  }

  /** With a clock that never runs backwards, a question is never updated
      before it was created. */
  lemma UpdatedNotBeforeCreated(t: Timestamps, nows: seq<nat>)
    requires !t.persisted && |nows| > 0
    requires forall i, j :: 0 <= i <= j < |nows| ==> nows[i] <= nows[j]
    ensures AfterSaves(t, nows).created <= AfterSaves(t, nows).updated
  {
    CreatedSetOnce(t, nows);
  }

  /** A Question instance. `topic` is the primary key of its Topic;
      `persisted` is false until the first save stores the record.
      `status` is the stored integer: the declared choices are checked by
      form validation (StatusFromCode), not by a save. */
  class Question {
    var text: string
    var answer: string
    var topic: nat
    var slug: string
    var status: int
    var protected: bool
    var position: nat
    var created: nat
    var updated: nat
    var createdBy: Option<UserId>
    var updatedBy: Option<UserId>
    var persisted: bool

    /** A new, unsaved question with the declared field defaults. */
    constructor (text: string, answer: string, topic: nat, slug: string)
      ensures this.text == text && this.answer == answer
      ensures this.topic == topic && this.slug == slug
      ensures status == INACTIVE && !protected && position == 0
      ensures createdBy == None && updatedBy == None
      ensures !persisted
    {
      this.text := text;
      this.answer := answer;
      this.topic := topic;
      this.slug := slug;
      status := INACTIVE;
      protected := false;
      position := 0;
      created := 0;
      updated := 0;
      createdBy := None;
      updatedBy := None;
      persisted := false;
    }

    function IsHeader(): (b: bool)
      reads this
      ensures b <==> StatusFromCode(status) == Some(Header)
    {
      status == HEADER
    }

    function IsActive(): (b: bool)
      reads this
      ensures b <==> StatusFromCode(status) == Some(Active)
    {
      status == ACTIVE
    }

    /** Whether the question may be shown to a requester: only active
        questions are shown, protected ones only to authenticated users. */
    function Displayable(authenticated: bool): (shown: bool)
      reads this
      ensures shown ==> IsActive() && !IsHeader()
      ensures protected && !authenticated ==> !shown
    {
      IsActive() && (!protected || authenticated)
    }

    function Times(): Timestamps
      reads this
    {
      Timestamps(persisted, created, updated)
    }

    /** The model-layer save: `created` is stamped when the record is first
        stored, `updated` on every save. */
    method Save(now: nat)
      modifies this`created, this`updated, this`persisted
      ensures Times() == AfterSave(old(Times()), now)
    {
      if !persisted {
        created := now;
      }
      updated := now;
      persisted := true;
    }
  }

  /** A header is never active, and an active question is never a header. */
  lemma HeaderNotActive(q: Question)
    ensures !(q.IsHeader() && q.IsActive())
  {
  }

  /** A protected question is hidden from anonymous requesters whatever
      its status. */
  lemma ProtectedHiddenFromAnonymous(q: Question)
    requires q.protected
    ensures !q.Displayable(false)
  {
  }

  /** A status outside the declared choices is neither a header nor
      active, so such a question is never shown. */
  lemma UndeclaredStatusNeverShown(q: Question, authenticated: bool)
    requires StatusFromCode(q.status).None?
    ensures !q.IsHeader() && !q.IsActive() && !q.Displayable(authenticated)
  {
  }

  /** An anonymous requester sees exactly the active, unprotected
      questions. */
  lemma AnonymousSeesOpenActive(q: Question)
    ensures q.Displayable(false) <==> q.IsActive() && !q.protected
  {
  }

  /** An authenticated requester sees exactly the active questions. */
  lemma AuthenticatedSeesActive(q: Question)
    ensures q.Displayable(true) <==> q.IsActive()
  {
  }

  // ---------------------------------------------------------------------
  // Default Question ordering: by position, then by creation time
  // ---------------------------------------------------------------------

  predicate QuestionLe(q: Question, r: Question)
    reads q, r
  {
    q.position < r.position || (q.position == r.position && q.created <= r.created)
  }

  predicate QuestionsSorted(qs: seq<Question>)
    reads set x | x in qs
  {
    forall i :: 0 < i < |qs| ==> QuestionLe(qs[i - 1], qs[i])
  }

  /** Insert `q` before the first question it does not sort after. */
  function InsertQuestion(q: Question, qs: seq<Question>): (r: seq<Question>)
    reads q, set x | x in qs
    ensures multiset(r) == multiset(qs) + multiset{q}
    ensures forall x :: x in r ==> x == q || x in qs
    ensures |r| == |qs| + 1
    ensures r[0] == q || (|qs| > 0 && r[0] == qs[0])
    ensures QuestionsSorted(qs) ==> QuestionsSorted(r)
  {
    if |qs| == 0 then [q]
    else if QuestionLe(q, qs[0]) then [q] + qs
    else
      assert qs == [qs[0]] + qs[1..];
      [qs[0]] + InsertQuestion(q, qs[1..])
  }

  /** The default retrieval order of questions, as a stable sort. */
  function OrderQuestions(qs: seq<Question>): (r: seq<Question>)
    reads set x | x in qs
    ensures multiset(r) == multiset(qs)
    ensures forall x :: x in r ==> x in qs
    ensures QuestionsSorted(r)
  {
    if |qs| == 0 then []
    else
      assert qs == [qs[0]] + qs[1..];
      InsertQuestion(qs[0], OrderQuestions(qs[1..]))
  }

  lemma {:induction false} QuestionsSortedPairwise(qs: seq<Question>, i: int, j: int)
    requires QuestionsSorted(qs)
    requires 0 <= i < j < |qs|
    ensures QuestionLe(qs[i], qs[j])
  {
    if i + 1 < j {
      QuestionsSortedPairwise(qs, i, j - 1);
    }
  }

  /** In a sorted question list positions never decrease, and among equal
      positions the earlier-created question comes first. */
  lemma SortedQuestionsByPositionThenCreated(qs: seq<Question>, i: int, j: int)
    requires QuestionsSorted(qs)
    requires 0 <= i < j < |qs|
    ensures qs[i].position <= qs[j].position
    ensures qs[i].position == qs[j].position ==> qs[i].created <= qs[j].created
  {
    QuestionsSortedPairwise(qs, i, j);
  }

  /** Ordering a list that is already in order leaves it unchanged. */
  lemma {:induction false} OrderQuestionsKeepsSorted(qs: seq<Question>)
    requires QuestionsSorted(qs)
    ensures OrderQuestions(qs) == qs
  {
    if |qs| > 0 {
      OrderQuestionsKeepsSorted(qs[1..]);
      assert qs == [qs[0]] + qs[1..];
    }
  }

  /** Ordering is idempotent. */
  lemma OrderQuestionsIdempotent(qs: seq<Question>)
    ensures OrderQuestions(OrderQuestions(qs)) == OrderQuestions(qs)
  {
    OrderQuestionsKeepsSorted(OrderQuestions(qs));
  }
}
