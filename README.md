# django-faq: data model, orderings and save-time audit stamp

This project models the core of a small Django FAQ application: a
three-level hierarchy Faq → Topic → Question, the Question status
enumeration (Inactive = 0, Active = 1, Group Header = 2) and its two
predicates, the rule that decides which questions may be shown, the
default retrieval orders of Topics (position, then name) and Questions
(position, then creation time), the canonical Topic URL `/faq/<slug>`,
and what happens when an editor saves a Question through the admin:
the admin hook records the creating user (new objects only) and the
updating user (always), and the model layer stamps the creation time
once and the update time on every save.

Two modules, one per source file:

- `models.dfy`, module `FaqModels` (faq/models.py): the records as
  datatypes (`Faq`, `Topic`, `Status`) and a class (`Question`, whose
  fields a save updates in place); the orderings as comparison relations
  (`TopicLe`, `QuestionLe`), "sorted" predicates and stable sort functions
  that stand for the database's `ORDER BY`; the model-layer `Save`.
- `admin.dfy`, module `FaqAdmin` (faq/admin.py): `SaveModel`, the admin
  hook, built from `StampAudit` (the hook's own assignments) followed by
  `Question.Save`; the pure function `Stamp` specifies the hook's effect
  on the two audit fields, and the lemmas about it state idempotence and
  the create-then-edit outcome.

Conventions: a user is an opaque `UserId`; time is a `nat` passed in as
`now`; a foreign key is the `nat` primary key of the record it refers to;
`persisted` is false until the first save stores the record, and
decides whether `created` is stamped. A question's `status` is the stored
integer, as in the source: the declared choices are checked only when a
form validates the field (`StatusFromCode`), and a save stores whatever
integer the field holds. Names are ordered by code-point lexicographic
order (a proper prefix first).

## Model

| member | source | states |
|---|---|---|
| FaqModels.Status.Code | faq/models.py:40-47 | each declared choice is stored as one of the integers 0, 1, 2, and only Active is stored as 1 |
| FaqModels.StatusFromCode | faq/models.py:43-47 | validating a stored integer against the declared choices accepts exactly 0, 1 and 2, and an accepted integer is the code of the status returned, which is one of the choices |
| FaqModels.StatusCodeRoundTrip | faq/models.py:40-47 | reading back the stored code of any status yields that status |
| FaqModels.StatusCodeInjective | faq/models.py:40-42 | distinct statuses have distinct codes |
| FaqModels.Topic.AbsoluteUrl | faq/models.py:28-29 | the URL starts with "/faq/", is 5 longer than the slug, and the slug is what follows the prefix |
| FaqModels.AbsoluteUrlInjective | faq/models.py:28-29 | topics with distinct slugs get distinct URLs |
| FaqModels.NameLe | faq/models.py:34 | defines the order on topic names: character by character, a proper prefix first |
| FaqModels.NameLeIsLexicographic | faq/models.py:34 | the name order holds exactly when the first name is a prefix of the second or, at the first position where they differ, has the smaller character |
| FaqModels.NameLeReflexive | faq/models.py:34 | every name sorts no later than itself |
| FaqModels.NameLeTotal | faq/models.py:34 | any two names are comparable |
| FaqModels.NameLeTransitive | faq/models.py:34 | the name order is transitive |
| FaqModels.NameLeAntisymmetric | faq/models.py:34 | names that sort no later than each other are equal |
| FaqModels.TopicLe | faq/models.py:34 | defines the topic order: ascending position, then ascending name |
| FaqModels.TopicsSorted | faq/models.py:34 | defines a topic list as sorted when each topic sorts no earlier than the one before it |
| FaqModels.TopicLeTotal | faq/models.py:34 | the (position, name) topic order relates any two topics |
| FaqModels.TopicLeTransitive | faq/models.py:34 | the (position, name) topic order is transitive |
| FaqModels.InsertTopic | faq/models.py:34 | inserting a topic adds exactly that topic and keeps a sorted list sorted |
| FaqModels.OrderTopics | faq/models.py:34 | the default topic order is a permutation of its input and is sorted by (position, name) |
| FaqModels.OrderTopicsKeepsSorted | faq/models.py:34 | ordering a topic list that is already sorted returns it unchanged |
| FaqModels.OrderTopicsIdempotent | faq/models.py:34 | ordering topics twice is ordering them once |
| FaqModels.TopicsSortedPairwise | faq/models.py:34 | in a sorted topic list every earlier topic sorts no later than every later one |
| FaqModels.SortedTopicsByPositionThenName | faq/models.py:26-34 | in a sorted topic list positions never decrease and, among equal positions, names never decrease |
| FaqModels.AfterSave | faq/models.py:65-66 | a save stores the record, sets `updated` to now, and sets `created` to now only if the record was not yet stored, otherwise keeps it |
| FaqModels.AfterSaves | faq/models.py:65-66 | defines the timestamps after a run of saves at successive times |
| FaqModels.CreatedSetOnce | faq/models.py:65-66 | over any run of saves, `created` is the time of the first save that stored the record and never changes after it, and `updated` is the time of the last save |
| FaqModels.UpdatedNotBeforeCreated | faq/models.py:65-66 | with a clock that never runs backwards, `updated` is never earlier than `created` |
| FaqModels.Question.constructor | faq/models.py:49-68 | a new question has status INACTIVE (0), is not protected, has position 0, no creator or updater, and is not yet stored |
| FaqModels.Question.IsHeader | faq/models.py:81-82 | true exactly when the stored integer is a declared choice and that choice is Group Header |
| FaqModels.Question.IsActive | faq/models.py:84-85 | true exactly when the stored integer is a declared choice and that choice is Active |
| FaqModels.Question.Displayable | faq/models.py:53-60 | a shown question is active and not a header; a protected question is never shown to an anonymous requester |
| FaqModels.Question.Save | faq/models.py:65-66 | the model-layer save changes only `created`, `updated` and the stored flag, exactly as AfterSave says |
| FaqModels.HeaderNotActive | faq/models.py:40-42 | no question is both a header and active |
| FaqModels.ProtectedHiddenFromAnonymous | faq/models.py:59-60 | a protected question is hidden from anonymous requesters whatever its status |
| FaqModels.UndeclaredStatusNeverShown | faq/models.py:53-57 | a stored integer outside the declared choices is neither a header nor active, and such a question is shown to nobody |
| FaqModels.AnonymousSeesOpenActive | faq/models.py:55-60 | an anonymous requester may see a question exactly when it is active and not protected |
| FaqModels.AuthenticatedSeesActive | faq/models.py:53-60 | an authenticated requester may see a question exactly when it is active |
| FaqModels.QuestionLe | faq/models.py:75 | defines the question order: ascending position, then ascending creation time |
| FaqModels.QuestionsSorted | faq/models.py:75 | defines a question list as sorted when each question sorts no earlier than the one before it |
| FaqModels.InsertQuestion | faq/models.py:75 | inserting a question adds exactly that question and keeps a sorted list sorted |
| FaqModels.OrderQuestions | faq/models.py:75 | the default question order is a permutation of its input and is sorted by (position, created) |
| FaqModels.OrderQuestionsKeepsSorted | faq/models.py:75 | ordering a question list that is already sorted returns it unchanged |
| FaqModels.OrderQuestionsIdempotent | faq/models.py:75 | ordering questions twice is ordering them once |
| FaqModels.QuestionsSortedPairwise | faq/models.py:75 | in a sorted question list every earlier question sorts no later than every later one |
| FaqModels.SortedQuestionsByPositionThenCreated | faq/models.py:62-75 | in a sorted question list positions never decrease and, among equal positions, the earlier-created question comes first |
| FaqAdmin.Stamp | faq/admin.py:40-45 | the updater becomes the acting user; the creator becomes the acting user for a new object and is kept for an edit |
| FaqAdmin.StampIdempotent | faq/admin.py:41-45 | stamping twice with the same user and flag gives the same fields as stamping once |
| FaqAdmin.StampCreateThenEdit | faq/admin.py:41-45 | after A creates and B edits, the creator is A and the updater is B, whatever the fields held before |
| FaqAdmin.StampAll | faq/admin.py:41-45 | defines the audit fields after a run of admin saves, each with its acting user and change flag |
| FaqAdmin.EditsKeepCreator | faq/admin.py:41-45 | after a creation by A followed by any run of edits, the creator is still A and the updater is the last editor (A if there were no edits) |
| FaqAdmin.EditsKeepCreatorFrom | faq/admin.py:41-45 | from any audit fields, a run of edits never changes the recorded creator and leaves the last editor as updater (the fields' updater if there were no edits) |
| FaqAdmin.StampAudit | faq/admin.py:40-45 | before the save is delegated only `created_by` and `updated_by` change, as Stamp says |
| FaqAdmin.SaveModel | faq/admin.py:33-48 | the admin save stamps the audit fields as Stamp says and then the times as AfterSave says, and changes no other field |
| FaqAdmin.CreateThenEdit | faq/admin.py:41-48 | a question created by A at t1 and edited by B at t2 has creator A, updater B, created t1, updated t2, and keeps its text and default status (INACTIVE), protection and position |

## Left out

- Persistence: primary-key assignment, foreign-key integrity and cascade deletion are done by the framework and database and are not in these files; foreign keys are plain numbers here.
- The SQL that executes `Meta.ordering`: the sort functions are one admissible result. The database does not promise any order among rows with equal keys; the model's sort is stable.
- Collation: the database's ordering of names is not given by these files; the model uses code-point lexicographic order.
- `QuestionManager` (managers.py) is not part of this model, so no filtering of questions by status or protection is modelled beyond the display predicate.
- `slugify` and the admin's `prepopulated_fields` slug derivation are client-side and library code that is not part of this model; slugs are arbitrary strings.
- Admin presentation and registration (`TabularInline`, `list_display`, `fields`, `sortable_field_name`, `extra`, `admin.site.register`), translation wrappers, `verbose_name` labels and the `__unicode__` methods: presentation only.
- The request, authentication and the wall clock: the acting user is a `UserId` parameter, authentication a boolean, and the time a `now` parameter.
- FaqModels.Question.Save: uses a single `now` for both timestamps, whereas the framework reads the clock once per field on the first save, so `created` and `updated` may differ slightly there.
- `max_length` (150, 100) and the small-integer bound on `position` are enforced by the database and are not modelled.
- Validation, not-found and integrity errors on create and update: these come from the framework's forms and database, not from these files, so no save here fails.
- The `form` and `request` arguments of `save_model` other than the acting user are not modelled; the superclass `save_model` is modelled as the model-layer `Save`.
