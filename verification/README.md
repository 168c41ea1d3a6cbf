# pgm4 content store — a Dafny model

pgm4 is a small Django question-and-answer site. Questions, answers and
comments are one polymorphic `Content` record. A one-character discriminator
(`'q'`, `'a'`, `'c'`) says which it is. Each record has an optional parent,
an optional owner, and the flags `is_hidden`, `is_deleted` and `is_accepted`.
This project models the logic around that record:

- the `ContentQuerySet` filters;
- the accepted-answer check in `Content.save`;
- the title validator, the discriminator lookup and the `answers()` /
  `comments()` accessors;
- the vote-flag template filter;
- the decisions the views make when they list, create, update and vote;
- the `login_required_ajax` gate.

Modules, one per file:

| module | file | models |
|---|---|---|
| `Base` | base.dfy | `Option`, `Result` and the exception kinds |
| `Seqs` | seqs.dfy | order-preserving `Filter`, subsequences, `SelectedBy` |
| `Text` | text.dfy | Python `endswith`, `split(' ')`, `join`, integer formatting |
| `Models` | models.dfy | `Tag`, `Content`, the validator, `get_content_type_id`, `__str__`, `Tag.save` |
| `Queries` | queries.dfy | every `ContentQuerySet` filter |
| `Store` | store.dfy | `Content.save`, `answers()`, `comments()` |
| `VoteFlags` | voteflags.dfy | `complete_content_list_for_user` |
| `Views` | views.dfy | order normaliser, create/update views, vote redirect, tag pre-selection |
| `LoginGate` | logingate.dfy | `login_required_ajax._wrapped_view` |

Modelling choices:

- The table is a `seq<Content>` and a queryset is a `seq<Content>` in its
  query order. Every filter is `Seqs.Filter` with a named predicate. Its
  contract is `SelectedBy(r, qs, p)`: `r` is a subsequence of `qs` that holds
  every occurrence of an element satisfying `p` and nothing else.
  `Seqs.SelectedByUnique` proves this pins `r` down completely.
- `Count('children')` counts rows of the whole table. So the child-count
  filters take the table `db` as well as the queryset.
- A raised exception becomes `Err(kind)`: `ValidationError`,
  `IntegrityError`, `ValueError`, `IndexError`, `AttributeError`,
  `DoesNotExist`, `FieldError` or `NotFound` (Http404). A failed save returns no table,
  so the caller keeps the old one.
- `Content.save` is one atomic transition. It recomputes a question's slug,
  runs the accepted-answer check, and then updates the row with the same
  primary key, or appends a new row if there is none.
- Django's `slugify` is a parameter of type `string -> string`. The parts
  that `urlparse` returns are inputs. The requesting user is an explicit
  `UserId`, or an `Option<UserId>` (`None` for the anonymous user) where
  an anonymous request reaches the code. `Store.FreshId` stands for the
  database's auto-increment: a key larger than every stored key.
- The vote table is a `seq<Vote>`. The migration declares no uniqueness on
  (user, content), so one user may have several rows for one item. The dict
  comprehension in the filter then keeps the last row in the order the
  query returns them.

The model follows the code as written, including these quirks:

- `viewable_only` combines its conditions with OR. An item is dropped only
  when it is hidden and deleted and not owned by the user.
- The accept check runs only when the saved record is an answer. It looks
  at every child of the parent, comments included.
- `questions_with_answers` counts any child, so a comment is enough.
- Votes have no uniqueness constraint.
- `tagged` uses the lookup `tag__slug`, which names no field, so it raises
  `FieldError`.
- The create views assign `request.user` to the owner key, so an anonymous
  user gets `ValueError` once the target has been found.

Where a quirk looks unintended, the model also gives the corrected
definition (see "## Findings").

## Model

| member | source | states |
|---|---|---|
| `Models.ValidateIsQuestion` | pgm4app/models.py:27-29 | a title is accepted iff it is non-empty and its last character is `?`; otherwise a ValidationError |
| `Models.ValidTitleShape` | pgm4app/models.py:27-29 | the accepted titles are exactly the strings of the form `p + "?"` |
| `Models.IdsNamed` | pgm4app/models.py:153 | the list comprehension keeps exactly the ids of the choices with that name; the first id comes from the first such choice |
| `Models.GetContentTypeId` | pgm4app/models.py:151-153 | `question`, `answer` and `comment` map to `q`, `a` and `c`; every other name raises IndexError |
| `Models.TypeNameRoundTrip` | pgm4app/models.py:32 | the id lookup and the display name of a choice invert each other |
| `Models.ContentStr` | pgm4app/models.py:129-137 | the label names the kind of record; for answers and comments the primary key can be read back from the text |
| `Models.ContentStrIdentifies` | pgm4app/models.py:129-137 | equal labels mean the same kind, and for answers and comments the same primary key |
| `Models.TagSave` | pgm4app/models.py:22-24 | saving a tag sets its slug to the slugified name and changes nothing else |
| `Models.TagSaveIdempotent` | pgm4app/models.py:22-24 | saving a tag twice is saving it once; a tag whose slug is current is unchanged |
| `Text.Split` | pgm4app/views.py:62 | Python `split(' ')`: at least one part, no part contains a space, and joining the parts with spaces gives back the input |
| `Text.SplitJoin` | pgm4app/views.py:62 | splitting a space-joined list of space-free words gives back the words |
| `Text.ParseNatStr` | pgm4app/models.py:131-135 | the decimal text of a primary key reads back as the same number |
| `Queries.Questions` | pgm4app/models.py:37-38 | exactly the records with type `q`, in order |
| `Queries.Answers` | pgm4app/models.py:40-41 | exactly the records with type `a`, in order |
| `Queries.Comments` | pgm4app/models.py:43-44 | exactly the records with type `c`, in order |
| `Queries.TypePartition` | pgm4app/models.py:37-44 | when every type is valid, questions, answers and comments partition the table |
| `Queries.Public` | pgm4app/models.py:46-47 | exactly the records that are neither hidden nor deleted, in order |
| `Queries.Hidden` | pgm4app/models.py:49-50 | exactly the hidden records, in order |
| `Queries.Deleted` | pgm4app/models.py:52-53 | exactly the deleted records, in order |
| `Queries.PublicIdempotent` | pgm4app/models.py:46-47 | `public()` applied twice equals `public()` applied once |
| `Queries.PublicCommutes` | pgm4app/models.py:37-47 | `public()` commutes with each of the three type filters |
| `Queries.PublicIsNeitherHiddenNorDeleted` | pgm4app/models.py:46-53 | a record is public iff it is in neither `hidden()` nor `deleted()` |
| `Queries.ViewableOnly` | pgm4app/models.py:55-61 | as written: a record is dropped iff it is hidden and deleted and not owned by the user |
| `Queries.PublicWithinViewable` | pgm4app/models.py:55-61 | `public()` is an ordered subsequence of `viewable_only(u)`, and every record owned by `u` is kept |
| `Queries.Tagged` | pgm4app/models.py:63-69 | as written: the lookup `tag__slug` names no field of the record, so every call raises FieldError |
| `Queries.TaggedIntended` | pgm4app/models.py:63-69 | the lookup through `tags`: exactly the records carrying a tag whose slug is the given one, in order |
| `Queries.TaggedLookupFails` | pgm4app/models.py:69 | for a question carrying the tag, the written filter raises and the corrected one returns the question |
| `Queries.ChildCount` | pgm4app/models.py:72 | the count is positive iff some record of any type has this record as parent |
| `Queries.WithChildren` | pgm4app/models.py:74-75 | exactly the records with at least one child, in order |
| `Queries.WithoutChildren` | pgm4app/models.py:71-72 | exactly the records with no child, in order |
| `Queries.ChildrenPartition` | pgm4app/models.py:71-75 | `with_children` and `without_children` partition any queryset |
| `Queries.QuestionsWithAnswers` | pgm4app/models.py:77-78 | on a queryset: exactly its public questions that have a child of any type in the table, in order |
| `Queries.QuestionsWithoutAnswers` | pgm4app/models.py:80-81 | on a queryset: exactly its public questions with no child at all in the table, in order |
| `Queries.AnsweredPartition` | pgm4app/models.py:77-81 | on any queryset, the two lists partition its public questions |
| `Queries.CommentCountsAsAnswer` | pgm4app/models.py:74-78 | a single comment moves a question into `questions_with_answers` |
| `Queries.AcceptedChildCount` | pgm4app/models.py:85-86 | the count is positive iff some child of the record is accepted |
| `Queries.QuestionsWithoutAcceptedAnswer` | pgm4app/models.py:83-86 | as written, on a queryset: exactly its public questions that have an accepted child, in order |
| `Queries.AcceptedWithinAnswered` | pgm4app/models.py:74-86 | that list is an ordered subsequence of `questions_with_answers` |
| `Queries.ViewableOnlyIntended` | pgm4app/models.py:55-59 | the filter the docstring describes: a record is dropped iff it is hidden or deleted and not owned by the user |
| `Queries.ViewableOnlyIntendedSound` | pgm4app/models.py:55-61 | the corrected filter contains `public()`, lies within the written filter, and shows no foreign hidden or deleted record |
| `Queries.ViewableOnlyLeaksHidden` | pgm4app/models.py:60-61 | the written filter shows user 2 a question that user 1 hid |
| `Queries.QuestionsWithoutAcceptedAnswerIntended` | pgm4app/models.py:83-86 | the filter the name describes: exactly the queryset's public questions none of whose children is accepted, in order |
| `Queries.AcceptedQueriesComplement` | pgm4app/models.py:83-86 | on any queryset, the written and the corrected filter partition its public questions |
| `Queries.AcceptedQueryInverted` | pgm4app/models.py:83-86 | a question with an accepted answer is listed as having none |
| `Store.Upsert` | pgm4app/models.py:149 | the written row is present, no other row is lost or added, and unique keys stay unique; an existing key is updated in place, a new key is appended at the end |
| `Store.Save` | pgm4app/models.py:139-149 | an accepted answer fails iff it has no parent (AttributeError), its parent row is missing (DoesNotExist), or the parent already has another accepted child (IntegrityError); a success stores the record, with the slug recomputed from the title iff it is a question, keeps every other row, keeps keys unique, and either replaces the row with the same key in place or appends the record at the end |
| `Store.SavePreservesInvariant` | pgm4app/models.py:143-149 | a successful save keeps keys unique and keeps each parent to at most one accepted answer |
| `Store.ResaveAcceptedAnswer` | pgm4app/models.py:143-149 | when keys are unique and no parent has two accepted children of any type, re-saving a stored accepted answer succeeds and leaves the table unchanged |
| `Store.ResaveBlockedByAcceptedComment` | pgm4app/models.py:143-148 | a table with unique keys and one accepted answer per question, where re-saving the stored accepted answer raises IntegrityError because of an accepted comment |
| `Store.SaveIntended` | pgm4app/models.py:139-149 | the save the check's comment describes: an accepted answer fails iff it has no parent (AttributeError), its parent row is missing (DoesNotExist), or the parent already has another accepted answer (IntegrityError); a success stores the record, keeps every other row and unique keys, and replaces in place or appends at the end, as `Save` does |
| `Store.ResaveAcceptedAnswerIntended` | pgm4app/models.py:143-149 | with the corrected check, re-saving a stored accepted answer succeeds unchanged whenever keys are unique and each parent has one accepted answer |
| `Store.SaveIntendedPreservesInvariant` | pgm4app/models.py:143-149 | the corrected save keeps keys unique and each parent to at most one accepted answer |
| `Store.AcceptedCommentBlocksAnswer` | pgm4app/models.py:145-148 | the check counts every child: an accepted comment blocks accepting an answer |
| `Store.AcceptedCommentNotChecked` | pgm4app/models.py:143 | only answers are checked: an accepted comment can be saved beside an accepted answer |
| `Store.FreshId` | pgm4app/models.py:149 | the key given to a new row is larger than every stored key |
| `Store.AnswersOf` | pgm4app/models.py:155-162 | a non-question raises ValueError; a question gets exactly its answer children (public ones only when asked), in order |
| `Store.CommentsOf` | pgm4app/models.py:164-177 | as written: a comment raises ValueError; otherwise the children of the record's own type, so never a comment |
| `Store.CommentsOfIntended` | pgm4app/models.py:164-177 | the accessor the error message describes: exactly the comment children |
| `Store.CommentsOfMissesComments` | pgm4app/models.py:167-177 | for a question with one comment, the written accessor returns nothing and the corrected one returns the comment |
| `VoteFlags.VoteDict` | pgm4app/templatetags/pgm4tags.py:18-19 | the dict's keys are listed ids, and each value is the value of one of the user's own rows for that id; `VoteDictSpec` pins down which row |
| `VoteFlags.VoteDictSpec` | pgm4app/templatetags/pgm4tags.py:17-19 | the dict holds exactly the listed ids the user voted on, each with the value of the user's last row for it |
| `VoteFlags.Annotate` | pgm4app/templatetags/pgm4tags.py:7-24 | an anonymous user gets the list unchanged; otherwise the same items in the same order, never both up-voted and down-voted |
| `VoteFlags.AnnotateFlags` | pgm4app/templatetags/pgm4tags.py:20-22 | up-voted iff the user's vote is 1, down-voted iff it is -1, neither when there is no vote |
| `VoteFlags.OtherUsersIrrelevant` | pgm4app/templatetags/pgm4tags.py:17-19 | dropping other users' votes leaves the result unchanged |
| `Views.GetOrder` | pgm4app/views.py:96-98 | the result is `hot`, `new` or `top`: the requested order if it is one of them, otherwise `hot` |
| `Views.GetOrderIdempotent` | pgm4app/views.py:96-98 | normalising a normalised order changes nothing |
| `Views.QuestionList` | pgm4app/views.py:100-102 | the order is the normalised request order, and the listing is exactly the public questions of the table, in table order |
| `Views.NewRecord` | pgm4app/views.py:66-69 | a new record has a fresh key, no parent, no owner and default flags |
| `Views.CreateQuestion` | pgm4app/views.py:66-69 | an anonymous requester gets ValueError; otherwise appends one public question owned by the requester, with slug derived from the title, and leaves the earlier rows alone |
| `Views.CreatedQuestionListed` | pgm4app/views.py:66-69 | a question created by a logged-in user is appended to the public question list |
| `Views.FindById` | pgm4app/views.py:131 | finds a record with the key iff one exists |
| `Views.GetQuestionObject` | pgm4app/views.py:128-133 | a record is returned iff there is a public question with the key; otherwise 404 |
| `Views.CreateAnswer` | pgm4app/views.py:128-139 | fails with 404 iff the key is not a public question, else with ValueError iff the requester is anonymous; otherwise appends an unaccepted answer to that question, owned by the requester |
| `Views.CreateComment` | pgm4app/views.py:182-196 | fails with 404 iff no record has the key, whatever its type or visibility, else with ValueError iff the requester is anonymous; otherwise appends a comment on it owned by the requester |
| `Views.HiddenQuestionTakesCommentsOnly` | pgm4app/views.py:128-139 | a hidden question refuses an answer but accepts a comment |
| `Views.OwnedObject` | pgm4app/views.py:82-83 | an update finds a record iff the requester owns a record with that key; otherwise 404 |
| `Views.UpdateText` | pgm4app/views.py:153-159 | a 404 iff the requester owns no record with the key; a success keeps the number of rows |
| `Views.AcceptedAnswerNotEditable` | pgm4app/views.py:153-159 | in the table of `Store.ResaveBlockedByAcceptedComment`, the owner's text edit of the accepted answer raises IntegrityError |
| `Views.UpdateTextChangesOnlyText` | pgm4app/views.py:154-159 | a successful edit changes only the owned record's text, plus its slug if it is a question; every other row stays as and where it was |
| `Views.VoteRedirect` | pgm4app/views.py:247-250 | the target is the referer, or the content URL without one; `#` and the hash are appended iff the hash is non-empty |
| `Views.SplitAtHash` | pgm4app/views.py:249-250 | splits a URL at its first `#` |
| `Views.VoteRedirectRoundTrip` | pgm4app/views.py:247-250 | when the page URL has no `#`, splitting the target at its first `#` gives back the page and the hash |
| `Views.InitialTags` | pgm4app/views.py:59-64 | exactly the existing tags whose slug is one of the parts of the parameter split on single spaces, in order |
| `Views.InitialTagsOfWords` | pgm4app/views.py:62-63 | a space-joined list of slugs pre-selects exactly the tags carrying one of them |
| `Views.InitialTagsWithoutParam` | pgm4app/views.py:62 | without the parameter, exactly the tags with an empty slug are pre-selected |
| `LoginGate.Wrapped` | pgm4app/utils.py:17-34 | an authenticated user gets the view's response; an anonymous AJAX request gets 401; an anonymous non-AJAX request gets a login redirect iff the login URL's scheme and host are empty or match; otherwise nothing is returned |
| `LoginGate.RelativeLoginAlwaysAnswers` | pgm4app/utils.py:29-34 | with a relative login URL, the fall-through case cannot happen |
| `LoginGate.AnonymousIgnoresView` | pgm4app/utils.py:18-22 | an anonymous request never depends on the view's response |

## Left out

- `toggle_vote`, `get_question`, `order()`, `attach_user_vote`, `count_view` and the `Vote` model class are called but their bodies are not part of this model. So is the score recomputation (`up`, `down`, `points`, `timepoints`).
- `QuestionUpdateView` uses `AskForm`, and `AskForm` is not part of this model. Only its owner-only lookup (`Views.OwnedObject`) is modelled, not which fields it edits.
- Form validation (`max_length`, `blank`) is left out for the same reason. The title validator is modelled on its own.
- The ordering (`Meta.ordering`, `order(order)`) is left out. The filters keep whatever order their input has.
- Queries.TaggedIntended: a join over several matching tags could list a record more than once; the model lists it once.
- `.get(pk=pk)` would raise `MultipleObjectsReturned` on duplicate keys. Keys are unique in the database, so `Views.FindById` returns the first match.
- The race between the accept check and the write is a concurrency concern, so `save` is atomic.
- The AJAX branch of `VoteView.post` (an empty `JsonResponse`) and the `login_required` on `VoteView` are left out. Both are framework responses.
- Messages, templates, `get_success_url`, `get_context_data`, and the `ip` and `created` fields are rendering only.
- `slugify`, `urlparse`, `resolve_url` and `redirect_to_login` are library calls. They are parameters or inputs. The redirect is represented by the arguments it is called with.
- An anonymous user passed to `viewable_only` or to the owner filters is not modelled. The user is always a concrete id there.
- Views.UpdateText: its own contract states the 404 case and the row count only. The full effect is stated by `Views.UpdateTextChangesOnlyText`, under unique keys.
- VoteFlags.VoteDict: the ledger's order stands for the order the vote query returns its rows. `Vote` declares no ordering, so in the database that order is unspecified, and so is which duplicate row wins.

## Findings

| source | as written | input that shows it | evidently intended | confidence | as-written member | corrected member |
|---|---|---|---|---|---|---|
| pgm4app/models.py:60-61 | `Q(user=user) \| Q(is_hidden=False) \| Q(is_deleted=False)` keeps a record unless it is hidden AND deleted AND foreign | question 1 of user 1, hidden but not deleted, viewed by user 2: it is shown | the docstring: hide hidden OR deleted records that the user did not write | medium, not executed | `Queries.ViewableOnlyLeaksHidden` | `Queries.ViewableOnlyIntended` |
| pgm4app/models.py:69 | `tagged` filters on `tag__slug`, but the many-to-many field is `tags` and the join table's reverse names are hidden, so Django raises FieldError | any call, e.g. question 1 tagged `django`, `tagged('django')` | filter on `tags__slug` | high, not executed | `Queries.TaggedLookupFails` | `Queries.TaggedIntended` |
| pgm4app/models.py:143-148 | the accept check counts every accepted child, comments included, although its comment speaks of answers; yet accepting a comment is never checked | question 1 with accepted answer 2 and accepted comment 3 (a table `Save` accepts): re-saving answer 2 unchanged, or its owner editing its text, raises IntegrityError | count only other accepted answers | medium, not executed | `Store.ResaveBlockedByAcceptedComment` | `Store.SaveIntended` |
| pgm4app/models.py:83-86 | `questions_without_accepted_answer` keeps questions with a positive count of accepted children | question 1 with accepted answer 2: it is listed | questions whose children include no accepted one | medium, not executed | `Queries.AcceptedQueryInverted` | `Queries.QuestionsWithoutAcceptedAnswerIntended` |
| pgm4app/models.py:167-170 | `comments()` filters `questions()` on a question and `answers()` on an answer | question 1 with public comment 2: `comments()` is empty | filter `comments()` in both cases | high, not executed | `Store.CommentsOfMissesComments` | `Store.CommentsOfIntended` |
