/** `ContentQuerySet` of pgm4app/models.py. A queryset is an ordered
    `seq<Content>`; every filter keeps the order of its input. The child
    counts that `annotate(count=Count('children'))` computes range over the
    whole table `db`, not over the queryset being filtered, so those filters
    take both. */
module Queries {
  import opened Base
  import opened Seqs
  import opened Models

  predicate IsQuestion(c: Content) { c.ctype == 'q' }
  predicate IsAnswer(c: Content) { c.ctype == 'a' }
  predicate IsComment(c: Content) { c.ctype == 'c' }

  /** Neither hidden by its author nor deleted by an admin. */
  predicate IsPublic(c: Content) { !c.isHidden && !c.isDeleted }

  /** `Q(user=user) | Q(is_hidden=False) | Q(is_deleted=False)`, as written. */
  predicate Viewable(c: Content, u: UserId) {
    c.owner == Some(u) || !c.isHidden || !c.isDeleted
  }

  /** Some tag carrying `slug` is attached to `c`. */
  predicate HasTagSlug(c: Content, tags: seq<Tag>, slug: string) {
    exists t :: t in tags && t.id in c.tags && t.slug == slug
  }

  function Questions(qs: seq<Content>): (r: seq<Content>)
    ensures SelectedBy(r, qs, IsQuestion)
  {
    FilterSelects(qs, IsQuestion);
    Filter(qs, IsQuestion)
  }

  function Answers(qs: seq<Content>): (r: seq<Content>)
    ensures SelectedBy(r, qs, IsAnswer)
  {
    FilterSelects(qs, IsAnswer);
    Filter(qs, IsAnswer)
  }

  function Comments(qs: seq<Content>): (r: seq<Content>)
    ensures SelectedBy(r, qs, IsComment)
  {
    FilterSelects(qs, IsComment);
    Filter(qs, IsComment)
  }

  function Public(qs: seq<Content>): (r: seq<Content>)
    ensures SelectedBy(r, qs, IsPublic)
  {
    FilterSelects(qs, IsPublic);
    Filter(qs, IsPublic)
  }

  function Hidden(qs: seq<Content>): (r: seq<Content>)
    ensures SelectedBy(r, qs, IsHiddenItem)
  {
    FilterSelects(qs, IsHiddenItem);
    Filter(qs, IsHiddenItem)
  }

  function Deleted(qs: seq<Content>): (r: seq<Content>)
    ensures SelectedBy(r, qs, IsDeletedItem)
  {
    FilterSelects(qs, IsDeletedItem);
    Filter(qs, IsDeletedItem)
  }

  /** `viewable_only(user)`, as written: an item is dropped only when it is
      hidden AND deleted AND not owned by `u`. */
  function ViewableOnly(qs: seq<Content>, u: UserId): (r: seq<Content>)
    ensures SelectedBy(r, qs, c => Viewable(c, u))
    ensures forall c :: c in qs ==> (c !in r <==> c.isHidden && c.isDeleted && c.owner != Some(u))
  {
    FilterSelects(qs, c => Viewable(c, u));
    Filter(qs, c => Viewable(c, u))
  }

  /** `tagged(tag_slug)`, as written: the lookup `tag__slug` names no field
      of `Content` (the many-to-many field is `tags`, and the join table's
      reverse names are hidden), so building the filter raises. */
  function Tagged(qs: seq<Content>, tags: seq<Tag>, slug: string): (r: Result<seq<Content>>)
    ensures r.Err? && r.error == FieldError
  {
    Err(FieldError)
  }

  /** `tagged` with the lookup `tags__slug` through the many-to-many field,
      which is what its docstring ("only questions tagged with this tag")
      asks for: the items carrying a tag whose slug is `slug`; `tags` is the
      Tag table. */
  function TaggedIntended(qs: seq<Content>, tags: seq<Tag>, slug: string): (r: seq<Content>)
    ensures SelectedBy(r, qs, c => HasTagSlug(c, tags, slug))
  {
    FilterSelects(qs, c => HasTagSlug(c, tags, slug));
    Filter(qs, c => HasTagSlug(c, tags, slug))
  }

  predicate IsChildOf(x: Content, id: nat) { x.parent == Some(id) }

  predicate IsHiddenItem(c: Content) { c.isHidden }
  predicate IsDeletedItem(c: Content) { c.isDeleted }
  predicate OwnedOrPublic(c: Content, u: UserId) { c.owner == Some(u) || IsPublic(c) }

  /** `Count('children')`: rows of any type whose parent is `id`. */
  function ChildCount(db: seq<Content>, id: nat): (n: nat)
    ensures n > 0 <==> exists x :: x in db && IsChildOf(x, id)
  {
    var children := Filter(db, x => IsChildOf(x, id));
    assert |children| > 0 ==> children[0] in children;
    |children|
  }

  /** `Count(Case(When(children__is_accepted=True, then=1)))`. */
  function AcceptedChildCount(db: seq<Content>, id: nat): (n: nat)
    ensures n > 0 <==> exists x :: x in db && IsChildOf(x, id) && x.isAccepted
  {
    var accepted := Filter(db, x => IsChildOf(x, id) && x.isAccepted);
    assert |accepted| > 0 ==> accepted[0] in accepted;
    |accepted|
  }

  predicate HasChildren(db: seq<Content>, c: Content) { ChildCount(db, c.id) > 0 }
  predicate Childless(db: seq<Content>, c: Content) { ChildCount(db, c.id) == 0 }
  predicate HasAcceptedChild(db: seq<Content>, c: Content) { AcceptedChildCount(db, c.id) > 0 }
  predicate NoAcceptedChild(db: seq<Content>, c: Content) { AcceptedChildCount(db, c.id) == 0 }

  function WithChildren(db: seq<Content>, qs: seq<Content>): (r: seq<Content>)
    ensures SelectedBy(r, qs, c => HasChildren(db, c))
  {
    FilterSelects(qs, c => HasChildren(db, c));
    Filter(qs, c => HasChildren(db, c))
  }

  function WithoutChildren(db: seq<Content>, qs: seq<Content>): (r: seq<Content>)
    ensures SelectedBy(r, qs, c => Childless(db, c))
  {
    FilterSelects(qs, c => Childless(db, c));
    Filter(qs, c => Childless(db, c))
  }

  /** `questions_with_answers` on the queryset `qs`: its public questions
      with at least one child. Any child counts, a comment as much as an
      answer. */
  function QuestionsWithAnswers(db: seq<Content>, qs: seq<Content>): (r: seq<Content>)
    ensures SelectedBy(r, Questions(Public(qs)), c => HasChildren(db, c))
    ensures forall c :: c in r <==> c in qs && IsPublic(c) && IsQuestion(c) && exists x :: x in db && IsChildOf(x, c.id)
  {
    WithChildren(db, Questions(Public(qs)))
  }

  /** `questions_without_answers` on `qs`: its public questions without any
      child. */
  function QuestionsWithoutAnswers(db: seq<Content>, qs: seq<Content>): (r: seq<Content>)
    ensures SelectedBy(r, Questions(Public(qs)), c => Childless(db, c))
    ensures forall c :: c in r <==> c in qs && IsPublic(c) && IsQuestion(c) && forall x :: x in db ==> !IsChildOf(x, c.id)
  {
    WithoutChildren(db, Questions(Public(qs)))
  }

  /** `questions_without_accepted_answer` on `qs`, as written: it keeps the
      public questions that HAVE a child marked accepted. */
  function QuestionsWithoutAcceptedAnswer(db: seq<Content>, qs: seq<Content>): (r: seq<Content>)
    ensures SelectedBy(r, Questions(Public(qs)), c => HasAcceptedChild(db, c))
    ensures forall c :: c in r <==> c in qs && IsPublic(c) && IsQuestion(c) && exists x :: x in db && IsChildOf(x, c.id) && x.isAccepted
  {
    FilterSelects(Questions(Public(qs)), c => HasAcceptedChild(db, c));
    Filter(Questions(Public(qs)), c => HasAcceptedChild(db, c))
  }

  // ---------------------------------------------------------------------
  // Properties of the filters

  /** On a table whose discriminators are all valid, questions, answers and
      comments split it into three. */
  lemma TypePartition(qs: seq<Content>)
    requires forall i :: 0 <= i < |qs| ==> ValidType(qs[i].ctype)
    ensures multiset(Questions(qs)) + multiset(Answers(qs)) + multiset(Comments(qs)) == multiset(qs)
    ensures |Questions(qs)| + |Answers(qs)| + |Comments(qs)| == |qs|
  {
    var m := multiset(Questions(qs)) + multiset(Answers(qs)) + multiset(Comments(qs));
    forall c
      ensures m[c] == multiset(qs)[c]
    {
      if c in qs {
        var i :| 0 <= i < |qs| && qs[i] == c;
        assert ValidType(c.ctype);
      }
    }
    assert m == multiset(qs);
    assert |m| == |multiset(qs)|;
  }

  /** `public()` applied twice is `public()` applied once. */
  lemma PublicIdempotent(qs: seq<Content>)
    ensures Public(Public(qs)) == Public(qs)
  {
    FilterIdempotent(qs, IsPublic);
  }

  /** `public()` commutes with each type filter. */
  lemma PublicCommutes(qs: seq<Content>)
    ensures Public(Questions(qs)) == Questions(Public(qs))
    ensures Public(Answers(qs)) == Answers(Public(qs))
    ensures Public(Comments(qs)) == Comments(Public(qs))
  {
    FilterCommute(qs, IsQuestion, IsPublic);
    FilterCommute(qs, IsAnswer, IsPublic);
    FilterCommute(qs, IsComment, IsPublic);
  }

  /** The public items are those neither in `hidden()` nor in `deleted()`. */
  lemma PublicIsNeitherHiddenNorDeleted(qs: seq<Content>, c: Content)
    ensures c in Public(qs) <==> c in qs && c !in Hidden(qs) && c !in Deleted(qs)
  {
    FilterCount(qs, IsPublic);
    FilterCount(qs, IsHiddenItem);
    FilterCount(qs, IsDeletedItem);
  }

  /** Everything public is viewable by every user, in the same order, and a
      user always sees all of their own items. */
  lemma {:induction false} PublicWithinViewable(qs: seq<Content>, u: UserId)
    ensures IsSubseq(Public(qs), ViewableOnly(qs, u))
    ensures forall c :: c in qs && c.owner == Some(u) ==> c in ViewableOnly(qs, u)
  {
    FilterMono(qs, IsPublic, c => Viewable(c, u));
  }

  /** `with_children` and `without_children` split any queryset. */
  lemma ChildrenPartition(db: seq<Content>, qs: seq<Content>)
    ensures multiset(WithChildren(db, qs)) + multiset(WithoutChildren(db, qs)) == multiset(qs)
    ensures |WithChildren(db, qs)| + |WithoutChildren(db, qs)| == |qs|
  {
    FilterPartition(qs, c => HasChildren(db, c), c => Childless(db, c));
  }

  /** `questions_with_answers` and `questions_without_answers` split the
      public questions. */
  lemma AnsweredPartition(db: seq<Content>, qs: seq<Content>)
    ensures multiset(QuestionsWithAnswers(db, qs)) + multiset(QuestionsWithoutAnswers(db, qs)) == multiset(Questions(Public(qs)))
  {
    ChildrenPartition(db, Questions(Public(qs)));
  }

  /** A comment attached directly to a question is enough to move it into
      `questions_with_answers`. */
  lemma CommentCountsAsAnswer(db: seq<Content>, qs: seq<Content>, q: Content, k: Content)
    requires q in qs && IsPublic(q) && IsQuestion(q)
    requires k in db && IsComment(k) && k.parent == Some(q.id)
    ensures q in QuestionsWithAnswers(db, qs)
    ensures q !in QuestionsWithoutAnswers(db, qs)
  {
    assert IsChildOf(k, q.id);
  }

  /** Every question listed by `questions_without_accepted_answer` is also
      listed by `questions_with_answers`: having an accepted child implies
      having a child. */
  lemma {:induction false} AcceptedWithinAnswered(db: seq<Content>, qs: seq<Content>)
    ensures IsSubseq(QuestionsWithoutAcceptedAnswer(db, qs), QuestionsWithAnswers(db, qs))
  {
    var pq := Questions(Public(qs));
    forall c: Content | HasAcceptedChild(db, c)
      ensures HasChildren(db, c)
    {
      var x :| x in db && IsChildOf(x, c.id) && x.isAccepted;
      assert x in db && IsChildOf(x, c.id);
    }
    FilterMono(pq, c => HasAcceptedChild(db, c), c => HasChildren(db, c));
  }

  // ---------------------------------------------------------------------
  // Corrected readings of three filters (see README, Findings)

  /** A table where the one question carries the tag: the written filter
      raises, the corrected one returns the question. */
  lemma TaggedLookupFails()
    ensures var t := Tag(7, "Django", "django");
            var q := Content(1, 'q', "", "Why?", "", None, Some(1), {7}, false, false, false);
            Tagged([q], [t], "django") == Err(FieldError) && TaggedIntended([q], [t], "django") == [q]
  {
    var t := Tag(7, "Django", "django");
    var q := Content(1, 'q', "", "Why?", "", None, Some(1), {7}, false, false, false);
    assert HasTagSlug(q, [t], "django") by {
      assert t in [t];
    }
    FilterSingle(q, c => HasTagSlug(c, [t], "django"));
  }

  /** `viewable_only` as its docstring describes it: every item except the
      hidden or deleted ones that `u` did not write. */
  function ViewableOnlyIntended(qs: seq<Content>, u: UserId): (r: seq<Content>)
    ensures SelectedBy(r, qs, c => OwnedOrPublic(c, u))
    ensures forall c :: c in qs ==> (c !in r <==> (c.isHidden || c.isDeleted) && c.owner != Some(u))
  {
    FilterSelects(qs, c => OwnedOrPublic(c, u));
    Filter(qs, c => OwnedOrPublic(c, u))
  }

  /** The intended filter shows nothing the written one hides, keeps all that
      is public, and leaks nothing hidden or deleted of other users. */
  lemma {:induction false} ViewableOnlyIntendedSound(qs: seq<Content>, u: UserId)
    ensures IsSubseq(Public(qs), ViewableOnlyIntended(qs, u))
    ensures IsSubseq(ViewableOnlyIntended(qs, u), ViewableOnly(qs, u))
    ensures forall c :: c in ViewableOnlyIntended(qs, u) && c.owner != Some(u) ==> IsPublic(c)
  {
    FilterMono(qs, IsPublic, c => OwnedOrPublic(c, u));
    FilterMono(qs, c => OwnedOrPublic(c, u), c => Viewable(c, u));
  }

  /** The written filter shows user 2 an item that user 1 hid. */
  lemma ViewableOnlyLeaksHidden()
    ensures var c := Content(1, 'q', "", "Why?", "", None, Some(1), {}, true, false, false);
            c in ViewableOnly([c], 2) && c !in ViewableOnlyIntended([c], 2)
  {
  }

  /** `questions_without_accepted_answer` as its name describes it: public
      questions none of whose children is accepted. */
  function QuestionsWithoutAcceptedAnswerIntended(db: seq<Content>, qs: seq<Content>): (r: seq<Content>)
    ensures SelectedBy(r, Questions(Public(qs)), c => NoAcceptedChild(db, c))
    ensures forall c :: c in r <==> c in qs && IsPublic(c) && IsQuestion(c) && forall x :: x in db && IsChildOf(x, c.id) ==> !x.isAccepted
  {
    FilterSelects(Questions(Public(qs)), c => NoAcceptedChild(db, c));
    Filter(Questions(Public(qs)), c => NoAcceptedChild(db, c))
  }

  /** The written and the intended filter are complements within the public
      questions. */
  lemma AcceptedQueriesComplement(db: seq<Content>, qs: seq<Content>)
    ensures multiset(QuestionsWithoutAcceptedAnswer(db, qs)) + multiset(QuestionsWithoutAcceptedAnswerIntended(db, qs))
         == multiset(Questions(Public(qs)))
  {
    FilterPartition(Questions(Public(qs)), c => HasAcceptedChild(db, c), c => NoAcceptedChild(db, c));
  }

  /** A question whose answer is accepted is reported as having none
      accepted. */
  lemma AcceptedQueryInverted()
    ensures var q := Content(1, 'q', "", "Why?", "", None, Some(1), {}, false, false, false);
            var a := Content(2, 'a', "", "", "Because.", Some(1), Some(2), {}, false, false, true);
            q in QuestionsWithoutAcceptedAnswer([q, a], [q, a]) && q !in QuestionsWithoutAcceptedAnswerIntended([q, a], [q, a])
  {
    var q := Content(1, 'q', "", "Why?", "", None, Some(1), {}, false, false, false);
    var a := Content(2, 'a', "", "", "Because.", Some(1), Some(2), {}, false, false, true);
    assert a in [q, a] && IsChildOf(a, q.id) && a.isAccepted;
    assert q in [q, a];
  }
}
