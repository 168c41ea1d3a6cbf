/** The decision logic of pgm4app/views.py, as operations on the abstract
    table. Request parameters arrive as `Option<string>` (absent or given);
    the requesting user is an explicit parameter; `slugify` is Django's
    library function, passed in. */
module Views {
  import opened Base
  import opened Seqs
  import opened Text
  import opened Models
  import opened Queries
  import opened Store

  // ---------------------------------------------------------------------
  // Question list

  const Orders: seq<string> := ["hot", "new", "top"]

  /** `QuestionListView._get_order`: the `order` parameter when it names a
      known order, `"hot"` otherwise or when it is absent. */
  function GetOrder(order: Option<string>): (r: string)
    ensures r in Orders
    ensures order.Some? && order.value in Orders ==> r == order.value
    ensures !(order.Some? && order.value in Orders) ==> r == "hot"
  {
    var o := order.GetOr("hot");
    if o in Orders then o else "hot"
  }

  /** Normalising an already normalised order changes nothing. */
  lemma GetOrderIdempotent(order: Option<string>)
    ensures GetOrder(Some(GetOrder(order))) == GetOrder(order)
  {
  }

  predicate IsPublicQuestion(c: Content) { IsPublic(c) && IsQuestion(c) }

  /** `QuestionListView.get_queryset` without the ordering itself: the
      normalised order and the public questions it is applied to. */
  function QuestionList(db: seq<Content>, order: Option<string>): (r: (string, seq<Content>))
    ensures r.0 in Orders && r.0 == GetOrder(order)
    ensures SelectedBy(r.1, db, IsPublicQuestion)
    ensures forall c :: c in r.1 <==> c in db && IsPublic(c) && IsQuestion(c)
  {
    FilterFuse(db, IsPublic, IsQuestion, IsPublicQuestion);
    FilterSelects(db, IsPublicQuestion);
    (GetOrder(order), Questions(Public(db)))
  }

  // ---------------------------------------------------------------------
  // Creating content

  /** The fields of the question form that reach the new record. */
  datatype QuestionForm = QuestionForm(title: string, text: string, tags: set<nat>)

  /** A new record as the form leaves it before `form_valid` runs: no
      parent, no owner, default flags, the database's next primary key. */
  function NewRecord(db: seq<Content>, title: string, text: string, tags: set<nat>): (c: Content)
    ensures !HasId(db, c.id)
    ensures c.parent.None? && c.owner.None? && IsPublic(c) && !c.isAccepted
  {
    // The discriminator is not set yet: `' '` is none of the three kinds,
    // and every caller sets it before saving.
    Content(FreshId(db), ' ', "", title, text, None, None, tags, false, false, false)
  }

  /** `QuestionCreateView.form_valid`: the record gets type question and the
      requesting user as owner, then is saved. `None` is the anonymous user,
      whom the foreign key refuses with ValueError; the view is reachable
      without logging in. */
  function CreateQuestion(db: seq<Content>, form: QuestionForm, user: Option<UserId>, slugify: string -> string)
    : (r: Result<seq<Content>>)
    ensures r.Ok? <==> user.Some?
    ensures r.Err? ==> r.error == ValueError
    ensures r.Ok? ==> |r.value| == |db| + 1 && r.value[..|db|] == db
    ensures r.Ok? ==> var c := r.value[|db|];
            && IsQuestion(c) && c.owner == user && c.parent.None? && !HasId(db, c.id)
            && c.title == form.title && c.text == form.text && c.tags == form.tags
            && c.slug == slugify(form.title) && IsPublic(c)
  {
    var t := GetContentTypeId("question").value;
    if user.None? then Err(ValueError)
    else
      var c := NewRecord(db, form.title, form.text, form.tags).(ctype := t, owner := user);
      var r := Save(db, c, slugify);
      assert r.value == Upsert(db, c.(slug := slugify(c.title)));
      r
  }

  /** A question created by a logged-in user is listed last among the public
      questions, after all the earlier ones. */
  lemma CreatedQuestionListed(db: seq<Content>, form: QuestionForm, user: UserId, slugify: string -> string)
    ensures var db' := CreateQuestion(db, form, Some(user), slugify).value;
            Questions(Public(db')) == Questions(Public(db)) + [db'[|db|]]
  {
    var db' := CreateQuestion(db, form, Some(user), slugify).value;
    assert db' == db + [db'[|db|]];
    FilterAppend(db, [db'[|db|]], IsPublic);
    FilterAppend(Public(db), [db'[|db|]], IsQuestion);
    FilterSingle(db'[|db|], IsPublic);
    FilterSingle(db'[|db|], IsQuestion);
  }

  /** The first record of `qs` with primary key `pk`. */
  function FindById(qs: seq<Content>, pk: nat): (r: Option<Content>)
    ensures r.Some? <==> exists x :: x in qs && x.id == pk
    ensures r.Some? ==> r.value in qs && r.value.id == pk
  {
    if |qs| == 0 then None
    else if qs[0].id == pk then Some(qs[0])
    else FindById(qs[1..], pk)
  }

  /** `AnswerCreateView._get_question_object`: the public question with
      primary key `pk`, or 404. */
  function GetQuestionObject(db: seq<Content>, pk: nat): (r: Result<Content>)
    ensures r.Ok? <==> exists x :: x in db && IsPublic(x) && IsQuestion(x) && x.id == pk
    ensures r.Ok? ==> r.value in db && IsPublic(r.value) && IsQuestion(r.value) && r.value.id == pk
    ensures r.Err? ==> r.error == NotFound
  {
    match FindById(Questions(Public(db)), pk)
    case Some(q) => Ok(q)
    case None => Err(NotFound)
  }

  /** `AnswerCreateView.form_valid`: the target must be a public question;
      the new record is an answer to it owned by the requesting user. The
      404 comes first; an anonymous user then gets ValueError. */
  function CreateAnswer(db: seq<Content>, questionPk: nat, text: string, user: Option<UserId>, slugify: string -> string)
    : (r: Result<seq<Content>>)
    ensures r == Err(NotFound) <==> !exists x :: x in db && IsPublic(x) && IsQuestion(x) && x.id == questionPk
    ensures r == Err(ValueError) <==> (exists x :: x in db && IsPublic(x) && IsQuestion(x) && x.id == questionPk) && user.None?
    ensures r.Err? ==> r.error == NotFound || r.error == ValueError
    ensures r.Ok? ==> |r.value| == |db| + 1 && r.value[..|db|] == db
    ensures r.Ok? ==> var c := r.value[|db|];
                      && IsAnswer(c) && c.parent == Some(questionPk) && c.owner == user && user.Some?
                      && c.text == text && !c.isAccepted && !HasId(db, c.id)
  {
    var t := GetContentTypeId("answer").value;
    var q :- GetQuestionObject(db, questionPk);
    if user.None? then Err(ValueError)
    else
      var c := NewRecord(db, "", text, {}).(ctype := t, parent := Some(q.id), owner := user);
      var r := Save(db, c, slugify);
      assert r.value == Upsert(db, c);
      r
  }

  /** `CommentCreateView.get_parent` and `form_valid`: any existing record
      may be commented on, whatever its type or visibility. The 404 comes
      first; an anonymous user then gets ValueError. */
  function CreateComment(db: seq<Content>, parentPk: nat, text: string, user: Option<UserId>, slugify: string -> string)
    : (r: Result<seq<Content>>)
    ensures r == Err(NotFound) <==> !exists x :: x in db && x.id == parentPk
    ensures r == Err(ValueError) <==> (exists x :: x in db && x.id == parentPk) && user.None?
    ensures r.Err? ==> r.error == NotFound || r.error == ValueError
    ensures r.Ok? ==> |r.value| == |db| + 1 && r.value[..|db|] == db
    ensures r.Ok? ==> var c := r.value[|db|];
                      && IsComment(c) && c.parent == Some(parentPk) && c.owner == user && user.Some?
                      && c.text == text && !HasId(db, c.id)
  {
    var t := GetContentTypeId("comment").value;
    match FindById(db, parentPk)
    case None => Err(NotFound)
    case Some(p) =>
      if user.None? then Err(ValueError)
      else
        var c := NewRecord(db, "", text, {}).(ctype := t, parent := Some(p.id), owner := user);
        var r := Save(db, c, slugify);
        assert r.value == Upsert(db, c);
        r
  }

  /** A hidden question takes comments but no answers. */
  lemma HiddenQuestionTakesCommentsOnly(slugify: string -> string)
    ensures var q := Content(1, 'q', "", "Why?", "", None, Some(1), {}, true, false, false);
            CreateAnswer([q], 1, "Because.", Some(2), slugify) == Err(NotFound)
            && CreateComment([q], 1, "Hm.", Some(2), slugify).Ok?
  {
    var q := Content(1, 'q', "", "Why?", "", None, Some(1), {}, true, false, false);
    assert q in [q];
  }

  // ---------------------------------------------------------------------
  // Updating content

  /** The update views' `get_queryset().filter(user=request.user)` followed
      by the lookup of `pk`: only the requester's own records are found,
      of any type. */
  function OwnedObject(db: seq<Content>, pk: nat, user: UserId): (r: Result<Content>)
    ensures r.Ok? <==> exists x :: x in db && x.id == pk && x.owner == Some(user)
    ensures r.Ok? ==> r.value in db && r.value.id == pk && r.value.owner == Some(user)
    ensures r.Err? ==> r.error == NotFound
  {
    match FindById(Filter(db, x => OwnedBy(x, user)), pk)
    case Some(x) => Ok(x)
    case None => Err(NotFound)
  }

  predicate OwnedBy(x: Content, user: UserId) {
    x.owner == Some(user)
  }

  /** `AnswerUpdateView` / `CommentUpdateView`: the form edits `text` only;
      the edited record is saved through `Content.save`. */
  function UpdateText(db: seq<Content>, pk: nat, user: UserId, text: string, slugify: string -> string)
    : (r: Result<seq<Content>>)
    ensures r == Err(NotFound) <==> !exists x :: x in db && x.id == pk && x.owner == Some(user)
    ensures r.Ok? ==> |r.value| == |db|
  {
    var obj :- OwnedObject(db, pk, user);
    var r := Save(db, obj.(text := text), slugify);
    assert HasId(db, pk) by {
      var i :| 0 <= i < |db| && db[i] == obj;
    }
    r
  }

  /** With unique keys, a successful text update changes the requester's
      record with key `pk` in its text (and, for a question, its slug) and
      leaves every other row where and as it was. */
  lemma UpdateTextChangesOnlyText(db: seq<Content>, pk: nat, user: UserId, text: string, slugify: string -> string)
    requires UniqueIds(db)
    ensures UpdateText(db, pk, user, text, slugify).Ok? ==>
            var db' := UpdateText(db, pk, user, text, slugify).value;
            forall i :: 0 <= i < |db| ==>
              if db[i].id == pk then
                db[i].owner == Some(user)
                && db'[i] == db[i].(text := text, slug := if IsQuestion(db[i]) then slugify(db[i].title) else db[i].slug)
              else db'[i] == db[i]
  {
    if UpdateText(db, pk, user, text, slugify).Err? {
      return;
    }
    var obj := OwnedObject(db, pk, user).value;
    var k :| 0 <= k < |db| && db[k] == obj;
    var edited := obj.(text := text);
    var stored := if IsQuestion(edited) then edited.(slug := slugify(edited.title)) else edited;
    assert UpdateText(db, pk, user, text, slugify) == Save(db, edited, slugify);
    assert HasId(db, pk);
    assert UpdateText(db, pk, user, text, slugify).value == Replace(db, stored);
  }

  /** The table of `ResaveBlockedByAcceptedComment`: the owner of the
      accepted answer cannot edit its text, because saving it meets the
      accepted comment. */
  lemma AcceptedAnswerNotEditable(slugify: string -> string)
    ensures var q := Content(1, 'q', "", "Why?", "", None, Some(1), {}, false, false, false);
            var a := Content(2, 'a', "", "", "Because.", Some(1), Some(2), {}, false, false, true);
            var k := Content(3, 'c', "", "", "Yes.", Some(1), Some(3), {}, false, false, true);
            UpdateText([q, a, k], 2, 2, "Edited.", slugify) == Err(IntegrityError)
  {
    var q := Content(1, 'q', "", "Why?", "", None, Some(1), {}, false, false, false);
    var a := Content(2, 'a', "", "", "Because.", Some(1), Some(2), {}, false, false, true);
    var k := Content(3, 'c', "", "", "Yes.", Some(1), Some(3), {}, false, false, true);
    var db := [q, a, k];
    assert a in db;
    // Only `a` has key 2, so the owner lookup finds it.
    assert forall x :: x in db && x.id == 2 ==> x == a;
    var edited := a.(text := "Edited.");
    assert UpdateText(db, 2, 2, "Edited.", slugify) == Save(db, edited, slugify);
    assert HasId(db, 1) by {
      assert db[0].id == 1;
    }
    assert OtherAcceptedChild(db, 1, edited) by {
      assert k in db;
    }
  }

  // ---------------------------------------------------------------------
  // Voting redirect

  /** `VoteView.post` for a non-AJAX request: back to the referer (or the
      content's own URL without one), with `#hash` appended when a hash was
      posted. */
  function VoteRedirect(referer: Option<string>, contentUrl: string, hash: string): (r: string)
    ensures hash == "" ==> r == referer.GetOr(contentUrl)
    ensures hash != "" ==> r == referer.GetOr(contentUrl) + "#" + hash
  {
    var next := referer.GetOr(contentUrl);
    var suffix := if hash != "" then "#" + hash else "";
    next + suffix
  }

  /** The text before the first `#` and, if there is one, the text after it. */
  function SplitAtHash(s: string): (r: (string, Option<string>))
    ensures r.1.None? ==> r.0 == s && '#' !in s
    ensures r.1.Some? ==> s == r.0 + "#" + r.1.value && '#' !in r.0
  {
    if |s| == 0 then ("", None)
    else if s[0] == '#' then
      assert s == "" + "#" + s[1..];
      ("", Some(s[1..]))
    else
      var rest := SplitAtHash(s[1..]);
      assert s == [s[0]] + s[1..];
      ([s[0]] + rest.0, rest.1)
  }

  lemma {:induction false} SplitAtHashUnique(a: string, b: string)
    requires '#' !in a
    ensures SplitAtHash(a + "#" + b) == (a, Some(b))
    ensures SplitAtHash(a) == (a, None)
  {
    if |a| > 0 {
      SplitAtHashUnique(a[1..], b);
      assert (a + "#" + b)[1..] == a[1..] + "#" + b;
      assert a == [a[0]] + a[1..];
    } else {
      assert a + "#" + b == "#" + b;
    }
  }

  /** A target URL without a fragment of its own can be taken apart again:
      the page and the posted hash are both recovered. */
  lemma VoteRedirectRoundTrip(referer: Option<string>, contentUrl: string, hash: string)
    requires '#' !in referer.GetOr(contentUrl)
    ensures var parts := SplitAtHash(VoteRedirect(referer, contentUrl, hash));
            parts.0 == referer.GetOr(contentUrl) && parts.1.GetOr("") == hash
  {
    SplitAtHashUnique(referer.GetOr(contentUrl), hash);
  }

  // ---------------------------------------------------------------------
  // Tag pre-selection

  predicate SlugListed(t: Tag, slugs: seq<string>) {
    t.slug in slugs
  }

  /** `QuestionCreateView.get_initial`: the tags whose slug is one of the
      words of the `tags` parameter split on single spaces (an absent
      parameter counts as the empty string). */
  function InitialTags(tags: seq<Tag>, param: Option<string>): (r: seq<Tag>)
    ensures SelectedBy(r, tags, t => SlugListed(t, Split(param.GetOr(""), ' ')))
  {
    var slugs := Split(param.GetOr(""), ' ');
    FilterSelects(tags, t => SlugListed(t, slugs));
    Filter(tags, t => SlugListed(t, slugs))
  }

  /** A space-joined list of slugs pre-selects exactly the tags carrying one
      of them. */
  lemma InitialTagsOfWords(tags: seq<Tag>, words: seq<string>, t: Tag)
    requires |words| >= 1 && forall i :: 0 <= i < |words| ==> ' ' !in words[i]
    ensures t in InitialTags(tags, Some(Join(words, ' '))) <==> t in tags && t.slug in words
  {
    SplitJoin(words, ' ');
  }

  /** Without the parameter, `''.split(' ')` is `['']`: exactly the tags
      with an empty slug are pre-selected. */
  lemma InitialTagsWithoutParam(tags: seq<Tag>, t: Tag)
    ensures t in InitialTags(tags, None) <==> t in tags && t.slug == ""
  {
    assert Split("", ' ') == [""];
  }
}
