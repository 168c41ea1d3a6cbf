/** `Content.save`, `Content.answers` and `Content.comments` of
    pgm4app/models.py, over a table held as `seq<Content>`. Saving is an
    atomic transition that either yields the new table or the exception the
    source raises; on an exception the caller keeps the old table. */
module Store {
  import opened Base
  import opened Seqs
  import opened Models
  import opened Queries

  predicate HasId(db: seq<Content>, id: nat) {
    exists i :: 0 <= i < |db| && db[i].id == id
  }

  /** Primary keys are unique. */
  predicate UniqueIds(db: seq<Content>) {
    forall i, j :: 0 <= i < |db| && 0 <= j < |db| && db[i].id == db[j].id ==> i == j
  }

  predicate IsAcceptedAnswer(x: Content) {
    x.ctype == 'a' && x.isAccepted && x.parent.Some?
  }

  /** The invariant the accept check protects: no parent has two accepted
      answers. */
  predicate OneAcceptedAnswer(db: seq<Content>) {
    forall i, j ::
      (0 <= i < |db| && 0 <= j < |db| && IsAcceptedAnswer(db[i]) && IsAcceptedAnswer(db[j])
       && db[i].parent == db[j].parent) ==> i == j
  }

  /** The stronger reading: no parent has two accepted children of any type. */
  predicate OneAcceptedChild(db: seq<Content>) {
    forall i, j ::
      (0 <= i < |db| && 0 <= j < |db| && db[i].isAccepted && db[j].isAccepted
       && db[i].parent.Some? && db[i].parent == db[j].parent) ==> i == j
  }

  /** `parent.children.filter(is_accepted=True).exclude(pk=c.pk).exists()` */
  predicate OtherAcceptedChild(db: seq<Content>, parent: nat, c: Content) {
    exists x :: x in db && IsChildOf(x, parent) && x.isAccepted && x.id != c.id
  }

  function Replace(db: seq<Content>, c: Content): (r: seq<Content>)
    ensures |r| == |db|
    ensures forall i :: 0 <= i < |db| ==> r[i] == if db[i].id == c.id then c else db[i]
  {
    if |db| == 0 then []
    else [if db[0].id == c.id then c else db[0]] + Replace(db[1..], c)
  }

  /** Django's `Model.save()` write: an UPDATE of the row with the same
      primary key if there is one, an INSERT at the end otherwise. */
  function Upsert(db: seq<Content>, c: Content): (r: seq<Content>)
    ensures c in r
    ensures forall x :: x in r ==> x == c || x in db
    ensures forall x :: x in db && x.id != c.id ==> x in r
    ensures UniqueIds(db) ==> UniqueIds(r)
    ensures HasId(db, c.id) ==> |r| == |db|
    ensures HasId(db, c.id) ==> forall i :: 0 <= i < |db| ==> r[i] == if db[i].id == c.id then c else db[i]
    ensures !HasId(db, c.id) ==> |r| == |db| + 1 && r[..|db|] == db
  {
    if HasId(db, c.id) then
      var r := Replace(db, c);
      var k :| 0 <= k < |db| && db[k].id == c.id;
      assert r[k] == c;
      r
    else
      var r := db + [c];
      assert r[|db|] == c;
      assert r[..|db|] == db;
      r
  }

  /** `Content.save`. A question's slug is recomputed from its title; an
      accepted answer is refused when another child of its parent is already
      accepted. A missing parent raises, as dereferencing it does. */
  function Save(db: seq<Content>, c: Content, slugify: string -> string): (r: Result<seq<Content>>)
    ensures r.Err? <==> IsAnswer(c) && c.isAccepted
                        && (c.parent.None? || !HasId(db, c.parent.value) || OtherAcceptedChild(db, c.parent.value, c))
    ensures r == Err(AttributeError) <==> IsAnswer(c) && c.isAccepted && c.parent.None?
    ensures r == Err(DoesNotExist) <==> IsAnswer(c) && c.isAccepted && c.parent.Some? && !HasId(db, c.parent.value)
    ensures r == Err(IntegrityError) <==> IsAnswer(c) && c.isAccepted && c.parent.Some? && HasId(db, c.parent.value)
                                          && OtherAcceptedChild(db, c.parent.value, c)
    ensures r.Ok? && IsQuestion(c) ==> c.(slug := slugify(c.title)) in r.value
    ensures r.Ok? && !IsQuestion(c) ==> c in r.value
    ensures r.Ok? ==> forall x :: x in db && x.id != c.id ==> x in r.value
    ensures r.Ok? ==> forall x :: x in r.value ==> x.id == c.id || x in db
    ensures r.Ok? && UniqueIds(db) ==> UniqueIds(r.value)
    ensures r.Ok? && HasId(db, c.id) ==> |r.value| == |db|
    ensures r.Ok? && HasId(db, c.id) ==>
              forall i :: 0 <= i < |db| ==> r.value[i] == if db[i].id == c.id then Stored(c, slugify) else db[i]
    ensures r.Ok? && !HasId(db, c.id) ==> |r.value| == |db| + 1 && r.value[..|db|] == db
  {
    if IsAnswer(c) && c.isAccepted then
      if c.parent.None? then Err(AttributeError)
      else if !HasId(db, c.parent.value) then Err(DoesNotExist)
      else if OtherAcceptedChild(db, c.parent.value, c) then Err(IntegrityError)
      else Ok(Upsert(db, Stored(c, slugify)))
    else Ok(Upsert(db, Stored(c, slugify)))
  }

  /** The record as written to the table: a question's slug recomputed. */
  function Stored(c: Content, slugify: string -> string): Content {
    if IsQuestion(c) then c.(slug := slugify(c.title)) else c
  }

  /** A successful save keeps primary keys unique and keeps every parent to
      at most one accepted answer. */
  lemma SavePreservesInvariant(db: seq<Content>, c: Content, slugify: string -> string)
    requires UniqueIds(db) && OneAcceptedAnswer(db)
    requires Save(db, c, slugify).Ok?
    ensures UniqueIds(Save(db, c, slugify).value)
    ensures OneAcceptedAnswer(Save(db, c, slugify).value)
  {
    var stored := Stored(c, slugify);
    var r := Save(db, c, slugify).value;
    assert r == Upsert(db, stored);
    assert stored.id == c.id && IsAcceptedAnswer(stored) == IsAcceptedAnswer(c) && stored.parent == c.parent;
    if IsAcceptedAnswer(c) {
      forall x | x in db && IsAcceptedAnswer(x) && x.parent == c.parent
        ensures x.id == c.id
      {
        assert IsChildOf(x, c.parent.value);
      }
    }
    forall i, j | 0 <= i < |r| && 0 <= j < |r| && IsAcceptedAnswer(r[i]) && IsAcceptedAnswer(r[j])
                  && r[i].parent == r[j].parent
      ensures i == j
    {
      if HasId(db, c.id) {
        var ri := if db[i].id == c.id then stored else db[i];
        var rj := if db[j].id == c.id then stored else db[j];
        assert r[i] == ri && r[j] == rj;
      } else if i < |db| && j < |db| {
        assert r[i] == db[i] && r[j] == db[j];
      }
    }
  }

  /** Re-saving a stored accepted answer succeeds and changes nothing, as
      long as no parent has two accepted children of any type (an invariant
      `Save` does not keep, see `AcceptedCommentNotChecked`). */
  lemma ResaveAcceptedAnswer(db: seq<Content>, c: Content, slugify: string -> string)
    requires UniqueIds(db) && OneAcceptedChild(db)
    requires c in db && IsAnswer(c) && c.isAccepted && c.parent.Some? && HasId(db, c.parent.value)
    ensures Save(db, c, slugify) == Ok(db)
  {
    var k :| 0 <= k < |db| && db[k] == c;
    var r := Replace(db, c);
    forall i | 0 <= i < |db|
      ensures r[i] == db[i]
    {
      if db[i].id == c.id {
        assert i == k;
      }
    }
    assert r == db;
  }

  /** The accept check looks at every child: an accepted comment blocks
      accepting an answer to the same question. */
  lemma AcceptedCommentBlocksAnswer(slugify: string -> string)
    ensures var q := Content(1, 'q', "", "Why?", "", None, Some(1), {}, false, false, false);
            var k := Content(2, 'c', "", "", "Yes.", Some(1), Some(2), {}, false, false, true);
            var a := Content(3, 'a', "", "", "Because.", Some(1), Some(3), {}, false, false, true);
            Save([q, k], a, slugify) == Err(IntegrityError)
  {
    var q := Content(1, 'q', "", "Why?", "", None, Some(1), {}, false, false, false);
    var k := Content(2, 'c', "", "", "Yes.", Some(1), Some(2), {}, false, false, true);
    assert [q, k][0].id == 1;
    assert k in [q, k];
  }

  /** Only answers are checked: saving an accepted comment next to an
      accepted answer succeeds, so two accepted children can coexist. */
  lemma AcceptedCommentNotChecked(slugify: string -> string)
    ensures var q := Content(1, 'q', "", "Why?", "", None, Some(1), {}, false, false, false);
            var a := Content(2, 'a', "", "", "Because.", Some(1), Some(2), {}, false, false, true);
            var k := Content(3, 'c', "", "", "Yes.", Some(1), Some(3), {}, false, false, true);
            Save([q, a], k, slugify) == Ok([q, a, k]) && !OneAcceptedChild([q, a, k])
  {
    var q := Content(1, 'q', "", "Why?", "", None, Some(1), {}, false, false, false);
    var a := Content(2, 'a', "", "", "Because.", Some(1), Some(2), {}, false, false, true);
    var k := Content(3, 'c', "", "", "Yes.", Some(1), Some(3), {}, false, false, true);
    assert !HasId([q, a], 3);
    assert Upsert([q, a], k) == [q, a] + [k] == [q, a, k];
    var db := [q, a, k];
    assert db[1].isAccepted && db[2].isAccepted && db[1].parent.Some? && db[1].parent == db[2].parent;
  }

  /** With an accepted answer and an accepted comment under one question
      (which `AcceptedCommentNotChecked` shows `Save` lets in), the table
      keeps keys unique and one accepted answer per question, yet re-saving
      the stored answer unchanged is refused. */
  lemma ResaveBlockedByAcceptedComment(slugify: string -> string)
    ensures var q := Content(1, 'q', "", "Why?", "", None, Some(1), {}, false, false, false);
            var a := Content(2, 'a', "", "", "Because.", Some(1), Some(2), {}, false, false, true);
            var k := Content(3, 'c', "", "", "Yes.", Some(1), Some(3), {}, false, false, true);
            UniqueIds([q, a, k]) && OneAcceptedAnswer([q, a, k])
            && Save([q, a, k], a, slugify) == Err(IntegrityError)
  {
    var q := Content(1, 'q', "", "Why?", "", None, Some(1), {}, false, false, false);
    var a := Content(2, 'a', "", "", "Because.", Some(1), Some(2), {}, false, false, true);
    var k := Content(3, 'c', "", "", "Yes.", Some(1), Some(3), {}, false, false, true);
    var db := [q, a, k];
    assert db[0].id == 1 && k in db;
  }

  /** Another accepted ANSWER of the same parent, as the check's comment
      describes it. */
  predicate OtherAcceptedAnswer(db: seq<Content>, parent: nat, c: Content) {
    exists x :: x in db && IsAnswer(x) && IsChildOf(x, parent) && x.isAccepted && x.id != c.id
  }

  /** `Content.save` with the check restricted to answers: an accepted answer
      is refused only when its parent already has another accepted answer. */
  function SaveIntended(db: seq<Content>, c: Content, slugify: string -> string): (r: Result<seq<Content>>)
    ensures r.Err? <==> IsAnswer(c) && c.isAccepted
                        && (c.parent.None? || !HasId(db, c.parent.value) || OtherAcceptedAnswer(db, c.parent.value, c))
    ensures r == Err(AttributeError) <==> IsAnswer(c) && c.isAccepted && c.parent.None?
    ensures r == Err(DoesNotExist) <==> IsAnswer(c) && c.isAccepted && c.parent.Some? && !HasId(db, c.parent.value)
    ensures r == Err(IntegrityError) <==> IsAnswer(c) && c.isAccepted && c.parent.Some? && HasId(db, c.parent.value)
                                          && OtherAcceptedAnswer(db, c.parent.value, c)
    ensures r.Ok? ==> Stored(c, slugify) in r.value
    ensures r.Ok? ==> forall x :: x in db && x.id != c.id ==> x in r.value
    ensures r.Ok? ==> forall x :: x in r.value ==> x.id == c.id || x in db
    ensures r.Ok? && UniqueIds(db) ==> UniqueIds(r.value)
    ensures r.Ok? && HasId(db, c.id) ==> |r.value| == |db|
    ensures r.Ok? && HasId(db, c.id) ==>
              forall i :: 0 <= i < |db| ==> r.value[i] == if db[i].id == c.id then Stored(c, slugify) else db[i]
    ensures r.Ok? && !HasId(db, c.id) ==> |r.value| == |db| + 1 && r.value[..|db|] == db
  {
    if IsAnswer(c) && c.isAccepted then
      if c.parent.None? then Err(AttributeError)
      else if !HasId(db, c.parent.value) then Err(DoesNotExist)
      else if OtherAcceptedAnswer(db, c.parent.value, c) then Err(IntegrityError)
      else Ok(Upsert(db, Stored(c, slugify)))
    else Ok(Upsert(db, Stored(c, slugify)))
  }

  /** Under the invariant the corrected save keeps (unique keys, one accepted
      answer per parent), re-saving a stored accepted answer succeeds and
      leaves the table unchanged, whatever comments are accepted. */
  lemma ResaveAcceptedAnswerIntended(db: seq<Content>, c: Content, slugify: string -> string)
    requires UniqueIds(db) && OneAcceptedAnswer(db)
    requires c in db && IsAnswer(c) && c.isAccepted && c.parent.Some? && HasId(db, c.parent.value)
    ensures SaveIntended(db, c, slugify) == Ok(db)
  {
    var k :| 0 <= k < |db| && db[k] == c;
    if OtherAcceptedAnswer(db, c.parent.value, c) {
      var x :| x in db && IsAnswer(x) && IsChildOf(x, c.parent.value) && x.isAccepted && x.id != c.id;
      var j :| 0 <= j < |db| && db[j] == x;
      assert IsAcceptedAnswer(db[j]) && IsAcceptedAnswer(db[k]);
      assert false;
    }
    var r := Replace(db, c);
    forall i | 0 <= i < |db|
      ensures r[i] == db[i]
    {
      if db[i].id == c.id {
        assert i == k;
      }
    }
    assert r == db;
  }

  /** The corrected save keeps unique keys and one accepted answer per
      parent. */
  lemma SaveIntendedPreservesInvariant(db: seq<Content>, c: Content, slugify: string -> string)
    requires UniqueIds(db) && OneAcceptedAnswer(db)
    requires SaveIntended(db, c, slugify).Ok?
    ensures UniqueIds(SaveIntended(db, c, slugify).value)
    ensures OneAcceptedAnswer(SaveIntended(db, c, slugify).value)
  {
    var stored := Stored(c, slugify);
    var r := SaveIntended(db, c, slugify).value;
    assert r == Upsert(db, stored);
    assert stored.id == c.id && IsAcceptedAnswer(stored) == IsAcceptedAnswer(c) && stored.parent == c.parent;
    if IsAcceptedAnswer(c) {
      forall x | x in db && IsAcceptedAnswer(x) && x.parent == c.parent
        ensures x.id == c.id
      {
        assert IsChildOf(x, c.parent.value);
      }
    }
    forall i, j | 0 <= i < |r| && 0 <= j < |r| && IsAcceptedAnswer(r[i]) && IsAcceptedAnswer(r[j])
                  && r[i].parent == r[j].parent
      ensures i == j
    {
      if HasId(db, c.id) {
        var ri := if db[i].id == c.id then stored else db[i];
        var rj := if db[j].id == c.id then stored else db[j];
        assert r[i] == ri && r[j] == rj;
      } else if i < |db| && j < |db| {
        assert r[i] == db[i] && r[j] == db[j];
      }
    }
  }

  /** A primary key larger than every stored one: the value the database's
      auto-increment hands to a new row. */
  function FreshId(db: seq<Content>): (n: nat)
    ensures forall x :: x in db ==> x.id < n
    ensures !HasId(db, n)
  {
    if |db| == 0 then 0
    else
      var rest := FreshId(db[1..]);
      assert forall x :: x in db ==> x == db[0] || x in db[1..];
      if db[0].id + 1 > rest then db[0].id + 1 else rest
  }

  predicate AnswerOf(x: Content, parent: nat, publicOnly: bool) {
    IsAnswer(x) && IsChildOf(x, parent) && (publicOnly ==> IsPublic(x))
  }

  /** `Content.answers(public_only)`: only a question has answers. */
  function AnswersOf(db: seq<Content>, self: Content, publicOnly: bool): (r: Result<seq<Content>>)
    ensures r.Err? <==> !IsQuestion(self)
    ensures r.Err? ==> r.error == ValueError
    ensures r.Ok? ==> SelectedBy(r.value, db, x => AnswerOf(x, self.id, publicOnly))
  {
    if IsQuestion(self) then
      var qs := if publicOnly then Public(Answers(db)) else Answers(db);
      var r := Filter(qs, x => IsChildOf(x, self.id));
      FilterFuse(db, IsAnswer, IsPublic, x => IsAnswer(x) && IsPublic(x));
      FilterFuse(db, IsAnswer, x => IsChildOf(x, self.id), x => AnswerOf(x, self.id, false));
      FilterFuse(db, x => IsAnswer(x) && IsPublic(x), x => IsChildOf(x, self.id), x => AnswerOf(x, self.id, true));
      FilterSelects(db, x => AnswerOf(x, self.id, publicOnly));
      Ok(r)
    else Err(ValueError)
  }

  predicate SameTypeChildOf(x: Content, self: Content, publicOnly: bool) {
    x.ctype == self.ctype && IsChildOf(x, self.id) && (publicOnly ==> IsPublic(x))
  }

  /** `Content.comments(public_only)`, as written: on a question it filters
      questions, on an answer answers, so it never returns a comment. */
  function CommentsOf(db: seq<Content>, self: Content, publicOnly: bool): (r: Result<seq<Content>>)
    ensures r.Err? <==> !IsQuestion(self) && !IsAnswer(self)
    ensures r.Err? ==> r.error == ValueError
    ensures r.Ok? ==> SelectedBy(r.value, db, x => SameTypeChildOf(x, self, publicOnly))
    ensures r.Ok? ==> forall x :: x in r.value ==> !IsComment(x)
  {
    if IsQuestion(self) || IsAnswer(self) then
      var p := if IsQuestion(self) then IsQuestion else IsAnswer;
      var typed := Filter(db, p);
      var qs := if publicOnly then Public(typed) else typed;
      var r := Filter(qs, x => IsChildOf(x, self.id));
      FilterFuse(db, p, IsPublic, x => p(x) && IsPublic(x));
      FilterFuse(db, p, x => IsChildOf(x, self.id), x => SameTypeChildOf(x, self, false));
      FilterFuse(db, x => p(x) && IsPublic(x), x => IsChildOf(x, self.id), x => SameTypeChildOf(x, self, true));
      FilterSelects(db, x => SameTypeChildOf(x, self, publicOnly));
      Ok(r)
    else Err(ValueError)
  }

  predicate CommentOf(x: Content, parent: nat, publicOnly: bool) {
    IsComment(x) && IsChildOf(x, parent) && (publicOnly ==> IsPublic(x))
  }

  /** `Content.comments` as its error message describes it: the comments
      attached to a question or an answer. */
  function CommentsOfIntended(db: seq<Content>, self: Content, publicOnly: bool): (r: Result<seq<Content>>)
    ensures r.Err? <==> !IsQuestion(self) && !IsAnswer(self)
    ensures r.Err? ==> r.error == ValueError
    ensures r.Ok? ==> SelectedBy(r.value, db, x => CommentOf(x, self.id, publicOnly))
  {
    if IsQuestion(self) || IsAnswer(self) then
      var qs := if publicOnly then Public(Comments(db)) else Comments(db);
      var r := Filter(qs, x => IsChildOf(x, self.id));
      FilterFuse(db, IsComment, IsPublic, x => IsComment(x) && IsPublic(x));
      FilterFuse(db, IsComment, x => IsChildOf(x, self.id), x => CommentOf(x, self.id, false));
      FilterFuse(db, x => IsComment(x) && IsPublic(x), x => IsChildOf(x, self.id), x => CommentOf(x, self.id, true));
      FilterSelects(db, x => CommentOf(x, self.id, publicOnly));
      Ok(r)
    else Err(ValueError)
  }

  /** A question with one public comment: the written accessor finds
      nothing, the intended one finds the comment. */
  lemma CommentsOfMissesComments()
    ensures var q := Content(1, 'q', "", "Why?", "", None, Some(1), {}, false, false, false);
            var k := Content(2, 'c', "", "", "Good one.", Some(1), Some(2), {}, false, false, false);
            CommentsOf([q, k], q, true) == Ok([]) && CommentsOfIntended([q, k], q, true) == Ok([k])
  {
    var q := Content(1, 'q', "", "Why?", "", None, Some(1), {}, false, false, false);
    var k := Content(2, 'c', "", "", "Good one.", Some(1), Some(2), {}, false, false, false);
    var db := [q, k];
    FilterPair(q, k, IsQuestion);
    FilterPair(q, k, IsComment);
    FilterSingle(q, IsPublic);
    FilterSingle(k, IsPublic);
    FilterSingle(q, x => IsChildOf(x, 1));
    FilterSingle(k, x => IsChildOf(x, 1));
  }
}
