/** The `complete_content_list_for_user` template filter of
    pgm4app/templatetags/pgm4tags.py: it marks each listed item with whether
    the given user has up-voted or down-voted it. The vote table is a
    `seq<Vote>`; the source declares no uniqueness on (user, content), so it
    may hold several rows for one pair. */
module VoteFlags {
  import opened Base
  import opened Seqs
  import opened Models

  datatype Vote = Vote(user: UserId, content: nat, value: int)

  /** A content item with the two attributes the filter sets on it. */
  datatype Item = Item(content: Content, isUpvoted: bool, isDownvoted: bool)

  /** For an anonymous user the list comes back as it was given; otherwise
      every item carries its flags. */
  datatype Listing = AsGiven(contents: seq<Content>) | Annotated(items: seq<Item>)

  predicate IsByUser(v: Vote, u: UserId) {
    v.user == u
  }

  predicate IsVoteOf(v: Vote, u: UserId, id: nat) {
    v.user == u && v.content == id
  }

  /** The value of the LAST row in the table that is `u`'s vote on `id`. */
  ghost predicate LastVoteIs(ledger: seq<Vote>, u: UserId, id: nat, value: int) {
    exists i :: 0 <= i < |ledger| && IsVoteOf(ledger[i], u, id) && ledger[i].value == value
      && forall j :: i < j < |ledger| ==> !IsVoteOf(ledger[j], u, id)
  }

  ghost predicate HasVote(ledger: seq<Vote>, u: UserId, id: nat) {
    exists i :: 0 <= i < |ledger| && IsVoteOf(ledger[i], u, id)
  }

  /** `{obj.content_id: obj.value for obj in votes_qs}` over the rows of
      `Vote.objects.filter(user=u, content_id__in=ids)`: a later row for the
      same content overrides an earlier one. */
  function VoteDict(ledger: seq<Vote>, u: UserId, ids: set<nat>): (d: map<nat, int>)
    ensures d.Keys <= ids
    ensures forall id :: id in d ==> exists i :: 0 <= i < |ledger| && IsVoteOf(ledger[i], u, id) && ledger[i].value == d[id]
  {
    if |ledger| == 0 then map[]
    else
      var later := VoteDict(ledger[1..], u, ids);
      var v := ledger[0];
      assert forall id :: id in later ==> exists i :: 1 <= i < |ledger| && IsVoteOf(ledger[i], u, id) && ledger[i].value == later[id];
      if v.user == u && v.content in ids && v.content !in later then later[v.content := v.value]
      else later
  }

  /** `VoteDict` holds exactly the listed ids `u` voted on, each with the
      value of `u`'s last row for it. */
  lemma {:induction false} VoteDictSpec(ledger: seq<Vote>, u: UserId, ids: set<nat>, id: nat)
    ensures id in VoteDict(ledger, u, ids) <==> id in ids && HasVote(ledger, u, id)
    ensures id in VoteDict(ledger, u, ids) ==> LastVoteIs(ledger, u, id, VoteDict(ledger, u, ids)[id])
  {
    if |ledger| > 0 {
      var tail := ledger[1..];
      VoteDictSpec(tail, u, ids, id);
      var later := VoteDict(tail, u, ids);
      var d := VoteDict(ledger, u, ids);
      if HasVote(tail, u, id) {
        var i :| 0 <= i < |tail| && IsVoteOf(tail[i], u, id);
        assert IsVoteOf(ledger[i + 1], u, id);
      }
      if HasVote(ledger, u, id) && !IsVoteOf(ledger[0], u, id) {
        var i :| 0 <= i < |ledger| && IsVoteOf(ledger[i], u, id);
        assert IsVoteOf(tail[i - 1], u, id);
      }
      if id in d {
        if id in later && d[id] == later[id] {
          var i :| 0 <= i < |tail| && IsVoteOf(tail[i], u, id) && tail[i].value == later[id]
            && forall j :: i < j < |tail| ==> !IsVoteOf(tail[j], u, id);
          assert forall j :: i + 1 < j < |ledger| ==> ledger[j] == tail[j - 1];
          assert IsVoteOf(ledger[i + 1], u, id) && ledger[i + 1].value == d[id];
        } else {
          assert IsVoteOf(ledger[0], u, id) && ledger[0].value == d[id];
          forall j | 0 < j < |ledger|
            ensures !IsVoteOf(ledger[j], u, id)
          {
            assert ledger[j] == tail[j - 1];
          }
        }
      }
    }
  }

  /** `votes.get(id, 0)` */
  function GetOr0(d: map<nat, int>, id: nat): int {
    if id in d then d[id] else 0
  }

  function ListedIds(list: seq<Content>): set<nat> {
    set x | x in list :: x.id
  }

  /** `complete_content_list_for_user(content_list, user)`; `user` is `None`
      for the anonymous user. */
  function Annotate(list: seq<Content>, user: Option<UserId>, ledger: seq<Vote>): (r: Listing)
    ensures user.None? ==> r == AsGiven(list)
    ensures user.Some? ==> r.Annotated? && |r.items| == |list|
    ensures user.Some? ==> forall i :: 0 <= i < |list| ==> r.items[i].content == list[i]
    ensures user.Some? ==> forall i :: 0 <= i < |list| ==> !(r.items[i].isUpvoted && r.items[i].isDownvoted)
  {
    if user.None? then AsGiven(list)
    else
      var votes := VoteDict(ledger, user.value, ListedIds(list));
      Annotated(seq(|list|, i requires 0 <= i < |list| =>
        Item(list[i], GetOr0(votes, list[i].id) == 1, GetOr0(votes, list[i].id) == -1)))
  }

  /** The flags state the user's own last vote on the item: up-voted iff it
      is 1, down-voted iff it is -1, and neither without a vote. */
  lemma AnnotateFlags(list: seq<Content>, u: UserId, ledger: seq<Vote>, i: nat)
    requires i < |list|
    ensures Annotate(list, Some(u), ledger).items[i].isUpvoted <==> LastVoteIs(ledger, u, list[i].id, 1)
    ensures Annotate(list, Some(u), ledger).items[i].isDownvoted <==> LastVoteIs(ledger, u, list[i].id, -1)
    ensures !HasVote(ledger, u, list[i].id) ==>
              !Annotate(list, Some(u), ledger).items[i].isUpvoted && !Annotate(list, Some(u), ledger).items[i].isDownvoted
  {
    var id := list[i].id;
    var ids := ListedIds(list);
    assert id in ids;
    VoteDictSpec(ledger, u, ids, id);
    var d := VoteDict(ledger, u, ids);
    forall value | LastVoteIs(ledger, u, id, value)
      ensures id in d && d[id] == value
    {
      var a :| 0 <= a < |ledger| && IsVoteOf(ledger[a], u, id) && ledger[a].value == value
        && forall j :: a < j < |ledger| ==> !IsVoteOf(ledger[j], u, id);
      var b :| 0 <= b < |ledger| && IsVoteOf(ledger[b], u, id) && ledger[b].value == d[id]
        && forall j :: b < j < |ledger| ==> !IsVoteOf(ledger[j], u, id);
      assert a == b;
    }
  }

  /** Only `u`'s own votes matter: dropping every other user's rows from the
      table leaves the flags as they were. */
  lemma {:induction false} OtherUsersIrrelevant(list: seq<Content>, u: UserId, ledger: seq<Vote>)
    ensures Annotate(list, Some(u), ledger) == Annotate(list, Some(u), Filter(ledger, v => IsByUser(v, u)))
  {
    VoteDictOwnRows(ledger, u, ListedIds(list));
  }

  lemma {:induction false} VoteDictOwnRows(ledger: seq<Vote>, u: UserId, ids: set<nat>)
    ensures VoteDict(ledger, u, ids) == VoteDict(Filter(ledger, v => IsByUser(v, u)), u, ids)
  {
    if |ledger| > 0 {
      VoteDictOwnRows(ledger[1..], u, ids);
      var own := Filter(ledger, v => IsByUser(v, u));
      if ledger[0].user == u {
        assert own[1..] == Filter(ledger[1..], v => IsByUser(v, u));
      }
    }
  }
}
