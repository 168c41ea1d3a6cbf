/** The records of pgm4app/models.py: Tag and the polymorphic Content
    (question, answer or comment), with the small per-record operations
    defined next to them. */
module Models {
  import opened Base
  import opened Text

  type UserId = nat

  /** A tag; `slug` is derived from `name` whenever the tag is saved. */
  datatype Tag = Tag(id: nat, name: string, slug: string)

  /** One row of the Content table. `ctype` is the one-character
      discriminator; the database does not restrict it to the three
      choices, so any character is representable. `parent` and `owner` are
      nullable foreign keys, `tags` the many-to-many relation to Tag ids. */
  datatype Content = Content(
    id: nat,
    ctype: char,
    slug: string,
    title: string,
    text: string,
    parent: Option<nat>,
    owner: Option<UserId>,
    tags: set<nat>,
    isHidden: bool,
    isDeleted: bool,
    isAccepted: bool)

  predicate ValidType(t: char) {
    t == 'q' || t == 'a' || t == 'c'
  }

  /** The `(id, name)` pairs of the discriminator's choices, in order. */
  const ContentTypeChoices: seq<(char, string)> :=
    [('q', "question"), ('a', "answer"), ('c', "comment")]

  /** `[a[0] for a in choices if a[1] == name]`: the ids of the choices
      named `name`, the first one coming from the first such choice. */
  function IdsNamed(choices: seq<(char, string)>, name: string): (ids: seq<char>)
    ensures |ids| <= |choices|
    ensures forall i :: 0 <= i < |ids| ==> exists j :: 0 <= j < |choices| && choices[j] == (ids[i], name)
    ensures forall j :: 0 <= j < |choices| && choices[j].1 == name ==> choices[j].0 in ids
    ensures |ids| > 0 ==> exists j :: 0 <= j < |choices| && choices[j] == (ids[0], name)
                                     && forall k :: 0 <= k < j ==> choices[k].1 != name
  {
    if |choices| == 0 then []
    else if choices[0].1 == name then [choices[0].0] + IdsNamed(choices[1..], name)
    else IdsNamed(choices[1..], name)
  }

  /** `Content.get_content_type_id(name)`: the first matching id, or the
      IndexError that indexing an empty list raises. */
  function GetContentTypeId(name: string): (r: Result<char>)
    ensures r.Ok? <==> name == "question" || name == "answer" || name == "comment"
    ensures r == Ok('q') <==> name == "question"
    ensures r == Ok('a') <==> name == "answer"
    ensures r == Ok('c') <==> name == "comment"
    ensures r.Err? ==> r.error == IndexError
  {
    var ids := IdsNamed(ContentTypeChoices, name);
    if |ids| == 0 then Err(IndexError) else Ok(ids[0])
  }

  /** The human-readable name of a discriminator (Django's display value). */
  function TypeName(t: char): Option<string>
  {
    if t == 'q' then Some("question")
    else if t == 'a' then Some("answer")
    else if t == 'c' then Some("comment")
    else None
  }

  /** The id lookup and the display name are inverse to each other. */
  lemma TypeNameRoundTrip(t: char, name: string)
    ensures ValidType(t) ==> TypeName(t).Some? && GetContentTypeId(TypeName(t).value) == Ok(t)
    ensures GetContentTypeId(name).Ok? ==> TypeName(GetContentTypeId(name).value) == Some(name)
  {
  }

  /** `validate_is_question`: the title must end with a question mark. */
  function ValidateIsQuestion(value: string): (r: Result<()>)
    ensures r.Ok? <==> |value| > 0 && value[|value| - 1] == '?'
    ensures r.Err? ==> r.error == ValidationError
  {
    if EndsWith(value, "?") then Ok(()) else Err(ValidationError)
  }

  /** Every accepted title is some text followed by one question mark, and
      every such text is accepted. */
  lemma ValidTitleShape(value: string, prefix: string)
    ensures ValidateIsQuestion(value).Ok? <==> exists p :: value == p + "?"
    ensures ValidateIsQuestion(prefix + "?").Ok?
  {
    if ValidateIsQuestion(value).Ok? {
      assert value == value[..|value| - 1] + "?";
    }
  }

  /** `Content.__str__`. */
  function ContentStr(c: Content): (r: string)
    ensures c.ctype == 'q' ==> |r| > 9 && r[..9] == "Question " && EndsWith(r, ": \"" + c.title + "\"")
    ensures c.ctype == 'a' ==> |r| > 7 && r[..7] == "Answer " && ParseNat(r[7..]) == c.id
    ensures c.ctype == 'c' ==> |r| > 8 && r[..8] == "Comment " && ParseNat(r[8..]) == c.id
    ensures !ValidType(c.ctype) ==> |r| > 23 && r[..23] == "Undefined content type "
  {
    if c.ctype == 'q' then
      var r := "Question " + NatStr(c.id) + ": \"" + c.title + "\"";
      assert r[|r| - |": \"" + c.title + "\""|..] == ": \"" + c.title + "\"";
      r
    else if c.ctype == 'a' then
      var r := "Answer " + NatStr(c.id);
      assert r[7..] == NatStr(c.id);
      ParseNatStr(c.id);
      r
    else if c.ctype == 'c' then
      var r := "Comment " + NatStr(c.id);
      assert r[8..] == NatStr(c.id);
      ParseNatStr(c.id);
      r
    else
      "Undefined content type " + NatStr(c.id) + ": \"" + c.title + "\""
  }

  /** Two answers (or two comments) print alike only if they are the same
      primary key, and the label tells the kinds apart. */
  lemma ContentStrIdentifies(c: Content, d: Content)
    requires ContentStr(c) == ContentStr(d)
    ensures ValidType(c.ctype) ==> c.ctype == d.ctype
    ensures c.ctype == 'a' || c.ctype == 'c' ==> c.id == d.id
  {
    var s := ContentStr(c);
    if c.ctype == 'q' {
      assert s[0] == 'Q';
    } else if c.ctype == 'a' {
      assert s[0] == 'A';
    } else if c.ctype == 'c' {
      assert s[0] == 'C';
    }
  }

  /** `Tag.save`: the slug is recomputed from the name. `slugify` is Django's
      library function and is taken as a parameter. */
  function TagSave(t: Tag, slugify: string -> string): (r: Tag)
    ensures r.slug == slugify(r.name)
    ensures r.id == t.id && r.name == t.name
  {
    t.(slug := slugify(t.name))
  }

  lemma TagSaveIdempotent(t: Tag, slugify: string -> string)
    ensures TagSave(TagSave(t, slugify), slugify) == TagSave(t, slugify)
    ensures t.slug == slugify(t.name) ==> TagSave(t, slugify) == t
  {
  }
}
