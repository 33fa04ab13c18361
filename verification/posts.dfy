/** The in-memory post store of the blog back end: an ordered sequence of
    `{id, title, content}` records with id assignment, create, delete and a
    partial, field-by-field update. Each operation is a pure function from the
    current store to an outcome and the next store. */
module Posts {
  import opened Text

  /** One stored record. */
  datatype Post = Post(id: int, title: string, content: string)

  /** The store, in insertion order. */
  type Store = seq<Post>

  /** The two required fields, named as the create error reports them. */
  datatype Field = Title | Content

  datatype Error =
    | MissingFields(missing: seq<Field>)  // create: a required field is blank
    | NotFound(id: int)                   // update/delete: no record carries the id

  datatype Result<T> = Ok(value: T) | Err(error: Error)

  /** A request-body field: `None` when the key is absent from the body. */
  datatype Option<T> = None | Some(value: T) {
    function GetOr(default: T): T {
      match this
      case Some(v) => v
      case None => default
    }
  }

  /** The store the process starts with. */
  const Seed: Store := [
    Post(1, "First post", "This is the first post."),
    Post(2, "Second post", "This is the second post.")
  ]

  // ---------------------------------------------------------------------------
  // Invariants

  predicate HasId(s: Store, id: int) {
    exists k :: 0 <= k < |s| && s[k].id == id
  }

  predicate DistinctIds(s: Store) {
    forall i, j :: 0 <= i < j < |s| ==> s[i].id != s[j].id
  }

  /** A stored record: positive id, and neither field blank. */
  predicate WellFormed(p: Post) {
    p.id >= 1 && !Blank(p.title) && !Blank(p.content)
  }

  /** What every reachable store satisfies. */
  predicate Valid(s: Store) {
    DistinctIds(s) && forall k :: 0 <= k < |s| ==> WellFormed(s[k])
  }

  lemma SeedValid()
    ensures Valid(Seed)
  {
    // Each field starts with a letter, so none is blank.
    assert !IsWhitespace(Seed[0].title[0]) && !IsWhitespace(Seed[0].content[0]);
    assert !IsWhitespace(Seed[1].title[0]) && !IsWhitespace(Seed[1].content[0]);
  }

  // ---------------------------------------------------------------------------
  // Id assignment

  /** The largest id in a non-empty store. */
  function MaxId(s: Store): (m: int)
    requires |s| > 0
    ensures forall k :: 0 <= k < |s| ==> s[k].id <= m
    ensures HasId(s, m)
  {
    if |s| == 1 then s[0].id
    else
      var rest := MaxId(s[1..]);
      assert forall k :: 1 <= k < |s| ==> s[k] == s[1..][k - 1];
      if s[0].id >= rest then s[0].id else rest
  }

  /** The id a new record receives: 1 for an empty store, else one above the maximum. */
  function NextId(s: Store): (r: int)
    ensures s == [] ==> r == 1
    ensures s != [] ==> HasId(s, r - 1)
    ensures forall k :: 0 <= k < |s| ==> s[k].id < r
  {
    if |s| == 0 then 1 else MaxId(s) + 1
  }

  /** With positive ids, the next id is 1 exactly when the store is empty. */
  lemma NextIdOneIffEmpty(s: Store)
    requires forall k :: 0 <= k < |s| ==> s[k].id >= 1
    ensures NextId(s) == 1 <==> s == []
    ensures NextId(s) >= 1
  {
    if s != [] {
      assert s[0].id < NextId(s);
    }
  }

  // ---------------------------------------------------------------------------
  // Lookup

  /** The position of the first record carrying `id`, if any. */
  function FirstIndex(s: Store, id: int): (r: Option<nat>)
    ensures r.None? <==> !HasId(s, id)
    ensures r.Some? ==> r.value < |s| && s[r.value].id == id
    ensures r.Some? ==> forall k :: 0 <= k < r.value ==> s[k].id != id
  {
    if |s| == 0 then None
    else if s[0].id == id then Some(0)
    else
      match FirstIndex(s[1..], id)
      case None =>
        assert forall k :: 1 <= k < |s| ==> s[k] == s[1..][k - 1];
        None
      case Some(i) =>
        assert forall k :: 1 <= k <= i ==> s[k] == s[1..][k - 1];
        Some(i + 1)
  }

  /** `i` is the first position holding `id`. */
  predicate IsFirst(s: Store, id: int, i: int) {
    0 <= i < |s| && s[i].id == id && forall k :: 0 <= k < i ==> s[k].id != id
  }

  // ---------------------------------------------------------------------------
  // Create

  /** The fields missing from a create request, given its trimmed values, in
      the order title, content. */
  function Missing(title: string, content: string): (m: seq<Field>)
    ensures Title in m <==> title == []
    ensures Content in m <==> content == []
    ensures forall i, j :: 0 <= i < j < |m| ==> m[i] == Title && m[j] == Content
  {
    (if title == [] then [Title] else []) + (if content == [] then [Content] else [])
  }

  /** Create a post from the request's `title` and `content` (absent keys read as
      empty). Fails, listing every blank field and leaving the store alone, or
      appends a record with both values trimmed and a fresh id. */
  function Create(s: Store, title: Option<string>, content: Option<string>): (out: (Result<Post>, Store))
    ensures out.0.Err? <==> Blank(title.GetOr("")) || Blank(content.GetOr(""))
    ensures out.0.Err? ==> out.1 == s && out.0.error.MissingFields?
    ensures out.0.Err? ==> out.0.error.missing
                             == (if Blank(title.GetOr("")) then [Title] else [])
                              + (if Blank(content.GetOr("")) then [Content] else [])
    ensures out.0.Ok? ==> |out.1| == |s| + 1 && out.1[..|s|] == s && out.1[|s|] == out.0.value
    ensures out.0.Ok? ==> out.0.value.title == Trim(title.GetOr(""))
    ensures out.0.Ok? ==> out.0.value.content == Trim(content.GetOr(""))
    ensures out.0.Ok? ==> !HasId(s, out.0.value.id)
    ensures out.0.Ok? && s != [] ==> HasId(s, out.0.value.id - 1)
    ensures out.0.Ok? ==> forall k :: 0 <= k < |s| ==> s[k].id < out.0.value.id
    ensures out.0.Ok? && s == [] ==> out.0.value.id == 1
  {
    BlankIffTrimEmpty(title.GetOr(""));
    BlankIffTrimEmpty(content.GetOr(""));
    var t := Trim(title.GetOr(""));
    var c := Trim(content.GetOr(""));
    var missing := Missing(t, c);
    if |missing| > 0 then
      (Err(MissingFields(missing)), s)
    else
      var p := Post(NextId(s), t, c);
      (Ok(p), s + [p])
  }

  /** Appending a well-formed record whose id exceeds every stored id keeps a store valid. */
  lemma AppendPreservesValid(s: Store, p: Post)
    requires Valid(s) && WellFormed(p)
    requires forall k :: 0 <= k < |s| ==> s[k].id < p.id
    ensures Valid(s + [p])
  {
    var s' := s + [p];
    forall i, j | 0 <= i < j < |s'|
      ensures s'[i].id != s'[j].id
    {
      assert s'[i] == s[i];
      if j < |s| { assert s'[j] == s[j]; }
    }
    forall k | 0 <= k < |s'|
      ensures WellFormed(s'[k])
    {
      if k < |s| { assert s'[k] == s[k]; }
    }
  }

  /** Create keeps a store valid: the new id is fresh and both stored fields
      are non-blank. */
  lemma {:induction false} CreatePreservesValid(s: Store, title: Option<string>, content: Option<string>)
    requires Valid(s)
    ensures Valid(Create(s, title, content).1)
  {
    var out := Create(s, title, content);
    if out.0.Ok? {
      var p := out.0.value;
      TrimmedBlankIsEmpty(title.GetOr(""));
      TrimmedBlankIsEmpty(content.GetOr(""));
      assert forall k :: 0 <= k < |s| ==> s[k].id >= 1;
      NextIdOneIffEmpty(s);
      assert WellFormed(p);
      assert out.1 == s + [p];
      AppendPreservesValid(s, p);
    }
  }

  // ---------------------------------------------------------------------------
  // Delete

  /** Delete the first record carrying `id`. On success the result names the
      deleted id; otherwise the store is unchanged. */
  function Delete(s: Store, id: int): (out: (Result<int>, Store))
    ensures out.0.Err? <==> !HasId(s, id)
    ensures out.0.Err? ==> out == (Err(NotFound(id)), s)
    ensures out.0.Ok? ==> out.0.value == id && |out.1| == |s| - 1
    ensures out.0.Ok? ==> exists i :: IsFirst(s, id, i) && out.1 == s[..i] + s[i + 1..]
  {
    match FirstIndex(s, id)
    case None => (Err(NotFound(id)), s)
    case Some(i) =>
      assert IsFirst(s, id, i);
      (Ok(id), s[..i] + s[i + 1..])
  }

  /** With distinct ids a successful delete leaves no record with that id, and
      every record with another id survives. */
  lemma {:induction false} DeleteRemovesOnlyId(s: Store, id: int)
    requires DistinctIds(s)
    ensures !HasId(Delete(s, id).1, id)
    ensures forall k :: 0 <= k < |s| && s[k].id != id ==> s[k] in Delete(s, id).1
  {
    var out := Delete(s, id);
    if out.0.Ok? {
      var i :| IsFirst(s, id, i) && out.1 == s[..i] + s[i + 1..];
      forall k | 0 <= k < |out.1|
        ensures out.1[k].id != id
      {
        if k < i { assert out.1[k] == s[k]; } else { assert out.1[k] == s[k + 1]; }
      }
      forall k | 0 <= k < |s| && s[k].id != id
        ensures s[k] in out.1
      {
        if k < i { assert out.1[k] == s[k]; } else { assert out.1[k - 1] == s[k]; }
      }
    }
  }

  /** Removing one position keeps the others in their relative order. */
  lemma RemoveAtKeepsOrder(s: Store, i: int, a: int, b: int)
    requires 0 <= i < |s| && 0 <= a < b < |s| - 1
    ensures var r := s[..i] + s[i + 1..];
      var a' := if a < i then a else a + 1;
      var b' := if b < i then b else b + 1;
      a' < b' && r[a] == s[a'] && r[b] == s[b']
  {
  }

  /** Removing one record keeps a store valid. */
  lemma RemovePreservesValid(s: Store, i: int)
    requires Valid(s) && 0 <= i < |s|
    ensures Valid(s[..i] + s[i + 1..])
  {
    var r := s[..i] + s[i + 1..];
    forall a, b | 0 <= a < b < |r|
      ensures r[a].id != r[b].id
    {
      RemoveAtKeepsOrder(s, i, a, b);
    }
    forall k | 0 <= k < |r|
      ensures WellFormed(r[k])
    {
      if k < i { assert r[k] == s[k]; } else { assert r[k] == s[k + 1]; }
    }
  }

  /** Delete keeps a store valid. */
  lemma {:induction false} DeletePreservesValid(s: Store, id: int)
    requires Valid(s)
    ensures Valid(Delete(s, id).1)
  {
    var out := Delete(s, id);
    if out.0.Ok? {
      var i :| IsFirst(s, id, i) && out.1 == s[..i] + s[i + 1..];
      RemovePreservesValid(s, i);
    }
  }

  /** There is only one first position for an id. */
  lemma FirstIsUnique(s: Store, id: int, i: int, j: int)
    requires IsFirst(s, id, i) && IsFirst(s, id, j)
    ensures i == j
  {
  }

  /** Deleting the record a create just added gives back the earlier store. */
  lemma {:induction false} CreateThenDelete(s: Store, title: Option<string>, content: Option<string>)
    requires Create(s, title, content).0.Ok?
    ensures var (r, s') := Create(s, title, content);
      Delete(s', r.value.id) == (Ok(r.value.id), s)
  {
    var (r, s') := Create(s, title, content);
    var id := r.value.id;
    var out := Delete(s', id);
    assert IsFirst(s', id, |s|) by {
      assert forall k :: 0 <= k < |s| ==> s'[k] == s[k];
    }
    assert out.0.Ok?;
    var i :| IsFirst(s', id, i) && out.1 == s'[..i] + s'[i + 1..];
    FirstIsUnique(s', id, i, |s|);
    assert s'[..i] == s && s'[i + 1..] == [];
    assert out.1 == s;
  }

  // ---------------------------------------------------------------------------
  // Update

  /** The value a supplied field leaves in place: the trimmed input when it is
      present and non-blank, otherwise the stored value. */
  function Overwrite(stored: string, supplied: Option<string>): (v: string)
    ensures supplied.Some? && !Blank(supplied.value) ==> v == Trim(supplied.value)
    ensures supplied.None? || Blank(supplied.value) ==> v == stored
  {
    if supplied.Some? then
      BlankIffTrimEmpty(supplied.value);
      if Trim(supplied.value) != [] then Trim(supplied.value) else stored
    else stored
  }

  /** Apply a partial update to one record; its id is never touched. */
  function Patch(p: Post, title: Option<string>, content: Option<string>): (q: Post)
    ensures q.id == p.id
    ensures title.Some? && !Blank(title.value) ==> q.title == Trim(title.value)
    ensures title.None? || Blank(title.value) ==> q.title == p.title
    ensures content.Some? && !Blank(content.value) ==> q.content == Trim(content.value)
    ensures content.None? || Blank(content.value) ==> q.content == p.content
  {
    Post(p.id, Overwrite(p.title, title), Overwrite(p.content, content))
  }

  /** `s'` is `s` with its first record carrying `id`, at position `i`,
      replaced by `p`; every other position is unchanged. */
  predicate ReplacedAt(s: Store, s': Store, id: int, i: int, p: Post) {
    IsFirst(s, id, i) && |s'| == |s| && s'[i] == p
    && forall k :: 0 <= k < |s| && k != i ==> s'[k] == s[k]
  }

  /** Update the first record carrying `id` field by field. A missing id is
      reported and changes nothing, whatever the body holds. */
  function Update(s: Store, id: int, title: Option<string>, content: Option<string>): (out: (Result<Post>, Store))
    ensures out.0.Err? <==> !HasId(s, id)
    ensures out.0.Err? ==> out == (Err(NotFound(id)), s)
    ensures out.0.Ok? ==> |out.1| == |s| && out.0.value.id == id
    ensures out.0.Ok? ==> exists i ::
      ReplacedAt(s, out.1, id, i, out.0.value) && out.0.value == Patch(s[i], title, content)
  {
    match FirstIndex(s, id)
    case None => (Err(NotFound(id)), s)
    case Some(i) =>
      var p := Patch(s[i], title, content);
      assert IsFirst(s, id, i);
      (Ok(p), s[i := p])
  }

  /** A patch never blanks a field of a well-formed record. */
  lemma PatchPreservesWellFormed(p: Post, title: Option<string>, content: Option<string>)
    requires WellFormed(p)
    ensures WellFormed(Patch(p, title, content))
  {
    if title.Some? { TrimmedBlankIsEmpty(title.value); }
    if content.Some? { TrimmedBlankIsEmpty(content.value); }
  }

  /** Update keeps every id in place and never blanks a field, so it keeps a
      store valid. */
  lemma {:induction false} UpdatePreservesValid(s: Store, id: int, title: Option<string>, content: Option<string>)
    requires Valid(s)
    ensures Valid(Update(s, id, title, content).1)
  {
    var out := Update(s, id, title, content);
    if out.0.Ok? {
      var i :| ReplacedAt(s, out.1, id, i, out.0.value) && out.0.value == Patch(s[i], title, content);
      PatchPreservesWellFormed(s[i], title, content);
      assert forall k :: 0 <= k < |s| ==> out.1[k].id == s[k].id;
    }
  }

  /** Applying the same partial update twice gives the same store as once. */
  lemma {:induction false} UpdateIdempotent(s: Store, id: int, title: Option<string>, content: Option<string>)
    ensures var s1 := Update(s, id, title, content).1;
      Update(s1, id, title, content) == Update(s, id, title, content)
  {
    var out := Update(s, id, title, content);
    if out.0.Ok? {
      var i :| ReplacedAt(s, out.1, id, i, out.0.value) && out.0.value == Patch(s[i], title, content);
      var s1 := out.1;
      assert IsFirst(s1, id, i);
      var out2 := Update(s1, id, title, content);
      var j :| ReplacedAt(s1, out2.1, id, j, out2.0.value) && out2.0.value == Patch(s1[j], title, content);
      assert j == i;
      assert Patch(s1[i], title, content) == s1[i];
      assert out2.1 == s1;
    }
  }

  /** Supplying a record's own (already trimmed) values leaves it as it is. */
  lemma PatchWithOwnValues(p: Post)
    requires Trim(p.title) == p.title && Trim(p.content) == p.content
    ensures Patch(p, Some(p.title), Some(p.content)) == p
  {
  }

  /** Updating a record with its own trimmed values changes nothing. */
  lemma {:induction false} UpdateWithOwnValues(s: Store, i: int)
    requires 0 <= i < |s| && IsFirst(s, s[i].id, i)
    requires Trim(s[i].title) == s[i].title && Trim(s[i].content) == s[i].content
    ensures Update(s, s[i].id, Some(s[i].title), Some(s[i].content)) == (Ok(s[i]), s)
  {
    var p := s[i];
    PatchWithOwnValues(p);
    var out := Update(s, p.id, Some(p.title), Some(p.content));
    var j :| ReplacedAt(s, out.1, p.id, j, out.0.value)
      && out.0.value == Patch(s[j], Some(p.title), Some(p.content));
    FirstIsUnique(s, p.id, i, j);
    assert out.1 == s;
  }

  /** Updating a freshly created record with the values it was stored with
      changes nothing. */
  lemma {:induction false} CreateThenUpdateSameValues(s: Store, title: string, content: string)
    requires Create(s, Some(title), Some(content)).0.Ok?
    ensures var (r, s') := Create(s, Some(title), Some(content));
      Update(s', r.value.id, Some(Trim(title)), Some(Trim(content))) == (Ok(r.value), s')
  {
    var (r, s') := Create(s, Some(title), Some(content));
    var p := r.value;
    TrimIdempotent(title);
    TrimIdempotent(content);
    assert IsFirst(s', p.id, |s|) by {
      assert forall k :: 0 <= k < |s| ==> s'[k] == s[k];
    }
    UpdateWithOwnValues(s', |s|);
  }
}
