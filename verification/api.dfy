/** The store seen as a state machine: each request the HTTP routes accept is
    one step from the current store to a response and the next store, and the
    process starts from the seed store. Routing, JSON and status codes are not
    modelled; a request arrives already decoded. */
module Api {
  import opened Text
  import opened Posts

  /** The decoded requests of the four routes. */
  datatype Request =
    | ListPosts
    | CreatePost(title: Option<string>, content: Option<string>)
    | UpdatePost(id: int, newTitle: Option<string>, newContent: Option<string>)
    | DeletePost(id: int)

  datatype Response =
    | Listed(posts: seq<Post>)
    | Created(post: Post)
    | Updated(post: Post)
    | Deleted(id: int)
    | Failed(error: Error)

  /** Serve one request. */
  function Step(s: Store, req: Request): (out: (Response, Store))
    ensures req.ListPosts? ==> out == (Listed(s), s)
    ensures out.0.Failed? ==> out.1 == s
    ensures out.0.Failed? && out.0.error.NotFound? ==> !HasId(s, out.0.error.id)
    ensures out.0.Created? ==> out.1 == s + [out.0.post]
    ensures out.0.Created? ==> forall k :: 0 <= k < |s| ==> s[k].id < out.0.post.id
    ensures out.0.Deleted? ==> |out.1| == |s| - 1 && HasId(s, out.0.id)
    ensures out.0.Updated? ==> |out.1| == |s| && HasId(s, out.0.post.id)
    ensures req.CreatePost? ==>
              (out.0.Failed? <==> Blank(req.title.GetOr("")) || Blank(req.content.GetOr("")))
    ensures req.CreatePost? && !out.0.Failed? ==> out.0.Created?
    ensures req.UpdatePost? ==> (out.0.Failed? <==> !HasId(s, req.id))
    ensures req.UpdatePost? && !out.0.Failed? ==> out.0.Updated? && out.0.post.id == req.id
    ensures req.DeletePost? ==> (out.0.Failed? <==> !HasId(s, req.id))
    ensures req.DeletePost? && !out.0.Failed? ==> out.0.Deleted? && out.0.id == req.id
    ensures out.0.Deleted? ==> req.DeletePost? && out.0.id == req.id
    ensures out.0.Updated? ==> req.UpdatePost? && out.0.post.id == req.id
    ensures req.CreatePost? && out.0.Created? ==>
              && out.0.post.title == Trim(req.title.GetOr(""))
              && out.0.post.content == Trim(req.content.GetOr(""))
              && (s == [] ==> out.0.post.id == 1)
              && (s != [] ==> HasId(s, out.0.post.id - 1))
    ensures req.CreatePost? && out.0.Failed? ==>
              out.0.error == MissingFields((if Blank(req.title.GetOr("")) then [Title] else [])
                                         + (if Blank(req.content.GetOr("")) then [Content] else []))
    ensures (req.UpdatePost? || req.DeletePost?) && out.0.Failed? ==> out.0.error == NotFound(req.id)
    ensures req.UpdatePost? && out.0.Updated? ==>
              exists i :: ReplacedAt(s, out.1, req.id, i, out.0.post)
                          && out.0.post == Patch(s[i], req.newTitle, req.newContent)
    ensures req.DeletePost? && out.0.Deleted? ==>
              exists i :: IsFirst(s, req.id, i) && out.1 == s[..i] + s[i + 1..]
  {
    match req
    case ListPosts => (Listed(s), s)
    case CreatePost(t, c) =>
      var (r, s') := Create(s, t, c);
      assert r.Ok? ==> s' == s[..|s|] + [s'[|s|]];
      (if r.Ok? then Created(r.value) else Failed(r.error), s')
    case UpdatePost(id, t, c) =>
      var (r, s') := Update(s, id, t, c);
      (if r.Ok? then Updated(r.value) else Failed(r.error), s')
    case DeletePost(id) =>
      var (r, s') := Delete(s, id);
      (if r.Ok? then Deleted(r.value) else Failed(r.error), s')
  }

  /** The store after serving `reqs` in order, starting from `s`. */
  function Run(s: Store, reqs: seq<Request>): Store
    decreases |reqs|
  {
    if reqs == [] then s else Run(Step(s, reqs[0]).1, reqs[1..])
  }

  /** No request breaks the store invariant. */
  lemma StepPreservesValid(s: Store, req: Request)
    requires Valid(s)
    ensures Valid(Step(s, req).1)
  {
    match req
    case ListPosts =>
    case CreatePost(t, c) => CreatePreservesValid(s, t, c);
    case UpdatePost(id, t, c) => UpdatePreservesValid(s, id, t, c);
    case DeletePost(id) => DeletePreservesValid(s, id);
  }

  /** No sequence of requests breaks the store invariant. */
  lemma {:induction false} RunPreservesValid(s: Store, reqs: seq<Request>)
    requires Valid(s)
    ensures Valid(Run(s, reqs))
    decreases |reqs|
  {
    if reqs != [] {
      StepPreservesValid(s, reqs[0]);
      RunPreservesValid(Step(s, reqs[0]).1, reqs[1..]);
    }
  }

  /** Every store the process can reach has distinct positive ids and no blank
      title or content. */
  lemma ReachableValid(reqs: seq<Request>)
    ensures Valid(Run(Seed, reqs))
  {
    SeedValid();
    RunPreservesValid(Seed, reqs);
  }
}
