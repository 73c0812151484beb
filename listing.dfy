/** The listing endpoint as the two walkers see it: one decoded `hot.json`
    response per request, read with the same permissive field access
    (`.get(key, default)`) the scripts use, and a server that hands out a
    fixed, finite sequence of such responses in request order. */
module Listing {

  datatype Option<+T> = None | Some(value: T)

  /** The inner `data` object of one post; `title` may be missing. */
  datatype Post = Post(title: Option<string>)

  /** One element of `children`; its `data` object may be missing. */
  datatype Child = Child(data: Option<Post>)

  /** The top-level `data` object of a listing: `children` and `after` may be missing. */
  datatype Body = Body(children: Option<seq<Child>>, after: Option<string>)

  /** One HTTP response: the status code and the decoded JSON's `data` object, if any. */
  datatype Response = Response(status: int, data: Option<Body>)

  /** `post.get("data", {}).get("title", "")` */
  function TitleOf(c: Child): string
  {
    match c.data
    case None => ""
    case Some(p) => match p.title { case None => "" case Some(t) => t }
  }

  /** `data.get("data", {}).get("children", [])` */
  function Children(r: Response): seq<Child>
  {
    match r.data
    case None => []
    case Some(b) => match b.children { case None => [] case Some(cs) => cs }
  }

  /** `data.get("data", {}).get("after")`: None when either level is missing. */
  function After(r: Response): Option<string>
  {
    match r.data
    case None => None
    case Some(b) => b.after
  }

  /** Python truthiness of the cursor: `None` and `""` are falsy. */
  predicate Truthy(a: Option<string>)
  {
    a.Some? && a.value != ""
  }

  /** The cursor a request actually carries: `&after=...` is added only when `after` is truthy. */
  function Sent(a: Option<string>): (s: Option<string>)
    ensures Truthy(a) ==> s == a
    ensures !Truthy(a) ==> s == None
  {
    if Truthy(a) then a else None
  }

  predicate Ok(r: Response)
  {
    r.status == 200
  }

  /** The walk ends on this response: it failed, or it succeeded without a truthy cursor. */
  predicate LastPage(r: Response)
  {
    !Ok(r) || !Truthy(After(r))
  }

  /** The titles of a list of children, in child order, missing titles read as "". */
  function TitlesOf(cs: seq<Child>): (ts: seq<string>)
    ensures |ts| == |cs|
    ensures forall i :: 0 <= i < |cs| ==> ts[i] == TitleOf(cs[i])
  {
    if cs == [] then [] else [TitleOf(cs[0])] + TitlesOf(cs[1..])
  }

  /** The titles one page contributes to `hot_list` (`extend` over the generator). */
  function PageTitles(r: Response): seq<string>
  {
    TitlesOf(Children(r))
  }

  /** The remote API, replaced by the finite sequence of responses it gives,
      consumed left to right; `sent` records the cursor of every request. */
  class Server {
    const responses: seq<Response>
    var next: nat
    ghost var sent: seq<Option<string>>

    ghost predicate Valid()
      reads this
    {
      next <= |responses| && |sent| == next
    }

    /** The responses not yet handed out. */
    function Remaining(): seq<Response>
      reads this
      requires Valid()
    {
      responses[next..]
    }

    constructor (responses: seq<Response>)
      ensures Valid()
      ensures this.responses == responses && next == 0 && sent == []
    {
      this.responses := responses;
      next := 0;
      sent := [];
    }

    /** One `requests.get` of the listing URL carrying `cursor`. */
    method Get(cursor: Option<string>) returns (r: Response)
      requires Valid() && next < |responses|
      modifies this
      ensures Valid()
      ensures r == old(responses[next])
      ensures next == old(next) + 1
      ensures sent == old(sent) + [cursor]
    {
      r := responses[next];
      next := next + 1;
      sent := sent + [cursor];
    }
  }
}
