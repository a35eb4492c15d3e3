/** The catalog router: an ordered table of (method, path pattern, handler)
    entries, searched from the top, the first entry whose method and pattern
    fit the request winning. Paths are the part after the `/catalog` mount
    point, taken apart at '/' into segments; a `:id` segment of a pattern
    matches any one non-empty segment and captures it. */
module Routes {
  import opened Optional
  import opened Text
  import opened Ids
  import AuthorModel
  import BookModel
  import GenreModel
  import BookInstanceModel

  datatype Method = Get | Post

  datatype Entity = Book | Author | Genre | Copy

  /** What each entity's routes are for, in the order they are registered. */
  datatype Action =
    | CreateForm | Create | DeleteForm | Delete | UpdateForm | Update | Detail | List

  datatype Handler = Index | Handle(entity: Entity, action: Action)

  datatype Segment = Lit(text: string) | Param

  datatype Route = Route(verb: Method, pattern: seq<Segment>, handler: Handler)

  /** A dispatched request: the handler and the `:id` it captured, if any. */
  datatype Hit = Hit(handler: Handler, id: Option<string>)

  /** The path segment naming one record of an entity. */
  function Name(e: Entity): string {
    match e
    case Book => "book"
    case Author => "author"
    case Genre => "genre"
    case Copy => "bookinstance"
  }

  /** The path segment naming the list of an entity. */
  function Plural(e: Entity): string {
    Name(e) + "s"
  }

  /** The method each handler is registered under. */
  function MethodOf(a: Action): Method {
    match a
    case Create | Delete | Update => Post
    case _ => Get
  }

  /** The eight routes of one entity, in the order the catalog registers them:
      create form and create, delete form and delete, update form and update,
      detail, list. */
  function Block(e: Entity): (r: seq<Route>)
    ensures |r| == 8
    ensures forall i | 0 <= i < 8 :: r[i].handler.Handle? && r[i].handler.entity == e
    ensures forall i | 0 <= i < 8 :: r[i].verb == MethodOf(r[i].handler.action)
    ensures forall i | 0 <= i < 8 :: |r[i].pattern| > 0 && r[i].pattern[0] in {Lit(Name(e)), Lit(Plural(e))}
  {
    var n := Lit(Name(e));
    [ Route(Get, [n, Lit("create")], Handle(e, CreateForm)),
      Route(Post, [n, Lit("create")], Handle(e, Create)),
      Route(Get, [n, Param, Lit("delete")], Handle(e, DeleteForm)),
      Route(Post, [n, Param, Lit("delete")], Handle(e, Delete)),
      Route(Get, [n, Param, Lit("update")], Handle(e, UpdateForm)),
      Route(Post, [n, Param, Lit("update")], Handle(e, Update)),
      Route(Get, [n, Param], Handle(e, Detail)),
      Route(Get, [Lit(Plural(e))], Handle(e, List)) ]
  }

  /** The catalog home page, registered first. */
  const IndexRoute := Route(Get, [Lit("")], Index)

  /** The whole table: the home page, then books, authors, genres and copies. */
  function Table(): (r: seq<Route>)
    ensures |r| == 33
  {
    [IndexRoute] + Block(Book) + Block(Author) + Block(Genre) + Block(Copy)
  }

  // ---------------------------------------------------------------------------
  // matching

  predicate SegmentFits(p: Segment, s: string) {
    match p
    case Lit(t) => s == t
    case Param => s != ""
  }

  predicate PatternFits(p: seq<Segment>, segs: seq<string>) {
    |p| == |segs| && forall i | 0 <= i < |p| :: SegmentFits(p[i], segs[i])
  }

  predicate Fits(r: Route, m: Method, segs: seq<string>) {
    r.verb == m && PatternFits(r.pattern, segs)
  }

  /** The segment the pattern's first `:id` captures. */
  function Capture(p: seq<Segment>, segs: seq<string>): (r: Option<string>)
    requires |p| == |segs|
    ensures r.None? <==> Param !in p
    ensures r.Some? ==> exists i | 0 <= i < |p| :: p[i] == Param && segs[i] == r.value
  {
    if |p| == 0 then None
    else if p[0] == Param then Some(segs[0])
    else
      var r := Capture(p[1..], segs[1..]);
      assert r.Some? ==> exists i | 0 <= i < |p| - 1 :: p[1..][i] == Param && segs[1..][i] == r.value;
      assert forall i | 1 <= i < |p| :: p[i] == p[1..][i - 1];
      r
  }

  lemma CaptureSecond(p: seq<Segment>, segs: seq<string>)
    requires |p| == |segs| >= 2 && p[0].Lit? && p[1] == Param
    ensures Capture(p, segs) == Some(segs[1])
  {
    assert p[1..][0] == Param;
  }

  /** The index of the first route that fits the request. */
  function FirstFit(routes: seq<Route>, m: Method, segs: seq<string>): (r: Option<nat>)
    ensures r.None? <==> forall i | 0 <= i < |routes| :: !Fits(routes[i], m, segs)
    ensures r.Some? ==> r.value < |routes| && Fits(routes[r.value], m, segs)
    ensures r.Some? ==> forall j | 0 <= j < r.value :: !Fits(routes[j], m, segs)
  {
    if |routes| == 0 then None
    else if Fits(routes[0], m, segs) then Some(0)
    else
      var r := FirstFit(routes[1..], m, segs);
      assert forall i | 1 <= i < |routes| :: routes[i] == routes[1..][i - 1];
      if r.Some? then Some(r.value + 1) else None
  }

  /** First-match dispatch over a route table. */
  function Dispatch(routes: seq<Route>, m: Method, segs: seq<string>): (r: Option<Hit>)
    ensures r.None? <==> forall i | 0 <= i < |routes| :: !Fits(routes[i], m, segs)
  {
    match FirstFit(routes, m, segs)
    case None => None
    case Some(i) => Some(Hit(routes[i].handler, Capture(routes[i].pattern, segs)))
  }

  /** The segments of a path below the mount point: "/" has the one empty
      segment, "/book/7" has "book" and "7". */
  function Segments(path: string): (r: seq<string>)
    requires |path| > 0 && path[0] == '/'
    ensures forall i | 0 <= i < |r| :: '/' !in r[i]
  {
    Split(path)[1..]
  }

  /** A request to the catalog router; `None` is the 404 the application
      answers when no route fits. */
  function Serve(m: Method, path: string): (r: Option<Hit>)
  {
    if |path| > 0 && path[0] == '/' then Dispatch(Table(), m, Segments(path)) else None
  }

  // ---------------------------------------------------------------------------
  // first match

  /** A route that fits, with none fitting before it, is the one found. */
  lemma FirstFitAt(routes: seq<Route>, m: Method, segs: seq<string>, k: nat)
    requires k < |routes| && Fits(routes[k], m, segs)
    requires forall j | 0 <= j < k :: !Fits(routes[j], m, segs)
    ensures FirstFit(routes, m, segs) == Some(k)
  {
  }

  /** Dispatch over two tables one after the other: the first table's answer
      if it has one, the second's otherwise. */
  lemma DispatchAppend(a: seq<Route>, b: seq<Route>, m: Method, segs: seq<string>)
    ensures Dispatch(a + b, m, segs) == if Dispatch(a, m, segs).Some? then Dispatch(a, m, segs) else Dispatch(b, m, segs)
  {
    var ab := a + b;
    assert forall i | 0 <= i < |a| :: ab[i] == a[i];
    assert forall i | 0 <= i < |b| :: ab[|a| + i] == b[i];
    match FirstFit(a, m, segs)
    case Some(i) =>
      FirstFitAt(ab, m, segs, i);
    case None =>
      match FirstFit(b, m, segs)
      case Some(i) =>
        FirstFitAt(ab, m, segs, |a| + i);
      case None =>
        assert forall i | 0 <= i < |ab| :: !Fits(ab[i], m, segs) by {
          forall i | 0 <= i < |ab|
            ensures !Fits(ab[i], m, segs)
          {
            if i >= |a| {
              assert ab[i] == b[i - |a|];
            }
          }
        }
  }

  /** Every route of an entity's block starts with the entity's name or its
      plural, so no other entity's request fits it. */
  lemma BlockMisses(e: Entity, m: Method, segs: seq<string>)
    requires |segs| > 0 && segs[0] != Name(e) && segs[0] != Plural(e)
    ensures Dispatch(Block(e), m, segs) == None
  {
    var b := Block(e);
    forall i | 0 <= i < 8
      ensures !Fits(b[i], m, segs)
    {
      assert !SegmentFits(b[i].pattern[0], segs[0]);
    }
  }

  /** The length and first letter of each name, which tell them apart. */
  lemma NameShape(e: Entity)
    ensures |Name(e)| == (match e case Book => 4 case Author => 6 case Genre => 5 case Copy => 12)
    ensures Name(e)[0] == (match e case Book => 'b' case Author => 'a' case Genre => 'g' case Copy => 'b')
    ensures |Plural(e)| == |Name(e)| + 1 && Plural(e)[0] == Name(e)[0]
    ensures Plural(e)[..|Name(e)|] == Name(e)
  {
  }

  /** Different entities have different names and plurals. */
  lemma NamesDiffer(e: Entity, f: Entity)
    requires e != f
    ensures Name(e) != Name(f) && Name(e) != Plural(f) && Plural(e) != Plural(f)
  {
    NameShape(e);
    NameShape(f);
  }

  /** The home page's route fits no request that names an entity. */
  lemma IndexMisses(e: Entity, m: Method, segs: seq<string>)
    requires |segs| > 0 && (segs[0] == Name(e) || segs[0] == Plural(e))
    ensures Dispatch([IndexRoute], m, segs) == None
  {
    var idx := [IndexRoute];
    assert !Fits(IndexRoute, m, segs) by {
      if |segs| == 1 {
        assert segs[0] != "" by { assert |Name(e)| > 0; }
      }
    }
    assert forall i | 0 <= i < 1 :: idx[i] == IndexRoute;
  }

  /** No other entity's block fits a request that names `e`. */
  lemma OthersMiss(e: Entity, m: Method, segs: seq<string>)
    requires |segs| > 0 && (segs[0] == Name(e) || segs[0] == Plural(e))
    ensures forall f | f != e :: Dispatch(Block(f), m, segs) == None
  {
    forall f | f != e
      ensures Dispatch(Block(f), m, segs) == None
    {
      NamesDiffer(e, f);
      NamesDiffer(f, e);
      BlockMisses(f, m, segs);
    }
  }

  /** A request whose first segment names an entity is answered by that
      entity's block alone. */
  lemma OwnBlock(e: Entity, m: Method, segs: seq<string>)
    requires |segs| > 0 && (segs[0] == Name(e) || segs[0] == Plural(e))
    ensures Dispatch(Table(), m, segs) == Dispatch(Block(e), m, segs)
  {
    var idx := [IndexRoute];
    IndexMisses(e, m, segs);
    OthersMiss(e, m, segs);
    var b1 := idx + Block(Book);
    var b2 := b1 + Block(Author);
    var b3 := b2 + Block(Genre);
    DispatchAppend(idx, Block(Book), m, segs);
    DispatchAppend(b1, Block(Author), m, segs);
    DispatchAppend(b2, Block(Genre), m, segs);
    DispatchAppend(b3, Block(Copy), m, segs);
  }

  /** The route at `k` of an entity's block answers the request when it fits
      and none before it does. */
  lemma BlockAt(e: Entity, m: Method, segs: seq<string>, k: nat)
    requires k < 8 && Fits(Block(e)[k], m, segs)
    requires forall j | 0 <= j < k :: !Fits(Block(e)[j], m, segs)
    ensures Dispatch(Block(e), m, segs) == Some(Hit(Block(e)[k].handler, Capture(Block(e)[k].pattern, segs)))
  {
    FirstFitAt(Block(e), m, segs, k);
  }

  /** A request that names `e` and fits none of its block's routes fits no
      route at all. */
  lemma BlockNone(e: Entity, m: Method, segs: seq<string>)
    requires |segs| > 0 && (segs[0] == Name(e) || segs[0] == Plural(e))
    requires forall j | 0 <= j < 8 :: !Fits(Block(e)[j], m, segs)
    ensures Dispatch(Table(), m, segs) == None
  {
    OwnBlock(e, m, segs);
  }

  // ---------------------------------------------------------------------------
  // the table's promises

  /** `/X/create` reaches the create handlers, although the detail pattern
      `/X/:id` would fit it too: the create routes are registered first. */
  lemma CreateBeforeDetail(e: Entity, m: Method)
    ensures PatternFits([Lit(Name(e)), Param], [Name(e), "create"])
    ensures Dispatch(Table(), m, [Name(e), "create"])
         == Some(Hit(Handle(e, if m == Get then CreateForm else Create), None))
  {
    var segs := [Name(e), "create"];
    CreateInBlock(e, m);
    OwnBlock(e, m, segs);
  }

  lemma CreateInBlock(e: Entity, m: Method)
    ensures PatternFits([Lit(Name(e)), Param], [Name(e), "create"])
    ensures Dispatch(Block(e), m, [Name(e), "create"]) == Some(Hit(Handle(e, if m == Get then CreateForm else Create), None))
  {
    var segs := [Name(e), "create"];
    var b := Block(e);
    if m == Get {
      BlockAt(e, m, segs, 0);
    } else {
      assert !Fits(b[0], m, segs);
      BlockAt(e, m, segs, 1);
    }
  }

  /** `/X/:id` with any id other than "create" reaches the detail handler
      with that id. */
  lemma DetailReached(e: Entity, id: string)
    requires id != "" && '/' !in id && id != "create"
    ensures Dispatch(Table(), Get, [Name(e), id]) == Some(Hit(Handle(e, Detail), Some(id)))
  {
    DetailInBlock(e, id);
    OwnBlock(e, Get, [Name(e), id]);
  }

  lemma DetailInBlock(e: Entity, id: string)
    requires id != "" && '/' !in id && id != "create"
    ensures Dispatch(Block(e), Get, [Name(e), id]) == Some(Hit(Handle(e, Detail), Some(id)))
  {
    var segs := [Name(e), id];
    var b := Block(e);
    forall j | 0 <= j < 6
      ensures !Fits(b[j], Get, segs)
    {
      if j == 0 {
        assert segs[1] != "create";
      } else if j >= 2 {
        assert |b[j].pattern| == 3;
      }
    }
    CaptureSecond(b[6].pattern, segs);
    BlockAt(e, Get, segs, 6);
  }

  /** The detail page is GET only: a POST to `/X/:id` fits no route. */
  lemma DetailNotPosted(e: Entity, id: string)
    requires id != "create"
    ensures Dispatch(Table(), Post, [Name(e), id]) == None
  {
    DetailPostMisses(e, id);
    BlockNone(e, Post, [Name(e), id]);
  }

  lemma DetailPostMisses(e: Entity, id: string)
    requires id != "create"
    ensures forall j | 0 <= j < 8 :: !Fits(Block(e)[j], Post, [Name(e), id])
  {
    var segs := [Name(e), id];
    var b := Block(e);
    forall j | 0 <= j < 8
      ensures !Fits(b[j], Post, segs)
    {
      if j == 1 {
        assert segs[1] != "create";
      } else if j == 3 {
        assert |b[3].pattern| == 3;
      } else if j == 5 {
        assert |b[5].pattern| == 3;
      } else if j == 0 || j == 2 || j == 4 {
        assert b[j].verb == Get;
      } else if j == 6 {
        assert b[6].verb == Get;
      } else {
        assert b[7].verb == Get;
      }
    }
  }

  /** `/X/:id/delete` reaches the delete handlers with the id for every id,
      "create" included: three segments never fit the two-segment create and
      detail patterns. */
  lemma DeleteReached(e: Entity, m: Method, id: string)
    requires id != "" && '/' !in id
    ensures Dispatch(Table(), m, [Name(e), id, "delete"])
         == Some(Hit(Handle(e, if m == Get then DeleteForm else Delete), Some(id)))
  {
    DeleteInBlock(e, m, id);
    OwnBlock(e, m, [Name(e), id, "delete"]);
  }

  lemma DeleteInBlock(e: Entity, m: Method, id: string)
    requires id != "" && '/' !in id
    ensures Dispatch(Block(e), m, [Name(e), id, "delete"]) == Some(Hit(Handle(e, if m == Get then DeleteForm else Delete), Some(id)))
  {
    var b := Block(e);
    var segs := [Name(e), id, "delete"];
    var k := if m == Get then 2 else 3;
    forall j | 0 <= j < k
      ensures !Fits(b[j], m, segs)
    {
      if j < 2 {
        assert |b[j].pattern| == 2;
      }
    }
    CaptureSecond(b[k].pattern, segs);
    BlockAt(e, m, segs, k);
  }

  /** `/X/:id/update` reaches the update handlers with the id for every id. */
  lemma UpdateReached(e: Entity, m: Method, id: string)
    requires id != "" && '/' !in id
    ensures Dispatch(Table(), m, [Name(e), id, "update"])
         == Some(Hit(Handle(e, if m == Get then UpdateForm else Update), Some(id)))
  {
    UpdateInBlock(e, m, id);
    OwnBlock(e, m, [Name(e), id, "update"]);
  }

  lemma UpdateInBlock(e: Entity, m: Method, id: string)
    requires id != "" && '/' !in id
    ensures Dispatch(Block(e), m, [Name(e), id, "update"]) == Some(Hit(Handle(e, if m == Get then UpdateForm else Update), Some(id)))
  {
    var b := Block(e);
    var segs := [Name(e), id, "update"];
    var k := if m == Get then 4 else 5;
    forall j | 0 <= j < k
      ensures !Fits(b[j], m, segs)
    {
      if j < 2 {
        assert |b[j].pattern| == 2;
      } else if j < 4 {
        assert b[j].pattern[2] == Lit("delete");
      }
    }
    CaptureSecond(b[k].pattern, segs);
    BlockAt(e, m, segs, k);
  }

  /** `/Xs` reaches the list handler on GET. */
  lemma ListReached(e: Entity)
    ensures Dispatch(Table(), Get, [Plural(e)]) == Some(Hit(Handle(e, List), None))
  {
    ListInBlock(e);
    OwnBlock(e, Get, [Plural(e)]);
  }

  lemma ListInBlock(e: Entity)
    ensures Dispatch(Block(e), Get, [Plural(e)]) == Some(Hit(Handle(e, List), None))
  {
    var segs := [Plural(e)];
    var b := Block(e);
    forall j | 0 <= j < 7
      ensures !Fits(b[j], Get, segs)
    {
      assert |b[j].pattern| >= 2;
    }
    BlockAt(e, Get, segs, 7);
  }

  /** The list page is GET only. */
  lemma ListNotPosted(e: Entity)
    ensures Dispatch(Table(), Post, [Plural(e)]) == None
  {
    ListPostMisses(e);
    BlockNone(e, Post, [Plural(e)]);
  }

  lemma ListPostMisses(e: Entity)
    ensures forall j | 0 <= j < 8 :: !Fits(Block(e)[j], Post, [Plural(e)])
  {
    var segs := [Plural(e)];
    var b := Block(e);
    forall j | 0 <= j < 8
      ensures !Fits(b[j], Post, segs)
    {
      if j == 1 || j == 3 || j == 5 {
        assert |b[j].pattern| >= 2;
      } else if j == 0 || j == 2 || j == 4 {
        assert b[j].verb == Get;
      } else if j == 6 {
        assert b[6].verb == Get;
      } else {
        assert b[7].verb == Get;
      }
    }
  }

  /** GET `/` reaches the catalog home page. */
  lemma IndexReached()
    ensures Serve(Get, "/") == Some(Hit(Index, None))
  {
    SplitCons("", "");
    assert "" + "/" + "" == "/";
    assert Split("") == [""];
    assert Split("/") == [""] + [""];
    assert Segments("/") == [""];
    FirstFitAt(Table(), Get, [""], 0);
  }

  /** Every handler in the table is reached by some request with its own
      method: no route is shadowed by an earlier one. */
  lemma EveryHandlerReached(e: Entity, a: Action)
    ensures exists segs :: Dispatch(Table(), MethodOf(a), segs).Some?
                        && Dispatch(Table(), MethodOf(a), segs).value.handler == Handle(e, a)
  {
    match a
    case CreateForm => CreateBeforeDetail(e, Get); Witness(e, a, [Name(e), "create"]);
    case Create => CreateBeforeDetail(e, Post); Witness(e, a, [Name(e), "create"]);
    case DeleteForm => DeleteReached(e, Get, "1"); Witness(e, a, [Name(e), "1", "delete"]);
    case Delete => DeleteReached(e, Post, "1"); Witness(e, a, [Name(e), "1", "delete"]);
    case UpdateForm => UpdateReached(e, Get, "1"); Witness(e, a, [Name(e), "1", "update"]);
    case Update => UpdateReached(e, Post, "1"); Witness(e, a, [Name(e), "1", "update"]);
    case Detail => DetailReached(e, "1"); Witness(e, a, [Name(e), "1"]);
    case List => ListReached(e); Witness(e, a, [Plural(e)]);
  }

  lemma Witness(e: Entity, a: Action, segs: seq<string>)
    requires Dispatch(Table(), MethodOf(a), segs).Some?
    requires Dispatch(Table(), MethodOf(a), segs).value.handler == Handle(e, a)
    ensures exists segs :: Dispatch(Table(), MethodOf(a), segs).Some?
                        && Dispatch(Table(), MethodOf(a), segs).value.handler == Handle(e, a)
  {
  }

  // ---------------------------------------------------------------------------
  // redirects land on detail pages

  /** The path of an entity's detail page below the mount point. */
  function DetailPath(e: Entity, k: Id): (p: string)
    ensures |p| > 0 && p[0] == '/'
  {
    "/" + Name(e) + "/" + IdText(k)
  }

  /** A `url` virtual `prefix + id` is the mount point followed by the detail
      path when `prefix` is the mount point, the entity's name and a '/'. */
  lemma Mounted(e: Entity, k: Id, prefix: string)
    requires prefix == "/catalog" + "/" + Name(e) + "/"
    ensures prefix + IdText(k) == "/catalog" + DetailPath(e, k)
  {
  }

  /** The `url` virtual of each entity is the mount point followed by the
      detail path. */
  lemma UrlsAreDetailPaths(k: Id)
    ensures BookModel.Url(k) == "/catalog" + DetailPath(Book, k)
    ensures AuthorModel.Url(k) == "/catalog" + DetailPath(Author, k)
    ensures GenreModel.Url(k) == "/catalog" + DetailPath(Genre, k)
    ensures BookInstanceModel.Url(k) == "/catalog" + DetailPath(Copy, k)
  {
    Mounted(Book, k, "/catalog/book/");
    Mounted(Author, k, "/catalog/author/");
    Mounted(Genre, k, "/catalog/genre/");
    Mounted(Copy, k, "/catalog/bookinstance/");
  }

  /** A two-segment path splits into its two segments. */
  lemma {:induction false} SegmentsOfTwo(x: string, y: string)
    requires '/' !in x && '/' !in y
    ensures Segments("/" + x + "/" + y) == [x, y]
  {
    var parts := [x, y];
    var j := Join(parts);
    assert j == x + "/" + y by {
      assert parts[1..] == [y];
      assert Join(parts[1..]) == y;
    }
    assert "" + "/" + j == "/" + j;
    assert "/" + (x + "/" + y) == "/" + x + "/" + y;
    SplitCons("", j);
    SplitJoin(parts);
    assert Split("/" + x + "/" + y) == [""] + parts;
  }

  /** The detail path splits into the entity's name and the id's text. */
  lemma DetailSegments(e: Entity, k: Id)
    ensures Segments(DetailPath(e, k)) == [Name(e), IdText(k)]
  {
    assert '/' !in Name(e) by {
      NameShape(e);
      assert forall i | 0 <= i < |Name(e)| :: Name(e)[i] != '/';
    }
    SegmentsOfTwo(Name(e), IdText(k));
  }

  /** The page a create or update redirects to is served by the detail
      handler of the same entity, with the record's own id. */
  lemma RedirectReachesDetail(e: Entity, k: Id)
    ensures Serve(Get, DetailPath(e, k)) == Some(Hit(Handle(e, Detail), Some(IdText(k))))
  {
    DetailSegments(e, k);
    CreateIsNoId(k);
    DetailReached(e, IdText(k));
  }
}
