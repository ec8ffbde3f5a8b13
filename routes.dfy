/** The router of routes.js and its mount point in index.js. A request path
    is given as its segments ("/cus/create" is ["cus", "create"], "/cus" and
    "/cus/" are ["cus"], "/" is []). */
module Routes {
  import opened CustomerModel
  import opened Controller

  datatype HttpMethod = Get | Post | Put | Patch | Delete

  /** One segment of a registered path: a literal, or the `:id` parameter. */
  datatype Segment = Literal(text: string) | IdParam

  /** The four handlers of controller.js. */
  datatype Handler = CreateUserHandler | GetCustomerHandler | CustomerUpdateHandler | CustomerDeleteHandler

  /** One `router.<method>(path, handler)` registration. */
  datatype Entry = Entry(verb: HttpMethod, pattern: seq<Segment>, handler: Handler)

  /** The router's table, in registration order. */
  const Table: seq<Entry> := [
    Entry(Post, [Literal("create")], CreateUserHandler),
    Entry(Get, [], GetCustomerHandler),
    Entry(Patch, [IdParam], CustomerUpdateHandler),
    Entry(Delete, [IdParam], CustomerDeleteHandler)
  ]

  /** Where a request ends up: the health route of index.js, a handler with
      the values bound to the pattern's parameters, or no route (404). */
  datatype Target = Health | Handled(handler: Handler, params: seq<string>) | NotFound

  /** The answer of the health route registered directly on the app. */
  const HealthResponse := Response(200, Message("ALL GOOD!!!!"))

  /** Whether a pattern matches a path: same length, literals equal, and a
      non-empty value for every parameter (`/:id` needs at least one
      character). */
  predicate Matches(pattern: seq<Segment>, path: seq<string>) {
    && |pattern| == |path|
    && (forall i :: 0 <= i < |path| && pattern[i].Literal? ==> path[i] == pattern[i].text)
    && (forall i :: 0 <= i < |path| && pattern[i].IdParam? ==> path[i] != "")
  }

  /** The values a matching path gives to the pattern's parameters, in order:
      one per `:id` segment, none for a literal. */
  function Bind(pattern: seq<Segment>, path: seq<string>): (params: seq<string>)
    requires |pattern| == |path|
    ensures |params| <= |path|
    ensures (forall i :: 0 <= i < |pattern| ==> pattern[i].Literal?) ==> params == []
    ensures (forall i :: 0 <= i < |pattern| ==> pattern[i].IdParam?) ==> params == path
  {
    if path == [] then []
    else
      assert forall i :: 1 <= i < |pattern| ==> pattern[1..][i - 1] == pattern[i];
      var rest := Bind(pattern[1..], path[1..]);
      assert path == [path[0]] + path[1..];
      (if pattern[0].IdParam? then [path[0]] else []) + rest
  }

  /** The first entry of `table` that matches the request, as Express tries
      the registrations in order. */
  function Dispatch(table: seq<Entry>, m: HttpMethod, path: seq<string>): (t: Target)
    ensures t != Health
    ensures t.NotFound? <==> forall e :: e in table ==> !(e.verb == m && Matches(e.pattern, path))
    ensures t.Handled? ==>
      exists k :: && 0 <= k < |table|
                  && table[k].verb == m && Matches(table[k].pattern, path)
                  && t == Handled(table[k].handler, Bind(table[k].pattern, path))
                  && (forall j :: 0 <= j < k ==> !(table[j].verb == m && Matches(table[j].pattern, path)))
  {
    if table == [] then NotFound
    else if table[0].verb == m && Matches(table[0].pattern, path) then
      Handled(table[0].handler, Bind(table[0].pattern, path))
    else
      var t := Dispatch(table[1..], m, path);
      assert forall e :: e in table <==> e == table[0] || e in table[1..];
      assert forall j :: 1 <= j < |table| ==> table[j] == table[1..][j - 1];
      t
  }

  /** The router of routes.js on a path relative to its mount point: each of
      the four registrations is reached by its own method and path shape, with
      `:id` bound to the one non-empty segment, and nothing else reaches a
      handler. */
  function Route(m: HttpMethod, path: seq<string>): (t: Target)
    ensures t != Health
    ensures m == Post && path == ["create"] ==> t == Handled(CreateUserHandler, [])
    ensures m == Get && path == [] ==> t == Handled(GetCustomerHandler, [])
    ensures m == Patch && |path| == 1 && path[0] != "" ==> t == Handled(CustomerUpdateHandler, path)
    ensures m == Delete && |path| == 1 && path[0] != "" ==> t == Handled(CustomerDeleteHandler, path)
    ensures t.Handled? <==>
      || (m == Post && path == ["create"])
      || (m == Get && path == [])
      || ((m == Patch || m == Delete) && |path| == 1 && path[0] != "")
  {
    assert Matches(Table[0].pattern, path) <==> path == ["create"];
    assert Matches(Table[1].pattern, path) <==> path == [];
    assert Matches(Table[2].pattern, path) <==> |path| == 1 && path[0] != "";
    assert Table[3].pattern == Table[2].pattern;
    Dispatch(Table, m, path)
  }

  /** The app of index.js: `GET /` is its own health route, and every path
      under `/cus` goes to the router with the prefix removed. */
  function Serve(m: HttpMethod, path: seq<string>): (t: Target)
    ensures t.Health? <==> m == Get && path == []
    ensures t.Handled? ==> |path| >= 1 && path[0] == "cus" && t == Route(m, path[1..])
  {
    if m == Get && path == [] then Health
    else if |path| >= 1 && path[0] == "cus" then Route(m, path[1..])
    else NotFound
  }

  /** The app's own answer: the health route's response where `Serve`
      picks it, nothing where the router or the 404 page answers. */
  function HealthAnswer(m: HttpMethod, path: seq<string>): (r: Option<Response>)
    ensures r.Some? <==> m == Get && path == []
    ensures r.Some? ==> r.value.status == 200 && r.value.body == Message("ALL GOOD!!!!")
  {
    if Serve(m, path).Health? then Some(HealthResponse) else None
  }

  /** All four handlers sit under `/cus`; `GET /` on the app is the health
      route; `GET /cus/:id` is a 404. */
  lemma ServeMountsUnderCus(m: HttpMethod, rest: seq<string>, id: string)
    ensures Serve(m, ["cus"] + rest) == Route(m, rest)
    ensures Serve(Get, []) == Health
    ensures Serve(Post, ["create"]) == NotFound
    ensures Serve(Get, ["cus", id]) == NotFound
  {
    assert (["cus"] + rest)[1..] == rest;
    assert ["cus", id][1..] == [id];
  }
}
