/** The router-collection build of `start()`: the base route and then every
    named route are expanded by the proxy engine's `GenRouters`, the results
    are concatenated in that order, and only a complete, non-empty collection
    is served.

    `GenRouters` is the engine's and is not part of this model: it enters as a
    function `gen` from a route specification `S` to either the routers `R` it
    yields or an error. Serving is represented by the list of routers on which
    `Serve()` is started; the concurrent serving itself is not modelled. */
module RouterSet {
  import opened Wrappers

  /** A Go `error` value, known here only by its message. */
  datatype Error = Error(message: string)

  /** What `GenRouters` returns: routers, or an error. */
  datatype Result<+T> = Ok(value: T) | Err(error: Error)

  /** The error `start()` returns when the configuration yields no router. */
  const InvalidConfig: Error := Error("invalid config")

  /** The collection that appending route by route builds: the first failing
      expansion is the result, otherwise the concatenation in order. Written as
      the loop builds it, one route at a time from the left. */
  function Build<S, R>(gen: S -> Result<seq<R>>, specs: seq<S>): Result<seq<R>>
    decreases |specs|
  {
    if specs == [] then Ok([])
    else
      match Build(gen, specs[..|specs| - 1])
      case Err(e) => Err(e)
      case Ok(done) =>
        match gen(specs[|specs| - 1])
        case Err(e) => Err(e)
        case Ok(rs) => Ok(done + rs)
  }

  /** Every route expands without error. */
  predicate AllExpand<S, R>(gen: S -> Result<seq<R>>, specs: seq<S>) {
    forall i :: 0 <= i < |specs| ==> gen(specs[i]).Ok?
  }

  /** The groups of routers the routes expand to, in route order. */
  function Groups<S, R>(gen: S -> Result<seq<R>>, specs: seq<S>): (gs: seq<seq<R>>)
    requires AllExpand(gen, specs)
    ensures |gs| == |specs|
    ensures forall i :: 0 <= i < |specs| ==> gs[i] == gen(specs[i]).value
  {
    seq(|specs|, i requires 0 <= i < |specs| => gen(specs[i]).value)
  }

  /** Groups laid end to end, first group first. */
  function Flatten<R>(gs: seq<seq<R>>): seq<R> {
    if gs == [] then [] else gs[0] + Flatten(gs[1..])
  }

  /** The number of routers over all groups. */
  function TotalSize<R>(gs: seq<seq<R>>): nat {
    if gs == [] then 0 else |gs[0]| + TotalSize(gs[1..])
  }

  lemma {:induction false} FlattenAppend<R>(gs: seq<seq<R>>, g: seq<R>)
    ensures Flatten(gs + [g]) == Flatten(gs) + g
    decreases |gs|
  {
    if gs == [] {
      assert [] + [g] == [g];
      assert [g][1..] == [];
    } else {
      assert (gs + [g])[0] == gs[0];
      assert (gs + [g])[1..] == gs[1..] + [g];
      FlattenAppend(gs[1..], g);
    }
  }

  /** The flattened collection holds exactly as many routers as the groups
      together. */
  lemma {:induction false} FlattenSize<R>(gs: seq<seq<R>>)
    ensures |Flatten(gs)| == TotalSize(gs)
    decreases |gs|
  {
    if gs != [] {
      FlattenSize(gs[1..]);
    }
  }

  /** The build succeeds exactly when every route expands, and then it is the
      routes' groups concatenated in route order. */
  lemma {:induction false} BuildOkIffAllExpand<S, R>(gen: S -> Result<seq<R>>, specs: seq<S>)
    ensures Build(gen, specs).Ok? <==> AllExpand(gen, specs)
    ensures Build(gen, specs).Ok? ==> Build(gen, specs).value == Flatten(Groups(gen, specs))
    decreases |specs|
  {
    if specs != [] {
      var init := specs[..|specs| - 1];
      BuildOkIffAllExpand(gen, init);
      assert forall i :: 0 <= i < |init| ==> init[i] == specs[i];
      if AllExpand(gen, specs) {
        assert AllExpand(gen, init);
        assert Groups(gen, specs) == Groups(gen, init) + [gen(specs[|specs| - 1]).value];
        FlattenAppend(Groups(gen, init), gen(specs[|specs| - 1]).value);
      } else if AllExpand(gen, init) {
        assert !gen(specs[|specs| - 1]).Ok?;
      }
    }
  }

  /** A failed build reports the error of the FIRST route that fails to
      expand; every route before it expanded. */
  lemma {:induction false} BuildErrIsFirstFailure<S, R>(gen: S -> Result<seq<R>>, specs: seq<S>)
    requires Build(gen, specs).Err?
    ensures exists k :: (0 <= k < |specs| && gen(specs[k]).Err? &&
      Build(gen, specs).error == gen(specs[k]).error &&
      AllExpand(gen, specs[..k]))
    decreases |specs|
  {
    var init := specs[..|specs| - 1];
    assert forall i :: 0 <= i < |init| ==> init[i] == specs[i];
    if Build(gen, init).Err? {
      BuildErrIsFirstFailure(gen, init);
      var k :| 0 <= k < |init| && gen(init[k]).Err? &&
        Build(gen, init).error == gen(init[k]).error && AllExpand(gen, init[..k]);
      assert init[..k] == specs[..k];
    } else {
      BuildOkIffAllExpand(gen, init);
      assert specs[..|specs| - 1] == init;
    }
  }

  /** Once a prefix of the routes fails, further routes do not change the
      outcome. */
  lemma {:induction false} BuildErrSticks<S, R>(gen: S -> Result<seq<R>>, specs: seq<S>, more: seq<S>)
    requires Build(gen, specs).Err?
    ensures Build(gen, specs + more) == Build(gen, specs)
    decreases |more|
  {
    if more == [] {
      assert specs + more == specs;
    } else {
      var init := more[..|more| - 1];
      BuildErrSticks(gen, specs, init);
      assert (specs + more)[..|specs + more| - 1] == specs + init;
    }
  }

  /** `start()` without the debug switch and the goroutines: builds the
      collection from the base route and then each named route, rejects an
      empty collection, and otherwise starts every router. `err` is the error
      returned (`None` for nil) and `served` lists, in order, the routers on
      which `Serve()` is started. */
  method Start<S, R>(base: S, routes: seq<S>, gen: S -> Result<seq<R>>)
    returns (err: Option<Error>, served: seq<R>)
    ensures Build(gen, [base] + routes).Err? ==>
      err == Some(Build(gen, [base] + routes).error) && served == []
    ensures Build(gen, [base] + routes) == Ok([]) ==>
      err == Some(InvalidConfig) && served == []
    ensures Build(gen, [base] + routes).Ok? && Build(gen, [base] + routes).value != [] ==>
      err == None && served == Build(gen, [base] + routes).value
  {
    var routers: seq<R> := [];
    var rts := gen(base);
    assert ([base] + routes[..0])[..0] == [];
    assert [base] + routes[..0] == [base];
    if rts.Err? {
      BuildErrSticks(gen, [base], routes);
      return Some(rts.error), [];
    }
    routers := routers + rts.value;

    for i := 0 to |routes|
      invariant Build(gen, [base] + routes[..i]) == Ok(routers)
    {
      var prefix := [base] + routes[..i + 1];
      assert prefix[..|prefix| - 1] == [base] + routes[..i];
      assert prefix[|prefix| - 1] == routes[i];
      rts := gen(routes[i]);
      if rts.Err? {
        assert routes == routes[..i + 1] + routes[i + 1..];
        assert [base] + routes == prefix + routes[i + 1..];
        BuildErrSticks(gen, prefix, routes[i + 1..]);
        return Some(rts.error), [];
      }
      routers := routers + rts.value;
    }
    assert routes[..|routes|] == routes;

    if |routers| == 0 {
      return Some(InvalidConfig), [];
    }
    served := [];
    for i := 0 to |routers|
      invariant served == routers[..i]
    {
      served := served + [routers[i]];  // go routers[i].Serve()
    }
    return None, served;
  }

  /** What a successful `start()` serves: the base route's routers first, then
      each named route's in order, every router once, as many as the groups
      hold together. */
  lemma ServedInRouteOrder<S, R>(base: S, routes: seq<S>, gen: S -> Result<seq<R>>, served: seq<R>)
    requires Build(gen, [base] + routes) == Ok(served)
    ensures gen(base).Ok? && AllExpand(gen, routes)
    ensures served == gen(base).value + Flatten(Groups(gen, routes))
    ensures |served| == TotalSize(Groups(gen, [base] + routes))
  {
    BuildOkIffAllExpand(gen, [base] + routes);
    assert ([base] + routes)[0] == base;
    var gs := Groups(gen, [base] + routes);
    assert AllExpand(gen, routes) by {
      forall i | 0 <= i < |routes| ensures gen(routes[i]).Ok? {
        assert ([base] + routes)[i + 1] == routes[i];
      }
    }
    assert gs[1..] == Groups(gen, routes);
    FlattenSize(gs);
  }
}
