/** Walking from a value to the struct fields it was loaded from, through casts, phis and
    selects that may form cycles. */
module LayerChain {
  import opened Options
  import opened MultiMap
  import opened TypeIndex

  type Value = nat

  /** What the walk distinguishes. `layers` are the fields that `getGEPLayerTypes` appends. */
  datatype Node =
    | Argument
    | Gep(pointer: Value, layers: seq<TypeIdx>)
    | Load(operand: Value)
    | Cast(operand: Value)
    | Phi(incoming: seq<Value>)
    | Select(whenTrue: Value, whenFalse: Value)
    | Unary(operand: Value)
    | Other

  type Values = map<Value, Node>

  /** The values the walk may go on to. */
  function Onward(n: Node): seq<Value> {
    match n
    case Load(o) => [o]
    case Cast(o) => [o]
    case Unary(o) => [o]
    case Select(t, _) => [t]
    case Phi(incoming) => incoming
    case Argument | Gep(_, _) | Other => []
  }

  /** Operands are values of the graph, and a phi has some. */
  predicate Closed(g: Values, n: Node) {
    match n
    case Load(o) => o in g
    case Cast(o) => o in g
    case Unary(o) => o in g
    case Select(t, f) => t in g && f in g
    case Phi(incoming) => incoming != [] && forall j | 0 <= j < |incoming| :: incoming[j] in g
    case Gep(pointer, _) => pointer in g
    case Argument | Other => true
  }

  predicate WellFormed(g: Values) {
    forall v | v in g :: Closed(g, g[v])
  }

  /** The result of `nextLayerBaseType` with what it leaves in its reference parameters. */
  datatype Found = Found(ret: bool, tyList: seq<TypeIdx>, nextV: Option<Value>, visited: set<Value>)

  function Next(g: Values, v: Option<Value>, tyList: seq<TypeIdx>, visited: set<Value>): (r: Found)
    requires WellFormed(g) && (v.Some? ==> v.value in g)
    ensures tyList <= r.tyList && (r.ret <==> |r.tyList| > |tyList|)
    ensures visited <= r.visited && (r.nextV.Some? ==> r.nextV.value in g)
    ensures r.ret ==> v.Some? && v.value !in visited && v.value in r.visited && r.nextV.Some?
    decreases g.Keys - visited, 0, 0
  {
    if v.None? || g[v.value].Argument? || v.value in visited then Found(false, tyList, v, visited)
    else
      var seen := visited + {v.value};
      match g[v.value]
      case Gep(pointer, layers) =>
        Found(layers != [], tyList + layers, if layers != [] then Some(pointer) else None, seen)
      case Load(o) => Next(g, Some(o), tyList, seen)
      case Cast(o) => Next(g, Some(o), tyList, seen)
      case Unary(o) => Next(g, Some(o), tyList, seen)
      case Select(t, _) => Next(g, Some(t), tyList, seen)
      case Phi(incoming) => NextPhi(g, incoming, 0, tyList, seen)
      case Other => Found(false, tyList, None, seen)
  }

  /** Incoming values from the `i`-th on, each from the same list and visited set. */
  function NextPhi(g: Values, incoming: seq<Value>, i: nat, tyList: seq<TypeIdx>, visited: set<Value>): (r: Found)
    requires WellFormed(g) && i < |incoming| && forall j | 0 <= j < |incoming| :: incoming[j] in g
    ensures tyList <= r.tyList && (r.ret <==> |r.tyList| > |tyList|)
    ensures visited <= r.visited && (r.nextV.Some? ==> r.nextV.value in g)
    ensures r.ret ==> r.nextV.Some?
    decreases g.Keys - visited, 1, |incoming| - i
  {
    var r := Next(g, Some(incoming[i]), tyList, visited);
    if |r.tyList| > |tyList| || i + 1 == |incoming| then r else NextPhi(g, incoming, i + 1, tyList, visited)
  }

  method NextLayerBaseType(g: Values, v: Option<Value>, tyList0: seq<TypeIdx>, visited0: set<Value>)
    returns (ret: bool, tyList: seq<TypeIdx>, nextV: Option<Value>, visited: set<Value>)
    requires WellFormed(g) && (v.Some? ==> v.value in g)
    ensures Found(ret, tyList, nextV, visited) == Next(g, v, tyList0, visited0)
    decreases g.Keys - visited0
  {
    ret, tyList, nextV, visited := false, tyList0, v, visited0;
    if v.None? || g[v.value].Argument? { return; }
    if v.value in visited { return; }
    visited := visited + {v.value};
    match g[v.value] {
      case Gep(pointer, layers) =>
        tyList := tyList + layers;
        ret := layers != [];
        nextV := if ret then Some(pointer) else None;
      case Load(o) => ret, tyList, nextV, visited := NextLayerBaseType(g, Some(o), tyList, visited);
      case Cast(o) => ret, tyList, nextV, visited := NextLayerBaseType(g, Some(o), tyList, visited);
      case Unary(o) => ret, tyList, nextV, visited := NextLayerBaseType(g, Some(o), tyList, visited);
      case Select(t, _) => ret, tyList, nextV, visited := NextLayerBaseType(g, Some(t), tyList, visited);
      case Phi(incoming) =>
        var nTyList, nVisited := [], {};
        var i := 0;
        while i != |incoming|
          invariant 0 <= i <= |incoming|
          invariant i == |incoming| ==> Found(ret, nTyList, nextV, nVisited) == NextPhi(g, incoming, 0, tyList, visited)
          invariant i < |incoming| ==> NextPhi(g, incoming, i, tyList, visited) == NextPhi(g, incoming, 0, tyList, visited)
        {
          ret, nTyList, nextV, nVisited := NextLayerBaseType(g, Some(incoming[i]), tyList, visited);
          if |nTyList| > |tyList| { break; }
          i := i + 1;
        }
        tyList, visited := nTyList, nVisited;
      case Other => nextV := None;
    }
  }

  // ---- What it finds ----

  /** A path without repetition, outside `avoid`, to an access whose fields are known. */
  ghost predicate Finds(g: Values, path: seq<Value>, avoid: set<Value>)
    decreases |path|
  {
    && path != [] && path[0] in g && path[0] !in avoid
    && if |path| == 1 then g[path[0]].Gep? && g[path[0]].layers != []
       else path[1] in Onward(g[path[0]]) && Finds(g, path[1..], avoid + {path[0]})
  }

  function Last<T>(s: seq<T>): T
    requires s != []
  {
    s[|s| - 1]
  }

  lemma {:induction false} FindsEnds(g: Values, path: seq<Value>, avoid: set<Value>)
    requires Finds(g, path, avoid)
    ensures Last(path) in g && g[Last(path)].Gep? && Last(path) !in avoid
    decreases |path|
  {
    if |path| > 1 {
      FindsEnds(g, path[1..], avoid + {path[0]});
    }
  }

  ghost predicate CanFind(g: Values, v: Value, avoid: set<Value>) {
    exists path :: Finds(g, path, avoid) && path[0] == v
  }

  /** At every phi the path takes the first incoming value from which there is such a path. */
  ghost predicate FindsFirst(g: Values, path: seq<Value>, avoid: set<Value>)
    decreases |path|
  {
    && Finds(g, path, avoid)
    && (|path| > 1 ==>
          && (g[path[0]].Phi? ==> FirstOf(g, g[path[0]].incoming, path[1], avoid + {path[0]}))
          && FindsFirst(g, path[1..], avoid + {path[0]}))
  }

  ghost predicate FirstOf(g: Values, incoming: seq<Value>, v: Value, avoid: set<Value>) {
    exists k :: 0 <= k < |incoming| && incoming[k] == v && forall j | 0 <= j < k :: !CanFind(g, incoming[j], avoid)
  }

  lemma OneFurther(g: Values, v: Value, path: seq<Value>, avoid: set<Value>)
    requires v in g && v !in avoid && FindsFirst(g, path, avoid + {v}) && path[0] in Onward(g[v])
    requires g[v].Phi? ==> FirstOf(g, g[v].incoming, path[0], avoid + {v})
    ensures FindsFirst(g, [v] + path, avoid) && Last([v] + path) == Last(path)
    ensures avoid + Elements([v] + path) == avoid + {v} + Elements(path)
  {
    assert ([v] + path)[1..] == path;
    forall x ensures x in Elements([v] + path) <==> x == v || x in Elements(path) {
    }
  }

  /** When the list grows it grows by the fields of the first access so reached, and the values
      on the way are what has been visited. */
  lemma {:induction false} NextFinds(g: Values, v: Value, tyList: seq<TypeIdx>, visited: set<Value>) returns (path: seq<Value>)
    requires WellFormed(g) && v in g && Next(g, Some(v), tyList, visited).ret
    ensures FindsFirst(g, path, visited) && path[0] == v && Last(path) in g && g[Last(path)].Gep?
    ensures var r := Next(g, Some(v), tyList, visited);
            && r.tyList == tyList + g[Last(path)].layers && r.nextV == Some(g[Last(path)].pointer)
            && r.visited == visited + Elements(path)
    decreases g.Keys - visited, 0, 0
  {
    var seen := visited + {v};
    match g[v] {
      case Gep(_, _) => path := [v];
      case Phi(incoming) =>
        path := PhiFinds(g, incoming, 0, tyList, seen);
        OneFurther(g, v, path, visited);
        path := [v] + path;
      case Load(o) =>
        path := NextFinds(g, o, tyList, seen);
        OneFurther(g, v, path, visited);
        path := [v] + path;
      case Cast(o) =>
        path := NextFinds(g, o, tyList, seen);
        OneFurther(g, v, path, visited);
        path := [v] + path;
      case Unary(o) =>
        path := NextFinds(g, o, tyList, seen);
        OneFurther(g, v, path, visited);
        path := [v] + path;
      case Select(t, _) =>
        path := NextFinds(g, t, tyList, seen);
        OneFurther(g, v, path, visited);
        path := [v] + path;
    }
  }

  lemma {:induction false} PhiFinds(g: Values, incoming: seq<Value>, i: nat, tyList: seq<TypeIdx>, visited: set<Value>) returns (path: seq<Value>)
    requires WellFormed(g) && i < |incoming| && forall j | 0 <= j < |incoming| :: incoming[j] in g
    requires NextPhi(g, incoming, i, tyList, visited).ret && forall j | 0 <= j < i :: !CanFind(g, incoming[j], visited)
    ensures FindsFirst(g, path, visited) && FirstOf(g, incoming, path[0], visited) && Last(path) in g && g[Last(path)].Gep?
    ensures var r := NextPhi(g, incoming, i, tyList, visited);
            && r.tyList == tyList + g[Last(path)].layers && r.nextV == Some(g[Last(path)].pointer)
            && r.visited == visited + Elements(path)
    decreases g.Keys - visited, 1, |incoming| - i
  {
    var r := Next(g, Some(incoming[i]), tyList, visited);
    if |r.tyList| > |tyList| || i + 1 == |incoming| {
      path := NextFinds(g, incoming[i], tyList, visited);
    } else {
      NextExact(g, incoming[i], tyList, visited);
      path := PhiFinds(g, incoming, i + 1, tyList, visited);
    }
  }

  /** And it grows whenever there is such an access. */
  lemma {:induction false} FindsNext(g: Values, path: seq<Value>, tyList: seq<TypeIdx>, visited: set<Value>)
    requires WellFormed(g) && Finds(g, path, visited)
    ensures Next(g, Some(path[0]), tyList, visited).ret
    decreases |path|, 0
  {
    if |path| > 1 {
      var seen := visited + {path[0]};
      FindsNext(g, path[1..], tyList, seen);
      if g[path[0]].Phi? {
        var incoming := g[path[0]].incoming;
        var k :| 0 <= k < |incoming| && incoming[k] == path[1];
        PhiReaches(g, incoming, 0, k, tyList, seen);
      }
    }
  }

  lemma {:induction false} PhiReaches(g: Values, incoming: seq<Value>, i: nat, k: nat, tyList: seq<TypeIdx>, visited: set<Value>)
    requires WellFormed(g) && i <= k < |incoming| && forall j | 0 <= j < |incoming| :: incoming[j] in g
    requires Next(g, Some(incoming[k]), tyList, visited).ret
    ensures NextPhi(g, incoming, i, tyList, visited).ret
    decreases k - i
  {
    if i < k && |Next(g, Some(incoming[i]), tyList, visited).tyList| == |tyList| {
      PhiReaches(g, incoming, i + 1, k, tyList, visited);
    }
  }

  /** On every value graph, cyclic or not: the answer is true exactly when some access with
      known fields can be reached without revisiting a value. */
  lemma NextExact(g: Values, v: Value, tyList: seq<TypeIdx>, visited: set<Value>)
    requires WellFormed(g) && v in g
    ensures Next(g, Some(v), tyList, visited).ret <==> CanFind(g, v, visited)
  {
    if Next(g, Some(v), tyList, visited).ret {
      NextCanFind(g, v, tyList, visited);
    }
    forall path | Finds(g, path, visited) && path[0] == v ensures Next(g, Some(v), tyList, visited).ret {
      FindsNext(g, path, tyList, visited);
    }
  }

  lemma {:induction false} NextCanFind(g: Values, v: Value, tyList: seq<TypeIdx>, visited: set<Value>)
    requires WellFormed(g) && v in g && Next(g, Some(v), tyList, visited).ret
    ensures CanFind(g, v, visited)
    decreases g.Keys - visited, 0, 0
  {
    match g[v] {
      case Gep(_, _) => assert Finds(g, [v], visited);
      case Phi(incoming) =>
        var k := PhiCanFind(g, incoming, 0, tyList, visited + {v});
        FindOneFurther(g, v, incoming[k], visited);
      case Load(o) => FoundOneFurther(g, v, o, tyList, visited);
      case Cast(o) => FoundOneFurther(g, v, o, tyList, visited);
      case Unary(o) => FoundOneFurther(g, v, o, tyList, visited);
      case Select(t, _) => FoundOneFurther(g, v, t, tyList, visited);
    }
  }

  lemma {:induction false} FoundOneFurther(g: Values, v: Value, o: Value, tyList: seq<TypeIdx>, visited: set<Value>)
    requires WellFormed(g) && v in g && v !in visited && o in g && o in Onward(g[v]) && Next(g, Some(o), tyList, visited + {v}).ret
    ensures CanFind(g, v, visited)
    decreases g.Keys - visited - {v}, 2, 0
  {
    NextCanFind(g, o, tyList, visited + {v});
    FindOneFurther(g, v, o, visited);
  }

  lemma FindOneFurther(g: Values, v: Value, o: Value, visited: set<Value>)
    requires v in g && v !in visited && o in Onward(g[v]) && CanFind(g, o, visited + {v})
    ensures CanFind(g, v, visited)
  {
    var path :| Finds(g, path, visited + {v}) && path[0] == o;
    assert ([v] + path)[1..] == path;
    assert Finds(g, [v] + path, visited);
  }

  lemma {:induction false} PhiCanFind(g: Values, incoming: seq<Value>, i: nat, tyList: seq<TypeIdx>, visited: set<Value>) returns (k: nat)
    requires WellFormed(g) && i < |incoming| && forall j | 0 <= j < |incoming| :: incoming[j] in g
    requires NextPhi(g, incoming, i, tyList, visited).ret
    ensures k < |incoming| && CanFind(g, incoming[k], visited)
    decreases g.Keys - visited, 1, |incoming| - i
  {
    var r := Next(g, Some(incoming[i]), tyList, visited);
    if |r.tyList| > |tyList| || i + 1 == |incoming| {
      k := i;
      NextCanFind(g, incoming[i], tyList, visited);
    } else {
      k := PhiCanFind(g, incoming, i + 1, tyList, visited);
    }
  }

  /** At a select the walk goes on to the first operand, at a phi to the first that leads to an
      access. */
  lemma FirstOperandsTaken(one: TypeIdx, other: TypeIdx)
    requires one != other
    ensures var g: Values := map[0 := Select(1, 2), 1 := Gep(3, [one]), 2 := Gep(3, [other]), 3 := Argument, 4 := Phi([3, 2, 1])];
            && WellFormed(g)
            && Next(g, Some(0), [], {}).tyList == [one]
            && Next(g, Some(4), [], {}).tyList == [other]
  {
    var g: Values := map[0 := Select(1, 2), 1 := Gep(3, [one]), 2 := Gep(3, [other]), 3 := Argument, 4 := Phi([3, 2, 1])];
    assert WellFormed(g);
    assert Next(g, Some(1), [], {0}).tyList == [] + [one];
    assert Next(g, Some(3), [], {4}) == Found(false, [], Some(3), {4});
    assert Next(g, Some(2), [], {4}).tyList == [] + [other];
    assert NextPhi(g, [3, 2, 1], 1, [], {4}) == Next(g, Some(2), [], {4});
    assert NextPhi(g, [3, 2, 1], 0, [], {4}) == NextPhi(g, [3, 2, 1], 1, [], {4});
    assert {} + {4 as Value} == {4} && {} + {0 as Value} == {0};
    assert Next(g, Some(4), [], {}) == NextPhi(g, [3, 2, 1], 0, [], {4});
  }

  /** Where a walk that finds nothing stops: at an argument, at a value visited before, or
      nowhere. At a phi the last incoming value counts. */
  ghost predicate Stops(g: Values, path: seq<Value>, avoid: set<Value>, end: Option<Value>)
    decreases |path|
  {
    && path != [] && path[0] in g
    && var v, onward := path[0], Onward(g[path[0]]);
       if g[v].Argument? || v in avoid then |path| == 1 && end == Some(v)
       else if onward == [] then |path| == 1 && end == None
       else |path| > 1 && path[1] == Last(onward) && Stops(g, path[1..], avoid + {v}, end)
  }

  ghost predicate StopsAt(g: Values, v: Value, avoid: set<Value>, end: Option<Value>) {
    exists path :: Stops(g, path, avoid, end) && path[0] == v
  }

  lemma {:induction false} NextStops(g: Values, v: Value, tyList: seq<TypeIdx>, visited: set<Value>)
    requires WellFormed(g) && v in g && !Next(g, Some(v), tyList, visited).ret
    ensures Next(g, Some(v), tyList, visited).tyList == tyList
    ensures StopsAt(g, v, visited, Next(g, Some(v), tyList, visited).nextV)
    decreases g.Keys - visited, 0, 0
  {
    var r := Next(g, Some(v), tyList, visited);
    if g[v].Argument? || v in visited || Onward(g[v]) == [] {
      assert Stops(g, [v], visited, r.nextV);
    } else {
      var o := Last(Onward(g[v]));
      if g[v].Phi? {
        PhiStops(g, g[v].incoming, 0, tyList, visited + {v});
      } else {
        NextStops(g, o, tyList, visited + {v});
      }
      var path :| Stops(g, path, visited + {v}, r.nextV) && path[0] == o;
      assert ([v] + path)[1..] == path;
      assert Stops(g, [v] + path, visited, r.nextV);
    }
  }

  lemma {:induction false} PhiStops(g: Values, incoming: seq<Value>, i: nat, tyList: seq<TypeIdx>, visited: set<Value>)
    requires WellFormed(g) && i < |incoming| && forall j | 0 <= j < |incoming| :: incoming[j] in g
    requires !NextPhi(g, incoming, i, tyList, visited).ret
    ensures NextPhi(g, incoming, i, tyList, visited).tyList == tyList
    ensures StopsAt(g, Last(incoming), visited, NextPhi(g, incoming, i, tyList, visited).nextV)
    decreases g.Keys - visited, 1, |incoming| - i
  {
    if i + 1 == |incoming| {
      NextStops(g, incoming[i], tyList, visited);
    } else {
      PhiStops(g, incoming, i + 1, tyList, visited);
    }
  }

  // ---- The chain of base types ----

  /** Where the loop of `getBaseTypeChain` ends. */
  function Walked(g: Values, v: Option<Value>, tyList: seq<TypeIdx>, visited: set<Value>): (r: Found)
    requires WellFormed(g) && (v.Some? ==> v.value in g)
    ensures tyList <= r.tyList
    decreases g.Keys - visited
  {
    var r := Next(g, v, tyList, visited);
    if r.ret then Walked(g, r.nextV, r.tyList, r.visited) else r
  }

  function LayersOf(g: Values, geps: seq<Value>): seq<TypeIdx> {
    if geps == [] then []
    else (if geps[0] in g && g[geps[0]].Gep? then g[geps[0]].layers else []) + LayersOf(g, geps[1..])
  }

  /** The accesses met from `v`: each is the first reached, over values not met before, from the
      pointer of the one before it, and none is reached from the last. The walk stops at `end`. */
  ghost predicate IsChain(g: Values, v: Value, avoid: set<Value>, geps: seq<Value>, end: Option<Value>)
    decreases |geps|
  {
    if geps == [] then !CanFind(g, v, avoid) && StopsAt(g, v, avoid, end)
    else
      exists path: seq<Value> ::
        && FindsFirst(g, path, avoid) && path[0] == v && Last(path) == geps[0]
        && geps[0] in g && g[geps[0]].Gep?
        && IsChain(g, g[geps[0]].pointer, avoid + Elements(path), geps[1..], end)
  }

  lemma {:induction false} WalkedChain(g: Values, v: Value, tyList: seq<TypeIdx>, visited: set<Value>) returns (geps: seq<Value>)
    requires WellFormed(g) && v in g
    ensures IsChain(g, v, visited, geps, Walked(g, Some(v), tyList, visited).nextV)
    ensures Walked(g, Some(v), tyList, visited).tyList == tyList + LayersOf(g, geps)
    decreases g.Keys - visited
  {
    hide Next, NextPhi, Finds, FindsFirst, StopsAt, CanFind;
    var r := Next(g, Some(v), tyList, visited);
    NextExact(g, v, tyList, visited);
    if r.ret {
      var path := NextFinds(g, v, tyList, visited);
      var rest := WalkedChain(g, r.nextV.value, r.tyList, r.visited);
      geps := [Last(path)] + rest;
      assert geps[1..] == rest;
      assert tyList + g[geps[0]].layers + LayersOf(g, rest) == tyList + (g[geps[0]].layers + LayersOf(g, rest));
    } else {
      NextStops(g, v, tyList, visited);
      geps := [];
    }
  }

  /** The accesses of a chain are all different. */
  lemma {:induction false} ChainOfDistinctAccesses(g: Values, v: Value, avoid: set<Value>, geps: seq<Value>, end: Option<Value>)
    requires IsChain(g, v, avoid, geps, end)
    ensures forall i | 0 <= i < |geps| :: geps[i] !in avoid
    ensures forall i, j | 0 <= i < j < |geps| :: geps[i] != geps[j]
    decreases |geps|
  {
    if geps != [] {
      var path: seq<Value> :|
        && FindsFirst(g, path, avoid) && path[0] == v && Last(path) == geps[0]
        && geps[0] in g && g[geps[0]].Gep?
        && IsChain(g, g[geps[0]].pointer, avoid + Elements(path), geps[1..], end);
      FindsEnds(g, path, avoid);
      ChainOfDistinctAccesses(g, g[geps[0]].pointer, avoid + Elements(path), geps[1..], end);
      assert forall i | 0 < i < |geps| :: geps[i] == geps[1..][i - 1];
    }
  }

  lemma WalkedStep(g: Values, v: Option<Value>, tyList: seq<TypeIdx>, visited: set<Value>)
    requires WellFormed(g) && (v.Some? ==> v.value in g)
    ensures var r := Next(g, v, tyList, visited);
            Walked(g, v, tyList, visited) == if r.ret then Walked(g, r.nextV, r.tyList, r.visited) else r
  {
  }

  /** `base` is the base type of `v`, if it has one. A value is open when it is a pointer
      argument or something is stored through it. The chain is complete when the walk stops at a
      value that is not open; one that is not complete caps its last type. */
  method GetBaseTypeChain(g: Values, v: Value, base: Option<int>, open: set<Value>, caps0: set<int>)
    returns (chain: seq<TypeIdx>, complete: bool, caps: set<int>, ghost geps: seq<Value>, ghost end: Option<Value>)
    requires WellFormed(g) && v in g
    ensures IsChain(g, v, {}, geps, end)
    ensures chain == (if base.Some? then [TypeIdx(base.value, 0)] else []) + LayersOf(g, geps)
    ensures complete <==> end.Some? && end.value !in open
    ensures caps == if chain != [] && !complete then caps0 + {Last(chain).hash} else caps0
  {
    hide *;
    chain, complete, caps := [], true, caps0;
    if base.Some? { chain := chain + [TypeIdx(base.value, 0)]; }
    var cv, nextV: Option<Value> := Some(v), None;
    var tyList: seq<TypeIdx> := [];
    var visited: set<Value> := {};
    var more := true;
    while more
      invariant cv.Some? ==> cv.value in g
      invariant more ==> Walked(g, cv, tyList, visited) == Walked(g, Some(v), [], {})
      invariant !more ==> Found(false, tyList, nextV, visited) == Walked(g, Some(v), [], {})
      decreases g.Keys - visited, more
    {
      WalkedStep(g, cv, tyList, visited);
      more, tyList, nextV, visited := NextLayerBaseType(g, cv, tyList, visited);
      if more { cv := nextV; }
    }
    geps := WalkedChain(g, v, [], {});
    end := nextV;
    chain := chain + tyList;
    if nextV.None? {
      complete := false;
    } else if nextV.value in open {
      complete := false;
    }
    if chain != [] && !complete {
      caps := caps + {Last(chain).hash};
    }
  }
}
