/** The call/return check on candidate paths (OJWebService/Graphs/PathChecker.cs).
    Walking the path, a step into the first node of another function is a
    call and pushes the caller's function; a step into any other node of
    another function is a return and must land in the function on top of
    the stack, which is popped. Steps inside one function are ignored. The
    source keeps the stack in a field but clears it on every call, so the
    check is a function of the path alone. */
module PathChecker {
  import opened Wrappers
  import opened NodeInfoCollection
  import ExecutePath

  /** The loop state: the last node whose function differed from its
      predecessor's (the source's `lastNode`) and the function stack, top last. */
  datatype Scan = Scan(last: NodeInfo, stack: seq<string>)

  /** One pass of the loop, on the node `id`: None when the path is rejected. */
  function Step(infos: NodeInfoCollection, s: Scan, id: int): (r: Outcome<Option<Scan>>)
    ensures r.Err? <==> Get(infos, id).Err?
    ensures r.Err? ==> r.error == ArgumentOutOfRange
    ensures r.Ok? && r.value.Some? ==> r.value.value.last.ownedFunction == Get(infos, id).value.ownedFunction
  {
    match Get(infos, id)
    case Err(e) => Err(e)
    case Ok(current) =>
      if s.last.ownedFunction == current.ownedFunction then Ok(Some(s))
      else if current.isFirstNode then Ok(Some(Scan(current, s.stack + [s.last.ownedFunction])))
      else if |s.stack| > 0 then
        if current.ownedFunction != s.stack[|s.stack| - 1] then Ok(None)
        else Ok(Some(Scan(current, s.stack[..|s.stack| - 1])))
      else Ok(Some(Scan(current, s.stack)))
  }

  /** The loop over the remaining nodes: stops at the first rejection or
      exception. */
  function Walk(infos: NodeInfoCollection, s: Scan, ids: seq<int>): (r: Outcome<Option<Scan>>)
    decreases |ids|
  {
    if |ids| == 0 then Ok(Some(s))
    else
      match Step(infos, s, ids[0])
      case Err(e) => Err(e)
      case Ok(None) => Ok(None)
      case Ok(Some(t)) => Walk(infos, t, ids[1..])
  }

  /** Check on a node sequence: the first node is looked up before the loop
      (reading the first node of an empty path throws). */
  function CheckNodes(infos: NodeInfoCollection, nodes: seq<int>): (r: Outcome<bool>)
  {
    if |nodes| == 0 then Err(ArgumentOutOfRange)
    else
      match Get(infos, nodes[0])
      case Err(e) => Err(e)
      case Ok(first) =>
        match Walk(infos, Scan(first, []), nodes[1..])
        case Err(e) => Err(e)
        case Ok(o) => Ok(o.Some?)
  }

  /** Check. */
  function Check(infos: NodeInfoCollection, path: ExecutePath.ExecutePath): (r: Outcome<bool>)
    ensures r.Err? ==> r.error == ArgumentOutOfRange && (|path.nodes| == 0 || !Known(infos, path.nodes))
    ensures |path.nodes| > 0 && Known(infos, path.nodes) ==> r.Ok?
  {
    CheckErr(infos, path.nodes);
    CheckNodes(infos, path.nodes)
  }

  /** Every node of the sequence is in the node table. */
  predicate Known(infos: NodeInfoCollection, nodes: seq<int>) {
    forall i :: 0 <= i < |nodes| ==> 0 <= nodes[i] < Count(infos)
  }

  // ---------------------------------------------------------------------
  // The walk

  /** Continue a walk that is still going. */
  function Then(infos: NodeInfoCollection, o: Outcome<Option<Scan>>, ids: seq<int>): Outcome<Option<Scan>> {
    if o.Ok? && o.value.Some? then Walk(infos, o.value.value, ids) else o
  }

  /** A walk over two pieces is the walk over the first continued by the
      walk over the second. */
  lemma {:induction false} WalkAppend(infos: NodeInfoCollection, s: Scan, a: seq<int>, b: seq<int>)
    ensures Walk(infos, s, a + b) == Then(infos, Walk(infos, s, a), b)
    decreases |a|
  {
    if |a| > 0 {
      assert (a + b)[0] == a[0] && (a + b)[1..] == a[1..] + b;
      match Step(infos, s, a[0])
      case Err(_) =>
      case Ok(None) =>
      case Ok(Some(t)) => WalkAppend(infos, t, a[1..], b);
    } else {
      assert a + b == b;
    }
  }

  /** After a walk that is still going, the state's function is that of the
      last node walked. */
  lemma {:induction false} WalkLast(infos: NodeInfoCollection, s: Scan, ids: seq<int>)
    requires Walk(infos, s, ids).Ok? && Walk(infos, s, ids).value.Some?
    ensures var t := Walk(infos, s, ids).value.value;
      if |ids| == 0 then t == s
      else Get(infos, ids[|ids| - 1]).Ok? && t.last.ownedFunction == Get(infos, ids[|ids| - 1]).value.ownedFunction
    decreases |ids|
  {
    if |ids| > 0 {
      var t := Step(infos, s, ids[0]).value.value;
      WalkLast(infos, t, ids[1..]);
      if |ids| > 1 {
        assert ids[1..][|ids[1..]| - 1] == ids[|ids| - 1];
      }
    }
  }

  /** A walk fails only on a node missing from the table, and over known
      nodes it never fails. */
  lemma {:induction false} WalkKnown(infos: NodeInfoCollection, s: Scan, ids: seq<int>)
    ensures Walk(infos, s, ids).Err? ==> Walk(infos, s, ids).error == ArgumentOutOfRange && !Known(infos, ids)
    ensures Known(infos, ids) ==> Walk(infos, s, ids).Ok?
    decreases |ids|
  {
    if |ids| > 0 {
      match Step(infos, s, ids[0])
      case Err(_) =>
      case Ok(None) =>
      case Ok(Some(t)) =>
        WalkKnown(infos, t, ids[1..]);
        if Walk(infos, s, ids).Err? {
          var i :| 0 <= i < |ids[1..]| && !(0 <= ids[1..][i] < Count(infos));
          assert ids[1..][i] == ids[i + 1];
        }
    }
  }

  // ---------------------------------------------------------------------
  // Properties of Check

  /** Check fails exactly with ArgumentOutOfRange, only for an empty path or
      one with a node missing from the table; a non-empty path of known
      nodes always gets a verdict. */
  lemma CheckErr(infos: NodeInfoCollection, nodes: seq<int>)
    ensures CheckNodes(infos, nodes).Err? ==> CheckNodes(infos, nodes).error == ArgumentOutOfRange
    ensures CheckNodes(infos, nodes).Err? ==> |nodes| == 0 || !Known(infos, nodes)
    ensures |nodes| > 0 && Known(infos, nodes) ==> CheckNodes(infos, nodes).Ok?
  {
    if |nodes| > 0 && Get(infos, nodes[0]).Ok? {
      WalkKnown(infos, Scan(Get(infos, nodes[0]).value, []), nodes[1..]);
      if !Known(infos, nodes[1..]) {
        var i :| 0 <= i < |nodes[1..]| && !(0 <= nodes[1..][i] < Count(infos));
        assert nodes[1..][i] == nodes[i + 1];
      }
    }
  }

  /** Every path of one or two known nodes is accepted: a single step can
      only be rejected by a pop, and the stack starts empty. */
  lemma CheckShort(infos: NodeInfoCollection, nodes: seq<int>)
    requires |nodes| <= 2
    ensures CheckNodes(infos, nodes) == if |nodes| > 0 && Known(infos, nodes) then Ok(true) else Err(ArgumentOutOfRange)
  {
    if |nodes| == 1 {
      assert nodes[1..] == [];
      assert Known(infos, nodes) <==> Get(infos, nodes[0]).Ok?;
    } else if |nodes| == 2 {
      assert Known(infos, nodes) <==> Get(infos, nodes[0]).Ok? && Get(infos, nodes[1]).Ok?;
      if Get(infos, nodes[0]).Ok? {
        var s0 := Scan(Get(infos, nodes[0]).value, []);
        assert nodes[1..] == [nodes[1]] && [nodes[1]][1..] == [];
        assert Walk(infos, s0, nodes[1..]) == match Step(infos, s0, nodes[1]) {
          case Err(e) => Err(e)
          case Ok(None) => Ok(None)
          case Ok(Some(t)) => Ok(Some(t))
        };
        assert Step(infos, s0, nodes[1]).Ok? ==> Step(infos, s0, nodes[1]).value.Some?;
      }
    }
  }

  /** A rejected or failing path stays so when extended: the verdict on the
      extension is the verdict on the path. Hence an accepted path has only
      accepted prefixes. */
  lemma CheckPrefix(infos: NodeInfoCollection, p: ExecutePath.ExecutePath, n: int)
    requires |p.nodes| > 0
    ensures Check(infos, p) != Ok(true) ==> Check(infos, ExecutePath.Extend(p, n)) == Check(infos, p)
    ensures Check(infos, ExecutePath.Extend(p, n)) == Ok(true) ==> Check(infos, p) == Ok(true)
  {
    var q := ExecutePath.Extend(p, n);
    assert q.nodes == p.nodes + [n];
    assert q.nodes[0] == p.nodes[0] && q.nodes[1..] == p.nodes[1..] + [n];
    if Get(infos, p.nodes[0]).Ok? {
      WalkAppend(infos, Scan(Get(infos, p.nodes[0]).value, []), p.nodes[1..], [n]);
    }
  }

  /** A step to a node of the same function as the node before it never
      changes the verdict: it may be dropped from the path. */
  lemma CheckSameFunction(infos: NodeInfoCollection, a: seq<int>, x: int, y: int, b: seq<int>)
    requires Get(infos, x).Ok? && Get(infos, y).Ok?
    requires Get(infos, x).value.ownedFunction == Get(infos, y).value.ownedFunction
    ensures CheckNodes(infos, a + [x, y] + b) == CheckNodes(infos, a + [x] + b)
  {
    var long := a + [x, y] + b;
    var short := a + [x] + b;
    assert long[0] == short[0];
    var first := Get(infos, long[0]);
    if first.Ok? {
      var s0 := Scan(first.value, []);
      if |a| == 0 {
        assert long[1..] == [y] + b && short[1..] == b;
        assert Step(infos, s0, y) == Ok(Some(s0));
        assert Walk(infos, s0, [y] + b) == Walk(infos, s0, b);
      } else {
        var pre := a[1..] + [x];
        assert long[1..] == pre + ([y] + b) && short[1..] == pre + b;
        WalkAppend(infos, s0, pre, [y] + b);
        WalkAppend(infos, s0, pre, b);
        var w := Walk(infos, s0, pre);
        if w.Ok? && w.value.Some? {
          WalkLast(infos, s0, pre);
          var t := w.value.value;
          assert Step(infos, t, y) == Ok(Some(t));
          assert Walk(infos, t, [y] + b) == Walk(infos, t, b);
        }
      }
    }
  }

  /** A return to a function other than the caller on the stack rejects the
      path, and a return to the caller is accepted: node 0 of `main` calls
      `f` at node 1, whose return is checked at node 2. */
  lemma CallAndReturn(main: string, f: string, g: string)
    requires main != f && g != f && g != main
    ensures var infos := NodeInfoCollection([NodeInfo(main, false, 1), NodeInfo(f, true, 2),
                                             NodeInfo(main, false, 3), NodeInfo(g, false, 4)], None);
      CheckNodes(infos, [0, 1, 2]) == Ok(true) && CheckNodes(infos, [0, 1, 3]) == Ok(false)
  {
    var infos := NodeInfoCollection([NodeInfo(main, false, 1), NodeInfo(f, true, 2),
                                     NodeInfo(main, false, 3), NodeInfo(g, false, 4)], None);
    var s0 := Scan(NodeInfo(main, false, 1), []);
    var s1 := Scan(NodeInfo(f, true, 2), [main]);
    assert Get(infos, 0) == Ok(NodeInfo(main, false, 1));
    assert Get(infos, 1) == Ok(NodeInfo(f, true, 2));
    assert Get(infos, 2) == Ok(NodeInfo(main, false, 3));
    assert Get(infos, 3) == Ok(NodeInfo(g, false, 4));
    assert s0.stack + [main] == [main];
    assert Step(infos, s0, 1) == Ok(Some(s1));
    assert Step(infos, s1, 2) == Ok(Some(Scan(NodeInfo(main, false, 3), [])));
    assert Step(infos, s1, 3) == Ok(None);
    assert [0, 1, 2][1..] == [1, 2] && [1, 2][1..] == [2];
    assert [0, 1, 3][1..] == [1, 3] && [1, 3][1..] == [3];
  }
}
