/** Runs of the shape graph: transitions, marks and sweeps in any order. */
module ShapeRuns {
  import opened Options
  import opened ShapeSpace
  import opened ShapeGrowth
  import opened ShapeTheorems
  import opened ShapeSweep

  datatype Op =
    | OpTransition(cur: nat, atom: nat, offset: nat, attrs: bv16, child: nat, propArray: nat, newTable: nat)
    | OpMark(s: nat)
    | OpSweep

  predicate Found(g: Graph, cur: nat, atom: nat, attrs: bv16) {
    cur in g.shapes && FindTransition(g.shapes, g.shapes[cur].table, atom, attrs) < |g.shapes[cur].table|
  }

  /** Transitions start at live shapes and do not overflow; sweeps follow a marking that includes parents. */
  ghost predicate Legal(g: Graph, op: Op) {
    match op
    case OpTransition(cur, atom, offset, attrs, child, propArray, newTable) =>
      cur in g.shapes && (Found(g, cur, atom, attrs) || CanCreate(g, cur, child, propArray, newTable))
    case OpMark(s) => true
    case OpSweep => |g.order| > 0 && MarksClosed(g)
  }

  ghost function Step(g: Graph, op: Op): Graph
    requires Inv(g) && Legal(g, op)
  {
    LiveLast(g);
    match op
    case OpTransition(cur, atom, offset, attrs, child, propArray, newTable) =>
      Transition(g, cur, atom, offset, attrs, child, propArray, newTable).0
    case OpMark(s) => Mark(g, s)
    case OpSweep => SweepFrom(g, |g.order| - 1).0
  }

  lemma LiveLast(g: Graph)
    requires Inv(g)
    ensures g.last in g.shapes && Weak(g) && |g.order| > 0 && ParentsLive(g, |g.order| - 1)
  {
    LastInList(g);
  }

  /** The request stores the key it asks for, or the empty key is still free. */
  ghost predicate Faithful(g: Graph, op: Op) {
    op.OpTransition? && op.cur in g.shapes && !Found(g, op.cur, op.atom, op.attrs) ==>
      op.atom != 0 || op.attrs == 0 || !Found(g, op.cur, 0, 0)
  }

  lemma MarkInv(g: Graph, s: nat)
    requires Inv(g)
    ensures Inv(Mark(g, s)) && (Canonical(g) ==> Canonical(Mark(g, s)))
  {
    hide Weak, SetMark, Accessors, Marked;
    if s in g.shapes {
      MarkBits(g.shapes[s].flags);
      FlagsWeak(g, s, SetMark(g.shapes[s].flags));
      if Canonical(g) {
        MarkCanonical(g, s);
      }
    }
  }

  lemma MarkCanonical(g: Graph, s: nat)
    requires Canonical(g) && s in g.shapes
    ensures Canonical(Mark(g, s))
  {
    hide SetMark;
    var g' := Mark(g, s);
    forall p | p in g'.shapes
      ensures CanonicalAt(g'.shapes, p)
    {
      assert CanonicalAt(g.shapes, p);
      var t := g.shapes[p].table;
      forall e, f | 0 <= e < f < |t|
        ensures KeysDiffer(g'.shapes, t[e], t[f])
      {
        assert KeysDiffer(g.shapes, t[e], t[f]);
      }
    }
  }

  /** Marking is not recursive: marking one more shape keeps the marks closed under parents iff its parent
      is already marked, or is the root, or the shape is. */
  lemma MarkClosedIff(g: Graph, s: nat)
    requires Inv(g) && s in g.shapes && |g.order| > 0 && MarksClosed(g)
    ensures MarksClosed(Mark(g, s)) <==> s == g.order[0] || g.shapes[s].parent !in Dead(g)
  {
    ParentOf(g, s);
    MarkBits(g.shapes[s].flags);
    var g' := Mark(g, s);
    hide Inv, Marked, SetMark;
    assert Dead(g') == Dead(g) - {s};
    if s != g.order[0] {
      assert g.shapes[s].parent != s && g'.shapes[s].parent == g.shapes[s].parent;
    }
    forall t | t in g'.shapes && t != g.order[0] && Marked(g'.shapes[t].flags) && t != s
      ensures g'.shapes[t].parent in g'.shapes && g'.shapes[t].parent !in Dead(g')
    {
      assert g'.shapes[t] == g.shapes[t];
    }
  }

  /** Every step keeps the graph well-formed; it keeps it canonical iff the step is faithful. */
  lemma StepInv(g: Graph, op: Op)
    requires Inv(g) && Legal(g, op)
    ensures Inv(Step(g, op))
    ensures Canonical(g) ==> (Canonical(Step(g, op)) <==> Faithful(g, op))
  {
    hide Inv, Canonical, SweepFrom, Create, MarksClosed, CanCreate;
    match op {
      case OpTransition(cur, atom, offset, attrs, child, propArray, newTable) =>
        if !Found(g, cur, atom, attrs) {
          CreateInv(g, cur, atom, offset, attrs, child, propArray, newTable);
          CreateLive(g, cur, child, propArray, newTable);
          if Canonical(g) {
            CreateCanonical(g, cur, atom, offset, attrs, child, propArray, newTable);
          }
        }
      case OpMark(s) =>
        MarkInv(g, s);
      case OpSweep =>
        LiveLast(g);
        var (r, n) := SweepFrom(g, |g.order| - 1);
        SweepWellFormedIff(g, r, n);
        if Canonical(g) {
          SweepCanonical(g, r, n);
        }
    }
  }

  lemma CreateLive(g: Graph, cur: nat, child: nat, propArray: nat, newTable: nat)
    requires CanCreate(g, cur, child, propArray, newTable)
    ensures g.last in g.shapes && Inv(g) && cur in g.shapes && child !in g.shapes
  {
    LastInList(g);
  }

  /** Published descriptors never change: a shape that is live before and after a step has the same
      parent and the same properties. */
  lemma StepKeepsBodies(g: Graph, op: Op, s: nat)
    requires Inv(g) && Legal(g, op) && s in g.shapes && s in Step(g, op).shapes
    ensures Step(g, op).shapes[s].props == g.shapes[s].props && Step(g, op).shapes[s].parent == g.shapes[s].parent
    ensures !op.OpSweep? ==> g.shapes.Keys <= Step(g, op).shapes.Keys
  {
    match op {
      case OpTransition(cur, atom, offset, attrs, child, propArray, newTable) =>
        if !Found(g, cur, atom, attrs) {
          hide Inv, Create;
          CreateLive(g, cur, child, propArray, newTable);
          CreateShapes(g, cur, atom, offset, attrs, child, propArray, newTable);
        }
      case OpMark(_) =>
      case OpSweep =>
        LiveLast(g);
        var (r, n) := SweepFrom(g, |g.order| - 1);
        SweepCorrect(g, r, n);
        assert Survivor(g, r, 0, s);
    }
  }

  /** No step changes the version that the inline cache reads. */
  lemma StepKeepsVersion(g: Graph, op: Op, s: nat)
    requires Inv(g) && Legal(g, op) && s in g.shapes && s in Step(g, op).shapes
    ensures Epoch(Step(g, op).shapes[s].flags) == Epoch(g.shapes[s].flags)
  {
    hide Inv, SweepFrom, Create, MarksClosed, CanCreate, Epoch, SetMark, DropMark, Before, SameBody;
    EpochBits(g.shapes[s].flags);
    LiveLast(g);
    match op {
      case OpTransition(cur, atom, offset, attrs, child, propArray, newTable) =>
        if !Found(g, cur, atom, attrs) {
          CreateLive(g, cur, child, propArray, newTable);
          CreateShapes(g, cur, atom, offset, attrs, child, propArray, newTable);
        }
      case OpMark(m) =>
        EpochBits(g.shapes[s].flags);
      case OpSweep =>
        var (r, n) := SweepFrom(g, |g.order| - 1);
        SweepCorrect(g, r, n);
        assert Survivor(g, r, 0, s);
    }
  }

  lemma StepKeepsAll(g: Graph, op: Op)
    requires Inv(g) && Legal(g, op) && !op.OpSweep?
    ensures g.shapes.Keys <= Step(g, op).shapes.Keys
  {
    LiveLast(g);
    if op.OpTransition? && !Found(g, op.cur, op.atom, op.attrs) {
      hide Inv, Create;
      CreateLive(g, op.cur, op.child, op.propArray, op.newTable);
      CreateShapes(g, op.cur, op.atom, op.offset, op.attrs, op.child, op.propArray, op.newTable);
    }
  }

  ghost predicate Run(g: Graph, ops: seq<Op>, g': Graph)
    decreases ops
  {
    if ops == [] then g == g'
    else Inv(g) && Legal(g, ops[0]) && Run(Step(g, ops[0]), ops[1..], g')
  }

  ghost predicate AllFaithful(g: Graph, ops: seq<Op>)
    decreases ops
  {
    ops == [] || (Inv(g) && Legal(g, ops[0]) && Faithful(g, ops[0]) && AllFaithful(Step(g, ops[0]), ops[1..]))
  }

  /** `s` is live in every state of the run. */
  ghost predicate LiveThroughout(g: Graph, ops: seq<Op>, s: nat)
    decreases ops
  {
    s in g.shapes && (ops == [] || (Inv(g) && Legal(g, ops[0]) && LiveThroughout(Step(g, ops[0]), ops[1..], s)))
  }

  ghost predicate NoSweep(ops: seq<Op>) {
    forall i :: 0 <= i < |ops| ==> !ops[i].OpSweep?
  }

  lemma {:induction false} RunInv(g: Graph, ops: seq<Op>, g': Graph)
    requires Inv(g) && Run(g, ops, g')
    ensures Inv(g') && (Canonical(g) && AllFaithful(g, ops) ==> Canonical(g'))
    decreases ops
  {
    hide Inv, Canonical, Step, Legal;
    if ops != [] {
      StepInv(g, ops[0]);
      RunInv(Step(g, ops[0]), ops[1..], g');
    }
  }

  lemma {:induction false} RunKeepsBodies(g: Graph, ops: seq<Op>, g': Graph, s: nat)
    requires Inv(g) && Run(g, ops, g') && LiveThroughout(g, ops, s)
    ensures s in g.shapes && s in g'.shapes
    ensures g'.shapes[s].props == g.shapes[s].props
    ensures Epoch(g'.shapes[s].flags) == Epoch(g.shapes[s].flags)
    decreases ops
  {
    hide Inv, Step, Legal, Epoch;
    if ops != [] {
      StepInv(g, ops[0]);
      StepKeepsBodies(g, ops[0], s);
      StepKeepsVersion(g, ops[0], s);
      RunKeepsBodies(Step(g, ops[0]), ops[1..], g', s);
    }
  }

  lemma {:induction false} NoSweepLive(g: Graph, ops: seq<Op>, g': Graph, s: nat)
    requires Inv(g) && Run(g, ops, g') && NoSweep(ops) && s in g.shapes
    ensures LiveThroughout(g, ops, s)
    decreases ops
  {
    hide Inv, Step, Legal;
    if ops != [] {
      assert !ops[0].OpSweep?;
      StepInv(g, ops[0]);
      StepKeepsAll(g, ops[0]);
      assert NoSweep(ops[1..]) by {
        forall i | 0 <= i < |ops[1..]|
          ensures !ops[1..][i].OpSweep?
        {
          assert !ops[i + 1].OpSweep?;
        }
      }
      NoSweepLive(Step(g, ops[0]), ops[1..], g', s);
    }
  }

  /** Whatever transitions and marks are interleaved, and whatever other branches sweeps remove, the keys
      that led to a shape lead to it again as long as it stays live. */
  lemma ReplayAcrossRun(g: Graph, ops: seq<Op>, g': Graph, s: nat)
    requires Inv(g) && Canonical(g) && Run(g, ops, g') && AllFaithful(g, ops)
    requires s in g.shapes && (LiveThroughout(g, ops, s) || NoSweep(ops))
    ensures s in g'.shapes && |g'.order| > 0 && Follow(g', Path(g.shapes[s].props)) == Some(s)
  {
    hide Inv, Canonical, Run, AllFaithful, Follow, Path;
    RunInv(g, ops, g');
    if NoSweep(ops) {
      NoSweepLive(g, ops, g', s);
    }
    RunKeepsBodies(g, ops, g', s);
    ReplayReturns(g', s);
  }

  /** Two requests for one name from one shape that differ in their attributes, as requests with different
      flags do, are answered by different shapes. */
  lemma DifferentFlagsDifferentShapes(g: Graph, cur: nat, atom: nat, a: nat, attrs: bv16, c: nat, p: nat, t: nat,
                                      b: nat, attrs': bv16, c': nat, p': nat, t': nat)
    requires atom != 0 && attrs != attrs' && Inv(g) && Legal(g, OpTransition(cur, atom, a, attrs, c, p, t))
    requires var g1 := Step(g, OpTransition(cur, atom, a, attrs, c, p, t)); Inv(g1) && Legal(g1, OpTransition(cur, atom, b, attrs', c', p', t'))
    ensures var g1 := Step(g, OpTransition(cur, atom, a, attrs, c, p, t));
      && g.last in g.shapes && g1.last in g1.shapes && cur in g1.shapes
      && Transition(g, cur, atom, a, attrs, c, p, t).1 != Transition(g1, cur, atom, b, attrs', c', p', t').1
  {
    var op, op' := OpTransition(cur, atom, a, attrs, c, p, t), OpTransition(cur, atom, b, attrs', c', p', t');
    var g1 := Step(g, op);
    LiveLast(g);
    LiveLast(g1);
    TransitionAnswers(g, cur, atom, a, attrs, c, p, t);
    TransitionAnswers(g1, cur, atom, b, attrs', c', p', t');
    var s := Transition(g, cur, atom, a, attrs, c, p, t).1;
    hide Inv, Legal, Create, CanCreate, Found, Transition;
    StepKeepsAll(g1, op');
    StepKeepsBodies(g1, op', s);
  }

  /** The shape a transition answers is live afterwards, and its last descriptor has the attributes asked for. */
  lemma TransitionAnswers(g: Graph, cur: nat, atom: nat, offset: nat, attrs: bv16, child: nat, propArray: nat, newTable: nat)
    requires atom != 0 && Inv(g) && Legal(g, OpTransition(cur, atom, offset, attrs, child, propArray, newTable))
    ensures g.last in g.shapes && cur in g.shapes
    ensures var (g', s) := Transition(g, cur, atom, offset, attrs, child, propArray, newTable);
      && g' == Step(g, OpTransition(cur, atom, offset, attrs, child, propArray, newTable))
      && cur in g'.shapes && s in g'.shapes && |g'.shapes[s].props| > 0 && Last(g'.shapes[s].props).attrs == attrs
  {
    LiveLast(g);
    if !Found(g, cur, atom, attrs) {
      CreateShapes(g, cur, atom, offset, attrs, child, propArray, newTable);
    }
    hide Inv, Create;
  }

  // ---- Two runs from a fresh root ----

  /** A root at address 1. */
  function FreshRoot(): Graph {
    Graph(map[1 := Root()], [1], 1)
  }

  lemma FirstCreation(atom: nat, offset: nat, attrs: bv16)
    ensures Inv(FreshRoot()) && CanCreate(FreshRoot(), 1, 2, 10, 11)
    ensures FindTransition(FreshRoot().shapes, FreshRoot().shapes[1].table, atom, attrs) == 0
    ensures var g := Create(FreshRoot(), 1, atom, offset, attrs, 2, 10, 11);
      && Step(FreshRoot(), OpTransition(1, atom, offset, attrs, 2, 10, 11)) == g
      && Inv(g) && g.shapes.Keys == {1, 2} && g.order == [1, 2]
      && g.shapes[1].table == [Entry(2, atom)] && g.shapes[1].capacity == 2 && g.shapes[1].props == []
      && g.shapes[2] == NewShape(1, Root(), 1, MakeProperty(atom, offset, attrs), 10)
  {
    var g0 := FreshRoot();
    RootInv(g0, 1);
    CreateInv(g0, 1, atom, offset, attrs, 2, 10, 11);
    CreateShapes(g0, 1, atom, offset, attrs, 2, 10, 11);
    hide Inv, MakeProperty;
  }

  /** Two requests for a zero atom with an attribute, from a fresh root: two live shapes with one path. */
  lemma TwinShapes(offset: nat)
    ensures var ops := [OpTransition(1, 0, offset, READONLY, 2, 10, 11), OpTransition(1, 0, offset, READONLY, 3, 12, 13)];
      exists g :: Run(FreshRoot(), ops, g) && 2 in g.shapes && 3 in g.shapes
                  && Path(g.shapes[2].props) == Path(g.shapes[3].props)
  {
    FirstCreation(0, offset, READONLY);
    var op, op2 := OpTransition(1, 0, offset, READONLY, 2, 10, 11), OpTransition(1, 0, offset, READONLY, 3, 12, 13);
    var g1 := Create(FreshRoot(), 1, 0, offset, READONLY, 2, 10, 11);
    assert !Found(g1, 1, 0, READONLY);
    assert CanCreate(g1, 1, 3, 12, 13);
    LiveLast(g1);
    CreateShapes(g1, 1, 0, offset, READONLY, 3, 12, 13);
    var g2 := Create(g1, 1, 0, offset, READONLY, 3, 12, 13);
    hide Inv, Create;
    assert Step(g1, op2) == g2;
    assert Run(g2, [], g2);
    assert [op2][0] == op2 && [op2][1..] == [] && [op, op2][0] == op && [op, op2][1..] == [op2];
    assert Run(g1, [op2], g2);
    assert Run(FreshRoot(), [op, op2], g2);
    assert g2.shapes[2].props == g2.shapes[3].props;
  }

  /** A sweep now would leave a graph that is not well-formed. */
  ghost predicate SweepBreaks(g: Graph)
    requires Inv(g)
  {
    LiveLast(g);
    !Inv(SweepFrom(g, |g.order| - 1).0)
  }

  lemma SecondCreation(a: nat, b: nat)
    ensures var g1 := Create(FreshRoot(), 1, a, 0, 0, 2, 10, 11); var op := OpTransition(2, b, 1, 0, 3, 12, 13);
      && Inv(g1) && Legal(g1, op) && Step(g1, op).order == [1, 2, 3] && Inv(Step(g1, op))
      && var sh := Step(g1, op).shapes;
        sh.Keys == {1, 2, 3} && sh[3].parent == 2 && !Marked(sh[2].flags)
  {
    FirstCreation(a, 0, 0);
    var g1 := Create(FreshRoot(), 1, a, 0, 0, 2, 10, 11);
    assert CanCreate(g1, 2, 3, 12, 13);
    LiveLast(g1);
    CreateInv(g1, 2, b, 1, 0, 3, 12, 13);
    CreateShapes(g1, 2, b, 1, 0, 3, 12, 13);
    UnmarkedChild(MakeProperty(a, 0, 0).attrs);
    hide Create, Inv, Marked, ChildFlags, MakeProperty;
  }

  lemma UnmarkedChild(attrs: bv16)
    ensures !Marked(ChildFlags(IS_MARKED_ALIVE, attrs))
  {
  }

  /** Root, child, grandchild, and only the grandchild marked: the marks are not closed, and a sweep leaves
      a survivor without its parent. */
  lemma UnclosedMarks(a: nat, b: nat)
    ensures var ops := [OpTransition(1, a, 0, 0, 2, 10, 11), OpTransition(2, b, 1, 0, 3, 12, 13), OpMark(3)];
      exists g :: Run(FreshRoot(), ops, g) && Inv(g) && SweepBreaks(g)
  {
    FirstCreation(a, 0, 0);
    LegalFirst(a);
    SecondCreation(a, b);
    var op1, op2, op3 := OpTransition(1, a, 0, 0, 2, 10, 11), OpTransition(2, b, 1, 0, 3, 12, 13), OpMark(3);
    var g1 := Create(FreshRoot(), 1, a, 0, 0, 2, 10, 11);
    hide Create, CanCreate, Found, Inv, Mark, SweepBreaks, Legal, FreshRoot, Step, Marked;
    var g2 := Step(g1, op2);
    MarkBreaks(g2);
    MarkStep(g2, 3);
    RunOfThree(FreshRoot(), op1, op2, op3, g1, g2, Mark(g2, 3));
  }

  lemma MarkStep(g: Graph, s: nat)
    requires Inv(g)
    ensures Legal(g, OpMark(s)) && Step(g, OpMark(s)) == Mark(g, s)
  {
  }

  lemma LegalFirst(a: nat)
    ensures Inv(FreshRoot()) && Legal(FreshRoot(), OpTransition(1, a, 0, 0, 2, 10, 11))
  {
    FirstCreation(a, 0, 0);
  }

  lemma MarkBreaks(g: Graph)
    requires Inv(g) && g.order == [1, 2, 3] && g.shapes.Keys == {1, 2, 3}
    requires g.shapes[3].parent == 2 && !Marked(g.shapes[2].flags)
    ensures Inv(Mark(g, 3)) && SweepBreaks(Mark(g, 3))
  {
    var g' := Mark(g, 3);
    MarkInv(g, 3);
    MarkBits(g.shapes[3].flags);
    LiveLast(g');
    hide Inv, SetMark, Marked, SweepFrom, Weak;
    assert g'.shapes[3].parent == 2 && 2 in Dead(g');
    var (r, n) := SweepFrom(g', |g'.order| - 1);
    SweepWellFormedIff(g', r, n);
  }

  lemma RunOfThree(g0: Graph, op1: Op, op2: Op, op3: Op, g1: Graph, g2: Graph, g3: Graph)
    requires Inv(g0) && Legal(g0, op1) && Step(g0, op1) == g1
    requires Inv(g1) && Legal(g1, op2) && Step(g1, op2) == g2
    requires Inv(g2) && Legal(g2, op3) && Step(g2, op3) == g3
    ensures Run(g0, [op1, op2, op3], g3)
  {
    hide Inv, Step, Legal;
    var ops := [op1, op2, op3];
    assert ops[1..] == [op2, op3] && ops[1..][1..] == [op3] && ops[1..][1..][1..] == [];
    assert Run(g3, [], g3);
    assert Run(g2, [op3], g3);
    assert Run(g1, [op2, op3], g3);
  }
}
