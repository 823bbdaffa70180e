/**
 What a template means, as a tree of text, variables and blocks, and exactly when the three text passes agree with
 that meaning: when no block lies inside a block of its own tag.
 */
module TemplateTrees {
  import opened Wrappers
  import opened HtmlEscape
  import opened TemplateRenderer
  import opened TemplatePieces

  datatype Node = Lit(text: string) | Var(name: string) | Cond(tag: Tag, gap: string, name: string, body: seq<Node>)

  /** The tags and text of `nodes`, with `rest` after them. */
  function Spread(nodes: seq<Node>, rest: seq<Piece>): seq<Piece>
    decreases nodes
  {
    if nodes == [] then rest else Front(nodes[0], Spread(nodes[1..], rest))
  }

  function Front(n: Node, tail: seq<Piece>): seq<Piece>
    decreases n
  {
    match n
    case Lit(text) => [Text(text)] + tail
    case Var(name) => [Token(name)] + tail
    case Cond(tag, gap, name, body) => [Open(tag, gap, name)] + Spread(body, [Close(tag)] + tail)
  }

  function Pieces(nodes: seq<Node>): seq<Piece> {
    Spread(nodes, [])
  }

  /** The template as it is written. */
  function Source(nodes: seq<Node>): string {
    Print(Pieces(nodes))
  }

  /** What the template stands for: each block kept or dropped where it is, each variable replaced by its value. */
  function Evaluate(nodes: seq<Node>, vars: Vars, escape: bool): string
    decreases nodes
  {
    if nodes == [] then ""
    else
      (match nodes[0]
       case Lit(text) => text
       case Var(name) => Shown(vars(name), escape)
       case Cond(tag, _, name, body) => if Keeps(tag, vars(name)) then Evaluate(body, vars, escape) else "")
      + Evaluate(nodes[1..], vars, escape)
  }

  /** No block of this tag, at any depth. */
  predicate Free(nodes: seq<Node>, tag: Tag)
    decreases nodes
  {
    nodes == []
    || ((nodes[0].Cond? ==> nodes[0].tag != tag && Free(nodes[0].body, tag)) && Free(nodes[1..], tag))
  }

  /** No block of this tag inside another, at any depth. */
  predicate Apart(nodes: seq<Node>, tag: Tag)
    decreases nodes
  {
    nodes == []
    || ((nodes[0].Cond? ==> if nodes[0].tag == tag then Free(nodes[0].body, tag) else Apart(nodes[0].body, tag))
        && Apart(nodes[1..], tag))
  }

  /** The tree with the blocks of one tag decided. */
  function Decide(nodes: seq<Node>, tag: Tag, vars: Vars): seq<Node>
    decreases nodes
  {
    if nodes == [] then []
    else
      var n, tail := nodes[0], Decide(nodes[1..], tag, vars);
      if !n.Cond? then [n] + tail
      else if n.tag != tag then [Cond(n.tag, n.gap, n.name, Decide(n.body, tag, vars))] + tail
      else if Keeps(tag, vars(n.name)) then n.body + tail else tail
  }

  // ---- The passes on trees -------------------------------------------------------------------------------

  lemma FrontShape(n: Node, tail: seq<Piece>)
    ensures match n
            case Lit(text) => Front(n, tail) == [Text(text)] + tail
            case Var(name) => Front(n, tail) == [Token(name)] + tail
            case Cond(tag, gap, name, body) =>
              Front(n, tail) == [Open(tag, gap, name)] + Spread(body, [Close(tag)] + tail)
  {
  }

  lemma Reassociate(open: Piece, body: seq<Piece>, close: Piece, tail: seq<Piece>, rest: seq<Piece>)
    ensures [open] + (body + ([close] + (tail + rest))) == [open] + (body + ([close] + tail)) + rest
  {
  }

  lemma {:induction false} FrontAppends(n: Node, tail: seq<Piece>, rest: seq<Piece>)
    ensures Front(n, tail + rest) == Front(n, tail) + rest
    decreases n
  {
    if n.Cond? {
      SpreadAppends(n.body, [Close(n.tag)] + (tail + rest));
      SpreadAppends(n.body, [Close(n.tag)] + tail);
      Reassociate(Open(n.tag, n.gap, n.name), Pieces(n.body), Close(n.tag), tail, rest);
    }
  }

  lemma {:induction false} SpreadAppends(nodes: seq<Node>, rest: seq<Piece>)
    ensures Spread(nodes, rest) == Pieces(nodes) + rest
    decreases nodes
  {
    if nodes == [] {
    } else {
      SpreadAppends(nodes[1..], rest);
      FrontAppends(nodes[0], Pieces(nodes[1..]), rest);
    }
  }

  lemma {:induction false} SpreadConcat(xs: seq<Node>, ys: seq<Node>, rest: seq<Piece>)
    ensures Spread(xs + ys, rest) == Spread(xs, Spread(ys, rest))
    decreases |xs|
  {
    if xs == [] {
      assert xs + ys == ys;
    } else {
      assert (xs + ys)[1..] == xs[1..] + ys;
      SpreadConcat(xs[1..], ys, rest);
    }
  }

  /** The first closing after a tree without the tag is the first one in what follows the tree. */
  lemma {:induction false} CloseBeyond(nodes: seq<Node>, rest: seq<Piece>, tag: Tag)
    requires Free(nodes, tag) && FirstClose(rest, tag).Some?
    ensures var c := FirstClose(rest, tag).value;
            FirstClose(Spread(nodes, rest), tag) == Some(Cut(Spread(nodes, c.body), c.after))
    decreases nodes
  {
    if nodes == [] {
    } else {
      CloseBeyond(nodes[1..], rest, tag);
      if nodes[0].Cond? {
        CloseBeyond(nodes[0].body, [Close(nodes[0].tag)] + Spread(nodes[1..], rest), tag);
      }
    }
  }

  /** A block of the pass's own tag, without another inside. */
  lemma PassTakesBlock(n: Node, tail: seq<Piece>, vars: Vars)
    requires n.Cond? && Free(n.body, n.tag)
    ensures PassPieces([Open(n.tag, n.gap, n.name)] + Spread(n.body, [Close(n.tag)] + tail), n.tag, vars)
         == Spread(if Keeps(n.tag, vars(n.name)) then n.body else [], PassPieces(tail, n.tag, vars))
  {
    CloseBeyond(n.body, [Close(n.tag)] + tail, n.tag);
    SpreadAppends(if Keeps(n.tag, vars(n.name)) then n.body else [], PassPieces(tail, n.tag, vars));
  }

  /** The pass on pieces decides the blocks of its tag, and nothing else, when none is inside another. */
  lemma {:induction false} PassDecides(nodes: seq<Node>, rest: seq<Piece>, tag: Tag, vars: Vars)
    requires Apart(nodes, tag)
    ensures PassPieces(Spread(nodes, rest), tag, vars) == Spread(Decide(nodes, tag, vars), PassPieces(rest, tag, vars))
    decreases nodes
  {
    if nodes == [] {
    } else {
      var n, tail := nodes[0], Spread(nodes[1..], rest);
      PassDecides(nodes[1..], rest, tag, vars);
      if n.Cond? && n.tag == tag {
        var kept := if Keeps(tag, vars(n.name)) then n.body else [];
        PassTakesBlock(n, tail, vars);
        SpreadConcat(kept, Decide(nodes[1..], tag, vars), PassPieces(rest, tag, vars));
      } else if n.Cond? {
        PassDecides(n.body, [Close(n.tag)] + tail, tag, vars);
      }
    }
  }

  // ---- Deciding the blocks of one tag ---------------------------------------------------------------------

  lemma {:induction false} EvaluateConcat(xs: seq<Node>, ys: seq<Node>, vars: Vars, escape: bool)
    ensures Evaluate(xs + ys, vars, escape) == Evaluate(xs, vars, escape) + Evaluate(ys, vars, escape)
    decreases |xs|
  {
    if xs == [] {
      assert xs + ys == ys;
    } else {
      assert (xs + ys)[1..] == xs[1..] + ys;
      EvaluateConcat(xs[1..], ys, vars, escape);
    }
  }

  lemma {:induction false} FreeConcat(xs: seq<Node>, ys: seq<Node>, tag: Tag)
    ensures Free(xs + ys, tag) <==> Free(xs, tag) && Free(ys, tag)
    ensures Apart(xs + ys, tag) <==> Apart(xs, tag) && Apart(ys, tag)
    decreases |xs|
  {
    if xs == [] {
      assert xs + ys == ys;
    } else {
      assert (xs + ys)[1..] == xs[1..] + ys;
      FreeConcat(xs[1..], ys, tag);
    }
  }

  lemma {:induction false} DecideKeepsMeaning(nodes: seq<Node>, tag: Tag, vars: Vars, escape: bool)
    ensures Evaluate(Decide(nodes, tag, vars), vars, escape) == Evaluate(nodes, vars, escape)
    decreases nodes
  {
    if nodes == [] {
    } else {
      var n, tail := nodes[0], Decide(nodes[1..], tag, vars);
      DecideKeepsMeaning(nodes[1..], tag, vars, escape);
      if n.Cond? {
        DecideKeepsMeaning(n.body, tag, vars, escape);
        EvaluateConcat(n.body, tail, vars, escape);
      }
    }
  }

  lemma {:induction false} DecideFrees(nodes: seq<Node>, tag: Tag, vars: Vars)
    requires Apart(nodes, tag)
    ensures Free(Decide(nodes, tag, vars), tag)
    decreases nodes
  {
    if nodes == [] {
    } else {
      var n, tail := nodes[0], Decide(nodes[1..], tag, vars);
      DecideFrees(nodes[1..], tag, vars);
      if n.Cond? {
        if n.tag == tag {
          FreeConcat(n.body, tail, tag);
        } else {
          DecideFrees(n.body, tag, vars);
        }
      }
    }
  }

  /** Deciding one tag leaves the other as free, or as far apart, as it was; where it keeps every block, exactly so. */
  lemma {:induction false} DecideKeepsOther(nodes: seq<Node>, tag: Tag, other: Tag, vars: Vars)
    requires tag != other
    ensures Free(nodes, other) ==> Free(Decide(nodes, tag, vars), other)
    ensures Apart(nodes, other) ==> Apart(Decide(nodes, tag, vars), other)
    ensures KeepsAll(tag, vars) ==> (Free(nodes, other) <== Free(Decide(nodes, tag, vars), other))
    ensures KeepsAll(tag, vars) ==> (Apart(nodes, other) <== Apart(Decide(nodes, tag, vars), other))
    decreases nodes
  {
    if nodes == [] {
    } else {
      var n, tail := nodes[0], Decide(nodes[1..], tag, vars);
      DecideKeepsOther(nodes[1..], tag, other, vars);
      if n.Cond? {
        DecideKeepsOther(n.body, tag, other, vars);
        FreeConcat(n.body, tail, other);
      }
    }
  }

  lemma {:induction false} ValuesOfFree(nodes: seq<Node>, vars: Vars, escape: bool)
    requires Free(nodes, IF) && Free(nodes, UNLESS)
    ensures Values(Pieces(nodes), vars, escape) == Evaluate(nodes, vars, escape)
    decreases |nodes|
  {
    if nodes == [] {
    } else {
      ValuesOfFree(nodes[1..], vars, escape);
      FrontShape(nodes[0], Pieces(nodes[1..]));
    }
  }

  // ---- Where the passes are right ------------------------------------------------------------------------

  /** After its first pass, the text is that of the tree with one tag decided. */
  lemma RenderOfDecided(nodes: seq<Node>, vars: Vars, escape: bool)
    requires AllWellFormed(Pieces(nodes)) && Apart(nodes, IF)
    ensures Render(Source(nodes), vars, escape)
         == Values(PassPieces(Pieces(Decide(nodes, IF, vars)), UNLESS, vars), vars, escape)
  {
    RenderOnPieces(Pieces(nodes), vars, escape);
    PassDecides(nodes, [], IF, vars);
  }

  /** Without a block inside a block of its tag, rendering the text is evaluating the tree. */
  lemma RenderEvaluates(nodes: seq<Node>, vars: Vars, escape: bool)
    requires AllWellFormed(Pieces(nodes)) && Apart(nodes, IF) && Apart(nodes, UNLESS)
    ensures Render(Source(nodes), vars, escape) == Evaluate(nodes, vars, escape)
  {
    var once := Decide(nodes, IF, vars);
    var twice := Decide(once, UNLESS, vars);
    RenderOfDecided(nodes, vars, escape);
    DecideFrees(nodes, IF, vars);
    DecideKeepsOther(nodes, IF, UNLESS, vars);
    PassDecides(once, [], UNLESS, vars);
    DecideFrees(once, UNLESS, vars);
    DecideKeepsOther(once, UNLESS, IF, vars);
    ValuesOfFree(twice, vars, escape);
    DecideKeepsMeaning(nodes, IF, vars, escape);
    DecideKeepsMeaning(once, UNLESS, vars, escape);
  }

  // ---- Where the passes go wrong -------------------------------------------------------------------------

  /** Openings and closings of a tag take turns, beginning with an opening, or with a closing when `inside`. */
  predicate Alternates(ps: seq<Piece>, tag: Tag, inside: bool) {
    if ps == [] then !inside
    else if Opens(ps[0], tag) then !inside && Alternates(ps[1..], tag, true)
    else if Closes(ps[0], tag) then inside && Alternates(ps[1..], tag, false)
    else Alternates(ps[1..], tag, inside)
  }

  /** Closings less openings. */
  function Balance(ps: seq<Piece>, tag: Tag): int {
    if ps == [] then 0
    else (if Closes(ps[0], tag) then 1 else if Opens(ps[0], tag) then -1 else 0) + Balance(ps[1..], tag)
  }

  lemma {:induction false} TreesBalance(nodes: seq<Node>, rest: seq<Piece>, tag: Tag)
    ensures Balance(Spread(nodes, rest), tag) == Balance(rest, tag)
    decreases nodes
  {
    if nodes == [] {
    } else {
      TreesBalance(nodes[1..], rest, tag);
      if nodes[0].Cond? {
        TreesBalance(nodes[0].body, [Close(nodes[0].tag)] + Spread(nodes[1..], rest), tag);
      }
    }
  }

  /** In a tree, tags take turns only where no block is inside another of its tag. */
  lemma {:induction false} TurnsMeanApart(nodes: seq<Node>, rest: seq<Piece>, tag: Tag, inside: bool)
    requires Alternates(Spread(nodes, rest), tag, inside)
    ensures if inside then Free(nodes, tag) else Apart(nodes, tag)
    ensures Alternates(rest, tag, inside)
    decreases nodes
  {
    if nodes == [] {
    } else {
      FrontShape(nodes[0], Spread(nodes[1..], rest));
      if nodes[0].Cond? {
        var n := nodes[0];
        var within := inside || n.tag == tag;
        TurnsMeanApart(n.body, [Close(n.tag)] + Spread(nodes[1..], rest), tag, within);
      }
      TurnsMeanApart(nodes[1..], rest, tag, inside);
    }
  }

  predicate HasClosing(ps: seq<Piece>, tag: Tag) {
    exists p :: p in ps && Closes(p, tag)
  }

  ghost predicate DropsAll(tag: Tag, vars: Vars) {
    forall name :: !Keeps(tag, vars(name))
  }

  ghost predicate KeepsAll(tag: Tag, vars: Vars) {
    forall name :: Keeps(tag, vars(name))
  }

  lemma {:induction false} CutBalance(ps: seq<Piece>, tag: Tag, c: Cut)
    requires FirstClose(ps, tag) == Some(c)
    ensures Balance(ps, tag) <= 1 + Balance(c.after, tag)
    ensures Balance(ps, tag) == 1 + Balance(c.after, tag) && Alternates(c.after, tag, false) ==>
              Alternates(ps, tag, true)
    decreases |ps|
  {
    if Closes(ps[0], tag) {
    } else {
      CutBalance(ps[1..], tag, FirstClose(ps[1..], tag).value);
    }
  }

  /** A pass that drops every block leaves a closing behind unless the tags took turns. */
  lemma {:induction false} ClosingsAreLeft(ps: seq<Piece>, tag: Tag, vars: Vars)
    requires DropsAll(tag, vars) && !HasClosing(PassPieces(ps, tag, vars), tag)
    ensures Balance(ps, tag) <= 0
    ensures Balance(ps, tag) == 0 ==> Alternates(ps, tag, false)
    decreases |ps|
  {
    if ps == [] {
    } else {
      var p, rest := ps[0], ps[1..];
      var c := FirstClose(rest, tag);
      if Opens(p, tag) && c.Some? {
        assert PassPieces(ps, tag, vars) == PassPieces(c.value.after, tag, vars);
        ClosingsAreLeft(c.value.after, tag, vars);
        CutBalance(rest, tag, c.value);
      } else {
        var done := PassPieces(rest, tag, vars);
        assert PassPieces(ps, tag, vars) == [p] + done;
        assert forall q :: q in done ==> q in [p] + done;
        assert p in [p] + done;
        ClosingsAreLeft(rest, tag, vars);
      }
    }
  }

  lemma {:induction false} CutSplits(ps: seq<Piece>, tag: Tag, c: Cut, p: Piece)
    requires FirstClose(ps, tag) == Some(c) && p in ps && !Closes(p, tag)
    ensures p in c.body || p in c.after
    decreases |ps|
  {
    if Closes(ps[0], tag) || p == ps[0] {
    } else {
      CutSplits(ps[1..], tag, FirstClose(ps[1..], tag).value, p);
    }
  }

  /** A pass that keeps every block loses only tags of its own. */
  lemma {:induction false} OthersAreKept(ps: seq<Piece>, tag: Tag, vars: Vars, p: Piece)
    requires KeepsAll(tag, vars) && p in ps && !Opens(p, tag) && !Closes(p, tag)
    ensures p in PassPieces(ps, tag, vars)
    decreases |ps|
  {
    var c := FirstClose(ps[1..], tag);
    if Opens(ps[0], tag) && c.Some? {
      CutSplits(ps[1..], tag, c.value, p);
      if p !in c.value.body {
        OthersAreKept(c.value.after, tag, vars, p);
      }
    } else if p != ps[0] {
      OthersAreKept(ps[1..], tag, vars, p);
    }
  }

  lemma CalmConcat(x: string, y: string)
    ensures Calm(x) && Calm(y) ==> Calm(x + y)
    ensures !Calm(y) ==> !Calm(x + y)
  {
    if !Calm(y) {
      var i :| 0 <= i < |y| && y[i] == '{' && !(i + 1 < |y| && y[i + 1] != '{');
      var k := |x| + i;
      assert (x + y)[k] == '{' && (i + 1 < |y| ==> (x + y)[k + 1] == y[i + 1]);
    }
  }

  /** A tag that no pass took is still in the output. */
  lemma {:induction false} LeftoversShow(ps: seq<Piece>, tag: Tag, vars: Vars, escape: bool)
    requires HasClosing(ps, tag)
    ensures !Calm(Values(ps, vars, escape))
    decreases |ps|
  {
    var rest := Values(ps[1..], vars, escape);
    if Closes(ps[0], tag) {
      assert Values(ps, vars, escape)[0] == '{' && Values(ps, vars, escape)[1] == '{';
    } else {
      assert HasClosing(ps[1..], tag);
      LeftoversShow(ps[1..], tag, vars, escape);
      CalmConcat(if ps[0].Token? then Shown(vars(ps[0].name), escape) else Printed(ps[0]), rest);
    }
  }

  lemma {:induction false} MeaningIsCalm(nodes: seq<Node>, rest: seq<Piece>, vars: Vars, escape: bool)
    requires AllWellFormed(Spread(nodes, rest)) && forall name :: Calm(Shown(vars(name), escape))
    ensures Calm(Evaluate(nodes, vars, escape)) && AllWellFormed(rest)
    decreases nodes
  {
    if nodes == [] {
    } else {
      var n, tail := nodes[0], Spread(nodes[1..], rest);
      var value := match n
        case Lit(text) => text
        case Var(name) => Shown(vars(name), escape)
        case Cond(tag, _, name, body) => if Keeps(tag, vars(name)) then Evaluate(body, vars, escape) else "";
      assert Spread(nodes, rest)[0] in Spread(nodes, rest);
      assert forall p :: p in Spread(nodes, rest)[1..] ==> p in Spread(nodes, rest);
      if n.Cond? {
        MeaningIsCalm(n.body, [Close(n.tag)] + tail, vars, escape);
        assert forall p :: p in tail ==> p in [Close(n.tag)] + tail;
      }
      MeaningIsCalm(nodes[1..], rest, vars, escape);
      CalmConcat(value, Evaluate(nodes[1..], vars, escape));
    }
  }

  function Unset(name: string): Value {
    Undefined
  }

  function AllSet(name: string): Value {
    Str("x")
  }

  lemma ShownIsCalm(escape: bool)
    ensures forall name :: Calm(Shown(Unset(name), escape)) && Calm(Shown(AllSet(name), escape))
  {
    EscapeIsPerChar("");
    EscapeIsPerChar("x");
    EscapeOfX();
  }

  lemma EscapeOfX()
    ensures PerChar("x", PASSES) == "x"
  {
    EntityCases('x', PASSES);
    assert "x"[1..] == "";
  }

  lemma DroppingFails(nodes: seq<Node>, tag: Tag, vars: Vars)
    requires !Apart(nodes, tag) && DropsAll(tag, vars)
    ensures HasClosing(PassPieces(Pieces(nodes), tag, vars), tag)
  {
    if !HasClosing(PassPieces(Pieces(nodes), tag, vars), tag) {
      ClosingsAreLeft(Pieces(nodes), tag, vars);
      TreesBalance(nodes, [], tag);
      TurnsMeanApart(nodes, [], tag, false);
    }
  }

  /** With nothing set, an `#if` inside an `#if` leaves a closing tag in the output. */
  lemma NestedIfShows(nodes: seq<Node>, escape: bool)
    requires AllWellFormed(Pieces(nodes)) && !Apart(nodes, IF)
    ensures Render(Source(nodes), Unset, escape) != Evaluate(nodes, Unset, escape)
  {
    var once := PassPieces(Pieces(nodes), IF, Unset);
    var twice := PassPieces(once, UNLESS, Unset);
    RenderOnPieces(Pieces(nodes), Unset, escape);
    DroppingFails(nodes, IF, Unset);
    var p :| p in once && Closes(p, IF);
    OthersAreKept(once, UNLESS, Unset, p);
    LeftoversShow(twice, IF, Unset, escape);
    ShownIsCalm(escape);
    MeaningIsCalm(nodes, [], Unset, escape);
  }

  /** A decided tree that still has one tag inside itself leaves a closing of it in the output. */
  lemma DecidedLeavesClosing(once: seq<Node>, vars: Vars, escape: bool)
    requires !Apart(once, UNLESS) && DropsAll(UNLESS, vars)
    ensures !Calm(Values(PassPieces(Pieces(once), UNLESS, vars), vars, escape))
  {
    DroppingFails(once, UNLESS, vars);
    LeftoversShow(PassPieces(Pieces(once), UNLESS, vars), UNLESS, vars, escape);
  }

  lemma AllSetDecides()
    ensures KeepsAll(IF, AllSet) && DropsAll(UNLESS, AllSet)
  {
  }

  /** With everything set, an `#unless` inside an `#unless` does. */
  lemma NestedUnlessShows(nodes: seq<Node>, escape: bool)
    requires AllWellFormed(Pieces(nodes)) && Apart(nodes, IF) && !Apart(nodes, UNLESS)
    ensures Render(Source(nodes), AllSet, escape) != Evaluate(nodes, AllSet, escape)
  {
    AllSetDecides();
    RenderOfDecided(nodes, AllSet, escape);
    DecideKeepsOther(nodes, IF, UNLESS, AllSet);
    DecidedLeavesClosing(Decide(nodes, IF, AllSet), AllSet, escape);
    ShownIsCalm(escape);
    MeaningIsCalm(nodes, [], AllSet, escape);
  }

  /** Rendering the text is evaluating the tree, whatever the values. */
  ghost predicate RendersRight(nodes: seq<Node>, escape: bool) {
    forall vars :: Render(Source(nodes), vars, escape) == Evaluate(nodes, vars, escape)
  }

  lemma ApartRendersRight(nodes: seq<Node>, escape: bool)
    requires AllWellFormed(Pieces(nodes)) && Apart(nodes, IF) && Apart(nodes, UNLESS)
    ensures RendersRight(nodes, escape)
  {
    forall vars
      ensures Render(Source(nodes), vars, escape) == Evaluate(nodes, vars, escape)
    {
      RenderEvaluates(nodes, vars, escape);
    }
  }

  lemma NestedRendersWrong(nodes: seq<Node>, escape: bool)
    requires AllWellFormed(Pieces(nodes)) && !(Apart(nodes, IF) && Apart(nodes, UNLESS))
    ensures !RendersRight(nodes, escape)
  {
    if Apart(nodes, IF) {
      NestedUnlessShows(nodes, escape);
    } else {
      NestedIfShows(nodes, escape);
    }
  }

  /** It is so exactly when no block is inside one of its tag. */
  lemma RendersExactlyWhenApart(nodes: seq<Node>, escape: bool)
    requires AllWellFormed(Pieces(nodes))
    ensures RendersRight(nodes, escape) <==> Apart(nodes, IF) && Apart(nodes, UNLESS)
  {
    if Apart(nodes, IF) && Apart(nodes, UNLESS) {
      ApartRendersRight(nodes, escape);
    } else {
      NestedRendersWrong(nodes, escape);
    }
  }
}
