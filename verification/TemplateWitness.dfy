/** A template that is not rendered as what it stands for. */
module TemplateWitness {
  import opened Wrappers
  import opened TemplateRenderer
  import opened TemplatePieces
  import opened TemplateTrees

  /** `{{#if a}}{{#if b}}{{/if}}{{/if}}` */
  const NESTED := [Cond(IF, " ", "a", [Cond(IF, " ", "b", [])])]

  lemma NestedPieces()
    ensures Pieces(NESTED) == [Open(IF, " ", "a"), Open(IF, " ", "b"), Close(IF), Close(IF)]
    ensures AllWellFormed(Pieces(NESTED)) && !Apart(NESTED, IF)
  {
    var inner := NESTED[0].body;
    assert inner[0].body == [] && inner[1..] == [] && NESTED[1..] == [];
    assert !Free(inner, IF);
    assert AllWord("a") && AllWord("b") && AllSpace(" ");
  }

  /** What a dropped opening, another opening and two closings come to. */
  lemma NestedPass(a: Piece, b: Piece, c: Piece, d: Piece, vars: Vars)
    requires Opens(a, IF) && Opens(b, IF) && Closes(c, IF) && Closes(d, IF) && !Keeps(IF, vars(a.name))
    ensures PassPieces([a, b, c, d], IF, vars) == [d]
  {
    assert [a, b, c, d][1..] == [b, c, d] && [b, c, d][1..] == [c, d] && [c, d][1..] == [d];
    assert FirstClose([c, d], IF) == Some(Cut([], [d]));
    assert FirstClose([b, c, d], IF) == Some(Cut([b] + [], [d]));
    LonePass(d, IF, vars);
  }

  lemma LonePass(p: Piece, tag: Tag, vars: Vars)
    ensures PassPieces([p], tag, vars) == [p]
  {
    assert [p][1..] == [] && PassPieces([], tag, vars) == [];
  }

  lemma NestedMeansNothing(escape: bool)
    ensures Evaluate(NESTED, Unset, escape) == ""
  {
    assert NESTED[1..] == [] && !Keeps(IF, Unset("a"));
  }

  lemma LoneValue(p: Piece, vars: Vars, escape: bool)
    requires !p.Token?
    ensures Values([p], vars, escape) == Printed(p)
  {
    assert [p][1..] == [] && Values([], vars, escape) == "";
  }

  /** With nothing set it stands for nothing, and is rendered as a closing tag. */
  lemma NestedIfLeavesItsTail(escape: bool)
    ensures Evaluate(NESTED, Unset, escape) == "" && Render(Source(NESTED), Unset, escape) == Tail(IF)
  {
    NestedPieces();
    NestedMeansNothing(escape);
    RenderOnPieces(Pieces(NESTED), Unset, escape);
    NestedPass(Open(IF, " ", "a"), Open(IF, " ", "b"), Close(IF), Close(IF), Unset);
    LonePass(Close(IF), UNLESS, Unset);
    LoneValue(Close(IF), Unset, escape);
  }
}
