/** What each tag does, written out: the values that drop a block, the text of a value, and what is a name or a gap. */
module TemplateTags {
  import opened HtmlEscape
  import opened TemplateRenderer
  import opened TemplatePieces
  import opened TemplateTrees

  /** The ASCII letters, the digits and the underscore, by their codes. */
  lemma WordCharacters(c: char)
    ensures IsWord(c) <==> 97 <= c as int <= 122 || 65 <= c as int <= 90 || 48 <= c as int <= 57 || c as int == 95
  {
  }

  /** Tab to carriage return, the space and the no-break space are space; letters, digits and braces are not. */
  lemma SpaceCharacters(c: char)
    ensures c == '\t' || c == '\n' || c == '\r' || c == ' ' || c == '\U{a0}' ==> IsSpace(c)
    ensures IsWord(c) || c == '{' || c == '}' || c == '#' || c == '/' ==> !IsSpace(c)
  {
  }

  /** The values that drop the body of an `#if` and keep that of an `#unless`. */
  predicate Drops(v: Value) {
    v == Undefined || v == Boolean(false) || (v.Number? && v.zero) || v == Str("") || v == Str("false")
  }

  lemma WhichValuesDrop(v: Value, tag: Tag)
    ensures Keeps(tag, v) <==> if tag == IF then !Drops(v) else Drops(v)
  {
  }

  lemma TagTexts()
    ensures Head(IF) == "{{#if" && Tail(IF) == "{{/if}}"
    ensures Head(UNLESS) == "{{#unless" && Tail(UNLESS) == "{{/unless}}"
  {
  }

  /** A token becomes its value's text, escaped where that is asked for, and nothing if it has none. */
  lemma TokenShows(name: string, vars: Vars, escape: bool)
    requires name != "" && AllWord(name)
    ensures Render("{{" + name + "}}", vars, escape)
         == match vars(name)
            case Undefined => ""
            case Boolean(b) => if b then "true" else "false"
            case Number(_, text) => if escape then EscapeHtml(text) else text
            case Str(text) => if escape then EscapeHtml(text) else text
  {
    var nodes := [Var(name)];
    assert nodes[1..] == [];
    assert Spread(nodes[1..], []) == [];
    assert Front(nodes[0], []) == [Token(name)];
    assert Spread(nodes, []) == [Token(name)];
    assert WellFormed(Token(name));
    PrintOne(Token(name));
    RenderEvaluates(nodes, vars, escape);
    assert Evaluate([], vars, escape) == "";
    PlainWord("");
    PlainWord("true");
    PlainWord("false");
  }

  lemma PrintOne(p: Piece)
    ensures Print([p]) == Printed(p)
  {
    assert [p][1..] == [] && Print([]) == "";
  }

  lemma PlainText(s: string)
    requires '&' !in s && '<' !in s && '>' !in s && '\"' !in s && '\'' !in s
    ensures EscapeHtml(s) == s
  {
    ApplyAbsent(s, PASSES);
  }

  lemma PlainWord(s: string)
    requires s == "" || s == "true" || s == "false"
    ensures EscapeHtml(s) == s
  {
    PlainText(s);
  }

  lemma BlockEvaluates(tag: Tag, gap: string, name: string, body: string, vars: Vars, escape: bool)
    requires gap != "" && AllSpace(gap) && name != "" && AllWord(name) && Calm(body)
    ensures Render(Head(tag) + gap + name + "}}" + body + Tail(tag), vars, escape)
         == if Keeps(tag, vars(name)) then body else ""
  {
    var inner := [Lit(body)];
    var nodes := [Cond(tag, gap, name, inner)];
    assert nodes[1..] == [] && inner[1..] == [];
    BlockPieces(tag, gap, name, body);
    PrintThree(Open(tag, gap, name), Text(body), Close(tag));
    assert Free([], IF) && Free([], UNLESS) && Apart([], IF) && Apart([], UNLESS);
    assert Free(inner, IF) && Free(inner, UNLESS) && Apart(inner, IF) && Apart(inner, UNLESS);
    RenderEvaluates(nodes, vars, escape);
    assert Evaluate([], vars, escape) == "" && Evaluate(inner, vars, escape) == body;
  }

  lemma BlockPieces(tag: Tag, gap: string, name: string, body: string)
    ensures Pieces([Cond(tag, gap, name, [Lit(body)])]) == [Open(tag, gap, name), Text(body), Close(tag)]
  {
    var inner := [Lit(body)];
    var nodes := [Cond(tag, gap, name, inner)];
    var close := [Close(tag)];
    assert inner[1..] == [] && nodes[1..] == [];
    assert Spread(inner[1..], close) == close && Spread(nodes[1..], []) == [];
    assert Front(inner[0], close) == [Text(body)] + close;
    assert Spread(inner, close) == [Text(body)] + close;
    assert close + [] == close;
    assert Front(nodes[0], []) == [Open(tag, gap, name)] + ([Text(body)] + close);
  }

  lemma PrintThree(a: Piece, b: Piece, c: Piece)
    ensures Print([a, b, c]) == Printed(a) + Printed(b) + Printed(c)
  {
    assert [a, b, c][1..] == [b, c] && [b, c][1..] == [c];
    PrintOne(c);
    assert Print([b, c]) == Printed(b) + Print([c]);
    assert Print([a, b, c]) == Printed(a) + Print([b, c]);
    assert Printed(a) + (Printed(b) + Printed(c)) == Printed(a) + Printed(b) + Printed(c);
  }

  lemma IfShows(gap: string, name: string, body: string, vars: Vars, escape: bool)
    requires gap != "" && AllSpace(gap) && name != "" && AllWord(name) && Calm(body)
    ensures Render("{{#if" + gap + name + "}}" + body + "{{/if}}", vars, escape)
         == if Drops(vars(name)) then "" else body
  {
    BlockEvaluates(IF, gap, name, body, vars, escape);
    WhichValuesDrop(vars(name), IF);
    TagTexts();
  }

  lemma UnlessShows(gap: string, name: string, body: string, vars: Vars, escape: bool)
    requires gap != "" && AllSpace(gap) && name != "" && AllWord(name) && Calm(body)
    ensures Render("{{#unless" + gap + name + "}}" + body + "{{/unless}}", vars, escape)
         == if Drops(vars(name)) then body else ""
  {
    BlockEvaluates(UNLESS, gap, name, body, vars, escape);
    WhichValuesDrop(vars(name), UNLESS);
    TagTexts();
  }
}
