/**
 The text passes on the level of tags: what each pass does to the printed form of any sequence of tags and text,
 balanced or not, nested or not.
 */
module TemplatePieces {
  import opened Wrappers
  import opened HtmlEscape
  import opened TemplateRenderer

  datatype Piece =
    | Text(text: string)
    | Token(name: string)
    | Open(tag: Tag, gap: string, name: string)
    | Close(tag: Tag)

  predicate Opens(p: Piece, tag: Tag) {
    p.Open? && p.tag == tag
  }

  predicate Closes(p: Piece, tag: Tag) {
    p.Close? && p.tag == tag
  }

  function Printed(p: Piece): string {
    match p
    case Text(text) => text
    case Token(name) => "{{" + name + "}}"
    case Open(tag, gap, name) => Head(tag) + gap + name + "}}"
    case Close(tag) => Tail(tag)
  }

  predicate AllWord(s: string) {
    forall c :: c in s ==> IsWord(c)
  }

  predicate AllSpace(s: string) {
    forall c :: c in s ==> IsSpace(c)
  }

  /** Every opening brace is followed by something else: style sheets may appear, double braces may not. */
  predicate Calm(text: string) {
    forall i :: 0 <= i < |text| && text[i] == '{' ==> i + 1 < |text| && text[i + 1] != '{'
  }

  predicate WellFormed(p: Piece) {
    match p
    case Text(text) => Calm(text)
    case Token(name) => name != "" && AllWord(name)
    case Open(_, gap, name) => gap != "" && AllSpace(gap) && name != "" && AllWord(name)
    case Close(_) => true
  }

  predicate AllWellFormed(ps: seq<Piece>) {
    forall p :: p in ps ==> WellFormed(p)
  }

  function Join(ps: seq<Piece>, f: Piece -> string): string {
    if ps == [] then "" else f(ps[0]) + Join(ps[1..], f)
  }

  function Print(ps: seq<Piece>): string {
    Join(ps, Printed)
  }

  lemma {:induction false} JoinConcat(ps: seq<Piece>, qs: seq<Piece>, f: Piece -> string)
    ensures Join(ps + qs, f) == Join(ps, f) + Join(qs, f)
  {
    if ps == [] {
      assert ps + qs == qs;
    } else {
      assert (ps + qs)[1..] == ps[1..] + qs;
      JoinConcat(ps[1..], qs, f);
    }
  }

  // ---- Where something can match -------------------------------------------------------------------------

  /** A string that begins with two braces. */
  predicate Braces(s: string) {
    |s| >= 2 && s[0] == '{' && s[1] == '{'
  }

  /** Two braces are found only where a tag begins. */
  lemma BracesAtTags(p: Piece, rest: string, i: nat)
    requires WellFormed(p) && i < |Printed(p)|
    ensures Braces((Printed(p) + rest)[i..]) ==> i == 0 && !p.Text?
  {
    match p
    case Text(text) =>
      var s := (text + rest)[i..];
      assert s[0] == text[i] && (i + 1 < |text| ==> s[1] == text[i + 1]);
    case Token(name) => InnerToken(name, rest, i);
    case Open(tag, gap, name) => InnerOpen(tag, gap, name, rest, i);
    case Close(tag) => InnerClose(tag, rest, i);
  }

  lemma InnerToken(name: string, rest: string, i: nat)
    requires name != "" && AllWord(name) && i < |name| + 4
    ensures Braces(("{{" + name + "}}" + rest)[i..]) ==> i == 0
  {
    var s := "{{" + name + "}}" + rest;
    assert s[i..][0] == s[i] && (i + 1 < |s| ==> s[i..][1] == s[i + 1]);
    if i == 1 {
      assert s[2] == name[0] && name[0] in name;
    } else if 2 <= i < |name| + 2 {
      assert s[i] == name[i - 2] && name[i - 2] in name;
    } else if i >= |name| + 2 {
      assert s[i] == '}';
    }
  }

  lemma InnerOpen(tag: Tag, gap: string, name: string, rest: string, i: nat)
    requires AllSpace(gap) && AllWord(name) && i < |Head(tag) + gap + name| + 2
    ensures Braces((Head(tag) + gap + name + "}}" + rest)[i..]) ==> i == 0
  {
    var s := Head(tag) + gap + name + "}}" + rest;
    var h := |Head(tag)|;
    assert s[i..][0] == s[i] && (i + 1 < |s| ==> s[i..][1] == s[i + 1]);
    if i < h {
      assert s[i] == Head(tag)[i] && s[2] == '#';
    } else if i < h + |gap| {
      assert s[i] == gap[i - h] && gap[i - h] in gap;
    } else if i < h + |gap| + |name| {
      assert s[i] == name[i - h - |gap|] && name[i - h - |gap|] in name;
    } else {
      assert s[i] == '}';
    }
  }

  lemma InnerClose(tag: Tag, rest: string, i: nat)
    requires i < |Tail(tag)|
    ensures Braces((Tail(tag) + rest)[i..]) ==> i == 0
  {
    var s := Tail(tag) + rest;
    assert s[i..][0] == s[i] == Tail(tag)[i] && (i + 1 < |s| ==> s[i..][1] == s[i + 1]);
    assert s[2] == '/';
  }

  /** Which tag a string begins with is decided by what follows the braces. */
  /** What the third and fourth characters of a head or tail decide. */
  lemma MarkCharacters(s: string, tag: Tag)
    ensures StartsWith(s, Head(tag)) ==> |s| >= 4 && s[2] == '#' && s[3] == Head(tag)[3]
    ensures StartsWith(s, Tail(tag)) ==> |s| >= 4 && s[2] == '/' && s[3] == Tail(tag)[3]
  {
    var h, t := Head(tag), Tail(tag);
    assert StartsWith(s, h) ==> s[..|h|][2] == s[2] && s[..|h|][3] == s[3];
    assert StartsWith(s, t) ==> s[..|t|][2] == s[2] && s[..|t|][3] == s[3];
  }

  lemma WhichToken(name: string, rest: string, tag: Tag)
    requires WellFormed(Token(name))
    ensures var s := Printed(Token(name)) + rest;
            !StartsWith(s, Head(tag)) && !StartsWith(s, Tail(tag)) && MatchToken(s).Some?
  {
    var s := Printed(Token(name)) + rest;
    assert s[2] == name[0] && name[0] in name;
    MarkCharacters(s, tag);
    TokenMatches(name, rest);
  }

  lemma WhichOpen(o: Piece, rest: string, tag: Tag)
    requires o.Open?
    ensures var s := Printed(o) + rest;
            (StartsWith(s, Head(tag)) <==> o.tag == tag) && !StartsWith(s, Tail(tag)) && MatchToken(s).None?
  {
    var s := Printed(o) + rest;
    assert s[2] == '#' && s[3] == Head(o.tag)[3];
    MarkCharacters(s, tag);
    assert o.tag == tag ==> s[..|Head(tag)|] == Head(tag);
    assert s[2..][0] == '#';
  }

  lemma WhichClose(c: Piece, rest: string, tag: Tag)
    requires c.Close?
    ensures var s := Printed(c) + rest;
            !StartsWith(s, Head(tag)) && (StartsWith(s, Tail(tag)) <==> c.tag == tag) && MatchToken(s).None?
  {
    var s := Printed(c) + rest;
    assert s[2] == '/' && s[3] == Tail(c.tag)[3];
    MarkCharacters(s, tag);
    assert c.tag == tag ==> s[..|Tail(tag)|] == Tail(tag);
    assert s[2..][0] == '/';
  }

  lemma WhichTag(p: Piece, rest: string, tag: Tag)
    requires WellFormed(p) && !p.Text?
    ensures StartsWith(Printed(p) + rest, Head(tag)) <==> Opens(p, tag)
    ensures StartsWith(Printed(p) + rest, Tail(tag)) <==> Closes(p, tag)
    ensures MatchToken(Printed(p) + rest).Some? <==> p.Token?
  {
    match p
    case Token(name) => WhichToken(name, rest, tag);
    case Open(_, _, _) => WhichOpen(p, rest, tag);
    case Close(_) => WhichClose(p, rest, tag);
  }

  lemma {:induction false} WordRunStops(name: string, rest: string)
    requires AllWord(name) && (rest != "" ==> !IsWord(rest[0]))
    ensures WordRun(name + rest) == |name|
  {
    if name == "" {
      assert name + rest == rest;
    } else {
      assert (name + rest)[1..] == name[1..] + rest;
      WordRunStops(name[1..], rest);
    }
  }

  lemma {:induction false} SpaceRunStops(gap: string, rest: string)
    requires AllSpace(gap) && (rest != "" ==> !IsSpace(rest[0]))
    ensures SpaceRun(gap + rest) == |gap|
  {
    if gap == "" {
      assert gap + rest == rest;
    } else {
      assert (gap + rest)[1..] == gap[1..] + rest;
      SpaceRunStops(gap[1..], rest);
    }
  }

  lemma TokenMatches(name: string, rest: string)
    requires name != "" && AllWord(name)
    ensures MatchToken("{{" + name + "}}" + rest) == Some(Match(name, |name| + 4))
  {
    var s := "{{" + name + "}}" + rest;
    assert s[2..] == name + ("}}" + rest);
    WordRunStops(name, "}}" + rest);
    assert s[2 + |name|..] == "}}" + rest;
    assert s[2..2 + |name|] == name;
    assert s[..2] == "{{";
    assert ("}}" + rest)[..2] == "}}";
  }

  lemma HeadSlices(h: string, gap: string, name: string, rest: string)
    ensures var s := h + gap + name + "}}" + rest;
            && s[..|h|] == h && s[|h|..] == gap + (name + "}}" + rest) && s[|h| + |gap|..] == name + ("}}" + rest)
            && s[|h| + |gap|..|h| + |gap| + |name|] == name && s[|h| + |gap| + |name|..] == "}}" + rest
  {
  }

  lemma HeadMatches(h: string, gap: string, name: string, rest: string)
    requires gap != "" && AllSpace(gap) && name != "" && AllWord(name)
    ensures MatchHead(h + gap + name + "}}" + rest, h) == Some(Match(name, |h + gap + name| + 2))
  {
    HeadSlices(h, gap, name, rest);
    assert IsWord(name[0]) by {
      assert name[0] in name;
    }
    assert !IsSpace((name + "}}" + rest)[0]);
    SpaceRunStops(gap, name + "}}" + rest);
    WordRunStops(name, "}}" + rest);
    assert StartsWith("}}" + rest, "}}");
  }

  // ---- A pass skips what does not match ------------------------------------------------------------------

  lemma BlocksStep(s: string, rest: string, tag: Tag, vars: Vars)
    requires s != "" && MatchBlock(s, Head(tag), Tail(tag)).None? && s[1..] == rest
    ensures Blocks(s, tag, vars) == [s[0]] + Blocks(rest, tag, vars)
  {
  }

  lemma TokensStep(s: string, rest: string, vars: Vars, escape: bool)
    requires s != "" && MatchToken(s).None? && s[1..] == rest
    ensures RenderTokens(s, vars, escape) == [s[0]] + RenderTokens(rest, vars, escape)
  {
  }

  /** A pass that copies every character from `i` to `n` copies them all. */
  lemma {:induction false} Skip(pass: string -> string, s: string, i: nat, n: nat)
    requires i <= n <= |s| && forall k :: i <= k < n ==> pass(s[k..]) == [s[k]] + pass(s[k + 1..])
    ensures pass(s[i..]) == s[i..n] + pass(s[n..])
    decreases n - i
  {
    if i == n {
    } else {
      assert pass(s[i..]) == [s[i]] + pass(s[i + 1..]);
      Skip(pass, s, i + 1, n);
      assert s[i..n] == [s[i]] + s[i + 1..n];
    }
  }

  function Later(k: Option<nat>, n: nat): Option<nat> {
    if k.None? then None else Some(n + k.value)
  }

  lemma IndexStep(s: string, rest: string, pattern: string)
    requires s != "" && !StartsWith(s, pattern) && s[1..] == rest
    ensures IndexOf(s, pattern) == Later(IndexOf(rest, pattern), 1)
  {
  }

  /** A search that passes every character from `i` to `n` passes them all. */
  lemma {:induction false} FindSkips(find: string -> Option<nat>, s: string, i: nat, n: nat)
    requires i <= n <= |s| && forall k :: i <= k < n ==> find(s[k..]) == Later(find(s[k + 1..]), 1)
    ensures find(s[i..]) == Later(find(s[n..]), n - i)
    decreases n - i
  {
    if i == n {
    } else {
      assert find(s[i..]) == Later(find(s[i + 1..]), 1);
      FindSkips(find, s, i + 1, n);
    }
  }

  lemma BracesFirst(s: string, tag: Tag)
    requires !Braces(s)
    ensures !StartsWith(s, Head(tag)) && !StartsWith(s, Tail(tag)) && MatchToken(s).None?
  {
    if StartsWith(s, Head(tag)) {
      StartsAlike(s, Head(tag));
    } else if StartsWith(s, Tail(tag)) {
      StartsAlike(s, Tail(tag));
    } else if StartsWith(s, "{{") {
      StartsAlike(s, "{{");
    }
  }

  /** No head, tail or token begins inside a piece, except at its first character. */
  lemma NothingInside(p: Piece, rest: string, tag: Tag, i: nat)
    requires WellFormed(p) && i < |Printed(p)| && (i > 0 || p.Text?)
    ensures var s := (Printed(p) + rest)[i..];
            !StartsWith(s, Head(tag)) && !StartsWith(s, Tail(tag)) && MatchToken(s).None?
  {
    BracesAtTags(p, rest, i);
    BracesFirst((Printed(p) + rest)[i..], tag);
  }

  lemma PieceSlices(p: Piece, rest: string)
    ensures var s := Printed(p) + rest;
            s[0..] == s && s[..|Printed(p)|] == Printed(p) && s[|Printed(p)|..] == rest
  {
  }

  lemma HeadBlock(h: string, gap: string, name: string, rest: string, tail: string)
    requires gap != "" && AllSpace(gap) && name != "" && AllWord(name)
    ensures MatchBlock(h + gap + name + "}}" + rest, h, tail) == BlockOf(h + gap + name + "}}", name, rest, tail)
  {
    HeadMatches(h, gap, name, rest);
    assert (h + gap + name + "}}" + rest)[|h + gap + name| + 2..] == rest;
  }

  /** The block that an opening begins, if the text after it has a closing. */
  function BlockOf(open: string, name: string, rest: string, tail: string): Option<Block> {
    var k := IndexOf(rest, tail);
    if k.None? then None else Some(Block(name, rest[..k.value], |open| + k.value + |tail|))
  }

  lemma OpenMatches(o: Piece, rest: string)
    requires WellFormed(o) && o.Open?
    ensures MatchBlock(Printed(o) + rest, Head(o.tag), Tail(o.tag)) == BlockOf(Printed(o), o.name, rest, Tail(o.tag))
  {
    HeadBlock(Head(o.tag), o.gap, o.name, rest, Tail(o.tag));
  }

  /** The pieces that the pass for a tag does not react to: all but an opening with a closing after it. */
  predicate Inert(p: Piece, rest: string, tag: Tag) {
    Opens(p, tag) ==> IndexOf(rest, Tail(tag)).None?
  }

  lemma NoBlockAt(p: Piece, rest: string, tag: Tag, k: nat)
    requires WellFormed(p) && Inert(p, rest, tag) && k < |Printed(p)|
    ensures MatchBlock((Printed(p) + rest)[k..], Head(tag), Tail(tag)).None?
  {
    if k > 0 || p.Text? {
      NothingInside(p, rest, tag, k);
    } else {
      PieceSlices(p, rest);
      WhichTag(p, rest, tag);
      if Opens(p, tag) {
        OpenMatches(p, rest);
      }
    }
  }

  lemma BlocksCopyPiece(p: Piece, rest: string, tag: Tag, vars: Vars)
    requires WellFormed(p) && Inert(p, rest, tag)
    ensures Blocks(Printed(p) + rest, tag, vars) == Printed(p) + Blocks(rest, tag, vars)
  {
    var s, n := Printed(p) + rest, |Printed(p)|;
    forall k | 0 <= k < n
      ensures Blocks(s[k..], tag, vars) == [s[k]] + Blocks(s[k + 1..], tag, vars)
    {
      NoBlockAt(p, rest, tag, k);
      BlocksStep(s[k..], s[k + 1..], tag, vars);
    }
    Skip(t => Blocks(t, tag, vars), s, 0, n);
    PieceSlices(p, rest);
  }

  /** The token pass copies every piece that is not a token. */
  lemma TokensCopyPiece(p: Piece, rest: string, vars: Vars, escape: bool)
    requires WellFormed(p) && !p.Token?
    ensures RenderTokens(Printed(p) + rest, vars, escape) == Printed(p) + RenderTokens(rest, vars, escape)
  {
    var s, n := Printed(p) + rest, |Printed(p)|;
    forall k | 0 <= k < n
      ensures RenderTokens(s[k..], vars, escape) == [s[k]] + RenderTokens(s[k + 1..], vars, escape)
    {
      if k > 0 || p.Text? {
        NothingInside(p, rest, IF, k);
      } else {
        PieceSlices(p, rest);
        WhichTag(p, rest, IF);
      }
      TokensStep(s[k..], s[k + 1..], vars, escape);
    }
    Skip(t => RenderTokens(t, vars, escape), s, 0, n);
    PieceSlices(p, rest);
  }

  // ---- The passes on pieces ------------------------------------------------------------------------------

  datatype Cut = Cut(body: seq<Piece>, after: seq<Piece>)

  /** What comes before and after the first closing of the tag. */
  function FirstClose(ps: seq<Piece>, tag: Tag): (c: Option<Cut>)
    ensures c.Some? ==> |c.value.body| + 1 + |c.value.after| == |ps|
  {
    if ps == [] then None
    else if Closes(ps[0], tag) then Some(Cut([], ps[1..]))
    else
      var c := FirstClose(ps[1..], tag);
      if c.None? then None else Some(Cut([ps[0]] + c.value.body, c.value.after))
  }

  /** An opening reaches to the first closing of its tag, whatever lies between. */
  function PassPieces(ps: seq<Piece>, tag: Tag, vars: Vars): seq<Piece>
    decreases |ps|
  {
    if ps == [] then []
    else
      var p, rest := ps[0], ps[1..];
      var c := FirstClose(rest, tag);
      if Opens(p, tag) && c.Some?
      then (if Keeps(tag, vars(p.name)) then c.value.body else []) + PassPieces(c.value.after, tag, vars)
      else [p] + PassPieces(rest, tag, vars)
  }

  /** The text that tokens become; tags that are left over stay. */
  function Values(ps: seq<Piece>, vars: Vars, escape: bool): string {
    if ps == [] then ""
    else (if ps[0].Token? then Shown(vars(ps[0].name), escape) else Printed(ps[0])) + Values(ps[1..], vars, escape)
  }

  lemma NoTailIn(p: Piece, rest: string, tag: Tag, i: nat)
    requires WellFormed(p) && !Closes(p, tag) && i < |Printed(p)|
    ensures !StartsWith((Printed(p) + rest)[i..], Tail(tag))
  {
    if i > 0 || p.Text? {
      NothingInside(p, rest, tag, i);
    } else {
      PieceSlices(p, rest);
      WhichTag(p, rest, tag);
    }
  }

  lemma IndexAtClose(p: Piece, rest: string, tag: Tag)
    requires Closes(p, tag)
    ensures IndexOf(Printed(p) + rest, Tail(tag)) == Some(0)
  {
    WhichTag(p, rest, tag);
  }

  /** The pattern begins nowhere in `x`, with `rest` after it. */
  predicate Nowhere(x: string, rest: string, pattern: string) {
    forall i :: 0 <= i < |x| ==> !StartsWith((x + rest)[i..], pattern)
  }

  lemma NoTailAnywhere(p: Piece, rest: string, tag: Tag)
    requires WellFormed(p) && !Closes(p, tag)
    ensures Nowhere(Printed(p), rest, Tail(tag))
  {
    forall i | 0 <= i < |Printed(p)|
      ensures !StartsWith((Printed(p) + rest)[i..], Tail(tag))
    {
      NoTailIn(p, rest, tag, i);
    }
  }

  /** A search passes such a text. */
  lemma IndexPast(x: string, rest: string, pattern: string)
    requires Nowhere(x, rest, pattern)
    ensures IndexOf(x + rest, pattern) == Later(IndexOf(rest, pattern), |x|)
  {
    var s := x + rest;
    forall k | 0 <= k < |x|
      ensures IndexOf(s[k..], pattern) == Later(IndexOf(s[k + 1..], pattern), 1)
    {
      IndexStep(s[k..], s[k + 1..], pattern);
    }
    FindSkips(t => IndexOf(t, pattern), s, 0, |x|);
    TextSlices(x, rest);
  }

  lemma TextSlices(x: string, rest: string)
    ensures (x + rest)[0..] == x + rest && (x + rest)[|x|..] == rest
  {
  }

  lemma IndexAtPiece(p: Piece, rest: string, tag: Tag)
    requires WellFormed(p)
    ensures IndexOf(Printed(p) + rest, Tail(tag)) == FindStep(p, tag, IndexOf(rest, Tail(tag)), |Printed(p)|)
  {
    if Closes(p, tag) {
      IndexAtClose(p, rest, tag);
    } else {
      NoTailAnywhere(p, rest, tag);
      IndexPast(Printed(p), rest, Tail(tag));
    }
  }

  /** The first closing among joined pieces, for a search that stops at a closing and passes all else. */
  lemma {:induction false} FindInJoin(ps: seq<Piece>, tag: Tag, find: string -> Option<nat>, f: Piece -> string)
    requires find("") == None
    requires forall p, rest :: p in ps ==> find(f(p) + rest) == FindStep(p, tag, find(rest), |f(p)|)
    ensures var c := FirstClose(ps, tag);
            find(Join(ps, f)) == if c.None? then None else Some(|Join(c.value.body, f)|)
    decreases |ps|
  {
    if ps == [] {
    } else {
      var p, rest := ps[0], ps[1..];
      FindInJoin(rest, tag, find, f);
      FindNext(p, rest, tag, find, f);
    }
  }

  lemma FindNext(p: Piece, rest: seq<Piece>, tag: Tag, find: string -> Option<nat>, f: Piece -> string)
    requires find(f(p) + Join(rest, f)) == FindStep(p, tag, find(Join(rest, f)), |f(p)|)
    requires var c := FirstClose(rest, tag);
             find(Join(rest, f)) == if c.None? then None else Some(|Join(c.value.body, f)|)
    ensures var c := FirstClose([p] + rest, tag);
            find(Join([p] + rest, f)) == if c.None? then None else Some(|Join(c.value.body, f)|)
  {
    assert ([p] + rest)[1..] == rest;
    var c := FirstClose(rest, tag);
    if !Closes(p, tag) && c.Some? {
      assert ([p] + c.value.body)[1..] == c.value.body;
    }
  }

  function FindStep(p: Piece, tag: Tag, k: Option<nat>, n: nat): Option<nat> {
    if Closes(p, tag) then Some(0) else Later(k, n)
  }

  lemma ClosePosition(ps: seq<Piece>, tag: Tag)
    requires AllWellFormed(ps)
    ensures FirstClose(ps, tag).None? ==> IndexOf(Print(ps), Tail(tag)).None?
    ensures FirstClose(ps, tag).Some?
        ==> IndexOf(Print(ps), Tail(tag)) == Some(|Print(FirstClose(ps, tag).value.body)|)
  {
    var find := (t: string) => IndexOf(t, Tail(tag));
    forall p, rest | p in ps
      ensures find(Printed(p) + rest) == FindStep(p, tag, find(rest), |Printed(p)|)
    {
      IndexAtPiece(p, rest, tag);
    }
    FindInJoin(ps, tag, find, Printed);
  }

  lemma BlocksStepBlock(s: string, m: Block, tag: Tag, vars: Vars)
    requires s != "" && MatchBlock(s, Head(tag), Tail(tag)) == Some(m)
    ensures Blocks(s, tag, vars)
         == (if Keeps(tag, vars(m.name)) then m.body else "") + Blocks(s[m.length..], tag, vars)
  {
  }

  lemma BlockSlices(open: string, body: string, close: string, after: string)
    ensures (body + close + after)[..|body|] == body
    ensures (open + (body + close + after))[|open| + |body| + |close|..] == after
  {
  }

  lemma {:induction false} PrintCut(ps: seq<Piece>, tag: Tag, c: Cut)
    requires FirstClose(ps, tag) == Some(c)
    ensures Print(ps) == Print(c.body) + Tail(tag) + Print(c.after)
  {
    if Closes(ps[0], tag) {
    } else {
      var d := FirstClose(ps[1..], tag).value;
      PrintCut(ps[1..], tag, d);
      assert c.body[1..] == d.body;
    }
  }

  lemma BlocksTakeAt(s: string, m: Block, after: string, tag: Tag, vars: Vars)
    requires s != "" && MatchBlock(s, Head(tag), Tail(tag)) == Some(m) && s[m.length..] == after
    ensures Blocks(s, tag, vars) == (if Keeps(tag, vars(m.name)) then m.body else "") + Blocks(after, tag, vars)
  {
    BlocksStepBlock(s, m, tag, vars);
  }

  lemma BlockFound(open: string, name: string, body: string, close: string, after: string)
    requires IndexOf(body + close + after, close) == Some(|body|)
    ensures BlockOf(open, name, body + close + after, close) == Some(Block(name, body, |open| + |body| + |close|))
  {
    BlockSlices(open, body, close, after);
  }

  lemma BlocksTakeOpen(
      open: string, name: string, body: string, close: string, after: string, tag: Tag, vars: Vars)
    requires open != "" && close == Tail(tag) && IndexOf(body + close + after, close) == Some(|body|)
    requires MatchBlock(open + (body + close + after), Head(tag), close)
          == BlockOf(open, name, body + close + after, close)
    ensures Blocks(open + (body + close + after), tag, vars)
         == (if Keeps(tag, vars(name)) then body else "") + Blocks(after, tag, vars)
  {
    BlockFound(open, name, body, close, after);
    BlockSlices(open, body, close, after);
    var m := Block(name, body, |open| + |body| + |close|);
    BlocksTakeAt(open + (body + close + after), m, after, tag, vars);
  }

  lemma BlocksTakeText(o: Piece, body: string, close: string, after: string, vars: Vars)
    requires WellFormed(o) && o.Open? && close == Tail(o.tag)
    requires IndexOf(body + close + after, close) == Some(|body|)
    ensures Blocks(Printed(o) + (body + close + after), o.tag, vars)
         == (if Keeps(o.tag, vars(o.name)) then body else "") + Blocks(after, o.tag, vars)
  {
    OpenMatches(o, body + close + after);
    OpenIsText(o);
    BlocksTakeOpen(Printed(o), o.name, body, close, after, o.tag, vars);
  }

  lemma OpenIsText(o: Piece)
    requires o.Open?
    ensures Printed(o) != ""
  {
  }

  /** An opening of the tag and what it reaches to are replaced as one. */
  lemma BlocksTakeBlock(o: Piece, rest: seq<Piece>, c: Cut, vars: Vars)
    requires WellFormed(o) && o.Open? && AllWellFormed(rest) && FirstClose(rest, o.tag) == Some(c)
    ensures Blocks(Printed(o) + Print(rest), o.tag, vars)
         == (if Keeps(o.tag, vars(o.name)) then Print(c.body) else "") + Blocks(Print(c.after), o.tag, vars)
  {
    ClosePosition(rest, o.tag);
    PrintCut(rest, o.tag, c);
    BlocksTakeText(o, Print(c.body), Tail(o.tag), Print(c.after), vars);
  }

  /** How a text pass treats the piece at the front. */
  predicate Treats(pass: string -> string, f: Piece -> string, p: Piece, rest: seq<Piece>, tag: Tag, vars: Vars) {
    var c := FirstClose(rest, tag);
    pass(f(p) + Join(rest, f))
    == if Opens(p, tag) && c.Some?
       then (if Keeps(tag, vars(p.name)) then Join(c.value.body, f) else "") + pass(Join(c.value.after, f))
       else f(p) + pass(Join(rest, f))
  }

  predicate TreatsAll(pass: string -> string, f: Piece -> string, ps: seq<Piece>, tag: Tag, vars: Vars) {
    ps != [] ==> Treats(pass, f, ps[0], ps[1..], tag, vars) && TreatsAll(pass, f, ps[1..], tag, vars)
  }

  lemma {:induction false} TreatsAfter(
      pass: string -> string, f: Piece -> string, ps: seq<Piece>, c: Cut, tag: Tag, vars: Vars)
    requires TreatsAll(pass, f, ps, tag, vars) && FirstClose(ps, tag) == Some(c)
    ensures TreatsAll(pass, f, c.after, tag, vars)
  {
    if Closes(ps[0], tag) {
    } else {
      TreatsAfter(pass, f, ps[1..], FirstClose(ps[1..], tag).value, tag, vars);
    }
  }

  lemma {:induction false} PassOnPieces(
      pass: string -> string, f: Piece -> string, ps: seq<Piece>, tag: Tag, vars: Vars)
    requires pass("") == "" && TreatsAll(pass, f, ps, tag, vars)
    ensures pass(Join(ps, f)) == Join(PassPieces(ps, tag, vars), f)
    decreases |ps|
  {
    if ps == [] {
    } else {
      var p, rest := ps[0], ps[1..];
      assert Treats(pass, f, p, rest, tag, vars);
      var c := FirstClose(rest, tag);
      if Opens(p, tag) && c.Some? {
        TreatsAfter(pass, f, rest, c.value, tag, vars);
        PassOnPieces(pass, f, c.value.after, tag, vars);
        JoinConcat(if Keeps(tag, vars(p.name)) then c.value.body else [], PassPieces(c.value.after, tag, vars), f);
      } else {
        PassOnPieces(pass, f, rest, tag, vars);
      }
    }
  }

  lemma {:induction false} BlocksTreatAll(ps: seq<Piece>, tag: Tag, vars: Vars)
    requires AllWellFormed(ps)
    ensures TreatsAll(t => Blocks(t, tag, vars), Printed, ps, tag, vars)
  {
    if ps == [] {
    } else {
      var p, rest := ps[0], ps[1..];
      assert p in ps;
      BlocksTreatAll(rest, tag, vars);
      BlocksTreat(p, rest, tag, vars);
    }
  }

  lemma BlocksTreat(p: Piece, rest: seq<Piece>, tag: Tag, vars: Vars)
    requires WellFormed(p) && AllWellFormed(rest)
    ensures Treats(t => Blocks(t, tag, vars), Printed, p, rest, tag, vars)
  {
    var c := FirstClose(rest, tag);
    if Opens(p, tag) && c.Some? {
      BlocksTakeBlock(p, rest, c.value, vars);
    } else {
      ClosePosition(rest, tag);
      BlocksCopyPiece(p, Print(rest), tag, vars);
    }
  }

  /** What one block pass does to any tags and text, in any order. */
  lemma BlocksOnPieces(ps: seq<Piece>, tag: Tag, vars: Vars)
    requires AllWellFormed(ps)
    ensures Blocks(Print(ps), tag, vars) == Print(PassPieces(ps, tag, vars))
  {
    BlocksTreatAll(ps, tag, vars);
    PassOnPieces(t => Blocks(t, tag, vars), Printed, ps, tag, vars);
  }

  lemma {:induction false} TokensOnPieces(ps: seq<Piece>, vars: Vars, escape: bool)
    requires AllWellFormed(ps)
    ensures RenderTokens(Print(ps), vars, escape) == Values(ps, vars, escape)
  {
    if ps == [] {
    } else {
      var p, rest := ps[0], Print(ps[1..]);
      assert p in ps;
      TokensOnPieces(ps[1..], vars, escape);
      if p.Token? {
        TokenMatches(p.name, rest);
        PieceSlices(p, rest);
      } else {
        TokensCopyPiece(p, rest, vars, escape);
      }
    }
  }

  lemma {:induction false} CutIsPart(ps: seq<Piece>, tag: Tag, c: Cut)
    requires FirstClose(ps, tag) == Some(c)
    ensures forall p :: p in c.body || p in c.after ==> p in ps
  {
    if Closes(ps[0], tag) {
    } else {
      CutIsPart(ps[1..], tag, FirstClose(ps[1..], tag).value);
    }
  }

  lemma {:induction false} PassKeepsPieces(ps: seq<Piece>, tag: Tag, vars: Vars)
    ensures forall p :: p in PassPieces(ps, tag, vars) ==> p in ps
    decreases |ps|
  {
    if ps == [] {
    } else {
      var c := FirstClose(ps[1..], tag);
      if Opens(ps[0], tag) && c.Some? {
        CutIsPart(ps[1..], tag, c.value);
        PassKeepsPieces(c.value.after, tag, vars);
      } else {
        PassKeepsPieces(ps[1..], tag, vars);
      }
    }
  }

  /** The three text passes on any tags and text: the values of what the two passes on pieces leave. */
  lemma RenderOnPieces(ps: seq<Piece>, vars: Vars, escape: bool)
    requires AllWellFormed(ps)
    ensures Render(Print(ps), vars, escape)
         == Values(PassPieces(PassPieces(ps, IF, vars), UNLESS, vars), vars, escape)
  {
    var qs := PassPieces(ps, IF, vars);
    BlocksOnPieces(ps, IF, vars);
    PassKeepsPieces(ps, IF, vars);
    BlocksOnPieces(qs, UNLESS, vars);
    PassKeepsPieces(qs, UNLESS, vars);
    TokensOnPieces(PassPieces(qs, UNLESS, vars), vars, escape);
  }
}
