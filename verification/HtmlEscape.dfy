/** `escapeHtml` of `template.renderer.ts`: five replacements in a row, and what they amount to. */
module HtmlEscape {
  import opened Wrappers

  /** `s.replace(/c/g, text)`. */
  datatype Pass = Pass(c: char, text: string)

  /** The replacements of the source, in its order. */
  const PASSES: seq<Pass> :=
    [Pass('&', "&amp;"), Pass('<', "&lt;"), Pass('>', "&gt;"), Pass('\"', "&quot;"), Pass('\'', "&#039;")]

  function ReplaceAll(s: string, p: Pass): string {
    if s == "" then "" else (if s[0] == p.c then p.text else [s[0]]) + ReplaceAll(s[1..], p)
  }

  function Apply(s: string, passes: seq<Pass>): string
    decreases |passes|
  {
    if passes == [] then s else Apply(ReplaceAll(s, passes[0]), passes[1..])
  }

  function EscapeHtml(s: string): string {
    Apply(s, PASSES)
  }

  // ---- One character at a time ---------------------------------------------------------------------------

  function Entity(c: char, passes: seq<Pass>): string {
    if passes == [] then [c] else if passes[0].c == c then passes[0].text else Entity(c, passes[1..])
  }

  function PerChar(s: string, passes: seq<Pass>): string {
    if s == "" then "" else Entity(s[0], passes) + PerChar(s[1..], passes)
  }

  /** No pass replaces a character that an earlier pass writes. */
  predicate Layered(passes: seq<Pass>) {
    forall i, j :: 0 <= i < j < |passes| ==> passes[j].c !in passes[i].text
  }

  lemma {:induction false} ReplaceAllConcat(s: string, t: string, p: Pass)
    ensures ReplaceAll(s + t, p) == ReplaceAll(s, p) + ReplaceAll(t, p)
  {
    if s == "" {
      assert s + t == t;
    } else {
      assert (s + t)[1..] == s[1..] + t;
      ReplaceAllConcat(s[1..], t, p);
    }
  }

  lemma {:induction false} ApplyConcat(s: string, t: string, passes: seq<Pass>)
    ensures Apply(s + t, passes) == Apply(s, passes) + Apply(t, passes)
    decreases |passes|
  {
    if passes == [] {
    } else {
      ReplaceAllConcat(s, t, passes[0]);
      ApplyConcat(ReplaceAll(s, passes[0]), ReplaceAll(t, passes[0]), passes[1..]);
    }
  }

  lemma {:induction false} ReplaceAllAbsent(s: string, p: Pass)
    requires p.c !in s
    ensures ReplaceAll(s, p) == s
  {
    if s == "" {
    } else {
      ReplaceAllAbsent(s[1..], p);
    }
  }

  lemma {:induction false} ApplyAbsent(s: string, passes: seq<Pass>)
    requires forall p :: p in passes ==> p.c !in s
    ensures Apply(s, passes) == s
    decreases |passes|
  {
    if passes == [] {
    } else {
      ReplaceAllAbsent(s, passes[0]);
      ApplyAbsent(s, passes[1..]);
    }
  }

  lemma {:induction false} ApplyOne(c: char, passes: seq<Pass>)
    requires Layered(passes)
    ensures Apply([c], passes) == Entity(c, passes)
    decreases |passes|
  {
    if passes == [] {
    } else {
      var p := passes[0];
      assert ReplaceAll([c], p) == if p.c == c then p.text else [c];
      if p.c == c {
        ApplyAbsent(p.text, passes[1..]);
      } else {
        ApplyOne(c, passes[1..]);
      }
    }
  }

  lemma {:induction false} ApplyIsPerChar(s: string, passes: seq<Pass>)
    requires Layered(passes)
    ensures Apply(s, passes) == PerChar(s, passes)
    decreases |s|
  {
    if s == "" {
      ApplyAbsent("", passes);
    } else {
      ApplyConcat([s[0]], s[1..], passes);
      ApplyOne(s[0], passes);
      ApplyIsPerChar(s[1..], passes);
      assert s == [s[0]] + s[1..];
    }
  }

  // ---- The way back --------------------------------------------------------------------------------------

  /** The first replacement whose text `s` begins with. */
  function Recognize(s: string, passes: seq<Pass>): (r: Option<Pass>)
    ensures r.Some? ==> r.value in passes && StartsWith(s, r.value.text)
  {
    if passes == [] then None
    else if StartsWith(s, passes[0].text) then Some(passes[0]) else Recognize(s, passes[1..])
  }

  /** Every entity begins with the ampersand, is told apart by its second character, and '&' has one. */
  predicate Readable(passes: seq<Pass>) {
    && (forall p :: p in passes ==> |p.text| >= 2 && p.text[0] == '&')
    && (forall i, j :: 0 <= i < j < |passes| ==> passes[i].text[1] != passes[j].text[1])
    && (exists p :: p in passes && p.c == '&')
  }

  /** What a browser makes of the entities. */
  function Unescape(s: string, passes: seq<Pass>): string
    requires forall p :: p in passes ==> |p.text| >= 2
  {
    if s == "" then ""
    else
      var r := Recognize(s, passes);
      if r.Some? then [r.value.c] + Unescape(s[|r.value.text|..], passes) else [s[0]] + Unescape(s[1..], passes)
  }

  lemma {:induction false} EntityCases(c: char, passes: seq<Pass>)
    ensures (exists p :: p in passes && p.c == c && Entity(c, passes) == p.text)
            || (Entity(c, passes) == [c] && forall p :: p in passes ==> p.c != c)
  {
    if passes == [] {
    } else if passes[0].c == c {
      assert passes[0] in passes;
    } else {
      EntityCases(c, passes[1..]);
    }
  }

  lemma {:induction false} RecognizeIsComplete(s: string, passes: seq<Pass>)
    ensures Recognize(s, passes).None? ==> forall p :: p in passes ==> !StartsWith(s, p.text)
  {
    if passes == [] {
    } else {
      RecognizeIsComplete(s, passes[1..]);
    }
  }

  lemma StartsAlike(s: string, prefix: string)
    requires StartsWith(s, prefix) && |prefix| >= 2
    ensures s[0] == prefix[0] && s[1] == prefix[1]
  {
    assert s[..|prefix|][0] == prefix[0] && s[..|prefix|][1] == prefix[1];
  }

  lemma UnescapeOne(c: char, rest: string, passes: seq<Pass>)
    requires Readable(passes)
    ensures Unescape(Entity(c, passes) + rest, passes) == [c] + Unescape(rest, passes)
  {
    var s := Entity(c, passes) + rest;
    EntityCases(c, passes);
    RecognizeIsComplete(s, passes);
    assert s[|Entity(c, passes)|..] == rest;
    var r := Recognize(s, passes);
    if p :| p in passes && p.c == c && Entity(c, passes) == p.text {
      assert StartsWith(s, p.text);
      StartsAlike(s, r.value.text);
      StartsAlike(s, p.text);
    } else {
      if r.Some? {
        StartsAlike(s, r.value.text);
      }
    }
  }

  lemma {:induction false} UnescapePerChar(s: string, passes: seq<Pass>)
    requires Readable(passes)
    ensures Unescape(PerChar(s, passes), passes) == s
  {
    if s == "" {
    } else {
      UnescapePerChar(s[1..], passes);
      UnescapeOne(s[0], PerChar(s[1..], passes), passes);
    }
  }

  // ---- The five passes of the source ---------------------------------------------------------------------

  lemma PassesAreLayered()
    ensures Layered(PASSES)
  {
    forall i, j | 0 <= i < j < |PASSES|
      ensures PASSES[j].c !in PASSES[i].text
    {
    }
  }

  lemma PassesAreReadable()
    ensures Readable(PASSES)
  {
    assert PASSES[0] in PASSES;
  }

  /** No pass touches what an earlier one wrote: together they map each character on its own. */
  lemma EscapeIsPerChar(s: string)
    ensures EscapeHtml(s) == PerChar(s, PASSES)
  {
    PassesAreLayered();
    ApplyIsPerChar(s, PASSES);
  }

  lemma EntityTable(c: char)
    ensures Entity(c, PASSES)
         == if c == '&' then "&amp;" else if c == '<' then "&lt;" else if c == '>' then "&gt;"
            else if c == '\"' then "&quot;" else if c == '\'' then "&#039;" else [c]
  {
    var p := PASSES;
    EntityCons(c, p[0], [p[1], p[2], p[3], p[4]]);
    EntityCons(c, p[1], [p[2], p[3], p[4]]);
    EntityCons(c, p[2], [p[3], p[4]]);
    EntityCons(c, p[3], [p[4]]);
    EntityCons(c, p[4], []);
    assert p == [p[0]] + [p[1], p[2], p[3], p[4]];
    assert [p[1], p[2], p[3], p[4]] == [p[1]] + [p[2], p[3], p[4]];
    assert [p[2], p[3], p[4]] == [p[2]] + [p[3], p[4]];
    assert [p[3], p[4]] == [p[3]] + [p[4]] && [p[4]] == [p[4]] + [];
  }

  lemma EntityCons(c: char, p: Pass, rest: seq<Pass>)
    ensures Entity(c, [p] + rest) == if p.c == c then p.text else Entity(c, rest)
  {
    assert ([p] + rest)[1..] == rest;
  }

  /** The five entities; any other character stands for itself, wherever it is. */
  lemma EscapesEachCharacter(s: string, c: char, t: string)
    ensures EscapeHtml("") == ""
    ensures EscapeHtml(s + [c] + t)
         == EscapeHtml(s)
          + (if c == '&' then "&amp;" else if c == '<' then "&lt;" else if c == '>' then "&gt;"
             else if c == '\"' then "&quot;" else if c == '\'' then "&#039;" else [c])
          + EscapeHtml(t)
  {
    PassesAreLayered();
    ApplyAbsent("", PASSES);
    ApplyOne(c, PASSES);
    EntityTable(c);
    ApplyConcat(s + [c], t, PASSES);
    ApplyConcat(s, [c], PASSES);
  }

  /** Escaping loses nothing. */
  lemma EscapeRoundTrip(s: string)
    ensures Readable(PASSES) && Unescape(EscapeHtml(s), PASSES) == s
  {
    PassesAreReadable();
    EscapeIsPerChar(s);
    UnescapePerChar(s, PASSES);
  }

  lemma {:induction false} PerCharLacks(s: string, passes: seq<Pass>, c: char)
    requires (exists p :: p in passes && p.c == c) && forall p :: p in passes ==> c !in p.text
    ensures c !in PerChar(s, passes)
  {
    if s == "" {
    } else {
      EntityCases(s[0], passes);
      PerCharLacks(s[1..], passes, c);
    }
  }

  lemma PassTextsLack(c: char)
    requires c == '<' || c == '>' || c == '\"' || c == '\''
    ensures forall p :: p in PASSES ==> c !in p.text
  {
  }

  lemma PassesRemove(c: char)
    requires c == '<' || c == '>' || c == '\"' || c == '\''
    ensures exists p :: p in PASSES && p.c == c
    ensures forall p :: p in PASSES ==> c !in p.text
  {
    PassTextsLack(c);
    var k := if c == '<' then 1 else if c == '>' then 2 else if c == '\"' then 3 else 4;
    assert PASSES[k] in PASSES;
  }

  /** What is left has no character that could open markup or close an attribute. */
  lemma EscapeIsHarmless(s: string, c: char)
    requires c == '<' || c == '>' || c == '\"' || c == '\''
    ensures c !in EscapeHtml(s)
  {
    EscapeIsPerChar(s);
    PassesRemove(c);
    PerCharLacks(s, PASSES, c);
  }
}
