/**
 `template.renderer.ts` on text: two passes that replace conditional blocks, and one that replaces tokens. The
 regular expressions are matched as a global replacement does: leftmost match first, body as short as possible,
 never looking at replaced text again.
 */
module TemplateRenderer {
  import opened Wrappers
  import opened HtmlEscape

  datatype Tag = IF | UNLESS

  /** A variable, with the text `String(v)` makes of a number. A name that is not set is `Undefined`. */
  datatype Value = Undefined | Boolean(b: bool) | Number(zero: bool, text: string) | Str(text: string)

  type Vars = string -> Value

  predicate IsTruthy(v: Value) {
    match v
    case Undefined => false
    case Boolean(b) => b
    case Number(zero, _) => !zero
    case Str(text) => text != "" && text != "false"
  }

  function ToText(v: Value): string {
    match v
    case Undefined => ""
    case Boolean(b) => if b then "true" else "false"
    case Number(_, text) => text
    case Str(text) => text
  }

  /** What a token is replaced by. */
  function Shown(v: Value, escape: bool): string {
    if escape then EscapeHtml(ToText(v)) else ToText(v)
  }

  /** Whether a block of this kind keeps its body. */
  predicate Keeps(tag: Tag, v: Value) {
    IsTruthy(v) <==> tag.IF?
  }

  /** `\w` and `\s`. */
  predicate IsWord(c: char) {
    'a' <= c <= 'z' || 'A' <= c <= 'Z' || '0' <= c <= '9' || c == '_'
  }

  predicate IsSpace(c: char) {
    || '\U{9}' <= c <= '\U{d}' || c == ' ' || c == '\U{a0}' || c == '\U{1680}' || '\U{2000}' <= c <= '\U{200a}'
    || c == '\U{2028}' || c == '\U{2029}' || c == '\U{202f}' || c == '\U{205f}' || c == '\U{3000}' || c == '\U{feff}'
  }

  function SpaceRun(s: string): (n: nat)
    ensures n <= |s|
  {
    if s == "" || !IsSpace(s[0]) then 0 else 1 + SpaceRun(s[1..])
  }

  function WordRun(s: string): (n: nat)
    ensures n <= |s|
  {
    if s == "" || !IsWord(s[0]) then 0 else 1 + WordRun(s[1..])
  }

  function Name(tag: Tag): string {
    if tag.IF? then "if" else "unless"
  }

  function Head(tag: Tag): string {
    "{{#" + Name(tag)
  }

  function Tail(tag: Tag): string {
    "{{/" + Name(tag) + "}}"
  }

  datatype Match = Match(name: string, length: nat)

  /** `\s+(\w+)\}\}` after `head`, at the beginning of `s`. */
  function MatchHead(s: string, head: string): (m: Option<Match>)
    ensures m.Some? ==> StartsWith(s, head) && |head| < m.value.length <= |s|
  {
    if !StartsWith(s, head) then None
    else
      var h := |head|;
      var spaces := SpaceRun(s[h..]);
      var words := WordRun(s[h + spaces..]);
      var end := h + spaces + words;
      if spaces > 0 && words > 0 && StartsWith(s[end..], "}}")
      then Some(Match(s[h + spaces..end], end + 2)) else None
  }

  /** `\{\{(\w+)\}\}` at the beginning of `s`. */
  function MatchToken(s: string): (m: Option<Match>)
    ensures m.Some? ==> StartsWith(s, "{{") && 2 < m.value.length <= |s|
  {
    if !StartsWith(s, "{{") then None
    else
      var words := WordRun(s[2..]);
      if words > 0 && StartsWith(s[2 + words..], "}}") then Some(Match(s[2..2 + words], words + 4)) else None
  }

  function IndexOf(s: string, pattern: string): (k: Option<nat>)
    ensures k.Some? ==> k.value + |pattern| <= |s|
  {
    if StartsWith(s, pattern) then Some(0)
    else if s == "" then None
    else
      var k := IndexOf(s[1..], pattern);
      if k.Some? then Some(k.value + 1) else None
  }

  datatype Block = Block(name: string, body: string, length: nat)

  /** `head\s+(\w+)\}\}([\s\S]*?)tail` at the beginning of `s`. */
  function MatchBlock(s: string, head: string, tail: string): (m: Option<Block>)
    ensures m.Some? ==> 0 < m.value.length <= |s|
  {
    var open := MatchHead(s, head);
    if open.None? then None
    else
      var rest := s[open.value.length..];
      var close := IndexOf(rest, tail);
      if close.None? then None
      else Some(Block(open.value.name, rest[..close.value], open.value.length + close.value + |tail|))
  }

  /** One of the two replacements of `renderConditionals`. */
  function Blocks(s: string, tag: Tag, vars: Vars): string
    decreases |s|
  {
    if s == "" then ""
    else
      var m := MatchBlock(s, Head(tag), Tail(tag));
      if m.None? then [s[0]] + Blocks(s[1..], tag, vars)
      else (if Keeps(tag, vars(m.value.name)) then m.value.body else "") + Blocks(s[m.value.length..], tag, vars)
  }

  function RenderConditionals(template: string, vars: Vars): string {
    Blocks(Blocks(template, IF, vars), UNLESS, vars)
  }

  function RenderTokens(s: string, vars: Vars, escape: bool): string
    decreases |s|
  {
    if s == "" then ""
    else
      var m := MatchToken(s);
      if m.Some? then Shown(vars(m.value.name), escape) + RenderTokens(s[m.value.length..], vars, escape)
      else [s[0]] + RenderTokens(s[1..], vars, escape)
  }

  function Render(template: string, vars: Vars, escape: bool): string {
    RenderTokens(RenderConditionals(template, vars), vars, escape)
  }
}
