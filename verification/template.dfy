/**
  The template renderer: `text.replace(/\{(\w+)\}/g, ...)` over a context.
  A placeholder `{k}` is replaced by `String(ctx[k])` when `ctx` holds a
  non-null value for `k`, and is otherwise left in place, braces included.
  Replacement text is never scanned again.
 */
module Template {
  import opened Wrappers
  import opened JsValues

  type Context = map<string, Value>

  /** `\w` of a JavaScript regular expression: `[A-Za-z0-9_]`. */
  predicate IsWordChar(c: char) {
    ('a' <= c <= 'z') || ('A' <= c <= 'Z') || ('0' <= c <= '9') || c == '_'
  }

  predicate IsIdentifier(k: string) {
    |k| > 0 && forall i :: 0 <= i < |k| ==> IsWordChar(k[i])
  }

  /** Length of the longest run of word characters at the start of `s`. */
  function WordRun(s: string): (n: nat)
    ensures n <= |s|
    ensures forall i :: 0 <= i < n ==> IsWordChar(s[i])
    ensures n < |s| ==> !IsWordChar(s[n])
    decreases |s|
  {
    if |s| > 0 && IsWordChar(s[0]) then 1 + WordRun(s[1..]) else 0
  }

  /** The text of the placeholder for `k`. */
  function Braced(k: string): string {
    "{" + k + "}"
  }

  /** The identifier of the placeholder that `s` starts with, if any: a match of
      `\{(\w+)\}` anchored at the first character. Because `\w+` is greedy and
      `}` is not a word character, the match, when there is one, is unique. */
  function PlaceholderAt(s: string): (k: Option<string>)
    ensures k.Some? ==> IsIdentifier(k.value) && |Braced(k.value)| <= |s| && s[..|Braced(k.value)|] == Braced(k.value)
  {
    if |s| > 0 && s[0] == '{' then
      var n := WordRun(s[1..]);
      if 0 < n && n + 1 < |s| && s[n + 1] == '}' then
        assert s[..n + 2] == "{" + s[1..n + 1] + "}";
        Some(s[1..n + 1])
      else None
    else None
  }

  /** Every text that starts with a placeholder is recognised as that placeholder. */
  lemma PlaceholderAtComplete(k: string, rest: string)
    requires IsIdentifier(k)
    ensures PlaceholderAt(Braced(k) + rest) == Some(k)
  {
    var s := Braced(k) + rest;
    assert s[1..][..|k|] == k;
    assert s[1..][|k|] == '}';
    WordRunOfIdentifier(k, s[1..]);
    assert s[1..|k| + 1] == k;
  }

  lemma {:induction false} WordRunOfIdentifier(k: string, s: string)
    requires IsIdentifier(k) || k == []
    requires |s| > |k| && s[..|k|] == k && s[|k|] == '}'
    ensures WordRun(s) == |k|
    decreases |k|
  {
    if k != [] {
      assert s[1..][..|k| - 1] == k[1..];
      WordRunOfIdentifier(k[1..], s[1..]);
    }
  }

  /** A template cut into the pieces the scan sees: single literal characters
      and whole placeholders. */
  datatype Piece = Lit(c: char) | Hole(key: string)

  function Pieces(t: string): (ps: seq<Piece>)
    ensures forall i :: 0 <= i < |ps| && ps[i].Hole? ==> IsIdentifier(ps[i].key)
    decreases |t|
  {
    if |t| == 0 then []
    else
      match PlaceholderAt(t)
      case Some(k) => [Hole(k)] + Pieces(t[|Braced(k)|..])
      case None => [Lit(t[0])] + Pieces(t[1..])
  }

  function PieceText(p: Piece): string {
    match p
    case Lit(c) => [c]
    case Hole(k) => Braced(k)
  }

  function Unparse(ps: seq<Piece>): string {
    if |ps| == 0 then "" else PieceText(ps[0]) + Unparse(ps[1..])
  }

  /** Cutting a template into pieces loses nothing: the pieces spell the template. */
  lemma {:induction false} UnparsePieces(t: string)
    ensures Unparse(Pieces(t)) == t
    decreases |t|
  {
    hide PlaceholderAt;
    if |t| > 0 {
      match PlaceholderAt(t)
      case Some(k) =>
        UnparsePieces(t[|Braced(k)|..]);
        assert t == t[..|Braced(k)|] + t[|Braced(k)|..];
      case None =>
        UnparsePieces(t[1..]);
        assert t == [t[0]] + t[1..];
    }
  }

  /** The identifiers of all placeholders in a template. */
  function HoleKeys(t: string): set<string>
    decreases |t|
  {
    if |t| == 0 then {}
    else
      match PlaceholderAt(t)
      case Some(k) => {k} + HoleKeys(t[|Braced(k)|..])
      case None => HoleKeys(t[1..])
  }

  /** `ctx[k]` is neither undefined nor null. */
  predicate Bound(ctx: Context, k: string) {
    k in ctx && !ctx[k].Null?
  }

  /** What one placeholder becomes. */
  function Substitute(k: string, ctx: Context): string {
    if Bound(ctx, k) then ToJsString(ctx[k]) else Braced(k)
  }

  function RenderPiece(p: Piece, ctx: Context): string {
    match p
    case Lit(c) => [c]
    case Hole(k) => Substitute(k, ctx)
  }

  /** The reference reading of rendering: each piece rendered on its own. */
  function RenderPieces(ps: seq<Piece>, ctx: Context): string {
    if |ps| == 0 then "" else RenderPiece(ps[0], ctx) + RenderPieces(ps[1..], ctx)
  }

  /** `renderTextWithCtx(text, ctx)`: a left-to-right scan that emits either a
      whole substituted placeholder or one literal character at a time. */
  function Render(t: string, ctx: Context): (r: string)
    decreases |t|
  {
    if |t| == 0 then ""
    else
      match PlaceholderAt(t)
      case Some(k) => Substitute(k, ctx) + Render(t[|Braced(k)|..], ctx)
      case None => [t[0]] + Render(t[1..], ctx)
  }

  /** Rendering replaces each placeholder on its own and keeps every other
      character: a `{k}` with a non-null `ctx[k]` becomes `String(ctx[k])`,
      every other `{k}` stays verbatim. */
  lemma {:induction false} RenderIsPiecewise(t: string, ctx: Context)
    ensures Render(t, ctx) == RenderPieces(Pieces(t), ctx)
    decreases |t|
  {
    if |t| > 0 {
      match PlaceholderAt(t)
      case Some(k) => RenderIsPiecewise(t[|Braced(k)|..], ctx);
      case None => RenderIsPiecewise(t[1..], ctx);
    }
  }

  /** If the context binds none of the template's placeholders, rendering
      returns the template unchanged. */
  lemma {:induction false} RenderUnboundIsIdentity(t: string, ctx: Context)
    requires forall k :: k in HoleKeys(t) ==> !Bound(ctx, k)
    ensures Render(t, ctx) == t
    decreases |t|
  {
    hide PlaceholderAt;
    if |t| > 0 {
      match PlaceholderAt(t)
      case Some(k) =>
        var rest := t[|Braced(k)|..];
        assert HoleKeys(t) == {k} + HoleKeys(rest);
        RenderUnboundIsIdentity(rest, ctx);
        assert t == Braced(k) + rest;
      case None =>
        assert HoleKeys(t) == HoleKeys(t[1..]);
        RenderUnboundIsIdentity(t[1..], ctx);
        assert t == [t[0]] + t[1..];
    }
  }

  /** An empty context leaves every template as it is. */
  lemma RenderWithoutContext(t: string)
    ensures Render(t, map[]) == t
  {
    RenderUnboundIsIdentity(t, map[]);
  }

  /** Two contexts that agree on the template's placeholders render it alike:
      rendering reads nothing else from the context. */
  lemma {:induction false} RenderReadsOnlyHoleKeys(t: string, c1: Context, c2: Context)
    requires forall k :: k in HoleKeys(t) ==> Substitute(k, c1) == Substitute(k, c2)
    ensures Render(t, c1) == Render(t, c2)
    decreases |t|
  {
    if |t| > 0 {
      match PlaceholderAt(t)
      case Some(k) => RenderReadsOnlyHoleKeys(t[|Braced(k)|..], c1, c2);
      case None => RenderReadsOnlyHoleKeys(t[1..], c1, c2);
    }
  }

  /** Substituted text is not scanned again: a leading placeholder becomes
      its substitution exactly as it is, even when that value itself looks
      like a placeholder, and the scan resumes after the closing brace. */
  lemma RenderDoesNotRescan(k: string, rest: string, ctx: Context)
    requires IsIdentifier(k)
    ensures Render(Braced(k) + rest, ctx) == Substitute(k, ctx) + Render(rest, ctx)
  {
    PlaceholderAtComplete(k, rest);
    assert (Braced(k) + rest)[|Braced(k)|..] == rest;
  }

  /** One move of the scan over a non-empty text: the output it emits and
      how many characters it consumes. */
  function Chunk(s: string, ctx: Context): (r: (string, nat))
    requires |s| > 0
    ensures 0 < r.1 <= |s|
    ensures Render(s, ctx) == r.0 + Render(s[r.1..], ctx)
  {
    match PlaceholderAt(s)
    case Some(k) => (Substitute(k, ctx), |Braced(k)|)
    case None => ([s[0]], 1)
  }

  lemma ScanAdvance(t: string, i: nat, out: string, ctx: Context)
    requires i < |t| && out + Render(t[i..], ctx) == Render(t, ctx)
    ensures var c := Chunk(t[i..], ctx);
      i + c.1 <= |t| && (out + c.0) + Render(t[i + c.1..], ctx) == Render(t, ctx)
  {
    hide Render;
    hide Chunk;
    var c := Chunk(t[i..], ctx);
    assert t[i..][c.1..] == t[i + c.1..];
  }

  /** The scan written as the loop a regular-expression replace performs. */
  method RenderScan(t: string, ctx: Context) returns (out: string)
    ensures out == Render(t, ctx)
  {
    hide Render;
    hide Chunk;
    out := "";
    var i := 0;
    assert t[i..] == t;
    while i < |t|
      invariant 0 <= i <= |t|
      invariant out + Render(t[i..], ctx) == Render(t, ctx)
      decreases |t| - i
    {
      var step := Chunk(t[i..], ctx);
      ScanAdvance(t, i, out, ctx);
      out := out + step.0;
      i := i + step.1;
    }
    RenderNothing(t[i..], ctx);
  }

  lemma RenderNothing(t: string, ctx: Context)
    requires t == []
    ensures Render(t, ctx) == []
  {
  }
}
