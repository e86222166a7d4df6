/**
  The slice of JavaScript value semantics the flow interpreter relies on:
  the values a context can hold, `String(v)`, truthiness, and
  `String.prototype.trim`.
 */
module JsValues {
  import opened Wrappers

  /** A context value: answers are strings, `<id>Provided` flags are
      booleans, and a choice option may carry `null`. */
  datatype Value = Str(s: string) | Bool(b: bool) | Null

  /** JavaScript's `String(v)`, which is also what `localStorage.setItem`
      stores and what a property lookup uses as the key. */
  function ToJsString(v: Value): string {
    match v
    case Str(s) => s
    case Bool(b) => if b then "true" else "false"
    case Null => "null"
  }

  /** JavaScript truthiness of a possibly absent (`undefined`) value. */
  predicate Truthy(v: Option<Value>) {
    match v
    case None => false
    case Some(Str(s)) => s != ""
    case Some(Bool(b)) => b
    case Some(Null) => false
  }

  /** A string property that is set and truthy, such as `node.persistKey`. */
  predicate Present(s: Option<string>) {
    s.Some? && s.value != ""
  }

  /** The characters `trim` removes: WhiteSpace and LineTerminator of ECMAScript. */
  predicate IsJsSpace(c: char) {
    || c == '\t' || c == '\n' || c == '\U{000B}' || c == '\U{000C}' || c == '\r'
    || c == ' ' || c == '\U{00A0}' || c == '\U{1680}'
    || ('\U{2000}' <= c <= '\U{200A}')
    || c == '\U{2028}' || c == '\U{2029}' || c == '\U{202F}' || c == '\U{205F}'
    || c == '\U{3000}' || c == '\U{FEFF}'
  }

  predicate AllSpace(s: string) {
    forall i :: 0 <= i < |s| ==> IsJsSpace(s[i])
  }

  /** The index of the first non-space character at or after `i`, or `|s|`. */
  function SkipSpaceFrom(s: string, i: nat): (j: nat)
    requires i <= |s|
    ensures i <= j <= |s|
    ensures forall k :: i <= k < j ==> IsJsSpace(s[k])
    ensures j < |s| ==> !IsJsSpace(s[j])
    decreases |s| - i
  {
    if i < |s| && IsJsSpace(s[i]) then SkipSpaceFrom(s, i + 1) else i
  }

  /** The index just past the last non-space character before `j`, but not
      below `lo`. */
  function SkipSpaceBack(s: string, lo: nat, j: nat): (e: nat)
    requires lo <= j <= |s|
    ensures lo <= e <= j
    ensures forall k :: e <= k < j ==> IsJsSpace(s[k])
    ensures e > lo ==> !IsJsSpace(s[e - 1])
    decreases j
  {
    if j > lo && IsJsSpace(s[j - 1]) then SkipSpaceBack(s, lo, j - 1) else j
  }

  /** `s.trim()`: the infix of `s` between its leading and trailing white space. */
  function Trim(s: string): (r: string)
    ensures |r| <= |s|
    ensures exists i :: 0 <= i <= |s| - |r| && r == s[i..i + |r|] && AllSpace(s[..i]) && AllSpace(s[i + |r|..])
    ensures r == [] || (!IsJsSpace(r[0]) && !IsJsSpace(r[|r| - 1]))
    ensures r == [] <==> AllSpace(s)
  {
    var i := SkipSpaceFrom(s, 0);
    var j := SkipSpaceBack(s, i, |s|);
    TrimSlice(s, i, j);
    s[i..j]
  }

  lemma TrimSlice(s: string, i: nat, j: nat)
    requires i == SkipSpaceFrom(s, 0) && j == SkipSpaceBack(s, i, |s|)
    ensures AllSpace(s[..i]) && AllSpace(s[j..])
    ensures s[i..j] == [] <==> AllSpace(s)
    ensures s[i..j] == [] || (!IsJsSpace(s[i]) && !IsJsSpace(s[j - 1]))
  {
    hide SkipSpaceFrom;
    hide SkipSpaceBack;
    assert forall k :: 0 <= k < i ==> s[..i][k] == s[k];
    assert forall k :: 0 <= k < |s| - j ==> s[j..][k] == s[j + k];
    if i < j {
      assert !IsJsSpace(s[i]);
    }
  }

  /** Trimming a string that has no white space at either end changes
      nothing; in particular `trim` is idempotent. */
  lemma TrimFixpoint(s: string)
    requires s == [] || (!IsJsSpace(s[0]) && !IsJsSpace(s[|s| - 1]))
    ensures Trim(s) == s
  {
  }

  lemma TrimIdempotent(s: string)
    ensures Trim(Trim(s)) == Trim(s)
  {
    TrimFixpoint(Trim(s));
  }
}
