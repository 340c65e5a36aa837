/** `format_string` of `src/util.rs`: substitute the first `{}` of a
    template. */
module Util {
  import opened Wrappers

  predicate PlaceholderAt(s: string, i: nat)
  {
    i + 1 < |s| && s[i] == '{' && s[i + 1] == '}'
  }

  /** `str::find("{}")`: the index of the first placeholder, if any. */
  function FindPlaceholder(s: string): (r: Option<nat>)
    ensures r.Some? ==> PlaceholderAt(s, r.value)
    ensures r.Some? ==> forall j: nat :: j < r.value ==> !PlaceholderAt(s, j)
    ensures r.None? ==> forall j: nat :: !PlaceholderAt(s, j)
  {
    if |s| < 2 then None
    else if s[0] == '{' && s[1] == '}' then Some(0)
    else
      assert forall j: nat :: 0 < j ==> PlaceholderAt(s, j) == PlaceholderAt(s[1..], j - 1);
      match FindPlaceholder(s[1..])
      case None => None
      case Some(i) => Some(i + 1)
  }

  /** The template with its first `{}` replaced by `input`. */
  function FormatString(source: string, input: string): string
  {
    match FindPlaceholder(source)
    case None => source
    case Some(i) => source[..i] + input + source[i + 2..]
  }

  /** A template without a placeholder comes back unchanged. */
  lemma FormatStringNone(source: string, input: string)
    requires forall j: nat :: !PlaceholderAt(source, j)
    ensures FormatString(source, input) == source
  {
  }

  /** Otherwise the first placeholder, and only it, is replaced: the text
      before it (which holds none), then `input` as it is, then the rest of
      the template untouched, later placeholders included. */
  lemma FormatStringFirst(source: string, input: string, i: nat)
    requires PlaceholderAt(source, i) && forall j: nat :: j < i ==> !PlaceholderAt(source, j)
    ensures FormatString(source, input) == source[..i] + input + source[i + 2..]
    ensures |FormatString(source, input)| == |source| - 2 + |input|
  {
  }

  /** A template written as text without a placeholder (and not ending in
      `{`), a placeholder, then any rest: the result is the text, `input`,
      then the rest. */
  lemma FormatStringSplit(pre: string, input: string, post: string)
    requires forall j: nat :: !PlaceholderAt(pre, j)
    requires pre == [] || pre[|pre| - 1] != '{'
    ensures FormatString(pre + "{}" + post, input) == pre + input + post
  {
    var src := pre + "{}" + post;
    forall j: nat | j < |pre| ensures !PlaceholderAt(src, j)
    {
      if j + 1 < |pre| {
        assert !PlaceholderAt(pre, j);
      }
    }
    FormatStringFirst(src, input, |pre|);
    assert src[..|pre|] == pre;
    assert src[|pre| + 2..] == post;
  }

  /** The first case of the unit test of `format_string`. */
  lemma FormatStringGreeting()
    ensures FormatString("Hello {}!", "world") == "Hello world!"
  {
    forall j: nat ensures !PlaceholderAt("Hello ", j) { }
    FormatStringSplit("Hello ", "world", "!");
    assert "Hello " + "{}" + "!" == "Hello {}!";
    assert "Hello " + "world" + "!" == "Hello world!";
  }

  /** Its second case: a placeholder at the very end. */
  lemma FormatStringAtEnd()
    ensures FormatString("A & {}", "B") == "A & B"
  {
    forall j: nat ensures !PlaceholderAt("A & ", j) { }
    FormatStringSplit("A & ", "B", "");
    assert "A & " + "{}" + "" == "A & {}";
    assert "A & " + "B" + "" == "A & B";
  }
}
