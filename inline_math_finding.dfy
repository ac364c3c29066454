/**
 * `formatInlineMath` (src/editor.ts) wraps the selection in `\(` and `\)`, but
 * the math rules of src/md-katex.ts only read `$` delimiters: text written by
 * the command is never rendered as math. Wrapping in `$` instead gives text the
 * inline rule reads back with the selection as its content.
 */
module InlineMathFinding {
  import opened Wrappers
  import opened Editor
  import opened MdKatex

  /** As written: when neither the selection nor the text around it holds a
      '$', the inline math rule matches at no position of the result. */
  lemma ParenWrapIsNotMath(pre: string, s: string, post: string)
    requires '$' !in pre && '$' !in s && '$' !in post
    ensures var doc := pre + ToggleInlineReplacer("\\(", "\\)", s).text + post;
      forall p: nat :: InlineMathEnd(doc, p) == None
  {
    var text := ToggleInlineReplacer("\\(", "\\)", s).text;
    assert forall c :: c in text ==> c in s || c == '\\' || c == '(' || c == ')';
  }

  /** Corrected: a non-empty selection without '$' that does not end in a
      backslash, wrapped in `$` after text that does not end in a backslash,
      is matched by the inline rule from the opening to the closing '$', and
      the math content is exactly the selection. */
  lemma DollarWrapIsMath(pre: string, s: string, post: string)
    requires s != [] && '$' !in s && s[|s| - 1] != '\\'
    requires pre == [] || pre[|pre| - 1] != '\\'
    ensures var doc := pre + ToggleInlineReplacer("$", "$", s).text + post;
      InlineMathEnd(doc, |pre|) == Some(|pre| + |s| + 1)
      && doc[|pre| + 1..|pre| + |s| + 1] == s
  {
    assert !Wrapped(s, "$", "$") by {
      assert s[0] in s;
    }
    var doc := pre + ("$" + s + "$") + post;
    var end := |pre| + |s| + 1;
    DollarWrapShape(pre, s, post);
    assert OpensInline(doc, |pre|) by {
      assert doc[|pre| + 1] == s[0] && s[0] in s;
    }
    forall k | |pre| < k < end
      ensures !IsUnescapedDollar(doc, k)
    {
      assert doc[k] == s[k - |pre| - 1];
    }
    InlineMathEndSpec(doc, |pre|, end);
  }

  /** Where the pieces of `pre + "$" + s + "$" + post` sit, and that neither
      '$' is escaped. */
  lemma DollarWrapShape(pre: string, s: string, post: string)
    requires s != [] && s[|s| - 1] != '\\'
    requires pre == [] || pre[|pre| - 1] != '\\'
    ensures var doc := pre + ("$" + s + "$") + post;
      var end := |pre| + |s| + 1;
      end < |doc| && doc[|pre|] == '$' && doc[end] == '$'
      && doc[|pre| + 1..end] == s
      && !Escaped(doc, |pre|) && !Escaped(doc, end)
  {
    var doc := pre + ("$" + s + "$") + post;
    var end := |pre| + |s| + 1;
    assert doc[|pre| + 1..end] == s;
    assert doc[end - 1] == s[|s| - 1];
    assert |pre| > 0 ==> doc[|pre| - 1] == pre[|pre| - 1];
  }
}
