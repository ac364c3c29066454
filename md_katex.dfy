/**
 * The math extension of the Markdown parser (src/md-katex.ts): the escape test,
 * the inline `$…$` rule, the block `$$…$$` rule and the two renderer rules that
 * hand a math token to the KaTeX typesetter.
 *
 * The parser state is modelled by two small classes standing for markdown-it's
 * inline and block states; KaTeX is a function parameter that either returns
 * HTML or throws.
 */
module MdKatex {
  import opened Wrappers
  import opened Text

  // ---------------------------------------------------------------------------
  // Escapes
  // ---------------------------------------------------------------------------

  /** The length of the run of '\' that ends just before `pos`. Reading past the
      end of `src` yields JavaScript's `undefined`, which is no backslash. */
  function BackslashRun(src: string, pos: nat): (n: nat)
    ensures pos <= |src| ==> n <= pos
    ensures pos <= |src| ==> forall k :: pos - n <= k < pos ==> src[k] == '\\'
    ensures pos <= |src| ==> n == pos || src[pos - n - 1] != '\\'
    ensures pos > |src| ==> n == 0
  {
    if pos == 0 || pos > |src| || src[pos - 1] != '\\' then 0
    else 1 + BackslashRun(src, pos - 1)
  }

  /** The character at `pos` is escaped: an odd number of '\' precede it. */
  predicate Escaped(src: string, pos: nat) {
    BackslashRun(src, pos) % 2 == 1
  }

  /** `isEscaped`: walks back from `pos - 1` counting backslashes. */
  method IsEscaped(src: string, pos: nat) returns (escaped: bool)
    ensures escaped <==> Escaped(src, pos)
  {
    var count := 0;
    var p: int := pos - 1;
    while p >= 0 && p < |src| && src[p] == '\\'
      invariant -1 <= p < pos
      invariant count + BackslashRun(src, p + 1) == BackslashRun(src, pos)
      decreases p
    {
      count := count + 1;
      p := p - 1;
    }
    escaped := count % 2 == 1;
  }

  /** The run before `pos` is determined by the characters alone: any maximal run
      of backslashes ending at `pos` has BackslashRun's length. */
  lemma {:induction false} BackslashRunUnique(src: string, pos: nat, n: nat)
    requires n <= pos <= |src|
    requires forall k :: pos - n <= k < pos ==> src[k] == '\\'
    requires n == pos || src[pos - n - 1] != '\\'
    ensures BackslashRun(src, pos) == n
  {
    if n > 0 {
      BackslashRunUnique(src, pos - 1, n - 1);
    }
  }

  // ---------------------------------------------------------------------------
  // Tokens
  // ---------------------------------------------------------------------------

  /** The fields of a markdown-it token that the math rules set. */
  datatype Token = Token(kind: string, tag: string, nesting: int, markup: string, content: string, block: bool)

  /** `state.push('math_inline', 'math', 0)` with markup `$`. */
  function InlineToken(content: string): Token {
    Token("math_inline", "math", 0, "$", content, false)
  }

  /** `state.push('math_block', 'math', 0)` with `block = true` and markup `$$`. */
  function BlockToken(content: string): Token {
    Token("math_block", "math", 0, "$$", content, true)
  }

  // ---------------------------------------------------------------------------
  // Inline rule: $…$
  // ---------------------------------------------------------------------------

  predicate IsUnescapedDollar(src: string, k: nat) {
    k < |src| && src[k] == '$' && !Escaped(src, k)
  }

  /** The first unescaped '$' at or after `from`. */
  function FirstUnescapedDollar(src: string, from: nat): (r: Option<nat>)
    ensures r.Some? ==> from <= r.value && IsUnescapedDollar(src, r.value)
    ensures forall k :: from <= k && (r.None? || k < r.value) ==> !IsUnescapedDollar(src, k)
    decreases |src| - from
  {
    if from >= |src| then None
    else if IsUnescapedDollar(src, from) then Some(from)
    else FirstUnescapedDollar(src, from + 1)
  }

  /** Skipping a stretch that holds no unescaped '$' does not change the search. */
  lemma FirstUnescapedDollarSkip(src: string, a: nat, b: nat)
    requires a <= b
    requires forall k :: a <= k < b ==> !IsUnescapedDollar(src, k)
    ensures FirstUnescapedDollar(src, a) == FirstUnescapedDollar(src, b)
  {
    var ra, rb := FirstUnescapedDollar(src, a), FirstUnescapedDollar(src, b);
    if ra.Some? {
      assert !(ra.value < b);
      assert rb.Some? && rb.value <= ra.value;
    }
    if rb.Some? {
      assert ra.Some? && ra.value <= rb.value;
    }
  }

  /** An occurrence of the one-character pattern "$" is a '$'. */
  lemma DollarOccurs(s: string, k: int)
    ensures OccursAt(s, "$", k) <==> 0 <= k < |s| && s[k] == '$'
  {
    if 0 <= k < |s| { assert s[k..k + 1] == [s[k]]; }
  }

  /** Where the inline rule, started at `pos`, finds its closing '$'; None when it
      fails. It fails unless `src[pos]` is '$', the next character is not '$' and
      that '$' is not escaped; then the closing '$' is the first unescaped one
      after it, and the rule fails when there is none. */
  function InlineMathEnd(src: string, pos: nat): Option<nat> {
    if pos >= |src| || src[pos] != '$' then None
    else if pos + 1 < |src| && src[pos + 1] == '$' then None
    else if Escaped(src, pos) then None
    else FirstUnescapedDollar(src, pos + 1)
  }

  /** The inline rule may open at `pos`: an unescaped '$' not followed by '$'. */
  predicate OpensInline(src: string, pos: nat) {
    pos < |src| && src[pos] == '$' && !(pos + 1 < |src| && src[pos + 1] == '$') && !Escaped(src, pos)
  }

  /** The inline rule matches from `pos` to `end` exactly when `pos` opens and
      `end` is the first unescaped '$' after it. */
  lemma InlineMathEndSpec(src: string, pos: nat, end: nat)
    ensures InlineMathEnd(src, pos) == Some(end) <==>
      OpensInline(src, pos) && pos < end && IsUnescapedDollar(src, end)
      && forall k :: pos < k < end ==> !IsUnescapedDollar(src, k)
  {
    if OpensInline(src, pos) && pos < end && IsUnescapedDollar(src, end)
      && forall k :: pos < k < end ==> !IsUnescapedDollar(src, k)
    {
      var r := FirstUnescapedDollar(src, pos + 1);
      assert r.Some? && r.value <= end;
      assert !(r.value < end);
    }
  }

  /** The inline rule fails exactly when `pos` does not open or no unescaped '$'
      follows: an unterminated `$` is left to be read as text. */
  lemma InlineMathFails(src: string, pos: nat)
    ensures InlineMathEnd(src, pos).None? <==>
      !OpensInline(src, pos) || forall k :: pos < k ==> !IsUnescapedDollar(src, k)
  {
    if OpensInline(src, pos) {
      assert InlineMathEnd(src, pos) == FirstUnescapedDollar(src, pos + 1);
    }
  }

  /** What a match captures: a non-empty, untrimmed content `src[pos+1..end]`
      in which every '$' is escaped. */
  lemma InlineMathContent(src: string, pos: nat)
    requires InlineMathEnd(src, pos).Some?
    ensures var end := InlineMathEnd(src, pos).value;
      pos + 1 < end < |src| && src[end] == '$'
      && |src[pos + 1..end]| > 0
      && forall k :: pos < k < end && src[k] == '$' ==> Escaped(src, k)
  {
    assert InlineMathEnd(src, pos) == FirstUnescapedDollar(src, pos + 1);
    var end := InlineMathEnd(src, pos).value;
    forall k | pos < k < end && src[k] == '$' ensures Escaped(src, k) {
      assert !IsUnescapedDollar(src, k);
    }
  }

  /** The inline rule's search loop: from `start`, jump to the next '$' with
      `indexOf` and step past it while it is escaped; -1 when the '$' run out. */
  method FindClosingDollar(src: string, start: nat) returns (end: int)
    requires start <= |src|
    ensures end == -1 <==> FirstUnescapedDollar(src, start).None?
    ensures end != -1 ==> end == FirstUnescapedDollar(src, start).value
  {
    end := start;
    while true
      invariant start <= end <= |src|
      invariant FirstUnescapedDollar(src, start) == FirstUnescapedDollar(src, end)
      decreases |src| - end
    {
      var from: nat := end;
      end := IndexOf(src, "$", from);
      forall k | from <= k && (end == -1 || k < end) ensures !IsUnescapedDollar(src, k) {
        DollarOccurs(src, k);
      }
      if end == -1 {
        FirstUnescapedDollarSkip(src, from, |src|);
        return;
      }
      DollarOccurs(src, end);
      FirstUnescapedDollarSkip(src, from, end);
      var endEscaped := IsEscaped(src, end);
      if !endEscaped { return; }
      end := end + 1;
    }
  }

  /** markdown-it's inline state, reduced to what the rule reads and writes. */
  class InlineState {
    var src: string
    var pos: nat
    var tokens: seq<Token>

    constructor (src: string, pos: nat)
      ensures this.src == src && this.pos == pos && tokens == []
    {
      this.src := src;
      this.pos := pos;
      tokens := [];
    }

    /** `state.push`: appends one token. */
    method Push(t: Token)
      modifies this
      ensures tokens == old(tokens) + [t]
      ensures src == old(src) && pos == old(pos)
    {
      tokens := tokens + [t];
    }

    /** The `math_inline` rule. On a match it moves `pos` just past the closing
        '$' (in silent mode too) and, unless silent, pushes one token holding the
        text between the dollars; otherwise nothing changes. */
    method MathInline(silent: bool) returns (matched: bool)
      modifies this
      ensures src == old(src)
      ensures matched <==> InlineMathEnd(src, old(pos)).Some?
      ensures matched ==> pos == InlineMathEnd(src, old(pos)).value + 1 && pos > old(pos)
      ensures matched && !silent ==> tokens == old(tokens) + [InlineToken(src[old(pos) + 1..pos - 1])]
      ensures !matched || silent ==> tokens == old(tokens)
      ensures !matched ==> pos == old(pos)
    {
      var src := this.src;
      var pos := this.pos;
      if pos >= |src| || src[pos] != '$' { return false; }
      if pos + 1 < |src| && src[pos + 1] == '$' { return false; }
      var escaped := IsEscaped(src, pos);
      if escaped { return false; }

      var start := pos + 1;
      var end := FindClosingDollar(src, start);
      assert InlineMathEnd(src, pos) == FirstUnescapedDollar(src, start);
      if end == -1 { return false; }
      var content := src[start..end];
      if !silent {
        Push(InlineToken(content));
      }
      this.pos := end + 1;
      return true;
    }
  }

  // ---------------------------------------------------------------------------
  // Block rule: $$…$$
  // ---------------------------------------------------------------------------

  /** The read-only part of markdown-it's block state: the source and, per line,
      where its text starts after indentation (`bMarks + tShift`) and where it
      ends (`eMarks`); lines from `lineMax` on are outside the current block. */
  datatype BlockLines = BlockLines(src: string, lineStart: seq<nat>, lineEnd: seq<nat>, lineMax: nat) {
    ghost predicate Valid() {
      |lineStart| == |lineEnd| && lineMax <= |lineStart|
      && forall i :: 0 <= i < |lineStart| ==> lineStart[i] <= lineEnd[i] <= |src|
    }

    /** The text of line `i` without its indentation. */
    function Line(i: nat): string
      requires Valid() && i < |lineStart|
    {
      src[lineStart[i]..lineEnd[i]]
    }

    /** Lines `lo` .. `hi - 1`. */
    function Lines(lo: nat, hi: nat): (ls: seq<string>)
      requires Valid() && lo <= hi <= lineMax
      ensures |ls| == hi - lo
      ensures forall k :: 0 <= k < hi - lo ==> ls[k] == Line(lo + k)
    {
      seq(hi - lo, k requires 0 <= k < hi - lo => Line(lo + k))
    }

    /** Line `l` is a closing line: its trimmed text is exactly "$$". */
    predicate IsDollarLine(l: nat)
      requires Valid()
    {
      l < lineMax && Trim(Line(l)) == "$$"
    }

    /** For each line before `lineMax`, whether it is a closing line. */
    function DollarLines(): (flags: seq<bool>)
      requires Valid()
      ensures |flags| == lineMax
      ensures forall l :: 0 <= l < lineMax ==> flags[l] == IsDollarLine(l)
    {
      seq(lineMax, l requires 0 <= l < lineMax => IsDollarLine(l))
    }
  }

  /** The first index at or after `from` whose flag is set. */
  function FirstSet(flags: seq<bool>, from: nat): (r: Option<nat>)
    ensures r.Some? ==> from <= r.value < |flags| && flags[r.value]
    decreases |flags| - from
  {
    if from >= |flags| then None
    else if flags[from] then Some(from)
    else FirstSet(flags, from + 1)
  }

  /** The first closing line at or after `from` and before `lineMax`. */
  function ClosingLine(b: BlockLines, from: nat): (r: Option<nat>)
    requires b.Valid()
    ensures r.Some? ==> from <= r.value < b.lineMax && b.IsDollarLine(r.value)
  {
    FirstSet(b.DollarLines(), from)
  }

  /** What a successful block match yields: the token content and the line after
      the block. */
  datatype BlockMatch = BlockMatch(content: string, next: nat)

  /** The `math_block` rule's decision at `startLine`. It fails unless the line
      (after indentation) starts with "$$". If the rest of that line holds another
      "$$", the content is what lies between, trimmed, and one line is consumed.
      Otherwise the line, trimmed, must be exactly "$$", and the block runs to the
      first later line whose trimmed text is "$$", the lines in between joined by
      "\n" and trimmed; with no such line before `lineMax` the rule fails. */
  function ScanBlock(b: BlockLines, startLine: nat): Option<BlockMatch>
    requires b.Valid() && startLine < b.lineMax
  {
    var line := b.Line(startLine);
    if !StartsWith(line, "$$") then None
    else
      var rest := line[2..];
      var close := IndexOf(rest, "$$", 0);
      if close != -1 then Some(BlockMatch(Trim(rest[..close]), startLine + 1))
      else if Trim(line) != "$$" then None
      else ScanToClosingLine(b, startLine)
  }

  /** The multi-line part of the rule: the lines after `startLine` up to the
      first closing line, joined and trimmed; no match without a closing line. */
  function ScanToClosingLine(b: BlockLines, startLine: nat): Option<BlockMatch>
    requires b.Valid() && startLine < b.lineMax
  {
    match ClosingLine(b, startLine + 1)
    case None => None
    case Some(c) => Some(BlockMatch(Trim(Join(b.Lines(startLine + 1, c))), c + 1))
  }

  /** A block match starts on a line whose text begins with "$$" and consumes at
      least that line and nothing at or beyond `lineMax`. */
  lemma BlockMatchBounds(b: BlockLines, startLine: nat)
    requires b.Valid() && startLine < b.lineMax
    requires ScanBlock(b, startLine).Some?
    ensures StartsWith(b.Line(startLine), "$$")
    ensures startLine < ScanBlock(b, startLine).value.next <= b.lineMax
  {
  }

  /** Single-line form: when the opening "$$" is followed on the same line by
      another "$$", the match consumes exactly one line and its content is the
      trimmed text up to the first such "$$", which therefore holds no "$$". */
  lemma BlockSingleLine(b: BlockLines, startLine: nat)
    requires b.Valid() && startLine < b.lineMax
    requires StartsWith(b.Line(startLine), "$$")
    requires IndexOf(b.Line(startLine)[2..], "$$", 0) != -1
    ensures var rest := b.Line(startLine)[2..];
      var close := IndexOf(rest, "$$", 0);
      ScanBlock(b, startLine) == Some(BlockMatch(Trim(rest[..close]), startLine + 1))
      && IndexOf(rest[..close + 1], "$$", 0) == -1
  {
    var rest := b.Line(startLine)[2..];
    var close := IndexOf(rest, "$$", 0);
    IndexOfPrefix(rest, "$$", close + 1);
  }

  /** Multi-line form: a line that is "$$" once trimmed opens a block that ends
      at the first later closing line `c`; the content is the lines in between
      joined by "\n" and trimmed, and parsing resumes at `c + 1`. */
  lemma BlockMultiLine(b: BlockLines, startLine: nat, c: nat)
    requires b.Valid() && startLine < b.lineMax
    requires StartsWith(b.Line(startLine), "$$") && Trim(b.Line(startLine)) == "$$"
    requires ClosingLine(b, startLine + 1) == Some(c)
    ensures ScanBlock(b, startLine) == Some(BlockMatch(Trim(Join(b.Lines(startLine + 1, c))), c + 1))
  {
    OpeningLineIsBare(b, startLine);
  }

  /** `FirstSet` finds `c` when `c` is set and nothing before it from `from` is. */
  lemma {:induction false} FirstSetIs(flags: seq<bool>, from: nat, c: nat)
    requires from <= c < |flags| && flags[c]
    requires forall l :: from <= l < c ==> !flags[l]
    ensures FirstSet(flags, from) == Some(c)
    decreases c - from
  {
    if from < c {
      FirstSetIs(flags, from + 1, c);
    }
  }

  /** Nothing from `from` up to what `FirstSet` finds (or to the end) is set. */
  lemma {:induction false} FirstSetFirst(flags: seq<bool>, from: nat, l: nat)
    requires from <= l < |flags|
    requires FirstSet(flags, from).None? || l < FirstSet(flags, from).value
    ensures !flags[l]
    decreases |flags| - from
  {
    if from < l {
      FirstSetFirst(flags, from + 1, l);
    }
  }

  /** With no flag set from `from` on, `FirstSet` finds nothing. */
  lemma {:induction false} FirstSetNone(flags: seq<bool>, from: nat)
    requires forall l :: from <= l < |flags| ==> !flags[l]
    ensures FirstSet(flags, from).None?
    decreases |flags| - from
  {
    if from < |flags| {
      FirstSetNone(flags, from + 1);
    }
  }

  /** With no closing line from `from` on, there is none to find. */
  lemma ClosingLineNone(b: BlockLines, from: nat)
    requires b.Valid()
    requires forall l :: from <= l < b.lineMax ==> !b.IsDollarLine(l)
    ensures ClosingLine(b, from).None?
  {
    FirstSetNone(b.DollarLines(), from);
  }

  /** The closing line is the first line from `from` on that is "$$" once trimmed. */
  lemma ClosingLineIs(b: BlockLines, from: nat, c: nat)
    requires b.Valid() && from <= c < b.lineMax && b.IsDollarLine(c)
    requires forall l :: from <= l < c ==> !b.IsDollarLine(l)
    ensures ClosingLine(b, from) == Some(c)
  {
    FirstSetIs(b.DollarLines(), from, c);
  }

  /** No line from `from` before the closing line, or before `lineMax` when
      there is none, is "$$" once trimmed. */
  lemma ClosingLineFirst(b: BlockLines, from: nat, l: nat)
    requires b.Valid() && from <= l < b.lineMax
    requires ClosingLine(b, from).None? || l < ClosingLine(b, from).value
    ensures !b.IsDollarLine(l)
  {
    FirstSetFirst(b.DollarLines(), from, l);
  }

  /** A line that starts with "$$" and is "$$" once trimmed holds no second "$$". */
  lemma OpeningLineIsBare(b: BlockLines, startLine: nat)
    requires b.Valid() && startLine < b.lineMax
    requires StartsWith(b.Line(startLine), "$$") && Trim(b.Line(startLine)) == "$$"
    ensures IndexOf(b.Line(startLine)[2..], "$$", 0) == -1
  {
    var line := b.Line(startLine);
    TrimSpec(line);
    var i := SkipWhitespace(line, 0);
    assert i == 0;
    var rest := line[2..];
    assert AllWhitespace(rest);
  }

  /** An opening "$$" line with no closing line before `lineMax` is not math: the
      rule fails and the lines are left to other rules. */
  lemma BlockUnclosedFails(b: BlockLines, startLine: nat)
    requires b.Valid() && startLine < b.lineMax
    requires StartsWith(b.Line(startLine), "$$") && Trim(b.Line(startLine)) == "$$"
    requires forall l :: startLine < l < b.lineMax ==> !b.IsDollarLine(l)
    ensures ScanBlock(b, startLine).None?
  {
    OpeningLineIsBare(b, startLine);
    ClosingLineNone(b, startLine + 1);
  }

  /** One step of the rule's accumulation: `if (content) content += '\n'; content += raw`. */
  function AppendLine(content: string, raw: string): string {
    (if content != "" then content + "\n" else content) + raw
  }

  /** The content the multi-line loop builds from `lines`. */
  function Accumulate(lines: seq<string>): string {
    if lines == [] then "" else AppendLine(Accumulate(lines[..|lines| - 1]), lines[|lines| - 1])
  }

  /** Accumulating one more line extends the content by that line. */
  lemma AccumulateStep(b: BlockLines, lo: nat, hi: nat, acc: string, raw: string)
    requires b.Valid() && lo <= hi < b.lineMax
    requires acc == Accumulate(b.Lines(lo, hi)) && raw == b.Line(hi)
    ensures AppendLine(acc, raw) == Accumulate(b.Lines(lo, hi + 1))
  {
    var ls := b.Lines(lo, hi + 1);
    assert ls[..|ls| - 1] == b.Lines(lo, hi);
  }

  /** The content the loop has built once it has gone through lines `lo` .. `hi - 1`. */
  function AccumulateLines(b: BlockLines, lo: nat, hi: nat): string
    requires b.Valid() && lo <= hi <= b.lineMax
    decreases hi - lo
  {
    if hi == lo then "" else AppendLine(AccumulateLines(b, lo, hi - 1), b.Line(hi - 1))
  }

  /** One more line through the loop. */
  lemma AccumulateLinesStep(b: BlockLines, lo: nat, hi: nat)
    requires b.Valid() && lo <= hi < b.lineMax
    ensures AccumulateLines(b, lo, hi + 1) == AppendLine(AccumulateLines(b, lo, hi), b.Line(hi))
  {
  }

  /** Going through the lines of a block one by one accumulates them as `Accumulate` does. */
  lemma {:induction false} AccumulateLinesSpec(b: BlockLines, lo: nat, hi: nat)
    requires b.Valid() && lo <= hi <= b.lineMax
    ensures AccumulateLines(b, lo, hi) == Accumulate(b.Lines(lo, hi))
    decreases hi - lo
  {
    if hi == lo {
      assert b.Lines(lo, hi) == [];
    } else {
      AccumulateLinesSpec(b, lo, hi - 1);
      AccumulateStep(b, lo, hi - 1, AccumulateLines(b, lo, hi - 1), b.Line(hi - 1));
    }
  }

  function Newlines(n: nat): (s: string)
    ensures |s| == n && AllWhitespace(s)
  {
    seq(n, _ => '\n')
  }

  /** The accumulation leaves out only the separators of leading empty lines, so
      it differs from the "\n"-join by a run of "\n" in front. */
  lemma {:induction false} JoinIsNewlinesThenAccumulate(lines: seq<string>) returns (n: nat)
    ensures Join(lines) == Newlines(n) + Accumulate(lines)
  {
    if lines == [] {
      n := 0;
      return;
    }
    var init, last := lines[..|lines| - 1], lines[|lines| - 1];
    assert lines == init + [last];
    if init == [] {
      n := 0;
      assert Newlines(0) == [];
      return;
    }
    var m := JoinIsNewlinesThenAccumulate(init);
    JoinSnoc(init, last);
    var acc := Accumulate(init);
    if acc != "" {
      n := m;
      assert Join(lines) == Newlines(m) + (acc + "\n" + last);
    } else {
      n := m + 1;
      assert Newlines(m + 1) == Newlines(m) + "\n";
      assert Join(lines) == Newlines(m) + "\n" + last;
    }
  }

  /** What the loop accumulates, once trimmed, is the trimmed "\n"-join of the
      lines between the delimiters. */
  lemma TrimAccumulate(lines: seq<string>)
    ensures Trim(Accumulate(lines)) == Trim(Join(lines))
  {
    var n := JoinIsNewlinesThenAccumulate(lines);
    TrimSkipsLeadingWhitespace(Newlines(n), Accumulate(lines));
  }

  /** Trimmed, the content the loop builds is the trimmed "\n"-join of the lines. */
  lemma TrimAccumulateLines(b: BlockLines, lo: nat, hi: nat)
    requires b.Valid() && lo <= hi <= b.lineMax
    ensures Trim(AccumulateLines(b, lo, hi)) == Trim(Join(b.Lines(lo, hi)))
  {
    AccumulateLinesSpec(b, lo, hi);
    TrimAccumulate(b.Lines(lo, hi));
  }

  /** The rule's loop over the lines after an opening "$$" line: it stops at
      the first line whose trimmed text is "$$" and returns its index (or -1
      when it reaches `lineMax`) with the lines before it accumulated. */
  method CollectBlockLines(b: BlockLines, startLine: nat) returns (closingLine: int, content: string)
    requires b.Valid() && startLine < b.lineMax
    ensures closingLine == -1 <==> ClosingLine(b, startLine + 1).None?
    ensures closingLine != -1 ==>
      closingLine == ClosingLine(b, startLine + 1).value
      && content == AccumulateLines(b, startLine + 1, closingLine)
  {
    var nextLine := startLine + 1;
    closingLine := -1;
    content := "";
    while nextLine < b.lineMax
      invariant startLine + 1 <= nextLine <= b.lineMax
      invariant closingLine == -1
      invariant content == AccumulateLines(b, startLine + 1, nextLine)
      invariant forall l :: startLine + 1 <= l < nextLine ==> !b.IsDollarLine(l)
      decreases b.lineMax - nextLine
    {
      var raw := b.Line(nextLine);
      var trimmed := Trim(raw);
      if trimmed == "$$" {
        closingLine := nextLine;
        break;
      }
      AccumulateLinesStep(b, startLine + 1, nextLine);
      content := AppendLine(content, raw);
      nextLine := nextLine + 1;
    }
    if closingLine == -1 {
      ClosingLineNone(b, startLine + 1);
    } else {
      ClosingLineIs(b, startLine + 1, closingLine);
    }
  }

  /** The rule's decision at `startLine`, step by step as the rule takes it. (In
      silent mode the rule returns before trimming the content; trimming has no
      effect on the state, so computing it here changes nothing.) */
  method MatchBlock(b: BlockLines, startLine: nat) returns (m: Option<BlockMatch>)
    requires b.Valid() && startLine < b.lineMax
    ensures m == ScanBlock(b, startLine)
  {
    var src := b.src;
    var start := b.lineStart[startLine];
    var max := b.lineEnd[startLine];

    if start + 2 > max { return None; }
    SliceOfSlice(src, start, max, 2);
    if src[start..start + 2] != "$$" { return None; }

    var restOfLine := src[start + 2..max];
    var inlineClose := IndexOf(restOfLine, "$$", 0);
    if inlineClose != -1 {
      return Some(BlockMatch(Trim(restOfLine[..inlineClose]), startLine + 1));
    }

    var lineContent := Trim(src[start..max]);
    if lineContent != "$$" { return None; }

    var closingLine, content := CollectBlockLines(b, startLine);
    if closingLine == -1 { return None; }
    BlockMultiLine(b, startLine, closingLine);
    TrimAccumulateLines(b, startLine + 1, closingLine);
    return Some(BlockMatch(Trim(content), closingLine + 1));
  }

  /** markdown-it's block state, reduced to what the rule reads and writes. */
  class BlockState {
    var src: string
    var lineStart: seq<nat>
    var lineEnd: seq<nat>
    var line: nat
    var lineMax: nat
    var tokens: seq<Token>

    function Lines(): BlockLines
      reads this
    {
      BlockLines(src, lineStart, lineEnd, lineMax)
    }

    ghost predicate Valid()
      reads this
    {
      Lines().Valid()
    }

    constructor (src: string, lineStart: seq<nat>, lineEnd: seq<nat>, lineMax: nat)
      requires BlockLines(src, lineStart, lineEnd, lineMax).Valid()
      ensures Valid() && Lines() == BlockLines(src, lineStart, lineEnd, lineMax)
      ensures line == 0 && tokens == []
    {
      this.src := src;
      this.lineStart := lineStart;
      this.lineEnd := lineEnd;
      this.lineMax := lineMax;
      line := 0;
      tokens := [];
    }

    /** `state.push`: appends one token. */
    method Push(t: Token)
      modifies this
      ensures tokens == old(tokens) + [t]
      ensures Lines() == old(Lines()) && line == old(line)
    {
      tokens := tokens + [t];
    }

    /** The `math_block` rule at `startLine`. On a match, unless silent, it pushes
        one block token and moves `line` past the block; in silent mode, and on
        failure, nothing changes. */
    method MathBlock(startLine: nat, silent: bool) returns (matched: bool)
      requires Valid() && startLine < lineMax
      modifies this
      ensures Lines() == old(Lines())
      ensures matched <==> ScanBlock(Lines(), startLine).Some?
      ensures matched && !silent ==>
        tokens == old(tokens) + [BlockToken(ScanBlock(Lines(), startLine).value.content)]
        && line == ScanBlock(Lines(), startLine).value.next
      ensures !matched || silent ==> tokens == old(tokens) && line == old(line)
    {
      var m := MatchBlock(Lines(), startLine);
      if m.None? { return false; }
      if silent { return true; }
      Push(BlockToken(m.value.content));
      line := m.value.next;
      return true;
    }
  }

  // ---------------------------------------------------------------------------
  // Renderer rules
  // ---------------------------------------------------------------------------

  /** KaTeX's `strict` option: its default ("warn") or `false`. */
  datatype Strictness = StrictWarn | StrictOff

  datatype KatexOptions = KatexOptions(displayMode: bool, throwOnError: bool, strict: Strictness)

  /** The outcome of `katex.renderToString`: HTML, or an exception. */
  datatype Typeset = Html(html: string) | Threw

  /** The options the inline renderer passes: `{ throwOnError: false }`. */
  const InlineOptions := KatexOptions(false, false, StrictWarn)

  /** The options the block renderer passes: display mode, no throwing, not strict. */
  const BlockOptions := KatexOptions(true, false, StrictOff)

  const DisplayOpen := "<div class=\"katex-display\">"
  const DisplayClose := "</div>\n"
  const ErrorOpen := "<pre class=\"katex-error\">$$\n"
  const ErrorClose := "\n$$</pre>\n"

  /** The `math_inline` renderer: KaTeX's HTML, or the raw content when KaTeX throws. */
  function RenderMathInline(tokens: seq<Token>, idx: nat, katex: (string, KatexOptions) -> Typeset): (out: string)
    requires idx < |tokens|
    ensures katex(tokens[idx].content, InlineOptions).Html? ==> out == katex(tokens[idx].content, InlineOptions).html
    ensures katex(tokens[idx].content, InlineOptions).Threw? ==> out == tokens[idx].content
  {
    match katex(tokens[idx].content, InlineOptions)
    case Html(h) => h
    case Threw => tokens[idx].content
  }

  /** The `math_block` renderer: KaTeX's display HTML wrapped in a katex-display
      div, or, when KaTeX throws, the content shown back between "$$" lines in a
      katex-error pre. The output never is empty, always ends with "\n", and its
      opening tag tells which of the two happened. */
  function RenderMathBlock(tokens: seq<Token>, idx: nat, katex: (string, KatexOptions) -> Typeset): (out: string)
    requires idx < |tokens|
    ensures |out| >= |DisplayOpen| && out[|out| - 1] == '\n'
    ensures out[..|DisplayOpen|] == DisplayOpen <==> katex(tokens[idx].content, BlockOptions).Html?
    ensures katex(tokens[idx].content, BlockOptions).Html? ==>
      out == DisplayOpen + katex(tokens[idx].content, BlockOptions).html + DisplayClose
    ensures katex(tokens[idx].content, BlockOptions).Threw? ==>
      out == ErrorOpen + tokens[idx].content + ErrorClose
  {
    match katex(tokens[idx].content, BlockOptions)
    case Html(h) =>
      var out := DisplayOpen + h + DisplayClose;
      assert out[..|DisplayOpen|] == DisplayOpen;
      out
    case Threw =>
      var out := ErrorOpen + tokens[idx].content + ErrorClose;
      assert out[..|DisplayOpen|] == ErrorOpen[..|DisplayOpen|];
      assert out[1] == 'p';
      out
  }

  /** The error block gives the block's source back: cutting the fixed wrapper off
      the rendered error returns the token content. */
  lemma BlockErrorShowsSource(tokens: seq<Token>, idx: nat, katex: (string, KatexOptions) -> Typeset)
    requires idx < |tokens| && katex(tokens[idx].content, BlockOptions).Threw?
    ensures var out := RenderMathBlock(tokens, idx, katex);
      |out| >= |ErrorOpen| + |ErrorClose|
      && out[|ErrorOpen|..|out| - |ErrorClose|] == tokens[idx].content
  {
    var out := RenderMathBlock(tokens, idx, katex);
    assert out == ErrorOpen + tokens[idx].content + ErrorClose;
  }

  /** Inline math that KaTeX rejects shows up as exactly the text between its
      dollars: the rule's token and the renderer's fallback together. */
  lemma InlineFallbackIsSourceText(src: string, pos: nat, katex: (string, KatexOptions) -> Typeset)
    requires InlineMathEnd(src, pos).Some?
    requires katex(src[pos + 1..InlineMathEnd(src, pos).value], InlineOptions).Threw?
    ensures var end := InlineMathEnd(src, pos).value;
      RenderMathInline([InlineToken(src[pos + 1..end])], 0, katex) == src[pos + 1..end]
  {
    InlineMathContent(src, pos);
  }
}
