/**
 * The JavaScript string operations the editor and the math rules rely on:
 * `String.prototype.trim`, `startsWith`/`endsWith`, `indexOf`, and the split of
 * a document into lines at '\n' (and its inverse, joining with '\n').
 */
module Text {

  /** A code point in ECMAScript's WhiteSpace or LineTerminator sets: exactly what
      `trim` strips and what the regular-expression class `\s` matches. */
  predicate IsWhitespace(c: char) {
    var n := c as int;
    n == 0x09 || n == 0x0A || n == 0x0B || n == 0x0C || n == 0x0D || n == 0x20
    || n == 0xA0 || n == 0x1680 || (0x2000 <= n <= 0x200A)
    || n == 0x2028 || n == 0x2029 || n == 0x202F || n == 0x205F || n == 0x3000 || n == 0xFEFF
  }

  predicate AllWhitespace(s: string) {
    forall i :: 0 <= i < |s| ==> IsWhitespace(s[i])
  }

  predicate StartsWith(s: string, prefix: string) {
    |prefix| <= |s| && s[..|prefix|] == prefix
  }

  predicate EndsWith(s: string, suffix: string) {
    |suffix| <= |s| && s[|s| - |suffix|..] == suffix
  }

  /** The index of the first non-whitespace character at or after `i`
      (|s| when there is none). */
  function SkipWhitespace(s: string, i: nat): (r: nat)
    requires i <= |s|
    ensures i <= r <= |s|
    ensures forall k :: i <= k < r ==> IsWhitespace(s[k])
    ensures r == |s| || !IsWhitespace(s[r])
    decreases |s| - i
  {
    if i < |s| && IsWhitespace(s[i]) then SkipWhitespace(s, i + 1) else i
  }

  /** The index just after the last non-whitespace character before `j`
      (0 when there is none). */
  function SkipWhitespaceBack(s: string, j: nat): (r: nat)
    requires j <= |s|
    ensures r <= j
    ensures forall k :: r <= k < j ==> IsWhitespace(s[k])
    ensures r == 0 || !IsWhitespace(s[r - 1])
  {
    if j > 0 && IsWhitespace(s[j - 1]) then SkipWhitespaceBack(s, j - 1) else j
  }

  /** JavaScript's `s.trim()`: the infix of `s` left after cutting the whitespace
      at both ends (`TrimSpec` and `TrimOfPadded` state what that means). */
  function Trim(s: string): string {
    var i := SkipWhitespace(s, 0);
    var j := SkipWhitespaceBack(s, |s|);
    if j <= i then "" else s[i..j]
  }

  /** A stretch of whitespace characters, sliced out, is all whitespace. */
  lemma AllWhitespaceSlice(s: string, a: nat, b: nat)
    requires a <= b <= |s|
    requires forall k :: a <= k < b ==> IsWhitespace(s[k])
    ensures AllWhitespace(s[a..b])
  {
    forall k | 0 <= k < b - a ensures IsWhitespace(s[a..b][k]) {
      assert s[a..b][k] == s[a + k];
    }
  }

  /** When the two scans meet, the text is all whitespace and trims to "". */
  lemma TrimOfBlank(s: string)
    requires SkipWhitespaceBack(s, |s|) <= SkipWhitespace(s, 0)
    ensures SkipWhitespace(s, 0) == |s| && AllWhitespace(s) && Trim(s) == []
  {
    var i := SkipWhitespace(s, 0);
    assert i == |s|;
  }

  /** When the scans do not meet, `Trim` keeps the text between them, which
      starts and ends with non-whitespace and has only whitespace around it. */
  lemma TrimOfNonBlank(s: string)
    requires SkipWhitespace(s, 0) < SkipWhitespaceBack(s, |s|)
    ensures var i, j := SkipWhitespace(s, 0), SkipWhitespaceBack(s, |s|);
      Trim(s) == s[i..j] && !IsWhitespace(s[i]) && !IsWhitespace(s[j - 1])
      && AllWhitespace(s[..i]) && AllWhitespace(s[j..])
  {
    var i, j := SkipWhitespace(s, 0), SkipWhitespaceBack(s, |s|);
    AllWhitespaceSlice(s, 0, i);
    AllWhitespaceSlice(s, j, |s|);
    assert s[..i] == s[0..i];
    assert s[j..] == s[j..|s|];
  }

  /** What `Trim` keeps is an infix of `s` that neither starts nor ends with
      whitespace, what it cuts on either side is whitespace, and it keeps
      nothing exactly when `s` is all whitespace. */
  lemma TrimSpec(s: string)
    ensures var t, i := Trim(s), SkipWhitespace(s, 0);
      i + |t| <= |s| && t == s[i..i + |t|] && AllWhitespace(s[..i]) && AllWhitespace(s[i + |t|..])
    ensures var t := Trim(s); t == [] || (!IsWhitespace(t[0]) && !IsWhitespace(t[|t| - 1]))
    ensures Trim(s) == [] <==> AllWhitespace(s)
  {
    var i := SkipWhitespace(s, 0);
    var j := SkipWhitespaceBack(s, |s|);
    if j <= i {
      TrimOfBlank(s);
      assert s[..i] == s && s[i..] == [];
    } else {
      TrimOfNonBlank(s);
      var t := Trim(s);
      assert t == s[i..j] && i + |t| == j;
      assert t[0] == s[i] && t[|t| - 1] == s[j - 1];
      assert s[i + |t|..] == s[j..];
      assert !AllWhitespace(s) by {
        assert !IsWhitespace(s[i]);
      }
    }
  }

  /** The forward scan stops at the first non-whitespace character. */
  lemma SkipWhitespaceStops(s: string, i: nat, r: nat)
    requires i <= r < |s| && !IsWhitespace(s[r])
    requires forall k :: i <= k < r ==> IsWhitespace(s[k])
    ensures SkipWhitespace(s, i) == r
  {
  }

  /** The backward scan stops just after the last non-whitespace character. */
  lemma SkipWhitespaceBackStops(s: string, j: nat, r: nat)
    requires 0 < r <= j <= |s| && !IsWhitespace(s[r - 1])
    requires forall k :: r <= k < j ==> IsWhitespace(s[k])
    ensures SkipWhitespaceBack(s, j) == r
  {
  }

  /** Trimming removes exactly the whitespace padding around a text that neither
      starts nor ends with whitespace: the converse of `Trim`'s contract. */
  lemma TrimOfPadded(a: string, t: string, b: string)
    requires AllWhitespace(a) && AllWhitespace(b)
    requires t == [] || (!IsWhitespace(t[0]) && !IsWhitespace(t[|t| - 1]))
    ensures Trim(a + t + b) == t
  {
    var s := a + t + b;
    if t == [] {
      assert s == a + b;
      AllWhitespaceConcat(a, b);
      TrimSpec(s);
    } else {
      var m, n := |a|, |a| + |t|;
      assert forall k :: 0 <= k < m ==> s[k] == a[k];
      assert forall k :: n <= k < |s| ==> s[k] == b[k - n];
      assert s[m] == t[0] && s[n - 1] == t[|t| - 1];
      SkipWhitespaceStops(s, 0, m);
      SkipWhitespaceBackStops(s, |s|, n);
      TrimOfNonBlank(s);
      assert s[m..n] == t;
    }
  }

  /** `s` is its trimmed text with whitespace padding on either side. */
  lemma TrimPadding(s: string) returns (pre: string, post: string)
    ensures s == pre + Trim(s) + post && AllWhitespace(pre) && AllWhitespace(post)
    ensures Trim(s) == [] || (!IsWhitespace(Trim(s)[0]) && !IsWhitespace(Trim(s)[|Trim(s)| - 1]))
  {
    TrimSpec(s);
    var i := SkipWhitespace(s, 0);
    var t := Trim(s);
    pre, post := s[..i], s[i + |t|..];
    assert s == pre + t + post;
  }

  /** A leading run of whitespace is invisible to `Trim`. */
  lemma {:induction false} TrimSkipsLeadingWhitespace(w: string, x: string)
    requires AllWhitespace(w)
    ensures Trim(w + x) == Trim(x)
  {
    var pre, post := TrimPadding(x);
    var t := Trim(x);
    AllWhitespaceConcat(w, pre);
    var wpre := w + pre;
    TrimOfPadded(wpre, t, post);
    assert w + x == wpre + t + post by {
      SeqAssoc(w, pre, t, post);
    }
  }

  /** The prefix and the suffix of a slice are slices of the whole. */
  lemma SliceOfSlice(s: string, a: nat, b: nat, n: nat)
    requires a <= b <= |s| && n <= b - a
    ensures s[a..b][..n] == s[a..a + n]
    ensures s[a..b][n..] == s[a + n..b]
  {
    forall k | 0 <= k < n ensures s[a..b][..n][k] == s[a..a + n][k] { }
    forall k | 0 <= k < b - a - n ensures s[a..b][n..][k] == s[a + n..b][k] { }
  }

  lemma SeqAssoc(a: string, b: string, c: string, d: string)
    ensures a + (b + c + d) == (a + b) + c + d == a + b + c + d
  {
  }

  lemma AllWhitespaceConcat(a: string, b: string)
    requires AllWhitespace(a) && AllWhitespace(b)
    ensures AllWhitespace(a + b)
  {
    forall k | 0 <= k < |a + b| ensures IsWhitespace((a + b)[k]) {
      if k < |a| { assert (a + b)[k] == a[k]; } else { assert (a + b)[k] == b[k - |a|]; }
    }
  }

  /** `pat` occurs in `s` at index `i`. */
  predicate OccursAt(s: string, pat: string, i: int) {
    0 <= i && i + |pat| <= |s| && s[i..i + |pat|] == pat
  }

  /** JavaScript's `s.indexOf(pat, from)` for a non-empty `pat`: the first
      index at or after `from` where `pat` occurs, or -1 when there is none. */
  function IndexOf(s: string, pat: string, from: nat): (r: int)
    requires |pat| > 0
    ensures r == -1 || (from <= r && OccursAt(s, pat, r))
    ensures forall i :: from <= i && (r == -1 || i < r) ==> !OccursAt(s, pat, i)
    decreases |s| - from
  {
    if from + |pat| > |s| then -1
    else if s[from..from + |pat|] == pat then from
    else IndexOf(s, pat, from + 1)
  }

  /** A prefix of `s` holds `pat` only where `s` holds it within that prefix. */
  lemma IndexOfPrefix(s: string, pat: string, n: nat)
    requires |pat| > 0 && n <= |s|
    requires forall i :: 0 <= i && i + |pat| <= n ==> !OccursAt(s, pat, i)
    ensures IndexOf(s[..n], pat, 0) == -1
  {
    var r := IndexOf(s[..n], pat, 0);
    assert r != -1 ==> s[..n][r..r + |pat|] == s[r..r + |pat|];
    assert r != -1 ==> OccursAt(s, pat, r);
  }

  /** The lines of `lines` joined with "\n" between consecutive ones. */
  function Join(lines: seq<string>): string {
    if |lines| == 0 then ""
    else if |lines| == 1 then lines[0]
    else lines[0] + "\n" + Join(lines[1..])
  }

  predicate NoNewline(s: string) {
    '\n' !in s
  }

  /** The document cut at every '\n' (JavaScript's `s.split("\n")`): at least
      one line; `SplitSpec` states that no line holds a '\n' and that joining
      them gives the document back. */
  function Split(s: string): (lines: seq<string>)
    ensures |lines| >= 1
  {
    if |s| == 0 then [""]
    else
      var rest := Split(s[1..]);
      if s[0] == '\n' then [""] + rest
      else [[s[0]] + rest[0]] + rest[1..]
  }

  /** No line of `Split(s)` holds a '\n', and joining them gives `s` back. */
  lemma SplitSpec(s: string)
    ensures forall i :: 0 <= i < |Split(s)| ==> NoNewline(Split(s)[i])
    ensures Join(Split(s)) == s
  {
    SplitNoNewline(s);
    JoinSplit(s);
  }

  lemma {:induction false} SplitNoNewline(s: string)
    ensures forall i :: 0 <= i < |Split(s)| ==> NoNewline(Split(s)[i])
    decreases |s|
  {
    if |s| > 0 {
      var rest := Split(s[1..]);
      SplitNoNewline(s[1..]);
      if s[0] != '\n' {
        var first := [s[0]] + rest[0];
        assert NoNewline(first);
        var lines := [first] + rest[1..];
        assert forall i :: 1 <= i < |lines| ==> lines[i] == rest[i];
      }
    }
  }

  lemma {:induction false} JoinSplit(s: string)
    ensures Join(Split(s)) == s
    decreases |s|
  {
    if |s| > 0 {
      var rest := Split(s[1..]);
      JoinSplit(s[1..]);
      assert s == [s[0]] + s[1..];
      if s[0] == '\n' {
        JoinCons("", rest);
      } else {
        var first := [s[0]] + rest[0];
        if |rest| == 1 {
          assert Join([first]) == first;
        } else {
          JoinCons(first, rest[1..]);
          assert rest == [rest[0]] + rest[1..];
          JoinCons(rest[0], rest[1..]);
        }
      }
    }
  }

  /** Joining after appending one more line puts a "\n" before it. */
  lemma {:induction false} JoinSnoc(lines: seq<string>, last: string)
    requires |lines| >= 1
    ensures Join(lines + [last]) == Join(lines) + "\n" + last
  {
    if |lines| > 1 {
      assert (lines + [last])[1..] == lines[1..] + [last];
      JoinSnoc(lines[1..], last);
    }
  }

  /** Splitting what `Join` built gives back the lines, provided none holds a '\n'. */
  lemma {:induction false} SplitJoin(lines: seq<string>)
    requires |lines| >= 1
    requires forall i :: 0 <= i < |lines| ==> NoNewline(lines[i])
    ensures Split(Join(lines)) == lines
  {
    if |lines| == 1 {
      SplitJoinFirst(lines[0], "");
      assert lines[0] + "" == lines[0];
    } else {
      var rest := "\n" + Join(lines[1..]);
      assert Join(lines) == lines[0] + rest;
      SplitJoinFirst(lines[0], rest);
      SplitJoin(lines[1..]);
      SplitNewline(Join(lines[1..]));
      assert Split(rest) == [""] + lines[1..];
      var r := Split(lines[0] + rest);
      assert r[0] == lines[0] by { assert ([""] + lines[1..])[0] == ""; assert lines[0] + "" == lines[0]; }
      assert r[1..] == lines[1..] by { assert ([""] + lines[1..])[1..] == lines[1..]; }
      assert r == [r[0]] + r[1..];
      assert lines == [lines[0]] + lines[1..];
    }
  }

  /** A line without '\n' in front of `rest` becomes the head of `rest`'s first line. */
  lemma {:induction false} SplitJoinFirst(line: string, rest: string)
    requires NoNewline(line)
    ensures Split(line + rest)[0] == line + Split(rest)[0]
    ensures Split(line + rest)[1..] == Split(rest)[1..]
  {
    if line != [] {
      assert (line + rest)[0] == line[0];
      assert (line + rest)[1..] == line[1..] + rest;
      assert line[0] != '\n' by { assert line[0] in line; }
      SplitJoinFirst(line[1..], rest);
      assert [line[0]] + line[1..] == line;
    } else {
      assert line + rest == rest;
    }
  }

  /** A document that starts with '\n' starts with an empty line. */
  lemma SplitNewline(rest: string)
    ensures Split("\n" + rest) == [""] + Split(rest)
  {
    assert ("\n" + rest)[1..] == rest;
  }

  /** Joining a head line in front of at least one more line. */
  lemma JoinCons(head: string, tail: seq<string>)
    requires |tail| >= 1
    ensures Join([head] + tail) == head + "\n" + Join(tail)
  {
    assert ([head] + tail)[1..] == tail;
  }

  /** Joining two non-empty runs of lines puts one "\n" between their joins. */
  lemma {:induction false} JoinAppend(a: seq<string>, b: seq<string>)
    requires |a| >= 1 && |b| >= 1
    ensures Join(a + b) == Join(a) + "\n" + Join(b)
    decreases |a|
  {
    if |a| == 1 {
      assert a + b == [a[0]] + b;
      JoinCons(a[0], b);
    } else {
      assert a + b == [a[0]] + (a[1..] + b);
      JoinCons(a[0], a[1..] + b);
      JoinAppend(a[1..], b);
      assert a == [a[0]] + a[1..];
      JoinCons(a[0], a[1..]);
      SeqAssoc(a[0] + "\n", Join(a[1..]), "\n", Join(b));
    }
  }

  /** The text in front of line `k` in the joined text: the earlier lines, each
      followed by its "\n". Its length is CodeMirror's `line.from`. */
  function Before(lines: seq<string>, k: nat): string
    requires k < |lines|
  {
    if k == 0 then "" else Join(lines[..k]) + "\n"
  }

  /** The text after line `k` in the joined text: a "\n" and the later lines. */
  function After(lines: seq<string>, k: nat): string
    requires k < |lines|
  {
    if k == |lines| - 1 then "" else "\n" + Join(lines[k + 1..])
  }

  /** The join of the lines from `k` on is line `k` followed by the text after it. */
  lemma JoinFrom(lines: seq<string>, k: nat)
    requires k < |lines|
    ensures Join(lines[k..]) == lines[k] + After(lines, k)
  {
    if k == |lines| - 1 {
      assert lines[k..] == [lines[k]];
    } else {
      assert lines[k..] == [lines[k]] + lines[k + 1..];
      JoinCons(lines[k], lines[k + 1..]);
    }
  }

  /** The joined text is the text before line `k` followed by the join from `k` on. */
  lemma JoinUpTo(lines: seq<string>, k: nat)
    requires k < |lines|
    ensures Join(lines) == Before(lines, k) + Join(lines[k..])
  {
    if k > 0 {
      assert lines == lines[..k] + lines[k..];
      JoinAppend(lines[..k], lines[k..]);
    } else {
      assert lines == lines[k..];
    }
  }

  /** The joined text is the text before line `k`, the line, and the text after
      it; so writing `x` in the line's place is the join with line `k` replaced. */
  lemma JoinAround(lines: seq<string>, k: nat, x: string)
    requires k < |lines|
    ensures Join(lines[k := x]) == Before(lines, k) + x + After(lines, k)
  {
    var l := lines[k := x];
    assert l[..k] == lines[..k];
    assert l[k + 1..] == lines[k + 1..];
    JoinUpTo(l, k);
    JoinFrom(l, k);
    assert Before(l, k) == Before(lines, k);
    assert After(l, k) == After(lines, k);
  }

  /** Line `k` occupies [|Before|, |Before| + length) of the joined text, and
      writing `x` over that span is the same as replacing line `k` by `x`. */
  lemma JoinReplaceLine(lines: seq<string>, k: nat, x: string)
    requires k < |lines|
    ensures var S := |Before(lines, k)|;
      S + |lines[k]| <= |Join(lines)|
      && Join(lines)[..S] == Before(lines, k)
      && Join(lines)[S..S + |lines[k]|] == lines[k]
      && Join(lines)[S + |lines[k]|..] == After(lines, k)
      && Join(lines)[..S] + x + Join(lines)[S + |lines[k]|..] == Join(lines[k := x])
  {
    JoinAround(lines, k, lines[k]);
    assert lines[k := lines[k]] == lines;
    JoinAround(lines, k, x);
    var B, y, A := Before(lines, k), lines[k], After(lines, k);
    assert (B + y + A)[..|B|] == B;
    assert (B + y + A)[|B|..|B| + |y|] == y;
    assert (B + y + A)[|B| + |y|..] == A;
  }

  /** The number of '\n' in `s`. */
  function NewlineCount(s: string): nat {
    if |s| == 0 then 0
    else (if s[0] == '\n' then 1 else 0) + NewlineCount(s[1..])
  }

  /** A document has one line more than it has '\n'. */
  lemma {:induction false} SplitLength(s: string)
    ensures |Split(s)| == NewlineCount(s) + 1
    decreases |s|
  {
    if |s| > 0 {
      SplitLength(s[1..]);
    }
  }

  /** A prefix holds no more '\n' than the whole. */
  lemma {:induction false} NewlineCountPrefix(s: string, n: nat)
    requires n <= |s|
    ensures NewlineCount(s[..n]) <= NewlineCount(s)
    decreases n
  {
    if n > 0 {
      assert s[..n][0] == s[0];
      assert s[..n][1..] == s[1..][..n - 1];
      NewlineCountPrefix(s[1..], n - 1);
    }
  }

  /** CodeMirror's `doc.lineAt(pos).number`, counted from 0: the number of line
      breaks in front of `pos`. */
  function LineAt(doc: string, pos: nat): (k: nat)
    requires pos <= |doc|
    ensures k < |Split(doc)|
  {
    SplitLength(doc);
    NewlineCountPrefix(doc, pos);
    NewlineCount(doc[..pos])
  }

  /** A later position is on the same line or a later one. */
  lemma LineAtMonotone(doc: string, i: nat, j: nat)
    requires i <= j <= |doc|
    ensures LineAt(doc, i) <= LineAt(doc, j)
  {
    assert doc[..j][..i] == doc[..i];
    NewlineCountPrefix(doc[..j], i);
  }

  /** Line `k + 1` starts one "\n" after line `k` ends. */
  lemma BeforeNext(lines: seq<string>, k: nat)
    requires k + 1 < |lines|
    ensures |Before(lines, k + 1)| == |Before(lines, k)| + |lines[k]| + 1
  {
    assert lines[..k + 1] == lines[..k] + [lines[k]];
    if k > 0 {
      JoinSnoc(lines[..k], lines[k]);
    }
  }
}
