/**
 * The text-editing commands of the Markdown editor (src/editor.ts), with the
 * CodeMirror view reduced to what the commands use: the document text and the
 * main selection. Every command computes a list of changes in the coordinates
 * of the current document and dispatches them together.
 */
module Editor {
  import opened Wrappers
  import opened Text

  // ---------------------------------------------------------------------------
  // Changes, as CodeMirror's `{ from, to, insert }` change specs
  // ---------------------------------------------------------------------------

  /** Replace the text in [from, to) by `insert`. */
  datatype Change = Change(from: nat, to: nat, insert: string)

  /** One change applied to `doc`. */
  function ApplyChange(doc: string, c: Change): (r: string)
    requires c.from <= c.to <= |doc|
    ensures |r| == |doc| - (c.to - c.from) + |c.insert|
  {
    doc[..c.from] + c.insert + doc[c.to..]
  }

  /** Nothing outside the replaced span changes: the text before `from` is kept,
      the insert follows it, and then comes the text that followed `to`. */
  lemma ApplyChangeFrame(doc: string, c: Change)
    requires c.from <= c.to <= |doc|
    ensures var r := ApplyChange(doc, c);
      r[..c.from] == doc[..c.from]
      && r[c.from..c.from + |c.insert|] == c.insert
      && r[c.from + |c.insert|..] == doc[c.to..]
  {
    var r := ApplyChange(doc, c);
    assert r == doc[..c.from] + c.insert + doc[c.to..];
  }

  /** A change list CodeMirror accepts in one transaction: the changes are in
      order, none overlaps the next, and all lie within the first `limit`
      characters of the document. */
  predicate Ordered(cs: seq<Change>, limit: nat)
    decreases |cs|
  {
    cs == []
    || (var last := cs[|cs| - 1];
        last.from <= last.to <= limit && Ordered(cs[..|cs| - 1], last.from))
  }

  /** Changes within a limit are within any larger one. */
  lemma {:induction false} OrderedWithin(cs: seq<Change>, limit: nat, larger: nat)
    requires Ordered(cs, limit) && limit <= larger
    ensures Ordered(cs, larger)
  {
  }

  /** All changes applied together. Each change is addressed in the coordinates
      of the original document, so they are applied from the last one back:
      a change never moves the text in front of it. */
  function ApplyChanges(doc: string, cs: seq<Change>): string
    requires Ordered(cs, |doc|)
    decreases |cs|
  {
    if cs == [] then doc
    else
      var last := cs[|cs| - 1];
      var rest := cs[..|cs| - 1];
      OrderedWithin(rest, last.from, |ApplyChange(doc, last)|);
      ApplyChanges(ApplyChange(doc, last), rest)
  }

  /** Doing `Ordered` changes `cs` and then one more change `c` that lies after
      all of them is the same as doing `c` first. */
  lemma ApplyChangesLast(doc: string, cs: seq<Change>, c: Change)
    requires c.from <= c.to <= |doc| && Ordered(cs, c.from)
    ensures Ordered(cs + [c], |doc|)
    ensures Ordered(cs, |ApplyChange(doc, c)|)
    ensures ApplyChanges(doc, cs + [c]) == ApplyChanges(ApplyChange(doc, c), cs)
  {
    var all := cs + [c];
    assert all[..|all| - 1] == cs;
    assert all[|all| - 1] == c;
    OrderedWithin(cs, c.from, |ApplyChange(doc, c)|);
  }

  // ---------------------------------------------------------------------------
  // Line edits
  // ---------------------------------------------------------------------------

  /** Where line `k` starts in the joined text (CodeMirror's `line.from`). */
  function LineStart(lines: seq<string>, k: nat): nat
    requires k < |lines|
  {
    if k == 0 then 0 else LineStart(lines, k - 1) + |lines[k - 1]| + 1
  }

  /** Where line `k` ends in the joined text (CodeMirror's `line.to`). */
  function LineEnd(lines: seq<string>, k: nat): nat
    requires k < |lines|
  {
    LineStart(lines, k) + |lines[k]|
  }

  /** A line put in front of the others shifts every start by its length and
      its "\n". */
  lemma {:induction false} LineStartCons(head: string, rest: seq<string>, k: nat)
    requires k < |rest|
    ensures LineStart([head] + rest, k + 1) == |head| + 1 + LineStart(rest, k)
  {
    if k > 0 {
      LineStartCons(head, rest, k - 1);
      assert ([head] + rest)[k] == rest[k - 1];
    }
  }

  /** One more character at the start of the first line shifts the start of
      every later line by one. */
  lemma {:induction false} LineStartGrowFirst(lines: seq<string>, c: char, k: nat)
    requires k < |lines|
    ensures LineStart(lines[0 := [c] + lines[0]], k) == LineStart(lines, k) + (if k == 0 then 0 else 1)
  {
    if k > 0 {
      LineStartGrowFirst(lines, c, k - 1);
    }
  }

  /** `LineAt` one character further into the document. */
  lemma LineAtStep(doc: string, pos: nat)
    requires 0 < pos <= |doc|
    ensures LineAt(doc, pos) == (if doc[0] == '\n' then 1 else 0) + LineAt(doc[1..], pos - 1)
  {
    assert doc[..pos][1..] == doc[1..][..pos - 1];
  }

  /** The line `LineAt` names is the one holding `pos`: it starts at or before
      `pos` and ends at or after it. */
  lemma {:induction false} LineAtContains(doc: string, pos: nat)
    requires pos <= |doc|
    ensures var lines := Split(doc);
      var k := LineAt(doc, pos);
      LineStart(lines, k) <= pos <= LineEnd(lines, k)
    decreases pos
  {
    if pos > 0 {
      var rest := Split(doc[1..]);
      var j := LineAt(doc[1..], pos - 1);
      LineAtStep(doc, pos);
      LineAtContains(doc[1..], pos - 1);
      if doc[0] == '\n' {
        LineStartCons("", rest, j);
        assert Split(doc)[j + 1] == rest[j];
      } else {
        LineStartGrowFirst(rest, doc[0], j);
        assert Split(doc) == rest[0 := [doc[0]] + rest[0]];
      }
    }
  }

  /** Line `k` starts right after the text in front of it. */
  lemma {:induction false} LineStartBefore(lines: seq<string>, k: nat)
    requires k < |lines|
    ensures LineStart(lines, k) == |Before(lines, k)|
  {
    if k > 0 {
      LineStartBefore(lines, k - 1);
      BeforeNext(lines, k - 1);
    }
  }

  /** Where line `k` starts depends only on the lines before it. */
  lemma {:induction false} LineStartFrame(lines: seq<string>, other: seq<string>, k: nat)
    requires k < |lines| && k < |other| && lines[..k] == other[..k]
    ensures LineStart(lines, k) == LineStart(other, k)
  {
    if k > 0 {
      assert lines[..k - 1] == other[..k - 1];
      assert lines[k - 1] == other[k - 1] by { assert lines[..k][k - 1] == other[..k][k - 1]; }
      LineStartFrame(lines, other, k - 1);
    }
  }

  /** Line `k` ends inside the joined text. */
  lemma LineEndBound(lines: seq<string>, k: nat)
    requires k < |lines|
    ensures LineEnd(lines, k) <= |Join(lines)|
  {
    LineStartBefore(lines, k);
    JoinAround(lines, k, lines[k]);
    assert lines[k := lines[k]] == lines;
  }

  /** Splicing at offset |b| of `b + y + a`, over `remove` characters of `y`. */
  lemma SpliceInside(b: string, y: string, a: string, remove: nat, insert: string)
    requires remove <= |y|
    ensures var doc := b + y + a;
      |b| + remove <= |doc|
      && doc[..|b|] + insert + doc[|b| + remove..] == b + (insert + y[remove..]) + a
  {
    var doc := b + y + a;
    assert doc[..|b|] == b;
    assert doc[|b| + remove..] == y[remove..] + a;
  }

  /** A change at the start of line `k` that removes `remove` characters of the
      line and inserts `insert` there edits that one line and no other. */
  lemma ChangeAtLineStart(lines: seq<string>, k: nat, remove: nat, insert: string)
    requires k < |lines| && remove <= |lines[k]|
    ensures var S := LineStart(lines, k);
      S + remove <= |Join(lines)|
      && ApplyChange(Join(lines), Change(S, S + remove, insert))
         == Join(lines[k := insert + lines[k][remove..]])
  {
    var B, y, A := Before(lines, k), lines[k], After(lines, k);
    var x := insert + y[remove..];
    JoinAround(lines, k, y);
    assert lines[k := y] == lines;
    JoinAround(lines, k, x);
    SpliceInside(B, y, A, remove, insert);
    LineStartBefore(lines, k);
    var doc := Join(lines);
    assert doc == B + y + A;
    assert Join(lines[k := x]) == B + x + A;
    assert ApplyChange(doc, Change(|B|, |B| + remove, insert)) == doc[..|B|] + insert + doc[|B| + remove..];
  }

  // ---------------------------------------------------------------------------
  // togglePrefixLine
  // ---------------------------------------------------------------------------

  /** Every line from `a` to `b` (inclusive) starts with `prefix`. */
  predicate AllHave(lines: seq<string>, a: nat, b: nat, prefix: string)
    requires b < |lines|
  {
    forall i :: a <= i <= b ==> StartsWith(lines[i], prefix)
  }

  /** One line after the toggle: with `allHave`, one prefix is removed from a line
      that has it; otherwise the prefix is put in front of the line. */
  function ToggledLine(line: string, prefix: string, allHave: bool): string {
    if allHave then
      (if StartsWith(line, prefix) then line[|prefix|..] else line)
    else prefix + line
  }

  /** Line `k` toggled, the others kept. */
  function EditLine(lines: seq<string>, k: nat, prefix: string, allHave: bool): (r: seq<string>)
    requires k < |lines|
    ensures |r| == |lines|
  {
    lines[k := ToggledLine(lines[k], prefix, allHave)]
  }

  /** Lines `a` .. `n - 1` toggled with the given `allHave`; the rest kept. */
  function ToggleRange(lines: seq<string>, a: nat, n: nat, prefix: string, allHave: bool): (r: seq<string>)
    ensures |r| == |lines|
    ensures forall i :: 0 <= i < |lines| ==>
      r[i] == (if a <= i < n then ToggledLine(lines[i], prefix, allHave) else lines[i])
  {
    seq(|lines|, i requires 0 <= i < |lines| =>
      if a <= i < n then ToggledLine(lines[i], prefix, allHave) else lines[i])
  }

  /** `togglePrefixLine` on the lines from `a` to `b`: when all of them carry the
      prefix it is removed from each, otherwise it is added to each. */
  function ToggledLines(lines: seq<string>, a: nat, b: nat, prefix: string): seq<string>
    requires a <= b < |lines|
  {
    ToggleRange(lines, a, b + 1, prefix, AllHave(lines, a, b, prefix))
  }

  /** The change the second loop pushes for line `k`. */
  function LineChange(lines: seq<string>, k: nat, prefix: string, allHave: bool): seq<Change>
    requires k < |lines|
  {
    var S := LineStart(lines, k);
    if allHave then
      (if StartsWith(lines[k], prefix) then [Change(S, S + |prefix|, "")] else [])
    else [Change(S, S, prefix)]
  }

  /** The `ranges` the second loop has pushed once it has gone through lines
      `a` .. `n - 1`. */
  function PrefixChanges(lines: seq<string>, a: nat, n: nat, prefix: string, allHave: bool): seq<Change>
    requires a <= n <= |lines|
    decreases n - a
  {
    if n == a then [] else PrefixChanges(lines, a, n - 1, prefix, allHave) + LineChange(lines, n - 1, prefix, allHave)
  }

  /** The change for line `k`, if any, starts where line `k` starts and ends
      inside it. */
  lemma LineChangeBounds(lines: seq<string>, k: nat, prefix: string, allHave: bool)
    requires k < |lines|
    ensures var cs := LineChange(lines, k, prefix, allHave);
      |cs| <= 1
      && forall i :: 0 <= i < |cs| ==> cs[i].from == LineStart(lines, k) && cs[i].to <= LineEnd(lines, k)
  {
  }

  /** The changes for lines `a` .. `n - 1` lie in order inside those lines. */
  lemma {:induction false} PrefixChangesOrdered(lines: seq<string>, a: nat, n: nat, prefix: string, allHave: bool)
    requires a < n <= |lines|
    ensures Ordered(PrefixChanges(lines, a, n, prefix, allHave), LineEnd(lines, n - 1))
    decreases n - a
  {
    var k := n - 1;
    var last := LineChange(lines, k, prefix, allHave);
    var front := PrefixChanges(lines, a, k, prefix, allHave);
    var all := PrefixChanges(lines, a, n, prefix, allHave);
    LineChangeBounds(lines, k, prefix, allHave);
    assert all == front + last;
    if k > a {
      PrefixChangesOrdered(lines, a, k, prefix, allHave);
    }
    if last == [] {
      assert all == front;
      if k > a {
        OrderedWithin(front, LineEnd(lines, k - 1), LineEnd(lines, k));
      }
    } else {
      var c := last[0];
      assert c.from == LineStart(lines, k) && c.to <= LineEnd(lines, k);
      assert all[..|all| - 1] == front;
      assert all[|all| - 1] == c;
      if k > a {
        OrderedWithin(front, LineEnd(lines, k - 1), c.from);
      }
      assert Ordered(front, c.from);
    }
  }

  /** The changes for lines before `n` only look at the lines before `n`. */
  lemma {:induction false} PrefixChangesFrame(lines: seq<string>, other: seq<string>, a: nat, n: nat, prefix: string, allHave: bool)
    requires a <= n <= |lines| == |other| && lines[..n] == other[..n]
    ensures PrefixChanges(lines, a, n, prefix, allHave) == PrefixChanges(other, a, n, prefix, allHave)
    decreases n - a
  {
    if n > a {
      PrefixChangesFrame(lines, other, a, n - 1, prefix, allHave);
      assert lines[..n - 1] == other[..n - 1];
      LineStartFrame(lines, other, n - 1);
      assert lines[n - 1] == other[n - 1] by { assert lines[..n][n - 1] == other[..n][n - 1]; }
    }
  }

  /** The change pushed for one line edits just that line; no change is pushed
      only when the line stays as it is. */
  lemma LineChangeApplies(lines: seq<string>, k: nat, prefix: string, allHave: bool)
    requires k < |lines|
    ensures var cs := LineChange(lines, k, prefix, allHave);
      (cs == [] ==> ToggledLine(lines[k], prefix, allHave) == lines[k])
      && (cs != [] ==>
            |cs| == 1 && cs[0].from <= cs[0].to <= |Join(lines)|
            && ApplyChange(Join(lines), cs[0]) == Join(EditLine(lines, k, prefix, allHave)))
  {
    var line := lines[k];
    var S := LineStart(lines, k);
    if allHave && StartsWith(line, prefix) {
      ChangeAtLineStart(lines, k, |prefix|, "");
      var x := "" + line[|prefix|..];
      assert x == ToggledLine(line, prefix, allHave);
      assert EditLine(lines, k, prefix, allHave) == lines[k := x];
      assert LineChange(lines, k, prefix, allHave) == [Change(S, S + |prefix|, "")];
    } else if !allHave {
      ChangeAtLineStart(lines, k, 0, prefix);
      var x := prefix + line[0..];
      assert x == ToggledLine(line, prefix, allHave);
      assert EditLine(lines, k, prefix, allHave) == lines[k := x];
      assert LineChange(lines, k, prefix, allHave) == [Change(S, S, prefix)];
    }
  }

  /** The changes for lines `a` .. `n - 1` lie inside the joined text. */
  lemma PrefixChangesInside(lines: seq<string>, a: nat, n: nat, prefix: string, allHave: bool)
    requires a < n <= |lines|
    ensures Ordered(PrefixChanges(lines, a, n, prefix, allHave), |Join(lines)|)
  {
    PrefixChangesOrdered(lines, a, n, prefix, allHave);
    LineEndBound(lines, n - 1);
    OrderedWithin(PrefixChanges(lines, a, n, prefix, allHave), LineEnd(lines, n - 1), |Join(lines)|);
  }

  /** Dispatching `cs` on `doc` and `other` on `otherDoc` gives the same text. */
  ghost predicate SameResult(doc: string, cs: seq<Change>, otherDoc: string, other: seq<Change>) {
    Ordered(cs, |doc|) && Ordered(other, |otherDoc|) && ApplyChanges(doc, cs) == ApplyChanges(otherDoc, other)
  }

  /** Dispatching the changes for lines `a` .. `n - 1` is dispatching those for
      lines `a` .. `n - 2` after line `n - 1` has been edited. */
  lemma PrefixChangesLast(lines: seq<string>, a: nat, n: nat, prefix: string, allHave: bool)
    requires a < n <= |lines|
    ensures var edited := EditLine(lines, n - 1, prefix, allHave);
      SameResult(Join(lines), PrefixChanges(lines, a, n, prefix, allHave),
                 Join(edited), PrefixChanges(lines, a, n - 1, prefix, allHave))
  {
    PrefixChangesInside(lines, a, n, prefix, allHave);
    LineChangeApplies(lines, n - 1, prefix, allHave);
    if LineChange(lines, n - 1, prefix, allHave) == [] {
      PrefixChangesUnchanged(lines, a, n, prefix, allHave);
    } else {
      PrefixChangesEdit(lines, a, n, prefix, allHave);
    }
  }

  /** The case of `PrefixChangesLast` where line `n - 1` gets no change. */
  lemma PrefixChangesUnchanged(lines: seq<string>, a: nat, n: nat, prefix: string, allHave: bool)
    requires a < n <= |lines|
    requires LineChange(lines, n - 1, prefix, allHave) == []
    requires ToggledLine(lines[n - 1], prefix, allHave) == lines[n - 1]
    ensures EditLine(lines, n - 1, prefix, allHave) == lines
    ensures PrefixChanges(lines, a, n, prefix, allHave) == PrefixChanges(lines, a, n - 1, prefix, allHave)
  {
    var front := PrefixChanges(lines, a, n - 1, prefix, allHave);
    assert PrefixChanges(lines, a, n, prefix, allHave) == front + [];
  }

  /** The case of `PrefixChangesLast` where line `n - 1` gets a change. */
  lemma PrefixChangesEdit(lines: seq<string>, a: nat, n: nat, prefix: string, allHave: bool)
    requires a < n <= |lines|
    requires Ordered(PrefixChanges(lines, a, n, prefix, allHave), |Join(lines)|)
    requires var cs := LineChange(lines, n - 1, prefix, allHave);
      |cs| == 1 && cs[0].from <= cs[0].to <= |Join(lines)|
      && ApplyChange(Join(lines), cs[0]) == Join(EditLine(lines, n - 1, prefix, allHave))
    ensures var edited := EditLine(lines, n - 1, prefix, allHave);
      SameResult(Join(lines), PrefixChanges(lines, a, n, prefix, allHave),
                 Join(edited), PrefixChanges(lines, a, n - 1, prefix, allHave))
  {
    var all := PrefixChanges(lines, a, n, prefix, allHave);
    var front := PrefixChanges(lines, a, n - 1, prefix, allHave);
    var c := LineChange(lines, n - 1, prefix, allHave)[0];
    assert all == front + [c];
    assert all[..|all| - 1] == front;
    ApplyChangesLast(Join(lines), front, c);
  }

  /** Editing line `n - 1` first and then lines `a` .. `n - 2` edits lines
      `a` .. `n - 1`. */
  lemma ToggleRangeLast(lines: seq<string>, a: nat, n: nat, prefix: string, allHave: bool)
    requires a < n <= |lines|
    ensures var edited := EditLine(lines, n - 1, prefix, allHave);
      ToggleRange(edited, a, n - 1, prefix, allHave) == ToggleRange(lines, a, n, prefix, allHave)
  {
  }

  /** Dispatching the changes pushed for lines `a` .. `n - 1` of `lines` edits
      exactly those lines, each as `ToggledLine` says. */
  ghost predicate Dispatches(lines: seq<string>, a: nat, n: nat, prefix: string, allHave: bool)
    requires a <= n <= |lines|
  {
    Ordered(PrefixChanges(lines, a, n, prefix, allHave), |Join(lines)|)
    && ApplyChanges(Join(lines), PrefixChanges(lines, a, n, prefix, allHave))
       == Join(ToggleRange(lines, a, n, prefix, allHave))
  }

  /** The pushed changes, dispatched together, edit exactly lines `a` .. `n - 1`. */
  lemma {:induction false} PrefixChangesApply(lines: seq<string>, a: nat, n: nat, prefix: string, allHave: bool)
    requires a <= n <= |lines|
    ensures Dispatches(lines, a, n, prefix, allHave)
    decreases n - a
  {
    if n > a {
      PrefixChangesApply(EditLine(lines, n - 1, prefix, allHave), a, n - 1, prefix, allHave);
      PrefixChangesStep(lines, a, n, prefix, allHave);
    } else {
      ToggleRangeEmpty(lines, a, prefix, allHave);
    }
  }

  /** The step of `PrefixChangesApply`: given the claim for lines `a` .. `n - 2`
      of the document with line `n - 1` already edited, it holds for `a` .. `n - 1`. */
  lemma PrefixChangesStep(lines: seq<string>, a: nat, n: nat, prefix: string, allHave: bool)
    requires a < n <= |lines|
    requires Dispatches(EditLine(lines, n - 1, prefix, allHave), a, n - 1, prefix, allHave)
    ensures Dispatches(lines, a, n, prefix, allHave)
  {
    var edited := EditLine(lines, n - 1, prefix, allHave);
    PrefixChangesReduce(lines, a, n, prefix, allHave);
    ToggleRangeLast(lines, a, n, prefix, allHave);
    SameResultThen(Join(lines), PrefixChanges(lines, a, n, prefix, allHave),
                   Join(edited), PrefixChanges(edited, a, n - 1, prefix, allHave),
                   Join(ToggleRange(lines, a, n, prefix, allHave)));
  }

  /** When two dispatches give the same text, what one gives the other gives. */
  lemma SameResultThen(doc: string, cs: seq<Change>, otherDoc: string, other: seq<Change>, result: string)
    requires SameResult(doc, cs, otherDoc, other) && ApplyChanges(otherDoc, other) == result
    ensures Ordered(cs, |doc|) && ApplyChanges(doc, cs) == result
  {
  }

  /** Dispatching the changes for lines `a` .. `n - 1` reduces to dispatching,
      in the document with line `n - 1` already edited, the changes computed
      there for lines `a` .. `n - 2`. */
  lemma PrefixChangesReduce(lines: seq<string>, a: nat, n: nat, prefix: string, allHave: bool)
    requires a < n <= |lines|
    ensures var edited := EditLine(lines, n - 1, prefix, allHave);
      SameResult(Join(lines), PrefixChanges(lines, a, n, prefix, allHave),
                 Join(edited), PrefixChanges(edited, a, n - 1, prefix, allHave))
  {
    var k := n - 1;
    var edited := EditLine(lines, k, prefix, allHave);
    PrefixChangesLast(lines, a, n, prefix, allHave);
    assert edited[..k] == lines[..k];
    PrefixChangesFrame(lines, edited, a, k, prefix, allHave);
    assert PrefixChanges(lines, a, k, prefix, allHave) == PrefixChanges(edited, a, k, prefix, allHave);
  }

  /** Toggling no lines changes nothing. */
  lemma ToggleRangeEmpty(lines: seq<string>, a: nat, prefix: string, allHave: bool)
    ensures ToggleRange(lines, a, a, prefix, allHave) == lines
  {
  }

  /** The lines the toggle produces, compared with the lines before it: the
      number of lines is kept, lines outside `a` .. `b` are untouched, and inside
      it one prefix is removed from every line when all of them had it, else
      one is added to every line, including those that already had it. */
  lemma ToggledLinesSpec(lines: seq<string>, a: nat, b: nat, prefix: string)
    requires a <= b < |lines|
    ensures var r := ToggledLines(lines, a, b, prefix);
      |r| == |lines|
      && (forall i :: 0 <= i < |lines| && !(a <= i <= b) ==> r[i] == lines[i])
      && (AllHave(lines, a, b, prefix) ==> forall i :: a <= i <= b ==> prefix + r[i] == lines[i])
      && (!AllHave(lines, a, b, prefix) ==> forall i :: a <= i <= b ==> r[i] == prefix + lines[i])
  {
    var r := ToggledLines(lines, a, b, prefix);
    if AllHave(lines, a, b, prefix) {
      forall i | a <= i <= b ensures prefix + r[i] == lines[i] {
        assert lines[i][..|prefix|] == prefix;
        assert lines[i] == lines[i][..|prefix|] + lines[i][|prefix|..];
      }
    }
  }

  /** Toggling twice restores the lines when some line lacked the prefix: the
      first toggle adds it everywhere, the second removes it everywhere. */
  lemma ToggledLinesTwice(lines: seq<string>, a: nat, b: nat, prefix: string)
    requires a <= b < |lines| && !AllHave(lines, a, b, prefix)
    ensures ToggledLines(ToggledLines(lines, a, b, prefix), a, b, prefix) == lines
  {
    var once := ToggledLines(lines, a, b, prefix);
    forall i | a <= i <= b ensures StartsWith(once[i], prefix) && once[i][|prefix|..] == lines[i] {
      assert once[i] == prefix + lines[i];
    }
    assert AllHave(once, a, b, prefix);
  }

  /** Toggling twice also restores the lines when all of them had the prefix,
      provided removing it once leaves some line without it. */
  lemma ToggledLinesBack(lines: seq<string>, a: nat, b: nat, prefix: string)
    requires a <= b < |lines| && AllHave(lines, a, b, prefix)
    requires !AllHave(ToggledLines(lines, a, b, prefix), a, b, prefix)
    ensures ToggledLines(ToggledLines(lines, a, b, prefix), a, b, prefix) == lines
  {
    var once := ToggledLines(lines, a, b, prefix);
    forall i | a <= i <= b ensures prefix + once[i] == lines[i] {
      assert StartsWith(lines[i], prefix);
      assert once[i] == lines[i][|prefix|..];
    }
  }

  /** With a prefix free of line breaks, the toggled document splits into exactly
      the toggled lines: the document keeps its number of lines. */
  lemma ToggledDocumentLines(doc: string, a: nat, b: nat, prefix: string)
    requires NoNewline(prefix) && a <= b < |Split(doc)|
    ensures Split(Join(ToggledLines(Split(doc), a, b, prefix))) == ToggledLines(Split(doc), a, b, prefix)
  {
    var lines := Split(doc);
    var r := ToggledLines(lines, a, b, prefix);
    SplitSpec(doc);
    forall i | 0 <= i < |r| ensures NoNewline(r[i]) {
      var line := lines[i];
      assert NoNewline(line);
      if a <= i <= b && AllHave(lines, a, b, prefix) && StartsWith(line, prefix) {
        assert forall c :: c in line[|prefix|..] ==> c in line;
      }
    }
    SplitJoin(r);
  }

  /** The first loop of `togglePrefixLine`: whether every selected line starts
      with the prefix. */
  method EveryLineHas(lines: seq<string>, a: nat, b: nat, prefix: string) returns (allHave: bool)
    requires a <= b < |lines|
    ensures allHave == AllHave(lines, a, b, prefix)
  {
    allHave := true;
    var ln := a;
    while ln <= b
      invariant a <= ln <= b + 1
      invariant allHave == forall i :: a <= i < ln ==> StartsWith(lines[i], prefix)
    {
      if !StartsWith(lines[ln], prefix) {
        allHave := false;
      }
      ln := ln + 1;
    }
  }

  /** The second loop of `togglePrefixLine`: the changes to dispatch, one per
      line that is edited, in line order. */
  method CollectPrefixChanges(lines: seq<string>, a: nat, b: nat, prefix: string, allHave: bool)
    returns (ranges: seq<Change>)
    requires a <= b < |lines|
    ensures ranges == PrefixChanges(lines, a, b + 1, prefix, allHave)
  {
    ranges := [];
    var ln := a;
    while ln <= b
      invariant a <= ln <= b + 1
      invariant ranges == PrefixChanges(lines, a, ln, prefix, allHave)
    {
      var from := LineStart(lines, ln);
      if allHave {
        if StartsWith(lines[ln], prefix) {
          ranges := ranges + [Change(from, from + |prefix|, "")];
        }
      } else {
        ranges := ranges + [Change(from, from, prefix)];
      }
      ln := ln + 1;
    }
  }

  /** The changes the two loops compute, dispatched together, give the document
      whose lines are the toggled lines. */
  lemma TogglePrefixChanges(lines: seq<string>, a: nat, b: nat, prefix: string)
    requires a <= b < |lines|
    ensures var cs := PrefixChanges(lines, a, b + 1, prefix, AllHave(lines, a, b, prefix));
      Ordered(cs, |Join(lines)|)
      && ApplyChanges(Join(lines), cs) == Join(ToggledLines(lines, a, b, prefix))
  {
    PrefixChangesApply(lines, a, b + 1, prefix, AllHave(lines, a, b, prefix));
  }

  // ---------------------------------------------------------------------------
  // Replacers: what `replaceSelection` puts in place of the selected text
  // ---------------------------------------------------------------------------

  /** A replacer's answer: the text to insert and, optionally, where the new
      selection starts and ends, counted from the start of the inserted text. */
  datatype Replacement = Replacement(text: string, selectionFrom: Option<nat>, selectionTo: Option<nat>) {
    /** The new selection's start: `selectionFrom`, else the end of the text. */
    function Anchor(): nat {
      selectionFrom.GetOr(|text|)
    }

    /** The new selection's end: `selectionTo`, else the start. */
    function Head(): nat {
      if selectionTo.Some? then selectionTo.value else Anchor()
    }

    /** The new selection lies inside the inserted text, in order. */
    predicate SelectsInside() {
      Anchor() <= Head() <= |text|
    }

    /** Both ends of the new selection lie inside the inserted text. */
    predicate Fits() {
      Anchor() <= |text| && Head() <= |text|
    }

    /** The part of the inserted text that ends up selected. */
    function NewSelection(): string
      requires SelectsInside()
    {
      text[Anchor()..Head()]
    }
  }

  /** `s` is already wrapped: it starts with `left`, ends with `right` and is
      long enough to hold both. */
  predicate Wrapped(s: string, left: string, right: string) {
    StartsWith(s, left) && EndsWith(s, right) && |s| >= |left| + |right|
  }

  /** `toggleInline`'s replacer: unwrap a wrapped selection and select what was
      inside; otherwise wrap it and select the original text. */
  function ToggleInlineReplacer(left: string, right: string, s: string): (r: Replacement)
    ensures r.Fits()
  {
    if Wrapped(s, left, right) then
      var inner := s[|left|..|s| - |right|];
      Replacement(inner, Some(0), Some(|inner|))
    else
      Replacement(left + s + right, Some(|left|), Some(|left| + |s|))
  }

  /** Unwrapping: the text is what lay between the markers, and all of it is
      selected. */
  lemma ToggleInlineUnwraps(left: string, right: string, s: string)
    requires Wrapped(s, left, right)
    ensures var r := ToggleInlineReplacer(left, right, s);
      r.SelectsInside() && left + r.text + right == s && r.NewSelection() == r.text
  {
    var r := ToggleInlineReplacer(left, right, s);
    assert s[..|left|] == left;
    assert s[|s| - |right|..] == right;
    assert s == s[..|left|] + r.text + s[|s| - |right|..];
  }

  /** Wrapping: the text is the selection between the markers, and exactly the
      original selection is selected. */
  lemma ToggleInlineWraps(left: string, right: string, s: string)
    requires !Wrapped(s, left, right)
    ensures var r := ToggleInlineReplacer(left, right, s);
      r.SelectsInside() && r.text == left + s + right && r.NewSelection() == s
  {
    var r := ToggleInlineReplacer(left, right, s);
    assert r.text[|left|..|left| + |s|] == s;
  }

  /** Wrapping and then toggling the wrapped text unwraps it again. */
  lemma ToggleInlineRoundTrip(left: string, right: string, s: string)
    requires !Wrapped(s, left, right)
    ensures ToggleInlineReplacer(left, right, ToggleInlineReplacer(left, right, s).text).text == s
  {
    var w := left + s + right;
    assert w[..|left|] == left;
    assert w[|w| - |right|..] == right;
    assert w[|left|..|w| - |right|] == s;
  }

  /** Unwrapping and then toggling the result wraps it back, unless what was
      inside is itself wrapped. */
  lemma ToggleInlineUnwrapRoundTrip(left: string, right: string, s: string)
    requires Wrapped(s, left, right)
    requires !Wrapped(s[|left|..|s| - |right|], left, right)
    ensures ToggleInlineReplacer(left, right, ToggleInlineReplacer(left, right, s).text).text == s
  {
    ToggleInlineUnwraps(left, right, s);
  }

  /** After wrapping, the selection is the original text without the markers,
      so toggling again wraps it a second time rather than unwrapping. */
  lemma ToggleInlineWrapsAgain(left: string, right: string, s: string)
    requires !Wrapped(s, left, right)
    ensures var r := ToggleInlineReplacer(left, right, s);
      ToggleInlineReplacer(left, right, r.NewSelection()) == r
  {
    ToggleInlineWraps(left, right, s);
  }

  /** `insertCodeBlock`'s replacer: a fenced block around the selection, or
      around "codigo" when nothing is selected. */
  function CodeBlockReplacer(s: string): (r: Replacement)
    ensures r.Fits()
  {
    var text := if s == "" then "codigo" else s;
    Replacement("```\n" + text + "\n```\n", Some(4), Some(4 + |text|))
  }

  /** `insertBlockMath`'s replacer: a `$$` block around the selection, or around
      "E = mc^2" when nothing is selected. */
  function BlockMathReplacer(s: string): (r: Replacement)
    ensures r.Fits()
  {
    var text := if s == "" then "E = mc^2" else s;
    Replacement("$$\n" + text + "\n$$\n", Some(3), Some(3 + |text|))
  }

  /** `insertLink`'s replacer: a Markdown link to `url` whose text is the
      selection, or "enlace" when nothing is selected. */
  function LinkReplacer(url: string, s: string): (r: Replacement)
    ensures r.Fits()
  {
    var text := if s == "" then "enlace" else s;
    Replacement("[" + text + "](" + url + ")", Some(1), Some(1 + |text|))
  }

  /** `insertHr`'s replacer: a thematic break between blank lines, with the
      cursor after it. */
  function HrReplacer(s: string): (r: Replacement)
    ensures r.Fits()
  {
    Replacement("\n\n---\n\n", None, None)
  }

  /** `insertImage`'s replacer: an image with the given source and alternative
      text in place of the selection, the cursor after it. */
  function ImageReplacer(src: string, alt: string, s: string): (r: Replacement)
    ensures r.Fits()
  {
    Replacement("![" + alt + "](" + src + ")", None, None)
  }

  /** The three block and link replacers wrap a body (the selection, or the
      placeholder when it is empty) between fixed text, and select the body. */
  lemma SurroundSelects(open: string, body: string, close: string)
    ensures var r := Replacement(open + body + close, Some(|open|), Some(|open| + |body|));
      r.SelectsInside() && r.NewSelection() == body
  {
    assert (open + body + close)[|open|..|open| + |body|] == body;
  }

  /** `insertCodeBlock` fences the selection (or "codigo") and selects it. */
  lemma CodeBlockSelectsBody(s: string)
    ensures var body := if s == "" then "codigo" else s;
      var r := CodeBlockReplacer(s);
      r.text == "```\n" + body + "\n```\n" && r.SelectsInside() && r.NewSelection() == body
  {
    SurroundSelects("```\n", if s == "" then "codigo" else s, "\n```\n");
  }

  /** `insertBlockMath` puts the selection (or "E = mc^2") between `$$` lines
      and selects it. */
  lemma BlockMathSelectsBody(s: string)
    ensures var body := if s == "" then "E = mc^2" else s;
      var r := BlockMathReplacer(s);
      r.text == "$$\n" + body + "\n$$\n" && r.SelectsInside() && r.NewSelection() == body
  {
    SurroundSelects("$$\n", if s == "" then "E = mc^2" else s, "\n$$\n");
  }

  /** `insertLink` makes the selection (or "enlace") the link text and selects it. */
  lemma LinkSelectsBody(url: string, s: string)
    ensures var body := if s == "" then "enlace" else s;
      var r := LinkReplacer(url, s);
      r.text == "[" + body + "](" + url + ")" && r.SelectsInside() && r.NewSelection() == body
  {
    var body := if s == "" then "enlace" else s;
    SurroundSelects("[", body, "](" + url + ")");
    assert "[" + body + ("](" + url + ")") == "[" + body + "](" + url + ")";
  }

  /** The whole inserted text, placed between `pre` and `post`, carries the
      selection at the same offsets counted from the end of `pre`. */
  lemma SpliceSelects(pre: string, r: Replacement, post: string)
    requires r.SelectsInside()
    ensures (pre + r.text + post)[|pre| + r.Anchor()..|pre| + r.Head()] == r.NewSelection()
  {
    var doc := pre + r.text + post;
    assert doc[|pre|..|pre| + |r.text|] == r.text;
    assert doc[|pre| + r.Anchor()..|pre| + r.Head()] == doc[|pre|..|pre| + |r.text|][r.Anchor()..r.Head()];
  }

  // ---------------------------------------------------------------------------
  // Headings: the `^(#{1,6}\s+)` marker that `setHeading` replaces
  // ---------------------------------------------------------------------------

  /** `level` hash signs. */
  function Hashes(level: nat): (r: string)
    ensures |r| == level && forall k :: 0 <= k < level ==> r[k] == '#'
  {
    if level == 0 then "" else Hashes(level - 1) + "#"
  }

  /** The marker `setHeading` writes: `level` hash signs and one space. */
  function HeadingPrefix(level: nat): string {
    Hashes(level) + " "
  }

  /** The index of the first character at or after `i` that is not '#'. */
  function HashRun(s: string, i: nat): (r: nat)
    requires i <= |s|
    ensures i <= r <= |s|
    ensures forall k :: i <= k < r ==> s[k] == '#'
    ensures r == |s| || s[r] != '#'
    decreases |s| - i
  {
    if i < |s| && s[i] == '#' then HashRun(s, i + 1) else i
  }

  /** `^(#{1,6}\s+)` matches the first `m` characters of `s`, taking `h` hash
      signs: one to six '#', then at least one whitespace character. */
  ghost predicate IsMarker(s: string, h: nat, m: nat) {
    1 <= h <= 6 && h < m <= |s|
    && (forall k :: 0 <= k < h ==> s[k] == '#')
    && (forall k :: h <= k < m ==> IsWhitespace(s[k]))
  }

  /** The length of the `^(#{1,6}\s+)` match at the start of a line, 0 when
      the line has none. */
  function HeadingMarker(s: string): (m: nat)
    ensures m <= |s|
  {
    var h := HashRun(s, 0);
    if 1 <= h <= 6 && h < |s| && IsWhitespace(s[h]) then SkipWhitespace(s, h) else 0
  }

  /** The marker found is a match of the expression and, `\s+` being greedy, is
      followed by no more whitespace; a line without a marker has no match at
      all. */
  lemma HeadingMarkerSpec(s: string)
    ensures var m := HeadingMarker(s);
      (m > 0 ==> IsMarker(s, HashRun(s, 0), m) && (m == |s| || !IsWhitespace(s[m])))
      && (m == 0 ==> forall h: nat, n: nat :: !IsMarker(s, h, n))
  {
    if HeadingMarker(s) == 0 {
      forall h: nat, n: nat | IsMarker(s, h, n)
        ensures false
      {
        HashRunIs(s, h);
      }
    }
  }

  /** When the line starts with exactly `h` hash signs, `HashRun` finds `h`. */
  lemma HashRunIs(s: string, h: nat)
    requires h < |s| && s[h] != '#'
    requires forall k :: 0 <= k < h ==> s[k] == '#'
    ensures HashRun(s, 0) == h
  {
  }

  /** The heading line `setHeading` produces: its marker in place of the old
      one, the text after the old marker kept. */
  function HeadingLine(line: string, level: nat): string {
    HeadingPrefix(level) + line[HeadingMarker(line)..]
  }

  /** A written heading has exactly the new marker when what follows it does
      not start with whitespace, and keeps that text. */
  lemma HeadingLineMarker(rest: string, level: nat)
    requires 1 <= level <= 6
    requires rest == [] || !IsWhitespace(rest[0])
    ensures var line := HeadingPrefix(level) + rest;
      HeadingMarker(line) == level + 1 && line[level + 1..] == rest
  {
    var line := HeadingPrefix(level) + rest;
    assert |HeadingPrefix(level)| == level + 1;
    assert line[level + 1..] == rest;
    HashRunIs(line, level);
  }

  /** What `setHeading` keeps of a line after its marker never starts with
      whitespace, unless the line had no marker and starts with whitespace. */
  predicate KeepsText(line: string) {
    HeadingMarker(line) > 0 || line == [] || !IsWhitespace(line[0])
  }

  /** Setting a heading on a line that already has one replaces the marker:
      the last level chosen wins and the heading text is unchanged. */
  lemma HeadingLineLastWins(line: string, first: nat, second: nat)
    requires 1 <= first <= 6 && 1 <= second <= 6
    requires KeepsText(line)
    ensures HeadingLine(HeadingLine(line, first), second) == HeadingLine(line, second)
  {
    var m := HeadingMarker(line);
    HeadingMarkerSpec(line);
    HeadingLineMarker(line[m..], first);
  }

  /** Every line `setHeading` writes has a marker, so it can be set again. */
  lemma HeadingLineKeepsText(line: string, level: nat)
    requires 1 <= level <= 6
    ensures KeepsText(HeadingLine(line, level))
  {
    HashRunIs(HeadingLine(line, level), level);
  }

  /** A line that starts with whitespace but has no marker gets the marker in
      front of its whitespace, which the next `setHeading` then swallows: the
      command is not idempotent on it. */
  lemma HeadingLineNotIdempotent()
    ensures HeadingLine("  x", 1) == "#   x"
    ensures HeadingLine(HeadingLine("  x", 1), 1) == "# x"
  {
    assert HashRun("  x", 0) == 0;
    HashRunIs("#   x", 1);
    assert SkipWhitespace("#   x", 1) == 4;
  }

  /** Replacing line `k` of a document by its heading keeps the line
      structure: the new document splits into the old lines with line `k`
      replaced. */
  lemma HeadingDocumentLines(doc: string, k: nat, level: nat)
    requires k < |Split(doc)|
    ensures var lines := Split(doc);
      Split(Join(lines[k := HeadingLine(lines[k], level)])) == lines[k := HeadingLine(lines[k], level)]
  {
    var lines := Split(doc);
    var r := lines[k := HeadingLine(lines[k], level)];
    SplitSpec(doc);
    var m := HeadingMarker(lines[k]);
    assert forall c :: c in lines[k][m..] ==> c in lines[k];
    assert NoNewline(HeadingPrefix(level));
    SplitJoin(r);
  }

  // ---------------------------------------------------------------------------
  // The editor view and its commands
  // ---------------------------------------------------------------------------

  /** The document a new editor starts with. */
  const StartDoc: string := "# Nuevo documento\n\nEscribe Markdown aquí."

  /** The CodeMirror view as the commands see it: the document text and the main
      selection, from `anchor` (where it started) to `head` (where it ends);
      either end may come first. */
  class Editor {
    var doc: string
    var anchor: nat
    var head: nat

    /** The selection lies inside the document. */
    ghost predicate Valid()
      reads this
    {
      anchor <= |doc| && head <= |doc|
    }

    /** `selection.main.from`: the lower end of the selection. */
    function From(): nat
      reads this
    {
      if anchor <= head then anchor else head
    }

    /** `selection.main.to`: the upper end of the selection. */
    function To(): nat
      reads this
    {
      if anchor <= head then head else anchor
    }

    /** The selected text. */
    function Selected(): string
      reads this
      requires Valid()
    {
      doc[From()..To()]
    }

    /** `setupEditor`: the start document with the cursor at its beginning. */
    constructor ()
      ensures Valid() && doc == StartDoc && anchor == 0 && head == 0
    {
      doc := StartDoc;
      anchor := 0;
      head := 0;
    }

    /** `view.dispatch({ changes })`: all the changes, given in the coordinates
        of the current document, applied together. */
    method Dispatch(cs: seq<Change>)
      requires Valid() && Ordered(cs, |doc|)
      modifies this
      ensures Valid() && doc == ApplyChanges(old(doc), cs)
    {
      doc := ApplyChanges(doc, cs);
      if anchor > |doc| {
        anchor := |doc|;
      }
      if head > |doc| {
        head := |doc|;
      }
    }

    /** `replaceSelection`: the selected text goes to the replacer, its answer
        takes the selection's place, and the new selection is placed at the
        replacer's offsets from the start of the old selection (the end of the
        inserted text when it gives none). */
    method ReplaceSelection(replacer: string -> Replacement)
      requires Valid() && replacer(Selected()).Fits()
      modifies this
      ensures var r := replacer(old(Selected()));
        doc == ApplyChange(old(doc), Change(old(From()), old(To()), r.text))
        && anchor == old(From()) + r.Anchor() && head == old(From()) + r.Head()
      ensures Valid()
      ensures var r := replacer(old(Selected()));
        r.SelectsInside() ==> Selected() == r.NewSelection()
    {
      var from, to := From(), To();
      var r := replacer(doc[from..to]);
      if r.SelectsInside() {
        SpliceSelects(doc[..from], r, doc[to..]);
      }
      doc := doc[..from] + r.text + doc[to..];
      anchor := from + r.Anchor();
      head := from + r.Head();
    }

    /** `toggleInline`: unwrap a selection already wrapped in the markers,
        otherwise wrap it; the text inside the markers ends up selected. */
    method ToggleInline(left: string, right: string)
      requires Valid()
      modifies this
      ensures var r := ToggleInlineReplacer(left, right, old(Selected()));
        doc == ApplyChange(old(doc), Change(old(From()), old(To()), r.text))
        && Valid() && r.SelectsInside() && Selected() == r.NewSelection()
      ensures var s := old(Selected());
        Wrapped(s, left, right) ==> anchor == old(From()) && head == anchor + |s| - |left| - |right|
      ensures var s := old(Selected());
        !Wrapped(s, left, right) ==> anchor == old(From()) + |left| && head == anchor + |s|
    {
      var s := Selected();
      if Wrapped(s, left, right) {
        ToggleInlineUnwraps(left, right, s);
      } else {
        ToggleInlineWraps(left, right, s);
      }
      ReplaceSelection(t => ToggleInlineReplacer(left, right, t));
    }

    /** `formatBold`: toggle `**` around the selection. */
    method FormatBold()
      requires Valid()
      modifies this
      ensures var r := ToggleInlineReplacer("**", "**", old(Selected()));
        doc == ApplyChange(old(doc), Change(old(From()), old(To()), r.text))
        && Valid() && Selected() == r.NewSelection()
      ensures var s := old(Selected());
        Wrapped(s, "**", "**") ==> anchor == old(From()) && head == anchor + |s| - 4
      ensures var s := old(Selected());
        !Wrapped(s, "**", "**") ==> anchor == old(From()) + 2 && head == anchor + |s|
    {
      ToggleInline("**", "**");
    }

    /** `formatItalic`: toggle `*` around the selection. */
    method FormatItalic()
      requires Valid()
      modifies this
      ensures var r := ToggleInlineReplacer("*", "*", old(Selected()));
        doc == ApplyChange(old(doc), Change(old(From()), old(To()), r.text))
        && Valid() && Selected() == r.NewSelection()
      ensures var s := old(Selected());
        Wrapped(s, "*", "*") ==> anchor == old(From()) && head == anchor + |s| - 2
      ensures var s := old(Selected());
        !Wrapped(s, "*", "*") ==> anchor == old(From()) + 1 && head == anchor + |s|
    {
      ToggleInline("*", "*");
    }

    /** `formatCodeInline`: toggle a backtick around the selection. */
    method FormatCodeInline()
      requires Valid()
      modifies this
      ensures var r := ToggleInlineReplacer("`", "`", old(Selected()));
        doc == ApplyChange(old(doc), Change(old(From()), old(To()), r.text))
        && Valid() && Selected() == r.NewSelection()
      ensures var s := old(Selected());
        Wrapped(s, "`", "`") ==> anchor == old(From()) && head == anchor + |s| - 2
      ensures var s := old(Selected());
        !Wrapped(s, "`", "`") ==> anchor == old(From()) + 1 && head == anchor + |s|
    {
      ToggleInline("`", "`");
    }

    /** `formatInlineMath` as written: toggle `\(` and `\)` around the
        selection, delimiters the math rules do not recognise. */
    method FormatInlineMath()
      requires Valid()
      modifies this
      ensures var r := ToggleInlineReplacer("\\(", "\\)", old(Selected()));
        doc == ApplyChange(old(doc), Change(old(From()), old(To()), r.text))
        && Valid() && Selected() == r.NewSelection()
      ensures var s := old(Selected());
        Wrapped(s, "\\(", "\\)") ==> anchor == old(From()) && head == anchor + |s| - 4
      ensures var s := old(Selected());
        !Wrapped(s, "\\(", "\\)") ==> anchor == old(From()) + 2 && head == anchor + |s|
    {
      ToggleInline("\\(", "\\)");
    }

    /** `formatInlineMath` with the delimiters the inline math rule reads:
        toggle `$` around the selection. */
    method FormatInlineMathDollar()
      requires Valid()
      modifies this
      ensures var r := ToggleInlineReplacer("$", "$", old(Selected()));
        doc == ApplyChange(old(doc), Change(old(From()), old(To()), r.text))
        && Valid() && Selected() == r.NewSelection()
      ensures var s := old(Selected());
        Wrapped(s, "$", "$") ==> anchor == old(From()) && head == anchor + |s| - 2
      ensures var s := old(Selected());
        !Wrapped(s, "$", "$") ==> anchor == old(From()) + 1 && head == anchor + |s|
    {
      ToggleInline("$", "$");
    }

    /** `insertCodeBlock`: fence the selection (or a placeholder) and select
        the fenced text. */
    method InsertCodeBlock()
      requires Valid()
      modifies this
      ensures var r := CodeBlockReplacer(old(Selected()));
        doc == ApplyChange(old(doc), Change(old(From()), old(To()), r.text))
        && Valid() && Selected() == (if old(Selected()) == "" then "codigo" else old(Selected()))
        && anchor == old(From()) + 4 && head == anchor + |Selected()|
    {
      CodeBlockSelectsBody(Selected());
      ReplaceSelection(CodeBlockReplacer);
    }

    /** `insertBlockMath`: put the selection (or a placeholder) between `$$`
        lines and select it. */
    method InsertBlockMath()
      requires Valid()
      modifies this
      ensures var r := BlockMathReplacer(old(Selected()));
        doc == ApplyChange(old(doc), Change(old(From()), old(To()), r.text))
        && Valid() && Selected() == (if old(Selected()) == "" then "E = mc^2" else old(Selected()))
        && anchor == old(From()) + 3 && head == anchor + |Selected()|
    {
      BlockMathSelectsBody(Selected());
      ReplaceSelection(BlockMathReplacer);
    }

    /** `insertLink` with the URL the user typed (the empty string when the
        prompt was cancelled): nothing happens without a URL; otherwise the
        selection (or a placeholder) becomes the link text and stays selected. */
    method InsertLink(url: string)
      requires Valid()
      modifies this
      ensures url == "" ==> doc == old(doc) && anchor == old(anchor) && head == old(head)
      ensures url != "" ==> var r := LinkReplacer(url, old(Selected()));
        doc == ApplyChange(old(doc), Change(old(From()), old(To()), r.text))
        && Valid() && Selected() == (if old(Selected()) == "" then "enlace" else old(Selected()))
        && anchor == old(From()) + 1 && head == anchor + |Selected()|
    {
      if url == "" {
        return;
      }
      LinkSelectsBody(url, Selected());
      ReplaceSelection(s => LinkReplacer(url, s));
    }

    /** `insertImage` with the source and alternative text the user gave (the
        empty string for a cancelled prompt): nothing happens without a source;
        otherwise the image replaces the selection and the cursor goes after it. */
    method InsertImage(src: string, alt: string)
      requires Valid()
      modifies this
      ensures src == "" ==> doc == old(doc) && anchor == old(anchor) && head == old(head)
      ensures src != "" ==> var image := "![" + alt + "](" + src + ")";
        doc == ApplyChange(old(doc), Change(old(From()), old(To()), image))
        && Valid() && anchor == head == old(From()) + |image|
    {
      if src == "" {
        return;
      }
      ReplaceSelection(s => ImageReplacer(src, alt, s));
    }

    /** `insertHr`: replace the selection by a thematic break and put the
        cursor after it. */
    method InsertHr()
      requires Valid()
      modifies this
      ensures doc == ApplyChange(old(doc), Change(old(From()), old(To()), "\n\n---\n\n"))
      ensures Valid() && anchor == head == old(From()) + 7
    {
      ReplaceSelection(HrReplacer);
    }

    /** `togglePrefixLine`: on every line from the one holding the selection's
        start to the one holding its end, remove `prefix` when all of them
        start with it, otherwise add it in front of each. */
    method TogglePrefixLine(prefix: string)
      requires Valid()
      modifies this
      ensures Valid()
      ensures var lines := Split(old(doc));
        var a := LineAt(old(doc), old(From()));
        var b := LineAt(old(doc), old(To()));
        a <= b && doc == Join(ToggledLines(lines, a, b, prefix))
        && (NoNewline(prefix) ==> Split(doc) == ToggledLines(lines, a, b, prefix))
    {
      var lines := Split(doc);
      var a := LineAt(doc, From());
      var b := LineAt(doc, To());
      LineAtMonotone(doc, From(), To());
      var allHave := EveryLineHas(lines, a, b, prefix);
      var ranges := CollectPrefixChanges(lines, a, b, prefix, allHave);
      TogglePrefixChanges(lines, a, b, prefix);
      JoinSplit(doc);
      if NoNewline(prefix) {
        ToggledDocumentLines(doc, a, b, prefix);
      }
      Dispatch(ranges);
    }

    /** `toggleBulletList`: toggle "- " on the selected lines. */
    method ToggleBulletList()
      requires Valid()
      modifies this
      ensures Valid()
      ensures var lines := Split(old(doc));
        var a := LineAt(old(doc), old(From()));
        var b := LineAt(old(doc), old(To()));
        a <= b && Split(doc) == ToggledLines(lines, a, b, "- ")
    {
      TogglePrefixLine("- ");
    }

    /** `toggleOrderedList`: toggle "1. " on the selected lines. */
    method ToggleOrderedList()
      requires Valid()
      modifies this
      ensures Valid()
      ensures var lines := Split(old(doc));
        var a := LineAt(old(doc), old(From()));
        var b := LineAt(old(doc), old(To()));
        a <= b && Split(doc) == ToggledLines(lines, a, b, "1. ")
    {
      TogglePrefixLine("1. ");
    }

    /** `toggleTaskList`: toggle "- [ ] " on the selected lines. */
    method ToggleTaskList()
      requires Valid()
      modifies this
      ensures Valid()
      ensures var lines := Split(old(doc));
        var a := LineAt(old(doc), old(From()));
        var b := LineAt(old(doc), old(To()));
        a <= b && Split(doc) == ToggledLines(lines, a, b, "- [ ] ")
    {
      TogglePrefixLine("- [ ] ");
    }

    /** `toggleQuote`: toggle "> " on the selected lines. */
    method ToggleQuote()
      requires Valid()
      modifies this
      ensures Valid()
      ensures var lines := Split(old(doc));
        var a := LineAt(old(doc), old(From()));
        var b := LineAt(old(doc), old(To()));
        a <= b && Split(doc) == ToggledLines(lines, a, b, "> ")
    {
      TogglePrefixLine("> ");
    }

    /** `setHeading`: on the line holding the selection's start, replace the
        heading marker (or nothing, when there is none) by `level` hash signs
        and a space. */
    method SetHeading(level: nat)
      requires 1 <= level <= 6 && Valid()
      modifies this
      ensures Valid()
      ensures var lines := Split(old(doc));
        var k := LineAt(old(doc), old(From()));
        doc == Join(lines[k := HeadingLine(lines[k], level)])
        && Split(doc) == lines[k := HeadingLine(lines[k], level)]
    {
      var lines := Split(doc);
      var k := LineAt(doc, From());
      var from := LineStart(lines, k);
      var to := from + HeadingMarker(lines[k]);
      ChangeAtLineStart(lines, k, HeadingMarker(lines[k]), HeadingPrefix(level));
      JoinSplit(doc);
      HeadingDocumentLines(doc, k, level);
      Dispatch([Change(from, to, HeadingPrefix(level))]);
    }
  }
}
