/** How the generated summary is shown (app.py:110-112): the text is split at
    every `\n`, each line is stripped, blank lines are skipped, and every other
    line becomes one Markdown bullet `- <stripped line>`. */
module Bullets {
  import opened Text

  /** `f"- {line.strip()}"` (app.py:112). */
  function Bullet(line: string): string {
    "- " + Strip(line)
  }

  /** What one line contributes: its bullet, or nothing when it is blank. */
  function LineBullets(line: string): seq<string> {
    if NonBlank(line) then [Bullet(line)] else []
  }

  /** The bullets for `lines`, in order (app.py:110-112). */
  function BulletsOf(lines: seq<string>): seq<string>
    decreases |lines|
  {
    if |lines| == 0 then []
    else LineBullets(lines[0]) + BulletsOf(lines[1..])
  }

  /** The bullets rendered for a summary. */
  function Render(summary: string): seq<string> {
    BulletsOf(Split(summary, '\n'))
  }

  /** The positions of the non-blank lines of `lines` at or after `from`, in
      increasing order. */
  function NonBlankFrom(lines: seq<string>, from: nat): (idx: seq<nat>)
    requires from <= |lines|
    ensures forall k :: 0 <= k < |idx| ==> from <= idx[k] < |lines|
    decreases |lines| - from
  {
    if from == |lines| then []
    else if NonBlank(lines[from]) then [from] + NonBlankFrom(lines, from + 1)
    else NonBlankFrom(lines, from + 1)
  }

  /** Every position `NonBlankFrom` lists holds a non-blank line. */
  lemma {:induction false} NonBlankFromSound(lines: seq<string>, from: nat)
    requires from <= |lines|
    ensures forall k :: 0 <= k < |NonBlankFrom(lines, from)| ==> NonBlank(lines[NonBlankFrom(lines, from)[k]])
    decreases |lines| - from
  {
    if from < |lines| {
      NonBlankFromSound(lines, from + 1);
    }
  }

  /** The positions come in strictly increasing order, so none is repeated. */
  lemma {:induction false} NonBlankFromIncreasing(lines: seq<string>, from: nat)
    requires from <= |lines|
    ensures forall j, k :: 0 <= j < k < |NonBlankFrom(lines, from)| ==>
      NonBlankFrom(lines, from)[j] < NonBlankFrom(lines, from)[k]
    decreases |lines| - from
  {
    if from < |lines| {
      NonBlankFromIncreasing(lines, from + 1);
    }
  }

  /** Every non-blank position at or after `from` is listed. */
  lemma {:induction false} NonBlankFromComplete(lines: seq<string>, from: nat)
    requires from <= |lines|
    ensures forall i :: from <= i < |lines| && NonBlank(lines[i]) ==> i in NonBlankFrom(lines, from)
    decreases |lines| - from
  {
    if from < |lines| {
      NonBlankFromComplete(lines, from + 1);
      var rest := NonBlankFrom(lines, from + 1);
      if NonBlank(lines[from]) {
        var idx := [from] + rest;
        assert NonBlankFrom(lines, from) == idx;
        forall i | from <= i < |lines| && NonBlank(lines[i]) ensures i in idx {
          assert i == from || i in rest;
        }
      }
    }
  }

  /** The rendering is exactly "one bullet per non-blank line, in line order":
      bullet `k` is `- ` and the stripped text of the `k`-th non-blank line, and
      no blank line yields a bullet. */
  lemma {:induction false} BulletsOfSelectsNonBlank(lines: seq<string>, from: nat)
    requires from <= |lines|
    ensures var idx := NonBlankFrom(lines, from);
      var bullets := BulletsOf(lines[from..]);
      && |bullets| == |idx|
      && forall k :: 0 <= k < |idx| ==> bullets[k] == Bullet(lines[idx[k]])
    decreases |lines| - from
  {
    if from < |lines| {
      BulletsOfSelectsNonBlank(lines, from + 1);
      var line := lines[from];
      var rest := NonBlankFrom(lines, from + 1);
      var br := BulletsOf(lines[from + 1..]);
      BulletsOfSuffix(lines, from);
      if NonBlank(line) {
        assert NonBlankFrom(lines, from) == [from] + rest;
        SelectCons(lines, from, rest, br);
      } else {
        assert NonBlankFrom(lines, from) == rest;
        assert BulletsOf(lines[from..]) == br;
      }
    } else {
      assert NonBlankFrom(lines, from) == [];
    }
  }

  lemma SelectCons(lines: seq<string>, from: nat, rest: seq<nat>, br: seq<string>)
    requires from < |lines|
    requires forall k :: 0 <= k < |rest| ==> rest[k] < |lines|
    requires |br| == |rest| && forall k :: 0 <= k < |rest| ==> br[k] == Bullet(lines[rest[k]])
    ensures var idx, bullets := [from] + rest, [Bullet(lines[from])] + br;
      |bullets| == |idx| && forall k :: 0 <= k < |idx| ==> bullets[k] == Bullet(lines[idx[k]])
  {
    var idx, bullets := [from] + rest, [Bullet(lines[from])] + br;
    forall k | 0 <= k < |idx| ensures bullets[k] == Bullet(lines[idx[k]]) {
      if k > 0 {
        assert bullets[k] == br[k - 1];
        assert idx[k] == rest[k - 1];
      }
    }
  }

  lemma BulletsOfSuffix(lines: seq<string>, from: nat)
    requires from < |lines|
    ensures BulletsOf(lines[from..]) == LineBullets(lines[from]) + BulletsOf(lines[from + 1..])
  {
    assert lines[from..] == [lines[from]] + lines[from + 1..];
    BulletsOfCons(lines[from], lines[from + 1..]);
  }

  lemma RenderSelectsNonBlank(summary: string)
    ensures var lines := Split(summary, '\n');
      var idx := NonBlankFrom(lines, 0);
      && |Render(summary)| == |idx|
      && forall k :: 0 <= k < |idx| ==> Render(summary)[k] == Bullet(lines[idx[k]])
  {
    var lines := Split(summary, '\n');
    BulletsOfSelectsNonBlank(lines, 0);
    assert lines[0..] == lines;
  }

  /** Every bullet is `- ` followed by a non-empty text without whitespace at
      either end and without a line break. */
  lemma {:induction false} BulletsWellFormed(lines: seq<string>)
    requires forall k :: 0 <= k < |lines| ==> '\n' !in lines[k]
    ensures forall k :: 0 <= k < |BulletsOf(lines)| ==>
      var b := BulletsOf(lines)[k];
      && |b| > 2 && b[..2] == "- " && Stripped(b[2..]) && '\n' !in b[2..]
    decreases |lines|
  {
    if |lines| > 0 {
      BulletsWellFormed(lines[1..]);
      var line := lines[0];
      StripIsInfix(line);
      var t := Strip(line);
      var o := StripOffset(line);
      forall i | 0 <= i < |t| ensures t[i] != '\n' {
        assert t[i] == line[o + i];
      }
      assert Bullet(line)[2..] == t;
    }
  }

  lemma RenderWellFormed(summary: string)
    ensures forall k :: 0 <= k < |Render(summary)| ==>
      var b := Render(summary)[k];
      && |b| > 2 && b[..2] == "- " && Stripped(b[2..]) && '\n' !in b[2..]
  {
    SplitSpec(summary, '\n');
    BulletsWellFormed(Split(summary, '\n'));
  }

  lemma {:induction false} BulletsOfConcat(a: seq<string>, b: seq<string>)
    ensures BulletsOf(a + b) == BulletsOf(a) + BulletsOf(b)
    decreases |a|
  {
    if |a| == 0 {
      assert a + b == b;
    } else {
      var line, a' := a[0], a[1..];
      BulletsOfConcat(a', b);
      assert a == [line] + a';
      ConcatAssoc([line], a', b);
      BulletsOfCons(line, a');
      BulletsOfCons(line, a' + b);
      var h, x, y := LineBullets(line), BulletsOf(a'), BulletsOf(b);
      assert BulletsOf(a + b) == h + (x + y);
      assert BulletsOf(a) == h + x;
      ConcatAssoc(h, x, y);
    }
  }

  lemma BulletsOfCons(line: string, rest: seq<string>)
    ensures BulletsOf([line] + rest) == LineBullets(line) + BulletsOf(rest)
  {
    assert ([line] + rest)[1..] == rest;
  }

  /** Rendering works line by line: the bullets of two texts joined by a line
      break are the bullets of the first followed by those of the second. */
  lemma RenderConcat(x: string, y: string)
    ensures Render(x + "\n" + y) == Render(x) + Render(y)
  {
    SplitConcat(x, y, '\n');
    assert x + "\n" + y == x + ['\n'] + y;
    BulletsOfConcat(Split(x, '\n'), Split(y, '\n'));
  }

  /** A summary yields no bullet exactly when it is all whitespace. */
  lemma {:induction false} RenderEmptyIffBlank(summary: string)
    ensures Render(summary) == [] <==> AllSpace(summary)
    decreases |summary|
  {
    if '\n' !in summary {
      SplitSpec(summary, '\n');
      assert Split(summary, '\n') == [summary];
      assert BulletsOf([summary]) == LineBullets(summary) + BulletsOf([]);
      StripFixpoint(summary);
    } else {
      var i :| 0 <= i < |summary| && summary[i] == '\n';
      var x, y := summary[..i], summary[i + 1..];
      assert summary == x + "\n" + y;
      RenderConcat(x, y);
      RenderEmptyIffBlank(x);
      RenderEmptyIffBlank(y);
      AllSpaceConcat(x, y);
    }
  }

  lemma AllSpaceConcat(x: string, y: string)
    ensures AllSpace(x + "\n" + y) <==> AllSpace(x) && AllSpace(y)
  {
    var s := x + "\n" + y;
    assert IsSpace('\n');
    if AllSpace(x) && AllSpace(y) {
      forall i | 0 <= i < |s| ensures IsSpace(s[i]) {
        if i < |x| { assert s[i] == x[i]; }
        else if i > |x| { assert s[i] == y[i - |x| - 1]; }
      }
    }
    if AllSpace(s) {
      forall i | 0 <= i < |x| ensures IsSpace(x[i]) { assert s[i] == x[i]; }
      forall i | 0 <= i < |y| ensures IsSpace(y[i]) { assert s[|x| + 1 + i] == y[i]; }
    }
  }

  /** Whitespace after a summary adds no bullet and changes none. */
  lemma {:induction false} RenderAppendSpace(y: string, w: string)
    requires AllSpace(w)
    ensures Render(y + w) == Render(y)
    decreases |y| + |w|
  {
    if '\n' in w {
      var i :| 0 <= i < |w| && w[i] == '\n';
      var w1, w2 := w[..i], w[i + 1..];
      AllSpaceSlice(w, 0, i);
      AllSpaceSlice(w, i + 1, |w|);
      assert w[0..i] == w1 && w[i + 1..|w|] == w2;
      assert y + w == (y + w1) + "\n" + w2;
      RenderConcat(y + w1, w2);
      RenderEmptyIffBlank(w2);
      RenderAppendSpace(y, w1);
      assert Render(y + w1) + [] == Render(y + w1);
    } else if '\n' in y {
      var i :| 0 <= i < |y| && y[i] == '\n';
      var y1, y2 := y[..i], y[i + 1..];
      assert y == y1 + "\n" + y2;
      assert y + w == y1 + "\n" + (y2 + w);
      RenderConcat(y1, y2);
      RenderConcat(y1, y2 + w);
      RenderAppendSpace(y2, w);
    } else {
      SingleLine(y + w);
      SingleLine(y);
      StripTrailingSpace(y, w);
    }
  }

  /** Whitespace before a summary adds no bullet and changes none. */
  lemma {:induction false} RenderPrependSpace(w: string, y: string)
    requires AllSpace(w)
    ensures Render(w + y) == Render(y)
    decreases |w| + |y|
  {
    if '\n' in w {
      var i :| 0 <= i < |w| && w[i] == '\n';
      var w1, w2 := w[..i], w[i + 1..];
      AllSpaceSlice(w, 0, i);
      AllSpaceSlice(w, i + 1, |w|);
      assert w[0..i] == w1 && w[i + 1..|w|] == w2;
      assert w + y == w1 + "\n" + (w2 + y);
      RenderConcat(w1, w2 + y);
      RenderEmptyIffBlank(w1);
      RenderPrependSpace(w2, y);
      assert [] + Render(w2 + y) == Render(w2 + y);
    } else if '\n' in y {
      var i :| 0 <= i < |y| && y[i] == '\n';
      var y1, y2 := y[..i], y[i + 1..];
      assert y == y1 + "\n" + y2;
      assert w + y == (w + y1) + "\n" + y2;
      RenderConcat(y1, y2);
      RenderConcat(w + y1, y2);
      RenderPrependSpace(w, y1);
    } else {
      SingleLine(w + y);
      SingleLine(y);
      StripLeadingSpace(w, y);
    }
  }

  /** A summary without line breaks is one line. */
  lemma SingleLine(s: string)
    requires '\n' !in s
    ensures Render(s) == LineBullets(s)
  {
    SplitSpec(s, '\n');
    assert BulletsOf([s]) == LineBullets(s) + BulletsOf([]);
  }

  /** Stripping a summary before rendering it changes no bullet: the bullets
      depend only on the lines between the first and the last non-whitespace
      character. */
  lemma RenderIgnoresEdgeSpace(s: string)
    ensures Render(Strip(s)) == Render(s)
  {
    StripIsInfix(s);
    var o, r := StripOffset(s), Strip(s);
    var a, b := s[..o], s[o + |r|..];
    assert s == a + (r + b);
    RenderPrependSpace(a, r + b);
    RenderAppendSpace(r, b);
  }
}
