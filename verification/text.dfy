/** Python string primitives that the application relies on, as pure functions
    over `string` (a sequence of Unicode scalar values):
    - `str.strip()` with no argument (removal of the maximal leading and
      trailing runs of whitespace),
    - `str.split(sep)` for a one-character separator, together with its inverse,
      `sep.join(parts)`,
    - formatting a non-negative integer in decimal, as an f-string does, together
      with the inverse parse. */
module Text {

  /** The characters for which Python's `str.isspace()` holds; these are exactly
      the characters `str.strip()` removes when called without an argument. */
  predicate IsSpace(c: char) {
    var n := c as int;
    || (9 <= n <= 13)          // \t \n \v \f \r
    || (28 <= n <= 32)         // the four information separators and ' '
    || n == 0x85 || n == 0xA0 || n == 0x1680
    || (0x2000 <= n <= 0x200A)
    || n == 0x2028 || n == 0x2029 || n == 0x202F || n == 0x205F || n == 0x3000
  }

  predicate AllSpace(s: string) {
    forall i :: 0 <= i < |s| ==> IsSpace(s[i])
  }

  /** Neither the first nor the last character of `s` is whitespace. */
  predicate Stripped(s: string) {
    s == [] || (!IsSpace(s[0]) && !IsSpace(s[|s| - 1]))
  }

  /** `s.lstrip()`: drops leading whitespace. */
  function LStrip(s: string): (r: string)
    ensures |r| <= |s|
    decreases |s|
  {
    if |s| > 0 && IsSpace(s[0]) then LStrip(s[1..]) else s
  }

  /** `s.rstrip()`: drops trailing whitespace. */
  function RStrip(s: string): (r: string)
    ensures |r| <= |s|
    decreases |s|
  {
    if |s| > 0 && IsSpace(s[|s| - 1]) then RStrip(s[..|s| - 1]) else s
  }

  /** `LStrip` leaves the suffix after the maximal whitespace prefix: what it
      drops is whitespace, and what it keeps does not start with whitespace. */
  lemma {:induction false} LStripSpec(s: string)
    ensures var r := LStrip(s);
      && r == s[|s| - |r|..]
      && AllSpace(s[..|s| - |r|])
      && (r == [] || !IsSpace(r[0]))
    decreases |s|
  {
    if |s| > 0 && IsSpace(s[0]) {
      var t := s[1..];
      LStripSpec(t);
      var r := LStrip(t);
      assert s[|s| - |r|..] == t[|t| - |r|..];
      var d := s[..|s| - |r|];
      forall i | 0 <= i < |d| ensures IsSpace(d[i]) {
        if i > 0 { assert d[i] == t[..|t| - |r|][i - 1]; }
      }
    } else {
      assert s[..0] == [];
    }
  }

  /** `RStrip` leaves the prefix before the maximal whitespace suffix. */
  lemma {:induction false} RStripSpec(s: string)
    ensures var r := RStrip(s);
      && r == s[..|r|]
      && AllSpace(s[|r|..])
      && (r == [] || !IsSpace(r[|r| - 1]))
    decreases |s|
  {
    if |s| > 0 && IsSpace(s[|s| - 1]) {
      var t := s[..|s| - 1];
      RStripSpec(t);
      var r := RStrip(t);
      assert s[..|r|] == t[..|r|];
      var d := s[|r|..];
      forall i | 0 <= i < |d| ensures IsSpace(d[i]) {
        if i < |d| - 1 { assert d[i] == t[|r|..][i]; }
      }
    } else {
      assert s[|s|..] == [];
    }
  }

  /** `s.strip()`: the maximal whitespace prefix and suffix removed. */
  function Strip(s: string): (r: string)
    ensures |r| <= |s|
    ensures Stripped(r)
  {
    var l := LStrip(s);
    LStripSpec(s);
    RStripSpec(l);
    RStrip(l)
  }

  /** `s.strip()` is truthy: `s` holds a non-whitespace character. */
  predicate NonBlank(s: string) {
    Strip(s) != ""
  }

  /** How many leading characters `Strip` drops. */
  function StripOffset(s: string): (n: nat)
    ensures n <= |s|
  {
    |s| - |LStrip(s)|
  }

  /** `Strip(s)` is the infix of `s` that starts at `StripOffset(s)`, and all it
      drops on either side is whitespace. With `Stripped(Strip(s))` this pins
      the result down: no longer infix without edge whitespace has only
      whitespace around it. */
  lemma StripIsInfix(s: string)
    ensures StripOffset(s) + |Strip(s)| <= |s|
    ensures Strip(s) == s[StripOffset(s)..StripOffset(s) + |Strip(s)|]
    ensures AllSpace(s[..StripOffset(s)])
    ensures AllSpace(s[StripOffset(s) + |Strip(s)|..])
  {
    var l := LStrip(s);
    LStripSpec(s);
    RStripSpec(l);
    var r := RStrip(l);
    var o := StripOffset(s);
    assert r == Strip(s) && o == |s| - |l|;
    InfixOfSuffix(s, o, |r|);
  }

  lemma InfixOfSuffix(s: string, o: nat, n: nat)
    requires o + n <= |s|
    ensures s[o..][..n] == s[o..o + n]
    ensures s[o..][n..] == s[o + n..]
  {
  }

  lemma {:induction false} LStripAllSpace(s: string)
    requires AllSpace(s)
    ensures LStrip(s) == []
    decreases |s|
  {
    if |s| > 0 {
      assert IsSpace(s[0]);
      assert AllSpace(s[1..]) by {
        forall i | 0 <= i < |s[1..]| ensures IsSpace(s[1..][i]) { assert s[1..][i] == s[i + 1]; }
      }
      LStripAllSpace(s[1..]);
    }
  }

  /** A string without whitespace at either end is its own strip, so `Strip` is
      idempotent; and `Strip` yields the empty string exactly on all-whitespace
      input. */
  lemma StripFixpoint(s: string)
    ensures Stripped(s) ==> Strip(s) == s
    ensures Strip(s) == [] <==> AllSpace(s)
    ensures Strip(Strip(s)) == Strip(s)
  {
    if Stripped(s) && |s| > 0 {
      assert LStrip(s) == s;
    }
    if AllSpace(s) {
      LStripAllSpace(s);
    }
    if Strip(s) == [] {
      var l := LStrip(s);
      LStripSpec(s);
      RStripSpec(l);
      var o := StripOffset(s);
      assert AllSpace(l) by { assert l[0..] == l; }
      assert l == [];
      assert s[..o] == s;
    }
    var r := Strip(s);
    if |r| > 0 {
      assert LStrip(r) == r;
    }
  }

  /** Removing trailing whitespace does not change the strip of a string. */
  lemma StripTrailingSpace(s: string, w: string)
    requires AllSpace(w)
    ensures Strip(s + w) == Strip(s)
  {
    StripFixpoint(s);
    StripFixpoint(s + w);
    if AllSpace(s) {
      assert AllSpace(s + w) by {
        forall i | 0 <= i < |s + w| ensures IsSpace((s + w)[i]) {
          if i < |s| { assert (s + w)[i] == s[i]; } else { assert (s + w)[i] == w[i - |s|]; }
        }
      }
    } else {
      var i :| 0 <= i < |s| && !IsSpace(s[i]);
      LStripAppend(s, w, i);
      RStripAppendSpace(LStrip(s), w);
    }
  }

  /** Text after a non-whitespace character survives `LStrip` untouched. */
  lemma {:induction false} LStripAppend(s: string, w: string, i: nat)
    requires i < |s| && !IsSpace(s[i])
    ensures LStrip(s + w) == LStrip(s) + w
    decreases |s|
  {
    var sw := s + w;
    assert sw[0] == s[0];
    if IsSpace(s[0]) {
      var t := s[1..];
      assert t[i - 1] == s[i];
      LStripAppend(t, w, i - 1);
      assert sw[1..] == t + w;
    }
  }

  lemma {:induction false} RStripAppendSpace(s: string, w: string)
    requires AllSpace(w)
    ensures RStrip(s + w) == RStrip(s)
    decreases |w|
  {
    if |w| > 0 {
      var s' := s + w[..|w| - 1];
      assert s + w == s' + [w[|w| - 1]];
      assert IsSpace(w[|w| - 1]);
      assert (s + w)[..|s + w| - 1] == s + w[..|w| - 1];
      var w' := w[..|w| - 1];
      assert AllSpace(w') by {
        forall i | 0 <= i < |w'| ensures IsSpace(w'[i]) { assert w'[i] == w[i]; }
      }
      RStripAppendSpace(s, w[..|w| - 1]);
    } else {
      assert s + w == s;
    }
  }

  /** Leading whitespace does not change the strip of a string. */
  lemma StripLeadingSpace(w: string, s: string)
    requires AllSpace(w)
    ensures Strip(w + s) == Strip(s)
  {
    LStripPrefixSpace(w, s);
  }

  lemma {:induction false} LStripPrefixSpace(w: string, s: string)
    requires AllSpace(w)
    ensures LStrip(w + s) == LStrip(s)
    decreases |w|
  {
    if |w| > 0 {
      var w' := w[1..];
      assert (w + s)[0] == w[0] && (w + s)[1..] == w' + s;
      assert AllSpace(w') by {
        forall i | 0 <= i < |w'| ensures IsSpace(w'[i]) { assert w'[i] == w[i + 1]; }
      }
      LStripPrefixSpace(w', s);
    } else {
      assert w + s == s;
    }
  }

  lemma AllSpaceSlice(s: string, i: nat, j: nat)
    requires AllSpace(s) && i <= j <= |s|
    ensures AllSpace(s[i..j])
  {
    forall k | 0 <= k < j - i ensures IsSpace(s[i..j][k]) { assert s[i..j][k] == s[i + k]; }
  }

  /** `sep.join(parts)` for a string separator. */
  function Join(parts: seq<string>, sep: string): string
    decreases |parts|
  {
    if |parts| == 0 then ""
    else if |parts| == 1 then parts[0]
    else parts[0] + sep + Join(parts[1..], sep)
  }

  /** `s.split(sep)` for a one-character separator: every occurrence of `sep`
      separates two pieces, so empty pieces are kept and the result is never
      empty (`"".split(sep) == [""]`). */
  function Split(s: string, sep: char): (parts: seq<string>)
    ensures |parts| >= 1
    decreases |s|
  {
    if |s| == 0 then [""]
    else
      var rest := Split(s[1..], sep);
      if s[0] == sep then [""] + rest
      else [[s[0]] + rest[0]] + rest[1..]
  }

  /** No piece of a split holds the separator; without a separator the input
      is its own single piece, and with one there are at least two pieces. */
  lemma {:induction false} SplitSpec(s: string, sep: char)
    ensures forall k :: 0 <= k < |Split(s, sep)| ==> sep !in Split(s, sep)[k]
    ensures sep !in s ==> Split(s, sep) == [s]
    ensures sep in s ==> |Split(s, sep)| >= 2
    decreases |s|
  {
    if |s| > 0 {
      var rest := Split(s[1..], sep);
      SplitSpec(s[1..], sep);
      assert s == [s[0]] + s[1..];
      if s[0] != sep {
        var parts := Split(s, sep);
        assert parts[0] == [s[0]] + rest[0];
        forall k | 0 <= k < |parts| ensures sep !in parts[k] {
          if k > 0 { assert parts[k] == rest[k]; }
        }
        if sep in s {
          assert sep in s[1..];
        }
      }
    }
  }

  /** Joining the pieces of a split with the separator gives back the input. */
  lemma {:induction false} JoinSplit(s: string, sep: char)
    ensures Join(Split(s, sep), [sep]) == s
    decreases |s|
  {
    if |s| > 0 {
      var rest := Split(s[1..], sep);
      JoinSplit(s[1..], sep);
      if s[0] == sep {
        assert Split(s, sep) == [""] + rest;
        assert ([""] + rest)[1..] == rest;
      } else {
        var parts := Split(s, sep);
        assert parts == [[s[0]] + rest[0]] + rest[1..];
        if |rest| == 1 {
          assert parts == [[s[0]] + rest[0]];
        } else {
          assert parts[1..] == rest[1..];
          assert Join(rest, [sep]) == rest[0] + [sep] + Join(rest[1..], [sep]);
        }
      }
      assert s == [s[0]] + s[1..];
    }
  }

  /** Splitting a separator-free join recovers the pieces: together with
      `JoinSplit` this makes `Split` a bijection between strings and non-empty
      sequences of separator-free pieces. */
  lemma {:induction false} SplitJoin(parts: seq<string>, sep: char)
    requires |parts| >= 1
    requires forall k :: 0 <= k < |parts| ==> sep !in parts[k]
    ensures Split(Join(parts, [sep]), sep) == parts
    decreases |parts|, |parts[0]|
  {
    var head := parts[0];
    if |parts| == 1 {
      assert Join(parts, [sep]) == head;
      SplitSpec(head, sep);
    } else {
      var tail := parts[1..];
      var s := Join(parts, [sep]);
      assert s == head + [sep] + Join(tail, [sep]);
      if |head| == 0 {
        assert s == [sep] + Join(tail, [sep]);
        assert s[1..] == Join(tail, [sep]);
        SplitJoin(tail, sep);
        assert [""] + tail == parts;
      } else {
        var parts' := [head[1..]] + tail;
        assert parts'[1..] == tail;
        assert Join(parts', [sep]) == head[1..] + [sep] + Join(tail, [sep]);
        assert s[1..] == Join(parts', [sep]);
        assert sep !in head;
        assert head == [head[0]] + head[1..];
        SplitJoin(parts', sep);
        assert [[head[0]] + head[1..]] + tail == parts;
      }
    }
  }

  /** A separator splits a string into the pieces before it followed by the
      pieces after it. */
  lemma {:induction false} SplitConcat(x: string, y: string, sep: char)
    ensures Split(x + [sep] + y, sep) == Split(x, sep) + Split(y, sep)
    decreases |x|
  {
    var py := Split(y, sep);
    if |x| == 0 {
      assert x + [sep] + y == [sep] + y;
      SplitCons(sep, y, sep);
    } else {
      var c, x' := x[0], x[1..];
      var t := x' + [sep] + y;
      assert x == [c] + x';
      assert x + [sep] + y == [c] + t;
      SplitConcat(x', y, sep);
      var px := Split(x', sep);
      assert Split(t, sep) == px + py;
      SplitCons(c, t, sep);
      SplitCons(c, x', sep);
      if c == sep {
        assert Split([c] + t, sep) == [""] + (px + py);
        assert Split(x, sep) == [""] + px;
        ConcatAssoc([""], px, py);
      } else {
        assert Split([c] + t, sep) == [[c] + (px + py)[0]] + (px + py)[1..];
        assert Split(x, sep) == [[c] + px[0]] + px[1..];
        PrependToFirst([c], px, py);
      }
    }
  }

  lemma ConcatAssoc<T>(h: seq<T>, x: seq<T>, y: seq<T>)
    ensures h + (x + y) == (h + x) + y
  {
  }

  /** One step of `Split` from the front. */
  lemma SplitCons(c: char, t: string, sep: char)
    ensures Split([c] + t, sep) ==
      if c == sep then [""] + Split(t, sep)
      else [[c] + Split(t, sep)[0]] + Split(t, sep)[1..]
  {
    assert ([c] + t)[1..] == t;
  }

  lemma PrependToFirst(c: string, xs: seq<string>, ys: seq<string>)
    requires |xs| >= 1
    ensures [c + (xs + ys)[0]] + (xs + ys)[1..] == ([c + xs[0]] + xs[1..]) + ys
  {
    assert (xs + ys)[1..] == xs[1..] + ys;
  }

  function Last<T>(xs: seq<T>): T
    requires |xs| > 0
  {
    xs[|xs| - 1]
  }

  /** `s.split(sep)[-1]`: the text after the last `sep`, or all of `s` when it
      holds no `sep`. */
  function AfterLast(s: string, sep: char): (r: string)
    ensures sep !in r
    ensures sep !in s ==> r == s
    ensures sep in s ==> |r| < |s| && s[|s| - |r| - 1] == sep && r == s[|s| - |r|..]
  {
    var parts := Split(s, sep);
    JoinSplit(s, sep);
    SplitSpec(s, sep);
    if sep in s then
      JoinLast(parts, [sep]);
      Last(parts)
    else
      Last(parts)
  }

  /** A join of two or more pieces ends with the separator and the last piece. */
  lemma {:induction false} JoinLast(parts: seq<string>, sep: string)
    requires |parts| >= 2
    ensures Join(parts, sep) == Join(parts[..|parts| - 1], sep) + sep + Last(parts)
    decreases |parts|
  {
    if |parts| > 2 {
      JoinLast(parts[1..], sep);
      assert parts[1..][..|parts| - 2] == parts[..|parts| - 1][1..];
    }
  }

  /** The ASCII digit for `d`. */
  function Digit(d: nat): (c: char)
    requires d < 10
    ensures '0' <= c <= '9'
  {
    ['0', '1', '2', '3', '4', '5', '6', '7', '8', '9'][d]
  }

  /** The value of an ASCII digit. */
  function DigitValue(c: char): (d: nat)
    requires '0' <= c <= '9'
    ensures d < 10
  {
    (c as int) - ('0' as int)
  }

  /** `f"{n}"` for a non-negative integer: decimal digits, no sign, no leading
      zero except for `0` itself. */
  function Decimal(n: nat): (s: string)
    ensures |s| >= 1
    ensures forall i :: 0 <= i < |s| ==> '0' <= s[i] <= '9'
    ensures |s| > 1 ==> s[0] != '0'
    decreases n
  {
    if n < 10 then [Digit(n)] else Decimal(n / 10) + [Digit(n % 10)]
  }

  /** Reads a string of ASCII digits as a decimal number. */
  function ParseDecimal(s: string): nat
    requires forall i :: 0 <= i < |s| ==> '0' <= s[i] <= '9'
    decreases |s|
  {
    if |s| == 0 then 0 else 10 * ParseDecimal(s[..|s| - 1]) + DigitValue(s[|s| - 1])
  }

  /** Parsing undoes formatting, so distinct numbers format to distinct strings. */
  lemma {:induction false} ParseDecimalOfDecimal(n: nat)
    ensures ParseDecimal(Decimal(n)) == n
    decreases n
  {
    var s := Decimal(n);
    if n < 10 {
      DigitRoundTrip(n);
    } else {
      var q, r := n / 10, n % 10;
      ParseDecimalOfDecimal(q);
      DigitRoundTrip(r);
      assert s == Decimal(q) + [Digit(r)];
      assert s[..|s| - 1] == Decimal(q);
      assert n == 10 * q + r;
    }
  }

  lemma DigitRoundTrip(d: nat)
    requires d < 10
    ensures DigitValue(Digit(d)) == d
  {
  }

  lemma DecimalInjective(a: nat, b: nat)
    ensures Decimal(a) == Decimal(b) <==> a == b
  {
    if Decimal(a) == Decimal(b) {
      ParseDecimalOfDecimal(a);
      ParseDecimalOfDecimal(b);
    }
  }
}
