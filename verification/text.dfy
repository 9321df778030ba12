/** String primitives shared by the hosts-file engine: Python's ASCII character
    classes, greedy regex runs, `str.strip`, `str.split`, `str.startswith` and
    line splitting as done by iterating over a text file. */
module Text {

  /** Python's whitespace restricted to ASCII: `\t \n \v \f \r`, the four
      separators `\x1c`..`\x1f`, and the space (what `str.isspace`,
      `str.strip`, `str.split` and the regex class `\s` agree on). */
  predicate IsSpace(c: char) {
    c == ' ' || ('\t' <= c <= '\r') || ('\U{1C}' <= c <= '\U{1F}')
  }

  predicate NotSpace(c: char) { !IsSpace(c) }

  predicate IsDigit(c: char) { '0' <= c <= '9' }

  predicate IsLetter(c: char) { ('a' <= c <= 'z') || ('A' <= c <= 'Z') }

  /** The regex class `\w`, restricted to ASCII. */
  predicate IsWordChar(c: char) { IsLetter(c) || IsDigit(c) || c == '_' }

  /** The regex class `[\w.-]` used for host names. */
  predicate IsHostChar(c: char) { IsWordChar(c) || c == '.' || c == '-' }

  predicate IsHash(c: char) { c == '#' }

  predicate NotNewline(c: char) { c != '\n' }

  predicate All(s: string, p: char -> bool) {
    forall k | 0 <= k < |s| :: p(s[k])
  }

  /** `s.startswith(p)` */
  predicate StartsWith(s: string, p: string) {
    |p| <= |s| && s[..|p|] == p
  }

  /** `s.endswith(p)` */
  predicate EndsWith(s: string, p: string) {
    |p| <= |s| && s[|s| - |p|..] == p
  }

  /** A suffix that lies within the second part survives replacing the first. */
  lemma EndsWithRebase(x: string, x': string, y: string, p: string)
    requires EndsWith(x + y, p) && |p| <= |y|
    ensures EndsWith(x' + y, p)
  {
    assert (x + y)[|x + y| - |p|..] == y[|y| - |p|..];
    assert (x' + y)[|x' + y| - |p|..] == y[|y| - |p|..];
  }

  /** The host-name spelling with the `www.` prefix. */
  predicate StartsWww(h: string) { StartsWith(h, "www.") }

  /** No line break inside: such a string written out stays on one line. */
  predicate NoNewline(s: string) { All(s, NotNewline) }

  function Spaces(n: nat): (r: string)
    ensures |r| == n && All(r, IsSpace)
  {
    seq(n, _ => ' ')
  }

  /** Length of the longest run of characters satisfying `p` that starts at
      position `i`: what a greedy regex quantifier consumes there. */
  function Run(s: string, i: nat, p: char -> bool): (n: nat)
    requires i <= |s|
    ensures i + n <= |s|
    ensures forall k | i <= k < i + n :: p(s[k])
    ensures i + n == |s| || !p(s[i + n])
    decreases |s| - i
  {
    if i == |s| || !p(s[i]) then 0 else 1 + Run(s, i + 1, p)
  }

  /** A maximal run is unique: any run that cannot be extended is the one `Run` finds. */
  lemma RunIs(s: string, i: nat, n: nat, p: char -> bool)
    requires i + n <= |s|
    requires forall k | i <= k < i + n :: p(s[k])
    requires i + n == |s| || !p(s[i + n])
    ensures Run(s, i, p) == n
  {
  }

  lemma AllSlice(s: string, i: nat, j: nat, p: char -> bool)
    requires i <= j <= |s|
    requires forall k | i <= k < j :: p(s[k])
    ensures All(s[i..j], p)
  {
    forall k | 0 <= k < j - i ensures p(s[i..j][k]) {
      assert s[i..j][k] == s[i + k];
    }
  }

  /** Number of whitespace characters at the end of `s`. */
  function TrailingSpaces(s: string): (n: nat)
    ensures n <= |s|
    ensures forall k | |s| - n <= k < |s| :: IsSpace(s[k])
    ensures n == |s| || !IsSpace(s[|s| - n - 1])
  {
    if |s| == 0 || !IsSpace(s[|s| - 1]) then 0 else 1 + TrailingSpaces(s[..|s| - 1])
  }

  lemma TrailingSpacesIs(s: string, n: nat)
    requires n <= |s|
    requires forall k | |s| - n <= k < |s| :: IsSpace(s[k])
    requires n == |s| || !IsSpace(s[|s| - n - 1])
    ensures TrailingSpaces(s) == n
  {
  }

  /** `s` is `r` surrounded by whitespace, the part before `r` being `a` characters long. */
  predicate Surrounds(s: string, r: string, a: nat) {
    a + |r| <= |s| && s[a..a + |r|] == r && All(s[..a], IsSpace) && All(s[a + |r|..], IsSpace)
  }

  /** `s.strip()` */
  function Strip(s: string): (r: string)
    ensures r == "" || (NotSpace(r[0]) && NotSpace(r[|r| - 1]))
    ensures exists a: nat :: Surrounds(s, r, a)
  {
    var a := Run(s, 0, IsSpace);
    var t := s[a..];
    var r := t[..|t| - TrailingSpaces(t)];
    assert Surrounds(s, r, a) by {
      assert s[a..a + |r|] == r;
      assert s[a + |r|..] == t[|r|..];
    }
    r
  }

  /** The stripped form is determined by any whitespace-wrapped core whose ends are not whitespace. */
  lemma StripIs(s: string, r: string, a: nat)
    requires Surrounds(s, r, a)
    requires r == "" || (NotSpace(r[0]) && NotSpace(r[|r| - 1]))
    ensures Strip(s) == r
  {
    if r == "" {
      RunIs(s, 0, |s|, IsSpace);
      assert Strip(s) == "";
    } else {
      RunIs(s, 0, a, IsSpace);
      var t := s[a..];
      assert t == r + s[a + |r|..];
      TrailingSpacesIs(t, |t| - |r|);
      assert t[..|r|] == r;
    }
  }

  lemma StripSpaces(s: string)
    requires All(s, IsSpace)
    ensures Strip(s) == ""
  {
    StripIs(s, "", |s|);
  }

  /** Stripping a string that has non-space ends followed by whitespace drops the whitespace. */
  lemma StripTrailing(x: string, w: string)
    requires |x| > 0 && NotSpace(x[0]) && NotSpace(x[|x| - 1])
    requires All(w, IsSpace)
    ensures Strip(x + w) == x
  {
    var s := x + w;
    assert s[..0] == "";
    assert s[0..|x|] == x;
    assert s[|x|..] == w;
    StripIs(s, x, 0);
  }

  /** A trailing newline is whitespace, so `strip` drops it. */
  lemma StripNewline(s: string)
    ensures Strip(s + "\n") == Strip(s)
  {
    var r := Strip(s);
    var a: nat :| Surrounds(s, r, a);
    var t := s + "\n";
    assert t[a..a + |r|] == s[a..a + |r|];
    assert t[..a] == s[..a];
    assert t[a + |r|..] == s[a + |r|..] + "\n";
    StripIs(t, r, a);
  }

  /** Host names hold no whitespace. */
  lemma HostCharsNotSpace(s: string)
    requires All(s, IsHostChar)
    ensures All(s, NotSpace)
  {
  }

  /** Concatenating a line in front of others. */
  lemma ConcatCons(y: string, t: seq<string>)
    ensures Concat([y] + t) == y + Concat(t)
  {
    assert ([y] + t)[0] == y && ([y] + t)[1..] == t;
  }

  /** Taking the first element off a concatenation. */
  lemma ConsConcat<T>(b: seq<T>, c: seq<T>)
    requires |b| > 0
    ensures b + c == [b[0]] + (b[1..] + c)
  {
  }

  lemma ConcatAssoc<T>(x: seq<T>, y: seq<T>, z: seq<T>)
    ensures x + y + z == x + (y + z)
  {
  }

  /** A sequence of two or more is its first element, the middle, its last element. */
  lemma SplitEnds<T>(a: seq<T>)
    requires |a| >= 2
    ensures a == [a[0]] + a[1..|a| - 1] + [a[|a| - 1]]
  {
  }

  lemma Regroup<T>(l: seq<T>, h: T, r: seq<T>, f: T)
    ensures l + ([h] + r + [f]) == l + [h] + r + [f] + []
  {
  }

  lemma ConcatAssoc6<T>(p: seq<T>, q1: seq<T>, q2: seq<T>, q3: seq<T>, q4: seq<T>, q5: seq<T>)
    ensures p + q1 + q2 + q3 + q4 + q5 == p + (q1 + q2 + q3 + q4 + q5)
  {
  }

  /** The five parts of a file around a marked region, regrouped from the right. */
  lemma RegionConcat<T>(a: seq<T>, h: T, b: seq<T>, f: T, c: seq<T>)
    ensures a + [h] + b + [f] + c == a + ([h] + (b + ([f] + c)))
  {
  }

  /** Concatenation of a sequence of strings (`''.join(ls)`). */
  function Concat(ls: seq<string>): string {
    if |ls| == 0 then "" else ls[0] + Concat(ls[1..])
  }

  lemma ConcatAppend(xs: seq<string>, ys: seq<string>)
    ensures Concat(xs + ys) == Concat(xs) + Concat(ys)
  {
    if |xs| > 0 {
      assert (xs + ys)[1..] == xs[1..] + ys;
      ConcatAppend(xs[1..], ys);
    } else {
      assert xs + ys == ys;
    }
  }

  /** `sep.join(xs)` */
  function Join(sep: string, xs: seq<string>): string {
    if |xs| == 0 then "" else if |xs| == 1 then xs[0] else xs[0] + sep + Join(sep, xs[1..])
  }

  lemma JoinCons(sep: string, x: string, ys: seq<string>)
    requires |ys| > 0
    ensures Join(sep, [x] + ys) == x + sep + Join(sep, ys)
  {
    assert ([x] + ys)[1..] == ys;
  }

  lemma {:induction false} JoinSnoc(xs: seq<string>, t: string)
    requires |xs| > 0
    ensures Join(" ", xs + [t]) == Join(" ", xs) + " " + t
  {
    if |xs| == 1 {
      assert xs + [t] == [xs[0]] + [t];
      JoinCons(" ", xs[0], [t]);
    } else {
      assert xs + [t] == [xs[0]] + (xs[1..] + [t]);
      JoinCons(" ", xs[0], xs[1..] + [t]);
      JoinSnoc(xs[1..], t);
      JoinCons(" ", xs[0], xs[1..]);
      assert [xs[0]] + xs[1..] == xs;
    }
  }
  // ---------------------------------------------------------------------------
  // Lines of a text file
  // ---------------------------------------------------------------------------

  /** A physical line: non-empty, with a newline at most as its last character. */
  predicate IsLine(l: string) {
    |l| > 0 && forall k | 0 <= k < |l| - 1 :: l[k] != '\n'
  }

  predicate EndsWithNewline(l: string) {
    |l| > 0 && l[|l| - 1] == '\n'
  }

  /** A sequence of physical lines in which only the last may lack its newline:
      exactly the shape of a text file read line by line. */
  predicate WellSplit(ls: seq<string>) {
    && (forall i | 0 <= i < |ls| :: IsLine(ls[i]))
    && (forall i | 0 <= i < |ls| - 1 :: EndsWithNewline(ls[i]))
  }

  /** Length of the first line of `s`, its newline included. */
  function FirstLineLength(s: string): (n: nat)
    requires |s| > 0
    ensures 0 < n <= |s|
    ensures forall k | 0 <= k < n - 1 :: s[k] != '\n'
    ensures n == |s| || s[n - 1] == '\n'
  {
    var m := Run(s, 0, NotNewline);
    if m < |s| then m + 1 else m
  }

  lemma FirstLineLengthIs(s: string, n: nat)
    requires 0 < n <= |s|
    requires forall k | 0 <= k < n - 1 :: s[k] != '\n'
    requires s[n - 1] == '\n' || n == |s|
    ensures FirstLineLength(s) == n
  {
    if s[n - 1] == '\n' {
      RunIs(s, 0, n - 1, NotNewline);
    } else {
      RunIs(s, 0, n, NotNewline);
    }
  }

  /** The lines produced by iterating over a file whose content is `s`
      (Python `for line in f` / `f.readlines()`): each keeps its `"\n"`, and a
      final fragment without one is a line of its own. */
  function SplitLines(s: string): (ls: seq<string>)
    ensures Concat(ls) == s
    ensures WellSplit(ls)
    decreases |s|
  {
    if |s| == 0 then []
    else
      var n := FirstLineLength(s);
      var rest := SplitLines(s[n..]);
      assert ([s[..n]] + rest)[1..] == rest;
      assert s == s[..n] + s[n..];
      [s[..n]] + rest
  }

  /** Writing well-split lines out and reading them back gives the same lines. */
  lemma {:induction false} SplitConcat(ls: seq<string>)
    requires WellSplit(ls)
    ensures SplitLines(Concat(ls)) == ls
  {
    if |ls| > 0 {
      var s := Concat(ls);
      var l := ls[0];
      assert WellSplit(ls[1..]) by {
        forall i | 0 <= i < |ls[1..]| ensures IsLine(ls[1..][i]) {
          assert ls[1..][i] == ls[i + 1];
        }
        forall i | 0 <= i < |ls[1..]| - 1 ensures EndsWithNewline(ls[1..][i]) {
          assert ls[1..][i] == ls[i + 1];
        }
      }
      assert s == l + Concat(ls[1..]);
      assert IsLine(l);
      if |ls| > 1 {
        assert EndsWithNewline(l);
        FirstLineLengthIs(s, |l|);
      } else {
        assert Concat(ls[1..]) == "";
        FirstLineLengthIs(s, |l|);
      }
      assert s[..|l|] == l;
      assert s[|l|..] == Concat(ls[1..]);
      SplitConcat(ls[1..]);
    }
  }

  lemma WellSplitAppend(xs: seq<string>, ys: seq<string>)
    requires WellSplit(xs) && WellSplit(ys)
    requires xs == [] || EndsWithNewline(xs[|xs| - 1])
    ensures WellSplit(xs + ys)
  {
    forall i | 0 <= i < |xs + ys| ensures IsLine((xs + ys)[i]) {
      if i < |xs| { assert (xs + ys)[i] == xs[i]; } else { assert (xs + ys)[i] == ys[i - |xs|]; }
    }
    forall i | 0 <= i < |xs + ys| - 1 ensures EndsWithNewline((xs + ys)[i]) {
      if i < |xs| { assert (xs + ys)[i] == xs[i]; } else { assert (xs + ys)[i] == ys[i - |xs|]; }
    }
  }

  /** Appending text after a newline-terminated text splits into the two texts' lines. */
  lemma SplitAppend(x: string, y: string)
    requires x == "" || EndsWithNewline(x)
    ensures SplitLines(x + y) == SplitLines(x) + SplitLines(y)
  {
    var xs := SplitLines(x);
    var ys := SplitLines(y);
    ConcatAppend(xs, ys);
    if x != "" {
      LastLineOfSplit(x);
    }
    WellSplitAppend(xs, ys);
    SplitConcat(xs + ys);
  }

  /** The last line of a text ends with the text's last character. */
  lemma {:induction false} LastLineOfSplit(s: string)
    requires EndsWithNewline(s)
    ensures |SplitLines(s)| > 0 && EndsWithNewline(SplitLines(s)[|SplitLines(s)| - 1])
    decreases |s|
  {
    var n := FirstLineLength(s);
    if n < |s| {
      assert s[n..][|s[n..]| - 1] == s[|s| - 1];
      LastLineOfSplit(s[n..]);
      assert SplitLines(s) == [s[..n]] + SplitLines(s[n..]);
    } else {
      assert SplitLines(s[n..]) == [];
      assert SplitLines(s) == [s[..n]];
    }
  }

  /** Giving the unterminated last line of a split a newline keeps it split. */
  lemma TerminateLast(ls: seq<string>)
    requires WellSplit(ls) && |ls| > 0 && !EndsWithNewline(ls[|ls| - 1])
    ensures var ls' := ls[..|ls| - 1] + [ls[|ls| - 1] + "\n"];
      WellSplit(ls') && Concat(ls') == Concat(ls) + "\n"
  {
    var n := |ls|;
    var init, last := ls[..n - 1], ls[n - 1];
    var ls' := init + [last + "\n"];
    assert IsLine(last);
    forall i | 0 <= i < |ls'| ensures IsLine(ls'[i]) {
      if i < n - 1 { assert ls'[i] == ls[i]; }
    }
    forall i | 0 <= i < |ls'| - 1 ensures EndsWithNewline(ls'[i]) {
      assert ls'[i] == ls[i];
    }
    assert ls == init + [last];
    ConcatAppend(init, [last]);
    ConcatAppend(init, [last + "\n"]);
    assert Concat([last]) == last;
    assert Concat([last + "\n"]) == last + "\n";
  }

  /** Ending a text's unterminated last line with a newline changes that line
      only. */
  lemma SplitTerminate(s: string)
    requires s != "" && !EndsWithNewline(s)
    ensures var ls := SplitLines(s);
      |ls| > 0 && SplitLines(s + "\n") == ls[..|ls| - 1] + [ls[|ls| - 1] + "\n"]
  {
    var ls := SplitLines(s);
    var n := |ls|;
    assert n > 0;
    assert ls == ls[..n - 1] + [ls[n - 1]];
    ConcatAppend(ls[..n - 1], [ls[n - 1]]);
    assert Concat([ls[n - 1]]) == ls[n - 1];
    assert IsLine(ls[n - 1]);
    TerminateLast(ls);
    SplitConcat(ls[..n - 1] + [ls[n - 1] + "\n"]);
  }

  // ---------------------------------------------------------------------------
  // str.split()
  // ---------------------------------------------------------------------------

  /** `s.split()`: the maximal runs of non-whitespace characters, in order. */
  function Words(s: string): (ws: seq<string>)
    ensures forall i | 0 <= i < |ws| :: |ws[i]| > 0 && All(ws[i], NotSpace)
    decreases |s|
  {
    var a := Run(s, 0, IsSpace);
    if a == |s| then []
    else
      var n := Run(s, a, NotSpace);
      [s[a..a + n]] + Words(s[a + n..])
  }

  lemma WordsOfSpaces(s: string)
    requires All(s, IsSpace)
    ensures Words(s) == []
  {
    RunIs(s, 0, |s|, IsSpace);
  }

  /** Leading whitespace, then a word, then text that starts with whitespace (or
      nothing): the word is the first one `split` returns. */
  lemma WordsCons(w: string, x: string, rest: string)
    requires All(w, IsSpace)
    requires |x| > 0 && All(x, NotSpace)
    requires rest == "" || IsSpace(rest[0])
    ensures Words(w + x + rest) == [x] + Words(rest)
  {
    var s := w + x + rest;
    RunIs(s, 0, |w|, IsSpace);
    RunIs(s, |w|, |x|, NotSpace);
    assert s[|w|..|w| + |x|] == x;
    assert s[|w| + |x|..] == rest;
  }

  /** Two tokens surrounded and separated by whitespace split to those two. */
  lemma WordsOfTwo(w1: string, a: string, w2: string, b: string, w3: string)
    requires All(w1, IsSpace) && All(w2, IsSpace) && All(w3, IsSpace) && w2 != ""
    requires a != "" && All(a, NotSpace) && b != "" && All(b, NotSpace)
    ensures Words(w1 + a + w2 + b + w3) == [a, b]
  {
    assert w3 == "" || IsSpace(w3[0]);
    WordsCons(w2, b, w3);
    WordsOfSpaces(w3);
    ConcatAssoc(w1 + a + w2, b, w3);
    ConcatAssoc(w1 + a, w2, b + w3);
    ConcatAssoc(w2, b, w3);
    WordsCons(w1, a, w2 + b + w3);
  }

  /** Three tokens surrounded and separated by whitespace split to those three. */
  lemma WordsOfThree(w1: string, a: string, w2: string, b: string, w3: string, c: string, w4: string)
    requires All(w1, IsSpace) && All(w2, IsSpace) && All(w3, IsSpace) && All(w4, IsSpace)
    requires w2 != "" && w3 != ""
    requires a != "" && All(a, NotSpace) && b != "" && All(b, NotSpace) && c != "" && All(c, NotSpace)
    ensures Words(w1 + a + w2 + b + w3 + c + w4) == [a, b, c]
  {
    var t := w2 + b + w3 + c + w4;
    WordsOfTwo(w2, b, w3, c, w4);
    assert t[0] == w2[0];
    ConcatAssoc6(w1 + a, w2, b, w3, c, w4);
    WordsCons(w1, a, t);
  }
}
