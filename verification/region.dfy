/** The managed region of the hosts file (model.py `AppModel`): locating it
    (`read_file`), removing it (`clear_hosts_file`) and rewriting it
    (`write_file`). The file is its text; reading iterates over
    `SplitLines(text)`, and appending writes after the last character, so a
    file that does not end in a newline gets the next text on its last line. */
module Region {
  import opened Text
  import opened Grammar

  /** model.py:16 */
  function Head(app: string): string { "# BEGIN " + app }

  /** model.py:17 */
  function Foot(app: string): string { "# END " + app }

  predicate IsHeadLine(l: string, app: string) { StartsWith(l, Head(app)) }
  predicate IsFootLine(l: string, app: string) { StartsWith(l, Foot(app)) }

  /** No line starts with both markers: they differ in their third character. */
  lemma MarkersDisjoint(l: string, app: string)
    ensures !(IsHeadLine(l, app) && IsFootLine(l, app))
  {
    if IsHeadLine(l, app) {
      assert Head(app)[2] == 'B' && Foot(app)[2] == 'E';
      assert l[..|Head(app)|][2] == l[2];
    }
  }

  /** The stripped forms of the non-blank lines, in order. */
  function NonBlankStripped(lines: seq<string>): (r: seq<string>)
    ensures |r| <= |lines|
  {
    if |lines| == 0 then []
    else (if Strip(lines[0]) != "" then [Strip(lines[0])] else []) + NonBlankStripped(lines[1..])
  }

  // ---------------------------------------------------------------------------
  // read_file
  // ---------------------------------------------------------------------------

  /** The loop of model.py `read_file` from a given value of its `read` flag:
      each line is stripped; a head line opens the region and is skipped; a foot
      line closes it; while open, non-blank stripped lines are collected. */
  function ReadLines(lines: seq<string>, app: string, open: bool): (r: seq<string>)
    ensures |r| <= |lines|
    ensures forall i | 0 <= i < |r| :: r[i] != "" && NotSpace(r[i][0]) && NotSpace(r[i][|r[i]| - 1])
  {
    if |lines| == 0 then []
    else
      var l := Strip(lines[0]);
      if StartsWith(l, Head(app)) then ReadLines(lines[1..], app, true)
      else
        var open' := if StartsWith(l, Foot(app)) then false else open;
        (if open' && l != "" then [l] else []) + ReadLines(lines[1..], app, open')
  }

  /** model.py `read_file` on a file whose content is `text`: stripped,
      non-blank lines only, and none at all from a file without a head line. */
  function ReadFile(text: string, app: string): (r: seq<string>)
    ensures forall i | 0 <= i < |r| :: r[i] != "" && NotSpace(r[i][0]) && NotSpace(r[i][|r[i]| - 1])
    ensures NoStrippedHead(SplitLines(text), app) ==> r == []
  {
    if NoStrippedHead(SplitLines(text), app) then
      NoHeadReadsNothing(SplitLines(text), app);
      ReadLines(SplitLines(text), app, false)
    else
      ReadLines(SplitLines(text), app, false)
  }

  predicate NoStrippedHead(lines: seq<string>, app: string) {
    forall i | 0 <= i < |lines| :: !StartsWith(Strip(lines[i]), Head(app))
  }

  predicate NoStrippedFoot(lines: seq<string>, app: string) {
    forall i | 0 <= i < |lines| :: !StartsWith(Strip(lines[i]), Foot(app))
  }

  predicate NoStrippedMarker(lines: seq<string>, app: string) {
    forall i | 0 <= i < |lines| ::
      !StartsWith(Strip(lines[i]), Head(app)) && !StartsWith(Strip(lines[i]), Foot(app))
  }

  lemma ReadClosedStep(x: string, rest: seq<string>, app: string)
    requires !StartsWith(Strip(x), Head(app))
    ensures ReadLines([x] + rest, app, false) == ReadLines(rest, app, false)
  {
    assert ([x] + rest)[0] == x && ([x] + rest)[1..] == rest;
  }

  /** Outside the region, lines without a head marker contribute nothing and
      leave the region closed, whatever foot markers they hold. */
  lemma {:induction false} ReadClosed(a: seq<string>, b: seq<string>, app: string)
    requires NoStrippedHead(a, app)
    ensures ReadLines(a + b, app, false) == ReadLines(b, app, false)
  {
    if |a| > 0 {
      ConsConcat(a, b);
      ReadClosedStep(a[0], a[1..] + b, app);
      ReadClosed(a[1..], b, app);
    } else {
      assert a + b == b;
    }
  }

  /** Without a head marker `read_file` returns nothing. */
  lemma NoHeadReadsNothing(lines: seq<string>, app: string)
    requires NoStrippedHead(lines, app)
    ensures ReadLines(lines, app, false) == []
  {
    ReadClosed(lines, [], app);
    assert lines + [] == lines;
  }

  lemma ReadBodyStep(x: string, rest: seq<string>, app: string)
    requires !StartsWith(Strip(x), Head(app)) && !StartsWith(Strip(x), Foot(app))
    ensures ReadLines([x] + rest, app, true)
         == (if Strip(x) != "" then [Strip(x)] else []) + ReadLines(rest, app, true)
  {
    assert ([x] + rest)[0] == x && ([x] + rest)[1..] == rest;
  }

  /** The lines that are not head lines once stripped, in order. */
  function HeadFree(lines: seq<string>, app: string): (r: seq<string>)
    ensures |r| <= |lines| && NoStrippedHead(r, app)
  {
    if |lines| == 0 then []
    else
      var first := if StartsWith(Strip(lines[0]), Head(app)) then [] else [lines[0]];
      var rest := HeadFree(lines[1..], app);
      assert forall i | 0 <= i < |rest| :: (first + rest)[|first| + i] == rest[i];
      first + rest
  }

  /** A list without stripped head lines is kept whole. */
  lemma {:induction false} HeadFreeKeeps(lines: seq<string>, app: string)
    requires NoStrippedHead(lines, app)
    ensures HeadFree(lines, app) == lines
  {
    if |lines| > 0 {
      assert NoStrippedHead(lines[1..], app) by {
        forall i | 0 <= i < |lines| - 1 ensures !StartsWith(Strip(lines[1..][i]), Head(app)) {
          assert lines[1..][i] == lines[i + 1];
        }
      }
      HeadFreeKeeps(lines[1..], app);
      assert lines == [lines[0]] + lines[1..];
    }
  }

  /** Inside the region, lines are collected stripped, blank ones dropped; a
      head line there is skipped and leaves the region open. */
  lemma {:induction false} ReadBody(b: seq<string>, c: seq<string>, app: string)
    requires NoStrippedFoot(b, app)
    ensures ReadLines(b + c, app, true) == NonBlankStripped(HeadFree(b, app)) + ReadLines(c, app, true)
  {
    if |b| > 0 {
      ConsConcat(b, c);
      ReadBody(b[1..], c, app);
      var rest := HeadFree(b[1..], app);
      if StartsWith(Strip(b[0]), Head(app)) {
        ReadHeadStep(b[0], b[1..] + c, app, true);
        assert HeadFree(b, app) == rest;
      } else {
        var first := if Strip(b[0]) != "" then [Strip(b[0])] else [];
        ReadBodyStep(b[0], b[1..] + c, app);
        assert HeadFree(b, app) == [b[0]] + rest;
        assert ([b[0]] + rest)[1..] == rest;
        assert NonBlankStripped(HeadFree(b, app)) == first + NonBlankStripped(rest);
        ConcatAssoc(first, NonBlankStripped(rest), ReadLines(c, app, true));
      }
    } else {
      assert b + c == c;
    }
  }

  lemma ReadHeadStep(h: string, rest: seq<string>, app: string, open: bool)
    requires StartsWith(Strip(h), Head(app))
    ensures ReadLines([h] + rest, app, open) == ReadLines(rest, app, true)
  {
    assert ([h] + rest)[1..] == rest;
  }

  lemma ReadFootStep(f: string, rest: seq<string>, app: string, open: bool)
    requires StartsWith(Strip(f), Foot(app))
    ensures ReadLines([f] + rest, app, open) == ReadLines(rest, app, false)
  {
    MarkersDisjoint(Strip(f), app);
    assert ([f] + rest)[1..] == rest;
  }

  /** model.py `read_file` returns exactly the stripped non-blank lines between
      the first head line and the next foot line, markers excluded; a further
      head line inside the region is skipped and does not end it. */
  lemma ReadRegion(a: seq<string>, h: string, b: seq<string>, f: string, c: seq<string>, app: string)
    requires NoStrippedHead(a, app)
    requires StartsWith(Strip(h), Head(app))
    requires NoStrippedFoot(b, app)
    requires StartsWith(Strip(f), Foot(app))
    ensures ReadLines(a + [h] + b + [f] + c, app, false)
         == NonBlankStripped(HeadFree(b, app)) + ReadLines(c, app, false)
  {
    RegionConcat(a, h, b, f, c);
    ReadClosed(a, [h] + (b + ([f] + c)), app);
    ReadHeadStep(h, b + ([f] + c), app, false);
    ReadBody(b, [f] + c, app);
    ReadFootStep(f, c, app, true);
  }

  /** A head line with no foot line after it leaves the region open to the end of the file. */
  lemma ReadOpenRegion(a: seq<string>, h: string, b: seq<string>, app: string)
    requires NoStrippedHead(a, app)
    requires StartsWith(Strip(h), Head(app))
    requires NoStrippedFoot(b, app)
    ensures ReadLines(a + [h] + b, app, false) == NonBlankStripped(HeadFree(b, app))
  {
    ReadClosed(a, [h] + b, app);
    assert a + [h] + b == a + ([h] + b);
    ReadHeadStep(h, b, app, false);
    assert b + [] == b;
    ReadBody(b, [], app);
  }

  // ---------------------------------------------------------------------------
  // clear_hosts_file
  // ---------------------------------------------------------------------------

  predicate Unmarked(lines: seq<string>, app: string) {
    forall i | 0 <= i < |lines| :: !IsHeadLine(lines[i], app) && !IsFootLine(lines[i], app)
  }

  predicate NoFootLine(lines: seq<string>, app: string) {
    forall i | 0 <= i < |lines| :: !IsFootLine(lines[i], app)
  }

  /** The loop of model.py `clear_hosts_file` from a given value of its
      `rewrite` flag. Raw lines are compared, not stripped ones: a head line stops
      copying and is dropped, and every foot line is dropped and resumes
      copying, even one outside any region. */
  function ClearLines(lines: seq<string>, app: string, keep: bool): (r: seq<string>)
    ensures Unmarked(r, app)
    ensures forall i | 0 <= i < |r| :: r[i] in lines
  {
    if |lines| == 0 then []
    else
      var l := lines[0];
      var rest := ClearLines(lines[1..], app, if IsHeadLine(l, app) then false
                                            else if IsFootLine(l, app) then true else keep);
      if !IsHeadLine(l, app) && !IsFootLine(l, app) && keep then [l] + rest else rest
  }

  /** model.py `clear_hosts_file`: the file's text once the region is removed.
      Read back line by line it gives the cleared lines, so no marker line is
      left in it and every line left is a line of the original file. */
  function ClearText(text: string, app: string): (r: string)
    ensures SplitLines(r) == ClearLines(SplitLines(text), app, true)
    ensures Unmarked(SplitLines(r), app)
    ensures forall i | 0 <= i < |SplitLines(r)| :: SplitLines(r)[i] in SplitLines(text)
  {
    ClearWellSplit(SplitLines(text), app, true);
    SplitConcat(ClearLines(SplitLines(text), app, true));
    Concat(ClearLines(SplitLines(text), app, true))
  }

  /** A file without marker lines is left as it is. */
  lemma {:induction false} ClearUnmarked(lines: seq<string>, app: string)
    requires Unmarked(lines, app)
    ensures ClearLines(lines, app, true) == lines
  {
    if |lines| > 0 {
      ClearUnmarked(lines[1..], app);
    }
  }

  /** Clearing twice is clearing once. */
  lemma ClearIdempotent(lines: seq<string>, app: string)
    ensures ClearLines(ClearLines(lines, app, true), app, true) == ClearLines(lines, app, true)
  {
    ClearUnmarked(ClearLines(lines, app, true), app);
  }

  lemma ClearUnmarkedStep(l: string, c: seq<string>, app: string, keep: bool)
    requires !IsHeadLine(l, app) && !IsFootLine(l, app)
    ensures ClearLines([l] + c, app, keep) == (if keep then [l] else []) + ClearLines(c, app, keep)
  {
    assert ([l] + c)[1..] == c;
  }

  /** Unmarked lines are copied or dropped as the flag says, and leave it as it was. */
  lemma {:induction false} ClearPassThrough(a: seq<string>, c: seq<string>, app: string, keep: bool)
    requires Unmarked(a, app)
    ensures ClearLines(a + c, app, keep) == (if keep then a else []) + ClearLines(c, app, keep)
  {
    if |a| > 0 {
      ConsConcat(a, c);
      ClearUnmarkedStep(a[0], a[1..] + c, app, keep);
      ClearPassThrough(a[1..], c, app, keep);
      assert a == [a[0]] + a[1..];
    } else {
      assert a + c == c;
    }
  }

  lemma ClearSkipStep(x: string, rest: seq<string>, app: string)
    requires !IsFootLine(x, app)
    ensures ClearLines([x] + rest, app, false) == ClearLines(rest, app, false)
  {
    assert ([x] + rest)[0] == x && ([x] + rest)[1..] == rest;
  }

  /** Inside a region, everything up to the next foot line is dropped. */
  lemma {:induction false} ClearSkip(b: seq<string>, c: seq<string>, app: string)
    requires NoFootLine(b, app)
    ensures ClearLines(b + c, app, false) == ClearLines(c, app, false)
  {
    if |b| > 0 {
      ConsConcat(b, c);
      ClearSkipStep(b[0], b[1..] + c, app);
      ClearSkip(b[1..], c, app);
    } else {
      assert b + c == c;
    }
  }

  lemma ClearHeadStep(h: string, rest: seq<string>, app: string, keep: bool)
    requires IsHeadLine(h, app)
    ensures ClearLines([h] + rest, app, keep) == ClearLines(rest, app, false)
  {
    assert ([h] + rest)[0] == h && ([h] + rest)[1..] == rest;
  }

  lemma ClearFootStep(f: string, rest: seq<string>, app: string, keep: bool)
    requires IsFootLine(f, app)
    ensures ClearLines([f] + rest, app, keep) == ClearLines(rest, app, true)
  {
    MarkersDisjoint(f, app);
    assert ([f] + rest)[0] == f && ([f] + rest)[1..] == rest;
  }

  /** model.py `clear_hosts_file` removes a region from its head line through
      the next foot line, both included, and keeps the lines before it verbatim. */
  lemma ClearRegion(a: seq<string>, h: string, b: seq<string>, f: string, c: seq<string>, app: string)
    requires Unmarked(a, app)
    requires IsHeadLine(h, app) && NoFootLine(b, app) && IsFootLine(f, app)
    ensures ClearLines(a + [h] + b + [f] + c, app, true) == a + ClearLines(c, app, true)
  {
    RegionConcat(a, h, b, f, c);
    ClearPassThrough(a, [h] + (b + ([f] + c)), app, true);
    ClearHeadStep(h, b + ([f] + c), app, true);
    ClearSkip(b, [f] + c, app);
    ClearFootStep(f, c, app, false);
  }

  /** A head line with no foot line after it removes everything to the end of the file. */
  lemma ClearOpenRegion(a: seq<string>, h: string, b: seq<string>, app: string)
    requires Unmarked(a, app)
    requires IsHeadLine(h, app) && NoFootLine(b, app)
    ensures ClearLines(a + [h] + b, app, true) == a
  {
    assert a + [h] + b == a + ([h] + b);
    ClearPassThrough(a, [h] + b, app, true);
    assert ([h] + b)[1..] == b + [];
    ClearSkip(b, [], app);
    assert a + [] == a;
  }

  /** A foot line outside any region is dropped too. */
  lemma ClearStrayFoot(a: seq<string>, f: string, c: seq<string>, app: string)
    requires Unmarked(a, app)
    requires IsFootLine(f, app)
    ensures ClearLines(a + [f] + c, app, true) == a + ClearLines(c, app, true)
  {
    MarkersDisjoint(f, app);
    assert a + [f] + c == a + ([f] + c);
    ClearPassThrough(a, [f] + c, app, true);
    assert ([f] + c)[1..] == c;
  }

  /** The kept lines are a sub-sequence of a read file, so they still have its line shape. */
  lemma {:induction false} ClearWellSplit(lines: seq<string>, app: string, keep: bool)
    requires WellSplit(lines)
    ensures WellSplit(ClearLines(lines, app, keep))
  {
    if |lines| > 0 {
      var rest := lines[1..];
      assert WellSplit(rest) by {
        assert forall i | 0 <= i < |rest| :: rest[i] == lines[i + 1];
      }
      var l := lines[0];
      var keep' := if IsHeadLine(l, app) then false else if IsFootLine(l, app) then true else keep;
      ClearWellSplit(rest, app, keep');
      var r := ClearLines(rest, app, keep');
      if |r| > 0 {
        assert |rest| > 0;
        assert EndsWithNewline(lines[0]);
      }
      if !IsHeadLine(l, app) && !IsFootLine(l, app) && keep && |r| > 0 {
        WellSplitAppend([l], r);
      }
    }
  }

  /** Clearing the text twice is clearing it once. */
  lemma ClearTextIdempotent(text: string, app: string)
    ensures ClearText(ClearText(text, app), app) == ClearText(text, app)
  {
    ClearIdempotent(SplitLines(text), app);
  }

  // ---------------------------------------------------------------------------
  // write_file
  // ---------------------------------------------------------------------------

  /** One line of the region for a site at a selected (blocked) or unselected
      position: `" ".join((host, *site, "\n"))`, commented out with `"#"` when
      not selected. */
  function RenderLine(host: string, site: seq<string>, selected: bool): string {
    if selected then Join(" ", [host] + site + ["\n"]) else Join(" ", ["#", host] + site + ["\n"])
  }

  function Comment(selected: bool): string { if selected then "" else "# " }

  /** A rendered line is the optional comment mark, the address, then the site's
      tokens, each followed by one space, and the newline. */
  lemma RenderLineShape(host: string, site: seq<string>, selected: bool)
    ensures RenderLine(host, site, selected)
         == Comment(selected) + Join(" ", [host] + site) + " \n"
  {
    var toks := [host] + site;
    assert [host] + site + ["\n"] == toks + ["\n"];
    JoinSnoc(toks, "\n");
    if !selected {
      assert ["#", host] + site + ["\n"] == ["#"] + (toks + ["\n"]);
      JoinCons(" ", "#", toks + ["\n"]);
    }
  }

  /** The site lines of a region never look like marker lines: they start with
      the address's first digit, or with `# ` and that digit. */
  lemma SiteLineNotMarker(host: string, site: seq<string>, selected: bool, app: string)
    requires AddressShape(host)
    ensures var l := Comment(selected) + Join(" ", [host] + site) + " \n";
      !IsHeadLine(l, app) && !IsFootLine(l, app)
  {
    var l := Comment(selected) + Join(" ", [host] + site) + " \n";
    var j := Join(" ", [host] + site);
    if |site| == 0 {
      assert [host] + site == [host];
    } else {
      JoinCons(" ", host, site);
    }
    assert j[0] == host[0];
    if selected {
      assert l[0] == host[0];
      assert l[0] != Head(app)[0] && l[0] != Foot(app)[0];
    } else {
      assert l[2] == host[0];
      assert l[2] != Head(app)[2] && l[2] != Foot(app)[2];
    }
  }

  /** The site lines of a region, one per site in order, each commented out
      unless its position is selected. */
  function SiteLines(host: string, sites: seq<seq<string>>, sel: seq<int>): (r: seq<string>)
    ensures |r| == |sites|
    ensures forall i | 0 <= i < |sites| ::
      r[i] == Comment(i in sel) + Join(" ", [host] + sites[i]) + " \n"
  {
    var r := seq(|sites|, i requires 0 <= i < |sites| => RenderLine(host, sites[i], i in sel));
    forall i | 0 <= i < |sites| ensures r[i] == Comment(i in sel) + Join(" ", [host] + sites[i]) + " \n" {
      RenderLineShape(host, sites[i], i in sel);
    }
    r
  }

  /** The lines model.py `write_file` appends: the head marker, one line per
      site (selected when its position is in `sel`), the foot marker. Each
      site line is the address and the site's names separated by single
      blanks, then a blank and the newline, behind `# ` when the position is
      not selected; with an address of the usual shape no site line can be
      taken for a marker line. */
  function Appended(app: string, host: string, sites: seq<seq<string>>, sel: seq<int>): (r: seq<string>)
    ensures |r| == |sites| + 2
    ensures r[0] == Head(app) + "\n" && r[|r| - 1] == Foot(app) + "\n"
    ensures forall i | 0 <= i < |sites| ::
      r[i + 1] == Comment(i in sel) + Join(" ", [host] + sites[i]) + " \n"
    ensures AddressShape(host) ==>
      forall i | 0 < i < |r| - 1 :: !IsHeadLine(r[i], app) && !IsFootLine(r[i], app)
  {
    var mid := SiteLines(host, sites, sel);
    var r := [Head(app) + "\n"] + mid + [Foot(app) + "\n"];
    assert forall i | 0 <= i < |sites| :: r[i + 1] == mid[i];
    assert AddressShape(host) ==>
      forall i | 0 < i < |r| - 1 :: !IsHeadLine(r[i], app) && !IsFootLine(r[i], app) by {
      if AddressShape(host) {
        forall i | 0 < i < |r| - 1 ensures !IsHeadLine(r[i], app) && !IsFootLine(r[i], app) {
          assert r[i] == mid[i - 1];
          SiteLineNotMarker(host, sites[i - 1], i - 1 in sel, app);
        }
      }
    }
    r
  }

  /** model.py `write_file`: clear the region, then append the new one. The
      cleared text is kept as it is at the front; the head marker line follows
      it directly and the foot marker line ends the file. */
  function WriteFile(text: string, app: string, host: string, sites: seq<seq<string>>, sel: seq<int>): (r: string)
    ensures var c := ClearText(text, app);
      && |r| > |c| && r[..|c|] == c
      && StartsWith(r[|c|..], Head(app) + "\n")
      && EndsWith(r, Foot(app) + "\n")
  {
    var c := ClearText(text, app);
    var a := Appended(app, host, sites, sel);
    var n := |a|;
    assert Concat(a) == a[0] + Concat(a[1..]);
    assert a == a[..n - 1] + [a[n - 1]];
    ConcatAppend(a[..n - 1], [a[n - 1]]);
    assert Concat([a[n - 1]]) == a[n - 1];
    var r := c + Concat(a);
    assert r[|c|..] == Concat(a);
    r
  }
}
