/** What a rewrite of the managed region leaves in the file: the lines
    model.py `write_file` produces, the text outside the region untouched, and
    the composed round trip `extract_sites(read_file(write_file(...)))`. */
module RoundTrip {
  import opened Text
  import opened Grammar
  import opened Region

  /** An application name whose marker lines survive `strip` and stay single lines. */
  predicate SafeAppName(app: string) {
    app != "" && NoNewline(app) && NotSpace(app[|app| - 1])
  }

  /** A pair that parses back as written: a non-empty primary, host characters
      only, and not a `www.` primary before a non-`www.` alias (which the
      parser's ordering would swap). */
  predicate WellFormedPair(a: string, b: string) {
    HostPair(a, b) && !(StartsWww(a) && !StartsWww(b))
  }

  /** Two names that a site line can carry: a non-empty first one and host
      characters only, in either order. */
  predicate HostPair(a: string, b: string) {
    a != "" && All(a, IsHostChar) && All(b, IsHostChar)
  }

  predicate PairSites(sites: seq<seq<string>>) {
    forall i | 0 <= i < |sites| :: |sites[i]| == 2 && WellFormedPair(sites[i][0], sites[i][1])
  }

  /** What remains of the file after clearing ends at a line end (or is empty),
      so appended text starts a new line. */
  predicate EndsAtLineEnd(text: string) {
    text == "" || EndsWithNewline(text)
  }

  // ---------------------------------------------------------------------------
  // Rendering
  // ---------------------------------------------------------------------------

  lemma {:induction false} JoinNoNewline(xs: seq<string>)
    requires forall i | 0 <= i < |xs| :: NoNewline(xs[i])
    ensures NoNewline(Join(" ", xs))
  {
    if |xs| > 1 {
      JoinNoNewline(xs[1..]);
      var j := Join(" ", xs[1..]);
      var s := xs[0] + " " + j;
      forall k | 0 <= k < |s| ensures NotNewline(s[k]) {
        if k < |xs[0]| { assert s[k] == xs[0][k]; }
        else if k > |xs[0]| { assert s[k] == j[k - |xs[0]| - 1]; }
      }
    }
  }

  /** A site line is one physical line when no token holds a newline. */
  lemma RenderLineIsLine(host: string, site: seq<string>, selected: bool)
    requires NoNewline(host) && forall i | 0 <= i < |site| :: NoNewline(site[i])
    ensures IsLine(RenderLine(host, site, selected)) && EndsWithNewline(RenderLine(host, site, selected))
  {
    RenderLineShape(host, site, selected);
    var toks := [host] + site;
    JoinNoNewline(toks);
    var core := Comment(selected) + Join(" ", toks);
    assert NoNewline(core) by {
      var j := Join(" ", toks);
      forall k | 0 <= k < |core| ensures NotNewline(core[k]) {
        if k >= |Comment(selected)| { assert core[k] == j[k - |Comment(selected)|]; }
      }
    }
    var l := core + " \n";
    forall k | 0 <= k < |l| - 1 ensures l[k] != '\n' {
      if k < |core| { assert l[k] == core[k]; }
    }
  }

  /** A site given as a pair renders as `host a b`, commented out when not selected. */
  lemma RenderPair(host: string, a: string, b: string, selected: bool)
    ensures RenderLine(host, [a, b], selected) == Comment(selected) + host + " " + a + " " + b + " \n"
  {
    RenderLineShape(host, [a, b], selected);
    assert [host] + [a, b] == [host] + ([a] + [b]);
    JoinCons(" ", host, [a] + [b]);
    JoinCons(" ", a, [b]);
  }

  // ---------------------------------------------------------------------------
  // write_file, line by line
  // ---------------------------------------------------------------------------

  predicate TokensOnOneLine(sites: seq<seq<string>>) {
    forall i, j | 0 <= i < |sites| && 0 <= j < |sites[i]| :: NoNewline(sites[i][j])
  }

  lemma AppendedWellSplit(app: string, host: string, sites: seq<seq<string>>, sel: seq<int>)
    requires NoNewline(app) && NoNewline(host) && TokensOnOneLine(sites)
    ensures WellSplit(Appended(app, host, sites, sel))
    ensures forall i | 0 <= i < |Appended(app, host, sites, sel)| :: EndsWithNewline(Appended(app, host, sites, sel)[i])
  {
    var r := Appended(app, host, sites, sel);
    forall i | 0 <= i < |r| ensures IsLine(r[i]) && EndsWithNewline(r[i]) {
      if i == 0 {
        var h := Head(app);
        forall k | 0 <= k < |h| ensures h[k] != '\n' {
          if k >= 8 { assert h[k] == app[k - 8]; }
        }
        assert r[0] == h + "\n";
        assert r[0][..|h|] == h;
      } else if i == |r| - 1 {
        var f := Foot(app);
        forall k | 0 <= k < |f| ensures f[k] != '\n' {
          if k >= 6 { assert f[k] == app[k - 6]; }
        }
        assert r[i] == f + "\n";
        assert r[i][..|f|] == f;
      } else {
        RenderLineIsLine(host, sites[i - 1], i - 1 in sel);
        RenderLineShape(host, sites[i - 1], i - 1 in sel);
      }
    }
  }

  /** model.py `write_file` leaves the cleared file followed by the head line,
      one line per site and the foot line: `|sites| + 2` lines appended. */
  lemma WriteFileLines(text: string, app: string, host: string, sites: seq<seq<string>>, sel: seq<int>)
    requires EndsAtLineEnd(ClearText(text, app))
    requires NoNewline(app) && NoNewline(host) && TokensOnOneLine(sites)
    ensures SplitLines(WriteFile(text, app, host, sites, sel))
         == ClearLines(SplitLines(text), app, true) + Appended(app, host, sites, sel)
  {
    var app' := Appended(app, host, sites, sel);
    SplitAppend(ClearText(text, app), Concat(app'));
    AppendedWellSplit(app, host, sites, sel);
    SplitConcat(app');
  }

  /** The appended block opens with a head line, closes with a foot line, and
      has no foot line in between. */
  lemma AppendedMarkers(app: string, host: string, sites: seq<seq<string>>, sel: seq<int>)
    requires AddressShape(host)
    ensures var a := Appended(app, host, sites, sel);
      IsHeadLine(a[0], app) && IsFootLine(a[|a| - 1], app) && NoFootLine(a[1..|a| - 1], app)
  {
  }

  /** Clearing a file whose region was just appended gives back what lay outside it. */
  lemma ClearAppended(L: seq<string>, app: string, host: string, sites: seq<seq<string>>, sel: seq<int>)
    requires Unmarked(L, app) && AddressShape(host)
    ensures ClearLines(L + Appended(app, host, sites, sel), app, true) == L
  {
    var a := Appended(app, host, sites, sel);
    var R := a[1..|a| - 1];
    AppendedMarkers(app, host, sites, sel);
    SplitEnds(a);
    Regroup(L, a[0], R, a[|a| - 1]);
    ClearRegion(L, a[0], R, a[|a| - 1], [], app);
    assert L + [] == L;
  }

  /** Everything outside the managed region is the same after a rewrite:
      clearing the rewritten file gives what clearing the original gave. */
  lemma WritePreservesOutside(text: string, app: string, host: string, sites: seq<seq<string>>, sel: seq<int>)
    requires EndsAtLineEnd(ClearText(text, app))
    requires NoNewline(app) && AddressShape(host) && TokensOnOneLine(sites)
    ensures ClearText(WriteFile(text, app, host, sites, sel), app) == ClearText(text, app)
  {
    assert NoNewline(host) by {
      forall k | 0 <= k < |host| ensures NotNewline(host[k]) { }
    }
    WriteFileLines(text, app, host, sites, sel);
    ClearAppended(ClearLines(SplitLines(text), app, true), app, host, sites, sel);
  }

  /** Writing twice is writing the second time only: the first region is
      replaced, not accumulated. */
  lemma LastWriteWins(text: string, app: string, host: string,
                      sites1: seq<seq<string>>, sel1: seq<int>, sites2: seq<seq<string>>, sel2: seq<int>)
    requires EndsAtLineEnd(ClearText(text, app))
    requires NoNewline(app) && AddressShape(host) && TokensOnOneLine(sites1)
    ensures WriteFile(WriteFile(text, app, host, sites1, sel1), app, host, sites2, sel2)
         == WriteFile(text, app, host, sites2, sel2)
  {
    WritePreservesOutside(text, app, host, sites1, sel1);
  }

  // ---------------------------------------------------------------------------
  // write_file, then read_file, then extract_sites
  // ---------------------------------------------------------------------------

  /** A pair's site line as `read_file` returns it: stripped of the trailing
      blanks and newline, so a missing alias leaves no separator behind. */
  function StrippedSite(host: string, a: string, b: string, selected: bool): string {
    Comment(selected) + host + " " + a + (if b == "" then "" else " " + b)
  }

  lemma StripRendered(host: string, a: string, b: string, selected: bool)
    requires AddressShape(host) && WellFormedPair(a, b)
    ensures Strip(RenderLine(host, [a, b], selected)) == StrippedSite(host, a, b, selected)
  {
    RenderPair(host, a, b, selected);
    HostCharsNotSpace(a);
    HostCharsNotSpace(b);
    var core := StrippedSite(host, a, b, selected);
    assert core[0] == (if selected then host[0] else '#');
    if b == "" {
      assert core[|core| - 1] == a[|a| - 1];
      assert RenderLine(host, [a, b], selected) == core + "  \n";
      StripTrailing(core, "  \n");
    } else {
      assert core[|core| - 1] == b[|b| - 1];
      assert RenderLine(host, [a, b], selected) == core + " \n";
      StripTrailing(core, " \n");
    }
  }

  lemma ThreeRuns(s: string, e: nat, n1: nat, n2: nat, n3: nat)
    requires e + n1 + n2 + n3 <= |s|
    requires forall k | e <= k < e + n1 :: IsHostChar(s[k])
    requires forall k | e + n1 <= k < e + n1 + n2 :: IsSpace(s[k])
    requires forall k | e + n1 + n2 <= k < e + n1 + n2 + n3 :: IsHostChar(s[k])
    requires e + n1 == |s| || !IsHostChar(s[e + n1])
    requires e + n1 + n2 == |s| || !IsSpace(s[e + n1 + n2])
    requires e + n1 + n2 + n3 == |s| || !IsHostChar(s[e + n1 + n2 + n3])
    ensures Run(s, e, IsHostChar) == n1
    ensures Run(s, e + n1, IsSpace) == n2
    ensures Run(s, e + n1 + n2, IsHostChar) == n3
  {
    RunIs(s, e, n1, IsHostChar);
    RunIs(s, e + n1, n2, IsSpace);
    RunIs(s, e + n1 + n2, n3, IsHostChar);
  }

  /** `HostGroups` takes the three maximal runs that start at `e`. */
  lemma HostGroupsIs(s: string, e: nat, n1: nat, n2: nat, n3: nat)
    requires 0 < n1 && e + n1 + n2 + n3 <= |s|
    requires forall k | e <= k < e + n1 :: IsHostChar(s[k])
    requires forall k | e + n1 <= k < e + n1 + n2 :: IsSpace(s[k])
    requires forall k | e + n1 + n2 <= k < e + n1 + n2 + n3 :: IsHostChar(s[k])
    requires e + n1 == |s| || !IsHostChar(s[e + n1])
    requires e + n1 + n2 == |s| || !IsSpace(s[e + n1 + n2])
    requires e + n1 + n2 + n3 == |s| || !IsHostChar(s[e + n1 + n2 + n3])
    ensures IsHostChar(s[e])
    ensures HostGroups(s, e) == (s[e..e + n1], s[e + n1 + n2..e + n1 + n2 + n3])
  {
    ThreeRuns(s, e, n1, n2, n3);
    HostGroupsOfRuns(s, e, n1, n2, n3);
  }

  /** The host groups of a line whose tail from `e` is the lone host `a`. */
  lemma HostGroupsOne(s: string, e: nat, a: string)
    requires a != "" && All(a, IsHostChar)
    requires e <= |s| && s[e..] == a
    ensures e < |s| && IsHostChar(s[e])
    ensures HostGroups(s, e) == (a, "")
  {
    forall k | e <= k < |s| ensures IsHostChar(s[k]) { assert s[k] == a[k - e]; }
    assert e + |a| == |s|;
    HostGroupsIs(s, e, |a|, 0, 0);
    assert s[e..e + |a|] == a;
    assert s[|s|..|s|] == "";
  }

  /** Character by character, a tail `a b` is: `a`, one blank, `b`. */
  lemma TwoHostsLayout(s: string, e: nat, a: string, b: string)
    requires e <= |s| && s[e..] == a + " " + b
    ensures |s| == e + |a| + 1 + |b|
    ensures forall k | e <= k < e + |a| :: s[k] == a[k - e]
    ensures s[e + |a|] == ' '
    ensures forall k | e + |a| + 1 <= k < |s| :: s[k] == b[k - e - |a| - 1]
    ensures s[e..e + |a|] == a && s[e + |a| + 1..] == b
  {
    var t := s[e..];
    assert forall k | e <= k < |s| :: s[k] == t[k - e];
    assert t[..|a|] == a;
    assert t[|a| + 1..] == b;
  }

  /** The host groups of a line whose tail from `e` is `a b`. */
  lemma HostGroupsTwo(s: string, e: nat, a: string, b: string)
    requires a != "" && All(a, IsHostChar) && b != "" && All(b, IsHostChar)
    requires e <= |s| && s[e..] == a + " " + b
    ensures e < |s| && IsHostChar(s[e])
    ensures HostGroups(s, e) == (a, b)
  {
    TwoHostsLayout(s, e, a, b);
    var f := e + |a|;
    assert s[f + 1] == b[0];
    HostGroupsIs(s, e, |a|, 1, |b|);
    assert s[f + 1..f + 1 + |b|] == s[f + 1..];
  }

  /** Where the scanner finds the prefix ending at `c` and `w` blanks after the
      address, `extract_data` accepts and group 4 starts after those blanks. */
  lemma AcceptedAt(s: string, c: nat, w: nat)
    requires w > 0 && c + 9 + w < |s|
    requires PrefixEnd(s) == c && Run(s, c + 9, IsSpace) == w
    requires AddressShape(s[c..c + 9]) && IsHostChar(s[c + 9 + w])
    ensures c + 9 <= |s| && HostStart(s) == c + 9 + w
    ensures ExtractData(s).Some?
  {
  }

  /** An accepted line's record is the one at its prefix end and host start. */
  lemma RecordOfAccepted(s: string, c: nat, e: nat)
    requires ExtractData(s).Some? && PrefixEnd(s) == c && c + 9 <= |s| && HostStart(s) == e
    ensures e < |s| && IsHostChar(s[e])
    ensures ExtractData(s) == Some(RecordAt(s, c, e))
  {
    ExtractDataRecord(s);
  }

  lemma RecordAtHosts(s: string, c: nat, e: nat, a: string, b: string)
    requires c <= |s| && e < |s| && IsHostChar(s[e])
    requires HostGroups(s, e) == (a, b) && !(StartsWww(a) && !StartsWww(b))
    ensures RecordAt(s, c, e).primary == a && RecordAt(s, c, e).alias == b
  {
  }

  lemma SplitAt(p: string, q: string)
    ensures (p + q)[..|p|] == p && (p + q)[|p|..] == q
  {
  }

  /** A stripped site line matches with its prefix group ending at the address
      and a single blank after it; the rest of the line is the pair. */
  lemma StrippedSiteMatches(host: string, a: string, b: string, selected: bool)
    requires AddressShape(host) && HostPair(a, b)
    ensures MatchesAt(StrippedSite(host, a, b, selected), |Comment(selected)|, 1)
    ensures StrippedSite(host, a, b, selected)[|Comment(selected)| + 10..]
         == a + (if b == "" then "" else " " + b)
  {
    var P := Comment(selected);
    var tail := a + (if b == "" then "" else " " + b);
    var r3 := " " + tail;
    var r2 := host + r3;
    var s := P + r2;
    assert s == StrippedSite(host, a, b, selected);
    SplitAt(P, r2);
    SplitAt(host, r3);
    assert s[|P|..] == r2;
    assert s[|P|..|P| + 9] == r2[..9] == host;
    assert s[|P| + 9..] == r3;
    SplitAt(" ", tail);
    assert s[|P| + 10..] == s[|P| + 9..][1..] == r3[1..] == tail;
    assert s[|P| + 9] == ' ';
    assert All(s[|P| + 9..|P| + 10], IsSpace);
    assert s[|P| + 10] == a[0];
  }

  /** The host groups of a line whose tail from `e` is a written pair. */
  lemma GroupsOfPair(s: string, e: nat, a: string, b: string)
    requires HostPair(a, b)
    requires e <= |s| && s[e..] == a + (if b == "" then "" else " " + b)
    ensures e < |s| && IsHostChar(s[e]) && HostGroups(s, e) == (a, b)
  {
    if b == "" {
      HostGroupsOne(s, e, a);
    } else {
      HostGroupsTwo(s, e, a, b);
    }
  }

  /** One blank after the address: the host groups start right after it. */
  lemma AddressThenHosts(s: string, c: nat, a: string, b: string)
    requires MatchesAt(s, c, 1) && HostPair(a, b)
    requires s[c + 10..] == a + (if b == "" then "" else " " + b)
    ensures ExtractData(s).Some? && PrefixEnd(s) == c && c + 9 <= |s| && HostStart(s) == c + 10
    ensures c + 10 < |s| && IsHostChar(s[c + 10]) && HostGroups(s, c + 10) == (a, b)
  {
    ScannerFromMatch(s, c, 1);
    GroupsOfPair(s, c + 10, a, b);
    AcceptedAt(s, c, 1);
  }

  /** A line whose address ends at `c + 9`, followed by one blank and then
      the pair, has that pair as its host groups. */
  lemma HostsAfterAddress(s: string, c: nat, a: string, b: string)
    requires MatchesAt(s, c, 1) && WellFormedPair(a, b)
    requires s[c + 10..] == a + (if b == "" then "" else " " + b)
    ensures var r := ExtractData(s); r.Some? && r.value.primary == a && r.value.alias == b
  {
    AddressThenHosts(s, c, a, b);
    RecordOfAccepted(s, c, c + 10);
    RecordAtHosts(s, c, c + 10, a, b);
  }

  /** The host groups of a stripped site line are the pair it was written from. */
  lemma ParseHosts(host: string, a: string, b: string, selected: bool)
    requires AddressShape(host) && WellFormedPair(a, b)
    ensures var r := ExtractData(StrippedSite(host, a, b, selected));
      r.Some? && r.value.primary == a && r.value.alias == b
  {
    StrippedSiteMatches(host, a, b, selected);
    HostsAfterAddress(StrippedSite(host, a, b, selected), |Comment(selected)|, a, b);
  }

  /** A stripped site line is read as blocked exactly when it was selected:
      only an unselected one starts with `#`. */
  lemma ParseBlocked(host: string, a: string, b: string, selected: bool)
    requires AddressShape(host) && HostPair(a, b)
    ensures var r := ExtractData(StrippedSite(host, a, b, selected));
      r.Some? && r.value.blocked == selected
  {
    var s := StrippedSite(host, a, b, selected);
    var c := |Comment(selected)|;
    StrippedSiteMatches(host, a, b, selected);
    BlockedIffNoHash(s, c, 1);
    if !selected {
      assert s[0] == '#';
    }
  }

  /** A stripped site line parses back to the pair it was written from, blocked
      exactly when it was selected. */
  lemma ParseStripped(host: string, a: string, b: string, selected: bool)
    requires AddressShape(host) && WellFormedPair(a, b)
    ensures ExtractData(StrippedSite(host, a, b, selected)) == Some(SiteRecord(selected, a, b))
  {
    ParseHosts(host, a, b, selected);
    ParseBlocked(host, a, b, selected);
  }

  /** A site line whose names are in any order parses to them in `www.` order:
      a line carrying only a `www.` name comes back with an empty primary. */
  lemma ParseAnyOrder(host: string, a: string, b: string, selected: bool)
    requires AddressShape(host) && HostPair(a, b)
    ensures var hosts := OrderHosts(a, b);
      ExtractData(StrippedSite(host, a, b, selected)) == Some(SiteRecord(selected, hosts.0, hosts.1))
  {
    var s := StrippedSite(host, a, b, selected);
    var c := |Comment(selected)|;
    StrippedSiteMatches(host, a, b, selected);
    AddressThenHosts(s, c, a, b);
    RecordOfAccepted(s, c, c + 10);
    ParseBlocked(host, a, b, selected);
  }

  /** A line carrying a lone `www.` name, as `# 127.0.0.1 www.linuxmint.com`
      in model_tests.py, parses with an empty primary and the name as alias. */
  lemma LoneWwwName(host: string, w: string, selected: bool)
    requires AddressShape(host) && w != "" && All(w, IsHostChar) && StartsWww(w)
    ensures ExtractData(StrippedSite(host, w, "", selected)) == Some(SiteRecord(selected, "", w))
  {
    ParseAnyOrder(host, w, "", selected);
  }

  /** Where the pieces of a line's tail `a ws b rest` sit in the line. */
  lemma TailLayout(s: string, e: nat, a: string, ws: string, b: string, rest: string)
    requires e <= |s| && s[e..] == a + ws + b + rest
    ensures |s| == e + |a| + |ws| + |b| + |rest|
    ensures forall k | e <= k < e + |a| :: s[k] == a[k - e]
    ensures forall k | e + |a| <= k < e + |a| + |ws| :: s[k] == ws[k - e - |a|]
    ensures forall k | e + |a| + |ws| <= k < e + |a| + |ws| + |b| :: s[k] == b[k - e - |a| - |ws|]
    ensures forall k | e + |a| + |ws| + |b| <= k < |s| :: s[k] == rest[k - e - |a| - |ws| - |b|]
    ensures s[e..e + |a|] == a && s[e + |a| + |ws|..e + |a| + |ws| + |b|] == b
  {
    var t := s[e..];
    assert forall k | e <= k < |s| :: s[k] == t[k - e];
    assert t[..|a|] == a;
    assert t[|a| + |ws|..|a| + |ws| + |b|] == b;
  }

  /** The two host groups of a tail `a ws b rest`: however much whitespace
      separates and follows the names, they are `a` and `b`. */
  lemma TolerantGroups(s: string, e: nat, a: string, ws: string, b: string, rest: string)
    requires e <= |s| && s[e..] == a + ws + b + rest
    requires HostPair(a, b) && All(ws, IsSpace) && All(rest, IsSpace)
    requires b != "" ==> ws != ""
    ensures e < |s| && IsHostChar(s[e]) && HostGroups(s, e) == (a, b)
  {
    TailLayout(s, e, a, ws, b, rest);
    if b != "" {
      HostGroupsIs(s, e, |a|, |ws|, |b|);
    } else {
      HostGroupsIs(s, e, |a|, |ws| + |rest|, 0);
      assert s[|s|..|s|] == b;
    }
  }

  /** model.py `extract_data` on any line the regular expression matches with
      the comment prefix `s[..c]` and `w` blanks after the address, whose tail
      is one or two names set apart by any whitespace and followed by
      whitespace only: the names come back in `www.` order, and the line is
      blocked exactly when its prefix has no `#`. */
  lemma ParseTolerant(s: string, c: nat, w: nat, a: string, ws: string, b: string, rest: string)
    requires MatchesAt(s, c, w) && s[c + 9 + w..] == a + ws + b + rest
    requires HostPair(a, b) && All(ws, IsSpace) && All(rest, IsSpace)
    requires b != "" ==> ws != ""
    ensures var hosts := OrderHosts(a, b);
      ExtractData(s) == Some(SiteRecord(forall k | 0 <= k < c :: s[k] != '#', hosts.0, hosts.1))
  {
    var e := c + 9 + w;
    MatchAccepted(s, c, w);
    TolerantGroups(s, e, a, ws, b, rest);
    RecordOfGroups(s, c, e, a, b);
    BlockedIffNoHash(s, c, w);
  }

  /** An accepted line's record carries its host groups in `www.` order. */
  lemma RecordOfGroups(s: string, c: nat, e: nat, a: string, b: string)
    requires ExtractData(s).Some? && PrefixEnd(s) == c && c + 9 <= |s| && HostStart(s) == e
    requires e < |s| && IsHostChar(s[e]) && HostGroups(s, e) == (a, b)
    ensures var r := ExtractData(s).value;
      r == SiteRecord(r.blocked, OrderHosts(a, b).0, OrderHosts(a, b).1)
  {
    RecordOfAccepted(s, c, e);
  }

  lemma MatchAccepted(s: string, c: nat, w: nat)
    requires MatchesAt(s, c, w)
    ensures ExtractData(s).Some? && PrefixEnd(s) == c && c + 9 <= |s| && HostStart(s) == c + 9 + w
  {
    ScannerFromMatch(s, c, w);
    AcceptedAt(s, c, w);
  }


  /** A line built as comment prefix, address, blanks, names and trailing
      whitespace, as the lines of model_tests.py are: `extract_data` gives its
      names in `www.` order, blocked exactly when the prefix has no `#`. */
  lemma ParseSpacedLine(p: string, host: string, w1: string, a: string, w2: string, b: string, w3: string)
    requires CommentPrefix(p) && AddressShape(host) && w1 != "" && All(w1, IsSpace)
    requires HostPair(a, b) && All(w2, IsSpace) && All(w3, IsSpace)
    requires b != "" ==> w2 != ""
    ensures var hosts := OrderHosts(a, b);
      ExtractData(p + host + w1 + a + w2 + b + w3)
        == Some(SiteRecord(forall k | 0 <= k < |p| :: p[k] != '#', hosts.0, hosts.1))
  {
    var tail := a + w2 + b + w3;
    var s := p + host + w1 + tail;
    assert p + host + w1 + a + w2 + b + w3 == s;
    SpacedLineMatches(p, host, w1, tail);
    ParseTolerant(s, |p|, |w1|, a, w2, b, w3);
  }

  /** The line `p host w1 tail` matches with prefix `p` and `w1` blanks after
      the address. */
  lemma SpacedLineMatches(p: string, host: string, w1: string, tail: string)
    requires CommentPrefix(p) && AddressShape(host) && w1 != "" && All(w1, IsSpace)
    requires tail != "" && IsHostChar(tail[0])
    ensures var s := p + host + w1 + tail;
      && MatchesAt(s, |p|, |w1|) && s[|p| + 9 + |w1|..] == tail
      && forall k | 0 <= k < |p| :: s[k] == p[k]
  {
    var r3 := w1 + tail;
    var r2 := host + r3;
    var s := p + r2;
    assert s == p + host + w1 + tail;
    SplitAt(p, r2);
    SplitAt(host, r3);
    SplitAt(w1, tail);
    assert s[|p|..] == r2;
    assert s[|p|..|p| + 9] == r2[..9] == host;
    assert s[|p| + 9..] == r3;
    assert s[|p| + 9..|p| + 9 + |w1|] == r3[..|w1|] == w1;
    assert s[|p| + 9 + |w1|..] == r3[|w1|..] == tail;
    assert s[|p| + 9 + |w1|] == tail[0];
  }

  /** A marker line comes back from `strip` as the bare marker. */
  lemma MarkerStrips(m: string, app: string)
    requires SafeAppName(app) && |m| > |app| && m[0] == '#'
    requires m[|m| - 1] == app[|app| - 1]
    ensures Strip(m + "\n") == m
  {
    assert All("\n", IsSpace);
    StripTrailing(m, "\n");
  }

  lemma MarkersStrip(app: string)
    requires SafeAppName(app)
    ensures Strip(Head(app) + "\n") == Head(app)
    ensures Strip(Foot(app) + "\n") == Foot(app)
  {
    MarkerStrips(Head(app), app);
    MarkerStrips(Foot(app), app);
  }

  /** A stripped site line is neither marker: it starts with a digit or with `# ` and a digit. */
  lemma StrippedNotMarker(host: string, a: string, b: string, selected: bool, app: string)
    requires AddressShape(host)
    ensures !StartsWith(StrippedSite(host, a, b, selected), Head(app))
    ensures !StartsWith(StrippedSite(host, a, b, selected), Foot(app))
  {
    var l := StrippedSite(host, a, b, selected);
    if selected {
      assert l[0] == host[0];
      assert l[0] != Head(app)[0] && l[0] != Foot(app)[0];
    } else {
      assert l[2] == host[0];
      assert l[2] != Head(app)[2] && l[2] != Foot(app)[2];
    }
  }

  /** When no line strips to nothing, `read_file` keeps every line, stripped. */
  lemma {:induction false} NonBlankAll(lines: seq<string>)
    requires forall i | 0 <= i < |lines| :: Strip(lines[i]) != ""
    ensures NonBlankStripped(lines) == seq(|lines|, i requires 0 <= i < |lines| => Strip(lines[i]))
  {
    if |lines| > 0 {
      NonBlankAll(lines[1..]);
    }
  }

  /** What `read_file` returns for a region written from `sites`. */
  function SiteLines(host: string, sites: seq<seq<string>>, sel: seq<int>): (r: seq<string>)
    requires PairSites(sites)
    ensures |r| == |sites|
  {
    seq(|sites|, i requires 0 <= i < |sites| => StrippedSite(host, sites[i][0], sites[i][1], i in sel))
  }

  /** What `extract_sites` returns for those lines: every pair, blocked exactly
      when its position is selected. */
  function SiteRecords(sites: seq<seq<string>>, sel: seq<int>): (r: seq<SiteRecord>)
    requires PairSites(sites)
    ensures |r| == |sites|
  {
    seq(|sites|, i requires 0 <= i < |sites| => SiteRecord(i in sel, sites[i][0], sites[i][1]))
  }

  lemma PairsOnOneLine(host: string, sites: seq<seq<string>>)
    requires AddressShape(host) && PairSites(sites)
    ensures NoNewline(host) && TokensOnOneLine(sites)
  {
    forall k | 0 <= k < |host| ensures NotNewline(host[k]) { }
    forall i, j | 0 <= i < |sites| && 0 <= j < |sites[i]| ensures NoNewline(sites[i][j]) {
      forall k | 0 <= k < |sites[i][j]| ensures NotNewline(sites[i][j][k]) {
        assert IsHostChar(sites[i][j][k]);
      }
    }
  }

  /** One written site line, stripped, is its `StrippedSite`, which is no marker. */
  lemma SiteLineStrips(host: string, site: seq<string>, selected: bool, app: string)
    requires AddressShape(host) && |site| == 2 && WellFormedPair(site[0], site[1])
    ensures Strip(RenderLine(host, site, selected)) == StrippedSite(host, site[0], site[1], selected)
    ensures !StartsWith(Strip(RenderLine(host, site, selected)), Head(app))
    ensures !StartsWith(Strip(RenderLine(host, site, selected)), Foot(app))
  {
    assert site == [site[0], site[1]];
    StripRendered(host, site[0], site[1], selected);
    StrippedNotMarker(host, site[0], site[1], selected, app);
  }

  /** The site lines of a written region, stripped, are `SiteLines`, and none is a marker. */
  lemma RegionBody(app: string, host: string, sites: seq<seq<string>>, sel: seq<int>)
    requires AddressShape(host) && PairSites(sites)
    ensures var r := Appended(app, host, sites, sel);
      && NoStrippedMarker(r[1..|r| - 1], app)
      && NonBlankStripped(r[1..|r| - 1]) == SiteLines(host, sites, sel)
  {
    var r := Appended(app, host, sites, sel);
    var body := r[1..|r| - 1];
    var want := SiteLines(host, sites, sel);
    forall i | 0 <= i < |body|
      ensures Strip(body[i]) == want[i]
      ensures !StartsWith(Strip(body[i]), Head(app)) && !StartsWith(Strip(body[i]), Foot(app))
    {
      assert body[i] == r[i + 1];
      SiteLineStrips(host, sites[i], i in sel, app);
    }
    NonBlankAll(body);
  }

  /** What `read_file` needs to know of an appended region. */
  lemma RegionFacts(app: string, host: string, sites: seq<seq<string>>, sel: seq<int>)
    requires SafeAppName(app) && AddressShape(host) && PairSites(sites)
    ensures var r := Appended(app, host, sites, sel);
      && StartsWith(Strip(r[0]), Head(app)) && StartsWith(Strip(r[|r| - 1]), Foot(app))
      && NoStrippedMarker(r[1..|r| - 1], app)
      && NonBlankStripped(r[1..|r| - 1]) == SiteLines(host, sites, sel)
  {
    RegionBody(app, host, sites, sel);
    MarkersStrip(app);
  }

  /** `read_file` over the lines a rewrite leaves: outside lines with no head
      marker, the head line, the site lines, the foot line. */
  lemma ReadWritten(L: seq<string>, r: seq<string>, app: string)
    requires |r| >= 2 && NoStrippedHead(L, app)
    requires StartsWith(Strip(r[0]), Head(app)) && StartsWith(Strip(r[|r| - 1]), Foot(app))
    requires NoStrippedMarker(r[1..|r| - 1], app)
    ensures ReadLines(L + r, app, false) == NonBlankStripped(r[1..|r| - 1])
  {
    var body := r[1..|r| - 1];
    SplitEnds(r);
    Regroup(L, r[0], body, r[|r| - 1]);
    ReadRegion(L, r[0], body, r[|r| - 1], [], app);
    HeadFreeKeeps(body, app);
    assert NonBlankStripped(body) + [] == NonBlankStripped(body);
  }

  /** Reading back a region just written gives its site lines, stripped: the
      lines outside it contribute nothing, provided none of them strips to a
      head marker. */
  lemma WriteThenRead(text: string, app: string, host: string, sites: seq<seq<string>>, sel: seq<int>)
    requires EndsAtLineEnd(ClearText(text, app))
    requires SafeAppName(app) && AddressShape(host) && PairSites(sites)
    requires NoStrippedHead(ClearLines(SplitLines(text), app, true), app)
    ensures ReadFile(WriteFile(text, app, host, sites, sel), app) == SiteLines(host, sites, sel)
  {
    var r := Appended(app, host, sites, sel);
    PairsOnOneLine(host, sites);
    WriteFileLines(text, app, host, sites, sel);
    RegionFacts(app, host, sites, sel);
    ReadWritten(ClearLines(SplitLines(text), app, true), r, app);
  }

  /** The headline round trip: what the blocker writes for a list of pairs and
      a selection, read back and parsed, is every pair in order, blocked
      exactly when it was selected. */
  lemma WriteReadExtract(text: string, app: string, host: string, sites: seq<seq<string>>, sel: seq<int>)
    requires EndsAtLineEnd(ClearText(text, app))
    requires SafeAppName(app) && AddressShape(host) && PairSites(sites)
    requires NoStrippedHead(ClearLines(SplitLines(text), app, true), app)
    ensures ExtractSites(ReadFile(WriteFile(text, app, host, sites, sel), app)) == SiteRecords(sites, sel)
  {
    WriteThenRead(text, app, host, sites, sel);
    ExtractSiteLines(host, sites, sel);
  }

  /** The written site lines, read back, parse to every pair in order. */
  lemma ExtractSiteLines(host: string, sites: seq<seq<string>>, sel: seq<int>)
    requires AddressShape(host) && PairSites(sites)
    ensures ExtractSites(SiteLines(host, sites, sel)) == SiteRecords(sites, sel)
  {
    var lines := SiteLines(host, sites, sel);
    forall i | 0 <= i < |lines|
      ensures ExtractData(lines[i]) == Some(SiteRecords(sites, sel)[i])
    {
      ParseStripped(host, sites[i][0], sites[i][1], i in sel);
    }
    ExtractSitesAllMatch(lines);
  }

  // ---------------------------------------------------------------------------
  // A file whose last line has no newline
  // ---------------------------------------------------------------------------

  /** The region, appended to a single unterminated line `x`, as model.py
      `write_file` writes it: the head marker is glued to `x`, so the file has
      no head line any more. `read_file` then finds nothing, and clearing
      keeps `x`, the head marker and every site line, which later writes can
      no longer remove. */
  lemma GluedHeadAsWritten(x: string, app: string, host: string, sites: seq<seq<string>>, sel: seq<int>)
    requires x != "" && NoNewline(x) && NotSpace(x[0]) && x[0] != '#'
    requires SafeAppName(app) && AddressShape(host) && PairSites(sites)
    ensures ClearText(x, app) == x
    ensures ReadFile(WriteFile(x, app, host, sites, sel), app) == []
    ensures var kept := ClearText(WriteFile(x, app, host, sites, sel), app);
      kept == x + Concat(Appended(app, host, sites, sel)[..|sites| + 1]) && kept != x
  {
    var A := Appended(app, host, sites, sel);
    var W := WriteFile(x, app, host, sites, sel);
    ClearOneLine(x, app);
    GluedWrite(x, app, host, sites, sel);
    GluedRead(x, app, host, sites, sel);
    GluedKept(x, app, host, sites, sel);
  }

  /** A single line that is no marker line is left as it is by clearing. */
  lemma ClearOneLine(x: string, app: string)
    requires x != "" && NoNewline(x) && x[0] != '#'
    ensures ClearText(x, app) == x
  {
    OneLine(x);
    assert x[0] != Head(app)[0] && x[0] != Foot(app)[0];
    assert !IsHeadLine(x, app) && !IsFootLine(x, app);
    assert ClearLines([x], app, true) == [x];
    assert Concat([x]) == x;
  }

  /** The written file's lines: the head marker glued to `x`, then the rest of
      the region. */
  lemma GluedWrite(x: string, app: string, host: string, sites: seq<seq<string>>, sel: seq<int>)
    requires x != "" && NoNewline(x) && x[0] != '#'
    requires SafeAppName(app) && AddressShape(host) && PairSites(sites)
    ensures var A := Appended(app, host, sites, sel);
      SplitLines(WriteFile(x, app, host, sites, sel)) == [x + A[0]] + A[1..]
  {
    ClearOneLine(x, app);
    PairsOnOneLine(host, sites);
    AppendedWellSplit(app, host, sites, sel);
    GluedLines(x, Appended(app, host, sites, sel));
  }

  lemma GluedRead(x: string, app: string, host: string, sites: seq<seq<string>>, sel: seq<int>)
    requires x != "" && NoNewline(x) && NotSpace(x[0]) && x[0] != '#'
    requires SafeAppName(app) && AddressShape(host) && PairSites(sites)
    ensures var A := Appended(app, host, sites, sel);
      ReadLines([x + A[0]] + A[1..], app, false) == []
  {
    var A := Appended(app, host, sites, sel);
    GluedHeadStrips(x, app);
    RegionFacts(app, host, sites, sel);
    GluedReadsNothing(x + A[0], A, app);
  }

  lemma GluedKept(x: string, app: string, host: string, sites: seq<seq<string>>, sel: seq<int>)
    requires x != "" && NoNewline(x) && NotSpace(x[0]) && x[0] != '#'
    requires SafeAppName(app) && AddressShape(host)
    ensures var A := Appended(app, host, sites, sel);
      var kept := Concat(ClearLines([x + A[0]] + A[1..], app, true));
      kept == x + Concat(A[..|sites| + 1]) && kept != x
  {
    var A := Appended(app, host, sites, sel);
    var body := A[1..|A| - 1];
    var g := x + A[0];
    GluedHeadStrips(x, app);
    GluedClear(g, A, host, sites, sel, app);
    assert A[..|sites| + 1] == [A[0]] + body;
    ConcatCons(A[0], body);
    ConcatCons(g, body);
    ConcatAssoc(x, A[0], Concat(body));
  }

  /** A non-empty text without a newline is one line. */
  lemma OneLine(x: string)
    requires x != "" && NoNewline(x)
    ensures SplitLines(x) == [x]
  {
    assert Concat([x]) == x;
    SplitConcat([x]);
  }

  /** Lines appended after an unterminated line: the first is glued to it. */
  lemma GluedLines(x: string, A: seq<string>)
    requires x != "" && NoNewline(x) && |A| > 1 && WellSplit(A)
    ensures SplitLines(x + Concat(A)) == [x + A[0]] + A[1..]
  {
    var ls := [x + A[0]] + A[1..];
    var tail := Concat(A[1..]);
    GluedWellSplit(x, A);
    ConcatCons(x + A[0], A[1..]);
    assert Concat(A) == A[0] + tail;
    ConcatAssoc(x, A[0], tail);
    assert Concat(ls) == x + Concat(A);
    SplitConcat(ls);
  }

  lemma GluedWellSplit(x: string, A: seq<string>)
    requires x != "" && NoNewline(x) && |A| > 1 && WellSplit(A)
    ensures WellSplit([x + A[0]] + A[1..])
  {
    var ls := [x + A[0]] + A[1..];
    var g := x + A[0];
    assert IsLine(A[0]) && EndsWithNewline(A[0]);
    forall k | 0 <= k < |g| - 1 ensures g[k] != '\n' {
      if k < |x| { assert g[k] == x[k]; } else { assert g[k] == A[0][k - |x|]; }
    }
    assert IsLine(g) && EndsWithNewline(g);
    forall i | 1 <= i < |ls| ensures ls[i] == A[i] { }
  }

  /** The glued line strips to `x` followed by the head marker, so it neither
      is a head line nor strips to one. */
  lemma GluedHeadStrips(x: string, app: string)
    requires x != "" && NoNewline(x) && NotSpace(x[0]) && x[0] != '#' && SafeAppName(app)
    ensures var g := x + (Head(app) + "\n");
      && !IsHeadLine(g, app) && !IsFootLine(g, app)
      && !StartsWith(Strip(g), Head(app))
  {
    var g := x + (Head(app) + "\n");
    GluedStrip(x, app);
    assert g[0] == x[0];
    assert Head(app)[0] == '#' && Foot(app)[0] == '#';
  }

  lemma GluedStrip(x: string, app: string)
    requires x != "" && NoNewline(x) && NotSpace(x[0]) && SafeAppName(app)
    ensures Strip(x + (Head(app) + "\n")) == x + Head(app)
  {
    var core := x + Head(app);
    assert x + (Head(app) + "\n") == core + "\n";
    assert core[|core| - 1] == app[|app| - 1];
    assert All("\n", IsSpace);
    StripTrailing(core, "\n");
  }

  /** `read_file` over the glued line and the rest of the region finds no head
      line and returns nothing. */
  lemma GluedReadsNothing(g: string, A: seq<string>, app: string)
    requires |A| >= 2 && !StartsWith(Strip(g), Head(app))
    requires StartsWith(Strip(A[|A| - 1]), Foot(app)) && NoStrippedMarker(A[1..|A| - 1], app)
    ensures ReadLines([g] + A[1..], app, false) == []
  {
    var ls := [g] + A[1..];
    forall i | 0 <= i < |ls| ensures !StartsWith(Strip(ls[i]), Head(app)) {
      if 0 < i < |ls| - 1 {
        assert ls[i] == A[1..|A| - 1][i - 1];
      } else if i == |ls| - 1 && i > 0 {
        assert ls[i] == A[|A| - 1];
        MarkersDisjoint(Strip(A[|A| - 1]), app);
      }
    }
    NoHeadReadsNothing(ls, app);
  }

  /** Clearing the glued lines drops only the foot line. */
  lemma GluedClear(g: string, A: seq<string>, host: string, sites: seq<seq<string>>, sel: seq<int>, app: string)
    requires A == Appended(app, host, sites, sel) && AddressShape(host)
    requires !IsHeadLine(g, app) && !IsFootLine(g, app)
    ensures ClearLines([g] + A[1..], app, true) == [g] + A[1..|A| - 1]
  {
    var body := A[1..|A| - 1];
    forall i | 0 <= i < |body| ensures !IsHeadLine(body[i], app) && !IsFootLine(body[i], app) {
      assert body[i] == A[i + 1];
      SiteLineNotMarker(host, sites[i], i in sel, app);
    }
    var a := [g] + body;
    assert Unmarked(a, app);
    assert [g] + A[1..] == a + [A[|A| - 1]] + [];
    ClearStrayFoot(a, A[|A| - 1], [], app);
    assert a + [] == a;
  }
  /** The text kept outside the region, its last line given a newline if it
      lacks one. */
  function Terminated(c: string): (r: string)
    ensures EndsAtLineEnd(r)
    ensures EndsAtLineEnd(c) ==> r == c
    ensures !EndsAtLineEnd(c) ==> r == c + "\n"
  {
    if EndsAtLineEnd(c) then c else c + "\n"
  }

  /** `write_file` as evidently intended: the region always starts on a line
      of its own. It writes what model.py `write_file` writes whenever the
      cleared text ends at a line end. */
  function WriteFileTerminated(text: string, app: string, host: string, sites: seq<seq<string>>, sel: seq<int>): (r: string)
    ensures EndsAtLineEnd(ClearText(text, app)) ==> r == WriteFile(text, app, host, sites, sel)
    ensures var c := ClearText(text, app);
      && |r| > |c| && r[..|c|] == c
      && EndsWith(r, Foot(app) + "\n")
  {
    var c := ClearText(text, app);
    var s := Concat(Appended(app, host, sites, sel));
    var r := Terminated(c) + s;
    var w := WriteFile(text, app, host, sites, sel);
    assert w == c + s && w[|c|..] == s;
    EndsWithRebase(c, Terminated(c), s, Foot(app) + "\n");
    assert r[..|c|] == c;
    r
  }

  /** Terminating the last line keeps the lines unmarked and free of stripped
      head markers. */
  lemma TerminatedLines(c: string, app: string)
    requires NoNewline(app)
    ensures Unmarked(SplitLines(c), app) ==> Unmarked(SplitLines(Terminated(c)), app)
    ensures NoStrippedHead(SplitLines(c), app) ==> NoStrippedHead(SplitLines(Terminated(c)), app)
  {
    if !EndsAtLineEnd(c) {
      SplitTerminate(c);
      LastLineTerminated(SplitLines(c), SplitLines(c + "\n"), app);
    }
  }

  lemma LastLineTerminated(ls: seq<string>, ls': seq<string>, app: string)
    requires |ls| > 0 && ls' == ls[..|ls| - 1] + [ls[|ls| - 1] + "\n"] && NoNewline(app)
    ensures Unmarked(ls, app) ==> Unmarked(ls', app)
    ensures NoStrippedHead(ls, app) ==> NoStrippedHead(ls', app)
  {
    var n := |ls|;
    var l := ls[n - 1];
    StripNewline(l);
    NewlineNotMarker(l, app);
    assert forall i | 0 <= i < n - 1 :: ls'[i] == ls[i];
    assert ls'[n - 1] == l + "\n";
  }

  /** A marker holds no newline, so a line is a marker line exactly when it is
      one with a newline added. */
  lemma NewlineNotMarker(l: string, app: string)
    requires NoNewline(app)
    ensures IsHeadLine(l + "\n", app) ==> IsHeadLine(l, app)
    ensures IsFootLine(l + "\n", app) ==> IsFootLine(l, app)
  {
    var h, f := Head(app), Foot(app);
    MarkersOneLine(app);
    var t := l + "\n";
    assert t[|l|] == '\n';
    if IsHeadLine(t, app) {
      assert forall k | 0 <= k < |h| :: h[k] == t[k];
      assert |h| <= |l|;
      assert t[..|h|] == l[..|h|];
    }
    if IsFootLine(t, app) {
      assert forall k | 0 <= k < |f| :: f[k] == t[k];
      assert |f| <= |l|;
      assert t[..|f|] == l[..|f|];
    }
  }

  lemma MarkersOneLine(app: string)
    requires NoNewline(app)
    ensures NoNewline(Head(app)) && NoNewline(Foot(app))
  {
    var h, f := Head(app), Foot(app);
    forall k | 0 <= k < |h| ensures NotNewline(h[k]) {
      if k >= 8 { assert h[k] == app[k - 8]; }
    }
    forall k | 0 <= k < |f| ensures NotNewline(f[k]) {
      if k >= 6 { assert f[k] == app[k - 6]; }
    }
  }

  /** The lines of the corrected write: the terminated outside lines, then the
      region. */
  lemma TerminatedWriteLines(text: string, app: string, host: string, sites: seq<seq<string>>, sel: seq<int>)
    requires NoNewline(app) && NoNewline(host) && TokensOnOneLine(sites)
    ensures SplitLines(WriteFileTerminated(text, app, host, sites, sel))
         == SplitLines(Terminated(ClearText(text, app))) + Appended(app, host, sites, sel)
  {
    var t := Terminated(ClearText(text, app));
    var a := Appended(app, host, sites, sel);
    assert WriteFileTerminated(text, app, host, sites, sel) == t + Concat(a);
    SplitAppend(t, Concat(a));
    AppendedWellSplit(app, host, sites, sel);
    SplitConcat(a);
  }

  /** Clearing the corrected write gives back the outside text, its last line
      terminated: whatever the file held outside the region survives. */
  lemma TerminatedPreservesOutside(text: string, app: string, host: string, sites: seq<seq<string>>, sel: seq<int>)
    requires NoNewline(app) && AddressShape(host) && TokensOnOneLine(sites)
    ensures ClearText(WriteFileTerminated(text, app, host, sites, sel), app) == Terminated(ClearText(text, app))
  {
    var t := Terminated(ClearText(text, app));
    assert NoNewline(host) by {
      forall k | 0 <= k < |host| ensures NotNewline(host[k]) { }
    }
    TerminatedWriteLines(text, app, host, sites, sel);
    TerminatedLines(ClearText(text, app), app);
    ClearAppended(SplitLines(t), app, host, sites, sel);
  }

  /** With the corrected write, writing twice is writing the second time only,
      whatever the file's last line. */
  lemma TerminatedLastWriteWins(text: string, app: string, host: string,
                                sites1: seq<seq<string>>, sel1: seq<int>, sites2: seq<seq<string>>, sel2: seq<int>)
    requires NoNewline(app) && AddressShape(host) && TokensOnOneLine(sites1)
    ensures WriteFileTerminated(WriteFileTerminated(text, app, host, sites1, sel1), app, host, sites2, sel2)
         == WriteFileTerminated(text, app, host, sites2, sel2)
  {
    TerminatedPreservesOutside(text, app, host, sites1, sel1);
  }

  /** Reading back a region the corrected write produced gives its site lines,
      whatever the file's last line. */
  lemma TerminatedThenRead(text: string, app: string, host: string, sites: seq<seq<string>>, sel: seq<int>)
    requires SafeAppName(app) && AddressShape(host) && PairSites(sites)
    requires NoStrippedHead(ClearLines(SplitLines(text), app, true), app)
    ensures ReadFile(WriteFileTerminated(text, app, host, sites, sel), app) == SiteLines(host, sites, sel)
  {
    var t := Terminated(ClearText(text, app));
    var r := Appended(app, host, sites, sel);
    PairsOnOneLine(host, sites);
    TerminatedWriteLines(text, app, host, sites, sel);
    TerminatedLines(ClearText(text, app), app);
    RegionFacts(app, host, sites, sel);
    ReadWritten(SplitLines(t), r, app);
  }

  /** The headline round trip for the corrected write: every pair comes back
      in order, blocked exactly when it was selected, with no condition on
      how the file ended. */
  lemma TerminatedReadExtract(text: string, app: string, host: string, sites: seq<seq<string>>, sel: seq<int>)
    requires SafeAppName(app) && AddressShape(host) && PairSites(sites)
    requires NoStrippedHead(ClearLines(SplitLines(text), app, true), app)
    ensures ExtractSites(ReadFile(WriteFileTerminated(text, app, host, sites, sel), app)) == SiteRecords(sites, sel)
  {
    TerminatedThenRead(text, app, host, sites, sel);
    ExtractSiteLines(host, sites, sel);
  }
}
