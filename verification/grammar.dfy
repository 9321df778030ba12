/** The line grammar of the managed region (model.py `extract_data`,
    `extract_sites`): the verbose regular expression

        (\s*\#*\s*) (\d{3}.\d{1}.\d{1}.\d{1}) (\s+) ([\w\.\-]+) (\s*) ([\w\.\-]*)

    applied with `re.match` (anchored at the start, not at the end). Every
    quantifier may take its longest run, because what follows it is either
    optional or starts with a character of another class, so the scanner below
    has no backtracking; `LineMatchesIff` proves that this scanner accepts
    exactly the lines the declarative grammar accepts. */
module Grammar {
  import opened Text

  datatype Option<T> = None | Some(value: T)

  /** One parsed line: `blocked` is true when the line is not commented out. */
  datatype SiteRecord = SiteRecord(blocked: bool, primary: string, alias: string)

  /** `\d{3}.\d{1}.\d{1}.\d{1}`: the dots are not escaped, so each separator is
      any character but a newline. */
  predicate AddressShape(a: string) {
    && |a| == 9
    && IsDigit(a[0]) && IsDigit(a[1]) && IsDigit(a[2]) && a[3] != '\n'
    && IsDigit(a[4]) && a[5] != '\n' && IsDigit(a[6]) && a[7] != '\n' && IsDigit(a[8])
  }

  /** `sorted((x, y), key=lambda i: i.startswith("www."))`. */
  function OrderHosts(x: string, y: string): (r: (string, string))
    ensures r == (x, y) || r == (y, x)
    ensures !(StartsWww(r.0) && !StartsWww(r.1))
    ensures StartsWww(x) == StartsWww(y) ==> r == (x, y)
  {
    if StartsWww(x) && !StartsWww(y) then (y, x) else (x, y)
  }

  // ---------------------------------------------------------------------------
  // The greedy scanner
  // ---------------------------------------------------------------------------

  /** End of the comment prefix `\s*\#*\s*` taken greedily. */
  function PrefixEnd(s: string): (c: nat)
    ensures c <= |s|
  {
    var a := Run(s, 0, IsSpace);
    var b := a + Run(s, a, IsHash);
    b + Run(s, b, IsSpace)
  }

  /** Groups 4 and 6 when group 4 starts at `e`: `[\w.-]+`, `\s*`, `[\w.-]*`,
      each taking its longest run. */
  function HostGroups(s: string, e: nat): (r: (string, string))
    requires e < |s| && IsHostChar(s[e])
    ensures |r.0| > 0 && All(r.0, IsHostChar) && All(r.1, IsHostChar)
  {
    var f := e + Run(s, e, IsHostChar);
    var g := f + Run(s, f, IsSpace);
    var h2 := s[g..g + Run(s, g, IsHostChar)];
    assert All(h2, IsHostChar) by {
      forall k | 0 <= k < |h2| ensures IsHostChar(h2[k]) { assert h2[k] == s[g + k]; }
    }
    assert All(s[e..f], IsHostChar) by {
      forall k | 0 <= k < f - e ensures IsHostChar(s[e..f][k]) { assert s[e..f][k] == s[e + k]; }
    }
    (s[e..f], h2)
  }
  /** `HostGroups` once the lengths of its three runs are known. */
  lemma HostGroupsOfRuns(s: string, e: nat, n1: nat, n2: nat, n3: nat)
    requires 0 < n1 && e + n1 + n2 + n3 <= |s| && IsHostChar(s[e])
    requires Run(s, e, IsHostChar) == n1
    requires Run(s, e + n1, IsSpace) == n2
    requires Run(s, e + n1 + n2, IsHostChar) == n3
    ensures HostGroups(s, e) == (s[e..e + n1], s[e + n1 + n2..e + n1 + n2 + n3])
  {
  }


  /** Where group 4 starts: after the prefix, the address and the `\s+` run. */
  function HostStart(s: string): (e: nat)
    requires PrefixEnd(s) + 9 <= |s|
    ensures PrefixEnd(s) + 9 <= e <= |s|
  {
    PrefixEnd(s) + 9 + Run(s, PrefixEnd(s) + 9, IsSpace)
  }

  /** The record of a line whose prefix group ends at `c` and whose group 4
      starts at `e`: blocked when the prefix, stripped, does not start with `#`;
      the two host groups ordered by `OrderHosts`. */
  function RecordAt(s: string, c: nat, e: nat): (r: SiteRecord)
    requires c <= |s| && e < |s| && IsHostChar(s[e])
    ensures All(r.primary, IsHostChar) && All(r.alias, IsHostChar)
    ensures r.primary != "" || r.alias != ""
    ensures !(StartsWww(r.primary) && !StartsWww(r.alias))
  {
    var groups := HostGroups(s, e);
    var hosts := OrderHosts(groups.0, groups.1);
    SiteRecord(!StartsWith(Strip(s[..c]), "#"), hosts.0, hosts.1)
  }

  /** model.py `extract_data`: `None` when `re.match` fails, otherwise the
      record of the greedy match. */
  function ExtractData(s: string): (r: Option<SiteRecord>)
    ensures r.Some? ==> All(r.value.primary, IsHostChar) && All(r.value.alias, IsHostChar)
    ensures r.Some? ==> r.value.primary != "" || r.value.alias != ""
    ensures r.Some? ==> !(StartsWww(r.value.primary) && !StartsWww(r.value.alias))
  {
    var c := PrefixEnd(s);
    if c + 9 > |s| || !AddressShape(s[c..c + 9]) then None
    else
      var e := HostStart(s);
      if e == c + 9 || e == |s| || !IsHostChar(s[e]) then None
      else Some(RecordAt(s, c, e))
  }

  /** An accepted line's record is the one at the greedy positions. */
  lemma ExtractDataRecord(s: string)
    requires ExtractData(s).Some?
    ensures PrefixEnd(s) + 9 <= |s| && HostStart(s) < |s| && IsHostChar(s[HostStart(s)])
    ensures ExtractData(s) == Some(RecordAt(s, PrefixEnd(s), HostStart(s)))
  {
  }

  /** model.py `extract_sites`: the records of the lines that match, in order. */
  function ExtractSites(lines: seq<string>): (r: seq<SiteRecord>)
    ensures |r| <= |lines|
    ensures forall i | 0 <= i < |r| :: Shaped(r[i])
    ensures (forall i | 0 <= i < |lines| :: ExtractData(lines[i]).None?) ==> r == []
  {
    if |lines| == 0 then []
    else
      var rest := ExtractSites(lines[1..]);
      match ExtractData(lines[0])
      case Some(rec) =>
        ShapedCons(rec, rest);
        [rec] + rest
      case None => rest
  }

  /** What every parsed record looks like: host characters only, and never a
      `www.` primary before a bare alias. */
  predicate Shaped(x: SiteRecord) {
    && All(x.primary, IsHostChar) && All(x.alias, IsHostChar)
    && !(StartsWww(x.primary) && !StartsWww(x.alias))
  }

  lemma ShapedCons(x: SiteRecord, xs: seq<SiteRecord>)
    requires Shaped(x) && forall i | 0 <= i < |xs| :: Shaped(xs[i])
    ensures forall i | 0 <= i < |xs| + 1 :: Shaped(([x] + xs)[i])
  {
    assert forall i | 1 <= i < |xs| + 1 :: ([x] + xs)[i] == xs[i - 1];
  }

  // ---------------------------------------------------------------------------
  // The declarative grammar
  // ---------------------------------------------------------------------------

  /** `p` is a word of `\s*\#*\s*`: whitespace and `#` only, the `#`s contiguous. */
  predicate CommentPrefix(p: string) {
    && (forall k | 0 <= k < |p| :: IsSpace(p[k]) || p[k] == '#')
    && (forall i, j, k | 0 <= i < j < k < |p| && p[i] == '#' && p[k] == '#' :: p[j] == '#')
  }

  /** `re.match` of the line pattern succeeds with the prefix group ending at
      `c` and `\s+` taking `w` characters: after them one host character is all
      the rest of the pattern needs, since `\s*` and `[\w.-]*` may be empty. */
  predicate MatchesAt(s: string, c: nat, w: nat) {
    && w > 0 && c + 9 + w < |s|
    && CommentPrefix(s[..c])
    && AddressShape(s[c..c + 9])
    && All(s[c + 9..c + 9 + w], IsSpace)
    && IsHostChar(s[c + 9 + w])
  }

  predicate LineMatches(s: string) {
    exists c: nat, w: nat | c < |s| && w < |s| :: MatchesAt(s, c, w)
  }

  lemma PrefixEndIsCommentPrefix(s: string)
    ensures CommentPrefix(s[..PrefixEnd(s)])
  {
    var a := Run(s, 0, IsSpace);
    var b := a + Run(s, a, IsHash);
    var c := PrefixEnd(s);
    var p := s[..c];
    forall i, j, k | 0 <= i < j < k < |p| && p[i] == '#' && p[k] == '#'
      ensures p[j] == '#'
    {
      assert a <= i < b;
      assert a <= k < b;
    }
  }

  /** The greedy prefix is the only comment prefix that a non-prefix character
      (a digit, say) can follow, so backtracking never finds another. */
  lemma PrefixEndUnique(s: string, c: nat)
    requires c < |s| && CommentPrefix(s[..c])
    requires !IsSpace(s[c]) && s[c] != '#'
    ensures PrefixEnd(s) == c
  {
    var p := s[..c];
    var a := Run(s, 0, IsSpace);
    var b := a + Run(s, a, IsHash);
  }

  /** What the scanner accepts, the regular expression matches. */
  lemma MatchFromScanner(s: string)
    requires ExtractData(s).Some?
    ensures MatchesAt(s, PrefixEnd(s), Run(s, PrefixEnd(s) + 9, IsSpace))
  {
    var c := PrefixEnd(s);
    var w := Run(s, c + 9, IsSpace);
    PrefixEndIsCommentPrefix(s);
    AllSlice(s, c + 9, c + 9 + w, IsSpace);
  }

  /** A match of the regular expression is the greedy one: its prefix and
      whitespace groups are the ones the scanner finds, so the scanner accepts. */
  lemma ScannerFromMatch(s: string, c: nat, w: nat)
    requires MatchesAt(s, c, w)
    ensures PrefixEnd(s) == c && Run(s, c + 9, IsSpace) == w
    ensures ExtractData(s).Some?
  {
    assert s[c..c + 9][0] == s[c];
    PrefixEndUnique(s, c);
    forall k | c + 9 <= k < c + 9 + w ensures IsSpace(s[k]) {
      assert s[c + 9..c + 9 + w][k - (c + 9)] == s[k];
    }
    RunIs(s, c + 9, w, IsSpace);
  }

  /** The scanner accepts exactly the lines the regular expression matches. */
  lemma LineMatchesIff(s: string)
    ensures ExtractData(s).Some? <==> LineMatches(s)
  {
    if ExtractData(s).Some? {
      ScannerImpliesMatch(s);
    }
    if LineMatches(s) {
      MatchImpliesScanner(s);
    }
  }

  lemma ScannerImpliesMatch(s: string)
    requires ExtractData(s).Some?
    ensures LineMatches(s)
  {
    MatchFromScanner(s);
    var c := PrefixEnd(s);
    var w := Run(s, c + 9, IsSpace);
    assert c < |s| && w < |s| && MatchesAt(s, c, w);
  }

  lemma MatchImpliesScanner(s: string)
    requires LineMatches(s)
    ensures ExtractData(s).Some?
  {
    var c: nat, w: nat :| c < |s| && w < |s| && MatchesAt(s, c, w);
    ScannerFromMatch(s, c, w);
  }

  lemma BlockedIsPrefixTest(s: string)
    requires ExtractData(s).Some?
    ensures ExtractData(s).value.blocked == !StartsWith(Strip(s[..PrefixEnd(s)]), "#")
  {
  }

  /** The comment prefix is blanks, hashes, blanks. */
  lemma PrefixParts(s: string)
    ensures var a := Run(s, 0, IsSpace);
      var b := a + Run(s, a, IsHash);
      var p := s[..PrefixEnd(s)];
      && b <= |p|
      && All(p[..a], IsSpace) && All(p[a..b], IsHash) && All(p[b..], IsSpace)
  {
    var a := Run(s, 0, IsSpace);
    var b := a + Run(s, a, IsHash);
    var n := Run(s, b, IsSpace);
    var p := s[..b + n];
    forall k | 0 <= k < a ensures IsSpace(p[..a][k]) {
      assert p[..a][k] == s[k];
    }
    forall k | 0 <= k < b - a ensures IsHash(p[a..b][k]) {
      assert p[a..b][k] == s[a + k];
    }
    forall k | 0 <= k < n ensures IsSpace(p[b..][k]) {
      assert p[b..][k] == s[b + k];
    }
  }

  /** The greedy prefix, stripped, starts with `#` exactly when it holds a `#`. */
  lemma PrefixHashIff(s: string)
    ensures StartsWith(Strip(s[..PrefixEnd(s)]), "#") <==> (exists k | 0 <= k < PrefixEnd(s) :: s[k] == '#')
  {
    var c := PrefixEnd(s);
    var p := s[..c];
    var a := Run(s, 0, IsSpace);
    var b := a + Run(s, a, IsHash);
    if a == b {
      assert All(p, IsSpace);
      StripSpaces(p);
      assert forall k | 0 <= k < c :: s[k] != '#' by {
        forall k | 0 <= k < c ensures s[k] != '#' { assert p[k] == s[k]; }
      }
    } else {
      var hashes := p[a..b];
      PrefixParts(s);
      assert Surrounds(p, hashes, a);
      assert hashes[0] == '#' && hashes[|hashes| - 1] == '#';
      StripIs(p, hashes, a);
      assert hashes[..1] == "#";
      assert s[a] == '#';
    }
  }

  /** The blocked flag is false exactly when the comment prefix holds a `#`. */
  lemma BlockedIffNoHash(s: string, c: nat, w: nat)
    requires MatchesAt(s, c, w)
    ensures ExtractData(s).Some?
    ensures ExtractData(s).value.blocked <==> (forall k | 0 <= k < c :: s[k] != '#')
  {
    ScannerFromMatch(s, c, w);
    BlockedIsPrefixTest(s);
    PrefixHashIff(s);
  }

  // ---------------------------------------------------------------------------
  // extract_sites
  // ---------------------------------------------------------------------------

  /** One line of `extract_sites`: its record if it matches, then the rest. */
  lemma ExtractSitesCons(lines: seq<string>)
    requires |lines| > 0
    ensures ExtractSites(lines)
         == (if ExtractData(lines[0]).Some? then [ExtractData(lines[0]).value] else []) + ExtractSites(lines[1..])
  {
  }

  lemma ExtractSitesAppend(xs: seq<string>, ys: seq<string>)
    ensures ExtractSites(xs + ys) == ExtractSites(xs) + ExtractSites(ys)
  {
    if |xs| == 0 {
      assert xs + ys == ys;
    } else {
      assert (xs + ys)[1..] == xs[1..] + ys;
      ExtractSitesAppend(xs[1..], ys);
    }
  }

  /** When every line matches, `extract_sites` is `extract_data` applied line by line. */
  lemma {:induction false} ExtractSitesAllMatch(lines: seq<string>)
    requires forall i | 0 <= i < |lines| :: ExtractData(lines[i]).Some?
    ensures |ExtractSites(lines)| == |lines|
    ensures forall i | 0 <= i < |lines| :: Some(ExtractSites(lines)[i]) == ExtractData(lines[i])
  {
    if |lines| > 0 {
      var rest := lines[1..];
      assert forall i | 0 <= i < |rest| :: rest[i] == lines[i + 1];
      ExtractSitesCons(lines);
      ExtractSitesAllMatch(rest);
      var recs := ExtractSites(lines);
      assert recs == [ExtractData(lines[0]).value] + ExtractSites(rest);
      forall i | 0 <= i < |lines| ensures Some(recs[i]) == ExtractData(lines[i]) {
        if i > 0 {
          assert recs[i] == ExtractSites(rest)[i - 1];
        }
      }
    }
  }
}
