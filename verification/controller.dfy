/** controller.py: adding a site the user typed, writing the selection to the
    hosts file, and the load-then-block cycle that ties the parser, the list
    and the writer together. Error dialogs become outcome values. */
module Controller {
  import opened Text
  import opened Grammar
  import opened Input
  import opened Region
  import opened RoundTrip
  import opened Order
  import opened Listbox

  /** The tuple a pair is compared as against `all_sites`. */
  function Tokens(p: Pair): seq<string> { [p.primary, p.alias] }

  /** A valid input that needs no stripping and is not the bare prefix, so
      both completed names are non-empty tokens. */
  predicate CleanInput(x: string) {
    ValidateData(x) && Strip(x) == x && x != "www."
  }

  /** A clean input completes to two host names, and the entry it is shown as
      splits back into exactly those two. */
  lemma CompleteWords(x: string)
    requires CleanInput(x)
    ensures var p := Complete(x);
      && p.primary != "" && All(p.primary, IsHostChar) && All(p.alias, IsHostChar)
      && Words(Display(p)) == Tokens(p)
  {
    var p := Complete(x);
    if StartsWww(x) {
      assert p.primary == x[4..];
      assert forall k | 0 <= k < |p.primary| :: p.primary[k] == x[k + 4];
    }
    WwwHostChars(p.primary);
    HostCharsNotSpace(p.primary);
  }

  // ---------------------------------------------------------------------------
  // add_user_input, as written
  // ---------------------------------------------------------------------------

  /** The three ways `add_user_input` ends: the "invalid" error, the "exists"
      error, or the list with the new entry. */
  datatype AddOutcome = Invalid | Exists | Added(listbox: seq<Entry>)

  /** controller.py `add_user_input`: validate (which strips), complete the
      input as typed (which does not), reject a pair already in `all_sites`,
      otherwise add it selected. */
  function AddUserInput(input: string, lb: seq<Entry>): (r: AddOutcome)
    ensures r.Invalid? <==> !ValidateData(input)
    ensures r.Exists? <==> ValidateData(input) && Tokens(Complete(input)) in AllSites(lb)
    ensures r.Added? ==> r.listbox == AddToListbox(lb, true, Complete(input))
  {
    if !ValidateData(input) then Invalid
    else
      var p := Complete(input);
      if Tokens(p) in AllSites(lb) then Exists
      else Added(AddToListbox(lb, true, p))
  }

  /** A clean input that is added shows up in `all_sites` as its completed
      pair, at the end, selected; the rest of the list is untouched. */
  lemma AddUserInputAdds(x: string, lb: seq<Entry>)
    requires CleanInput(x) && AddUserInput(x, lb).Added?
    ensures var r := AddUserInput(x, lb).listbox;
      && AllSites(r) == AllSites(lb) + [Tokens(Complete(x))]
      && Selection(r) == Selection(lb) + [|lb|]
  {
    CompleteWords(x);
  }

  /** Once a clean input is added, it, and any other input that completes to
      the same pair (the `www.` spelling or the bare one), is reported as
      existing. */
  lemma AddTwiceExists(x: string, y: string, lb: seq<Entry>)
    requires CleanInput(x) && AddUserInput(x, lb).Added?
    requires ValidateData(y) && Complete(y) == Complete(x)
    ensures AddUserInput(y, AddUserInput(x, lb).listbox) == Exists
  {
    AddUserInputAdds(x, lb);
    var r := AddUserInput(x, lb).listbox;
    assert AllSites(r)[|lb|] == Tokens(Complete(x));
  }

  /** A string with a space in it is never a token of `all_sites`. */
  lemma SpacedNotListed(p: Pair, lb: seq<Entry>, k: nat)
    requires k < |p.primary| && IsSpace(p.primary[k])
    ensures Tokens(p) !in AllSites(lb)
  {
    forall i | 0 <= i < |lb| ensures AllSites(lb)[i] != Tokens(p) {
      var ws := AllSites(lb)[i];
      if |ws| > 0 {
        assert All(ws[0], NotSpace);
        assert ws[0] != p.primary;
      }
    }
  }

  lemma WwwHostChars(x: string)
    requires All(x, IsHostChar)
    ensures All("www." + x, IsHostChar) && All("www." + x, NotSpace)
  {
    var w := "www." + x;
    assert forall k | 4 <= k < |w| :: w[k] == x[k - 4];
  }

  /** The displayed entry for an input typed with one trailing space. */
  lemma TrailingSpaceWords(x: string)
    requires x != "" && All(x, IsHostChar)
    ensures Words(Display(Pair(x + " ", "www." + x + " "))) == [x, "www." + x]
  {
    var gap := TrailingSpaceDisplay(x);
    WwwHostChars(x);
    WordsOfTwo("", x, gap, "www." + x, " ");
  }

  /** The entry shown for `x + " "`: the name, blanks, `www.` and the name, a blank. */
  lemma TrailingSpaceDisplay(x: string) returns (gap: string)
    ensures gap != "" && All(gap, IsSpace)
    ensures Display(Pair(x + " ", "www." + x + " ")) == "" + x + gap + ("www." + x) + " "
  {
    var p := Pair(x + " ", "www." + x + " ");
    var pad := Spaces(TabStop(|p.primary|) - |p.primary|);
    gap := " " + pad;
    assert forall k | 0 < k < |gap| :: gap[k] == pad[k - 1];
    assert Display(p) == p.primary + pad + p.alias;
  }

  /** A name typed with a trailing space is valid and is completed with the
      space kept. */
  lemma TrailingSpaceInput(x: string)
    requires x != "" && IsLetter(x[0]) && All(x, IsHostChar) && !StartsWww(x)
    ensures ValidateData(x + " ")
    ensures Complete(x + " ") == Pair(x + " ", "www." + x + " ")
  {
    StripTrailing(x, " ");
    TrailingNotWww(x);
  }

  lemma TrailingNotWww(x: string)
    requires !StartsWww(x)
    ensures !StartsWww(x + " ")
  {
    var y := x + " ";
    if |x| >= 4 {
      assert y[..4] == x[..4];
    } else {
      assert y[|x|] == ' ';
    }
  }

  /** Finding, as written: the input `x + " "` passes validation (which strips)
      but is completed with its space, so the duplicate check never matches and
      the pair already listed for `x` is listed a second time. */
  lemma TrailingSpaceDuplicate(x: string, lb: seq<Entry>)
    requires x != "" && IsLetter(x[0]) && All(x, IsHostChar) && !StartsWww(x)
    requires Tokens(Complete(x)) in AllSites(lb)
    ensures AddUserInput(x + " ", lb).Added?
    ensures var r := AddUserInput(x + " ", lb).listbox;
      AllSites(r)[|lb|] == Tokens(Complete(x)) && Tokens(Complete(x)) in AllSites(lb)
  {
    var p := Pair(x + " ", "www." + x + " ");
    TrailingSpaceInput(x);
    SpacedNotListed(p, lb, |x|);
    TrailingSpaceWords(x);
  }

  /** The entry shown for an input typed with a leading space. */
  lemma LeadingSpaceDisplay(x: string)
    ensures Display(Complete(" " + x))
         == " " + x + Spaces(TabStop(|x| + 1) - (|x| + 1)) + "www." + " " + x + ""
  {
    var y := " " + x;
    assert !StartsWww(y) by { assert y[0] == ' '; }
    assert Complete(y) == Pair(y, "www." + y);
  }

  /** Finding, as written: an input typed with a leading space is completed
      with it and its entry splits into three tokens. */
  lemma LeadingSpaceWords(x: string)
    requires x != "" && All(x, IsHostChar)
    ensures Words(Display(Complete(" " + x))) == [x, "www.", x]
  {
    HostCharsNotSpace(x);
    assert All("www.", NotSpace);
    WordsOfThree(" ", x, Spaces(TabStop(|x| + 1) - (|x| + 1)), "www.", " ", x, "");
    LeadingSpaceDisplay(x);
  }

  // ---------------------------------------------------------------------------
  // add_user_input, corrected
  // ---------------------------------------------------------------------------

  /** No pair is listed twice. */
  predicate Distinct(sites: seq<seq<string>>) {
    forall i, j | 0 <= i < j < |sites| :: sites[i] != sites[j]
  }

  /** `add_user_input` completing the stripped input, as validation sees it. */
  function AddUserInputStripped(input: string, lb: seq<Entry>): (r: AddOutcome)
    ensures r.Invalid? <==> !ValidateData(input)
    ensures r.Exists? <==> ValidateData(input) && Tokens(Complete(Strip(input))) in AllSites(lb)
  {
    StripStripped(input);
    AddUserInput(Strip(input), lb)
  }

  lemma StripStripped(input: string)
    ensures Strip(Strip(input)) == Strip(input)
    ensures ValidateData(Strip(input)) == ValidateData(input)
  {
    var t := Strip(input);
    if t != "" {
      StripTrailing(t, "");
      assert t + "" == t;
    } else {
      StripSpaces(t);
    }
  }

  /** With the input stripped first, whatever is typed around a name, adding
      keeps `all_sites` free of duplicates, and what is added is the pair. */
  lemma StrippedAddKeepsDistinct(input: string, lb: seq<Entry>)
    requires Distinct(AllSites(lb)) && Strip(input) != "www."
    requires AddUserInputStripped(input, lb).Added?
    ensures var r := AddUserInputStripped(input, lb).listbox;
      && AllSites(r) == AllSites(lb) + [Tokens(Complete(Strip(input)))]
      && Distinct(AllSites(r))
  {
    StripStripped(input);
    var x := Strip(input);
    var t := Tokens(Complete(x));
    assert CleanInput(x) && AddUserInput(x, lb).Added?;
    assert t !in AllSites(lb);
    AddUserInputAdds(x, lb);
    DistinctSnoc(AllSites(lb), t);
  }

  lemma DistinctSnoc(sites: seq<seq<string>>, t: seq<string>)
    requires Distinct(sites) && t !in sites
    ensures Distinct(sites + [t])
  {
    var s := sites + [t];
    forall i, j | 0 <= i < j < |s| ensures s[i] != s[j] {
      if j == |sites| {
        assert s[i] == sites[i];
      } else {
        assert s[i] == sites[i] && s[j] == sites[j];
      }
    }
  }

  // ---------------------------------------------------------------------------
  // block_selected and the load-block cycle
  // ---------------------------------------------------------------------------

  /** controller.py `block_selected`: write every listed pair, blocking the
      selected ones. Whatever the file held outside the region comes first,
      then the new region, head marker to foot marker. */
  function BlockSelected(text: string, app: string, host: string, lb: seq<Entry>): (r: string)
    ensures var c := ClearText(text, app);
      && |r| > |c| && r[..|c|] == c
      && StartsWith(r[|c|..], Head(app) + "\n")
      && EndsWith(r, Foot(app) + "\n")
  {
    WriteFile(text, app, host, AllSites(lb), Selection(lb))
  }

  /** Every site the list shows is written on one line. */
  lemma ListedOnOneLine(lb: seq<Entry>)
    ensures TokensOnOneLine(AllSites(lb))
  {
    var sites := AllSites(lb);
    forall i, j | 0 <= i < |sites| && 0 <= j < |sites[i]| ensures NoNewline(sites[i][j]) {
      WordsNoNewline(lb[i].text, j);
    }
  }

  /** Blocking leaves everything outside the managed region as it was, once
      the text outside the region ends at a line end. */
  lemma BlockSelectedPreservesOutside(text: string, app: string, host: string, lb: seq<Entry>)
    requires EndsAtLineEnd(ClearText(text, app)) && NoNewline(app) && AddressShape(host)
    ensures ClearText(BlockSelected(text, app, host, lb), app) == ClearText(text, app)
  {
    ListedOnOneLine(lb);
    WritePreservesOutside(text, app, host, AllSites(lb), Selection(lb));
  }

  /** `split` tokens hold no line break, whatever the entry. */
  lemma WordsNoNewline(s: string, j: int)
    requires 0 <= j < |Words(s)|
    ensures NoNewline(Words(s)[j])
  {
    var ws := Words(s);
    forall k | 0 <= k < |ws[j]| ensures NotNewline(ws[j][k]) {
      assert NotSpace(ws[j][k]);
    }
  }

  /** Blocking, then reading the file back, lists every entry's pair, blocked
      exactly when the entry was selected. */
  lemma BlockThenReload(text: string, app: string, host: string, lb: seq<Entry>)
    requires EndsAtLineEnd(ClearText(text, app)) && SafeAppName(app) && AddressShape(host)
    requires NoStrippedHead(ClearLines(SplitLines(text), app, true), app)
    requires PairSites(AllSites(lb))
    ensures var recs := ExtractSites(ReadFile(BlockSelected(text, app, host, lb), app));
      && |recs| == |lb|
      && forall i | 0 <= i < |lb| ::
           recs[i] == SiteRecord(lb[i].selected, AllSites(lb)[i][0], AllSites(lb)[i][1])
  {
    WriteReadExtract(text, app, host, AllSites(lb), Selection(lb));
  }

  /** A record the list shows as two names that are written back as they are. */
  predicate Listable(x: SiteRecord) {
    x.alias != "" && WellFormedPair(x.primary, x.alias)
  }

  /** Sorting keeps every record listable. */
  lemma SortedListable(sites: seq<SiteRecord>)
    requires forall i | 0 <= i < |sites| :: Listable(sites[i])
    ensures var sorted := SortByPrimary(sites);
      forall i | 0 <= i < |sorted| :: Listable(sorted[i])
  {
    var sorted := SortByPrimary(sites);
    forall i | 0 <= i < |sorted| ensures Listable(sorted[i]) {
      assert sorted[i] in multiset(sorted);
      assert sorted[i] in sites;
    }
  }

  /** A listable record's entry splits back to its two names. */
  lemma ListedRecord(x: SiteRecord)
    requires Listable(x)
    ensures Words(RecordEntry(x).text) == [x.primary, x.alias]
  {
    HostCharsNotSpace(x.primary);
    HostCharsNotSpace(x.alias);
  }

  /** After loading, each entry splits to its record's names and is selected
      exactly when the record is blocked. */
  lemma LoadedEntries(sites: seq<SiteRecord>)
    requires forall i | 0 <= i < |sites| :: Listable(sites[i])
    ensures var lb := LoadFromFile([], sites);
      var sorted := SortByPrimary(sites);
      && |lb| == |sorted|
      && PairSites(AllSites(lb))
      && forall i | 0 <= i < |lb| ::
           AllSites(lb)[i] == [sorted[i].primary, sorted[i].alias] && lb[i].selected == sorted[i].blocked
  {
    var lb := LoadFromFile([], sites);
    var sorted := SortByPrimary(sites);
    var all := AllSites(lb);
    SortedListable(sites);
    forall i | 0 <= i < |lb|
      ensures all[i] == [sorted[i].primary, sorted[i].alias] && lb[i].selected == sorted[i].blocked
    {
      LoadedAt(sites, i);
      ListedRecord(sorted[i]);
    }
    assert PairSites(all) by {
      forall i | 0 <= i < |all| ensures |all[i]| == 2 && WellFormedPair(all[i][0], all[i][1]) {
        assert Listable(sorted[i]);
      }
    }
  }

  /** Records read back from a list equal the records the list was loaded from. */
  lemma SameRecords(recs: seq<SiteRecord>, lb: seq<Entry>, sorted: seq<SiteRecord>)
    requires |recs| == |lb| == |sorted|
    requires forall i | 0 <= i < |lb| ::
      AllSites(lb)[i] == [sorted[i].primary, sorted[i].alias] && lb[i].selected == sorted[i].blocked
    requires forall i | 0 <= i < |lb| ::
      recs[i] == SiteRecord(lb[i].selected, AllSites(lb)[i][0], AllSites(lb)[i][1])
    ensures recs == sorted
  {
    forall i | 0 <= i < |lb| ensures recs[i] == sorted[i] {
      assert AllSites(lb)[i] == [sorted[i].primary, sorted[i].alias];
    }
  }

  /** Blocking a list whose entries show `sorted` record by record and reading
      the file back gives `sorted`. */
  lemma BlockReloadShown(text: string, app: string, host: string, lb: seq<Entry>, sorted: seq<SiteRecord>)
    requires EndsAtLineEnd(ClearText(text, app)) && SafeAppName(app) && AddressShape(host)
    requires NoStrippedHead(ClearLines(SplitLines(text), app, true), app)
    requires |lb| == |sorted| && PairSites(AllSites(lb))
    requires forall i | 0 <= i < |lb| ::
      AllSites(lb)[i] == [sorted[i].primary, sorted[i].alias] && lb[i].selected == sorted[i].blocked
    ensures ExtractSites(ReadFile(BlockSelected(text, app, host, lb), app)) == sorted
  {
    BlockThenReload(text, app, host, lb);
    SameRecords(ExtractSites(ReadFile(BlockSelected(text, app, host, lb), app)), lb, sorted);
  }

  /** Loading records and blocking without changing anything writes them back
      in the order the list shows them: reading the file again gives the
      records sorted by primary name, each blocked as before. */
  lemma LoadBlockReload(text: string, app: string, host: string, sites: seq<SiteRecord>)
    requires EndsAtLineEnd(ClearText(text, app)) && SafeAppName(app) && AddressShape(host)
    requires NoStrippedHead(ClearLines(SplitLines(text), app, true), app)
    requires forall i | 0 <= i < |sites| :: Listable(sites[i])
    ensures ExtractSites(ReadFile(BlockSelected(text, app, host, LoadFromFile([], sites)), app))
         == SortByPrimary(sites)
  {
    LoadedEntries(sites);
    BlockReloadShown(text, app, host, LoadFromFile([], sites), SortByPrimary(sites));
  }

  /** Parsed records that carry both names are listable. */
  lemma ParsedListable(lines: seq<string>)
    requires var recs := ExtractSites(lines);
      forall i | 0 <= i < |recs| :: recs[i].primary != "" && recs[i].alias != ""
    ensures var recs := ExtractSites(lines);
      forall i | 0 <= i < |recs| :: Listable(recs[i])
  {
  }

  /** controller.py `create_gui`: read the file, parse it, load the list. The
      list shows the file's records in primary-name order, one entry each,
      selected exactly when the record is blocked. */
  function CreateGui(text: string, app: string): (lb: seq<Entry>)
    ensures var recs := ExtractSites(ReadFile(text, app));
      && |lb| == |recs|
      && forall i | 0 <= i < |lb| :: lb[i] == RecordEntry(SortByPrimary(recs)[i])
  {
    var recs := ExtractSites(ReadFile(text, app));
    var lb := LoadFromFile([], recs);
    forall i | 0 <= i < |lb| ensures lb[i] == RecordEntry(SortByPrimary(recs)[i]) {
      LoadedAt(recs, i);
    }
    lb
  }

  /** Starting the application and blocking at once leaves the file's
      records as they were, sorted, provided every record has both names. */
  lemma CreateGuiBlockReload(text: string, app: string, host: string)
    requires EndsAtLineEnd(ClearText(text, app)) && SafeAppName(app) && AddressShape(host)
    requires NoStrippedHead(ClearLines(SplitLines(text), app, true), app)
    requires var recs := ExtractSites(ReadFile(text, app));
      forall i | 0 <= i < |recs| :: recs[i].primary != "" && recs[i].alias != ""
    ensures ExtractSites(ReadFile(BlockSelected(text, app, host, CreateGui(text, app)), app))
         == SortByPrimary(ExtractSites(ReadFile(text, app)))
  {
    ParsedListable(ReadFile(text, app));
    LoadBlockReload(text, app, host, ExtractSites(ReadFile(text, app)));
  }
}
