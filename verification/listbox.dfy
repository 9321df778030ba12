/** The list of sites in view.py, with the Tk listbox abstracted as a sequence
    of entries, each a display string and a selection flag. */
module Listbox {
  import opened Text
  import opened Grammar
  import opened Input
  import opened Order

  datatype Entry = Entry(text: string, selected: bool)

  // ---------------------------------------------------------------------------
  // add_to_listbox
  // ---------------------------------------------------------------------------

  /** The column the alias starts at: the first of 16, 20, 24, ... beyond the
      primary name's length. */
  function TabStop(n: nat): (tab: nat)
    ensures tab % 4 == 0 && tab >= 16 && tab > n
    ensures tab == 16 || tab - 4 <= n
  {
    if n < 16 then 16 else 16 + 4 * ((n - 16) / 4 + 1)
  }

  /** Those conditions pin the tab stop down: it is the least such column. */
  lemma TabStopLeast(n: nat, t: int)
    requires t % 4 == 0 && t >= 16 && t > n
    ensures TabStop(n) <= t
  {
  }

  lemma TabStopUnique(n: nat, t: int)
    requires t % 4 == 0 && t >= 16 && t > n
    requires t == 16 || t - 4 <= n
    ensures t == TabStop(n)
  {
    TabStopLeast(n, t);
  }

  /** The loop of view.py `add_to_listbox` that moves the tab stop. */
  method TabColumn(n: nat) returns (tab: nat)
    ensures tab == TabStop(n)
  {
    tab := 16;
    while n >= tab
      invariant tab % 4 == 0 && tab >= 16
      invariant tab == 16 || tab - 4 <= n
      decreases n - tab
    {
      tab := tab + 4;
    }
    TabStopUnique(n, tab);
  }

  /** The names of a pair that a whitespace split finds: the non-empty ones,
      primary first. */
  function Names(p: Pair): seq<string> {
    (if p.primary == "" then [] else [p.primary]) + (if p.alias == "" then [] else [p.alias])
  }

  /** `space.join(elem)` for a pair: the primary name at the left edge, the
      alias aligned at the tab stop, blanks between. Splitting it on
      whitespace gives the pair's non-empty names back, in order. */
  function Display(p: Pair): (r: string)
    ensures |r| == TabStop(|p.primary|) + |p.alias|
    ensures r[..|p.primary|] == p.primary && r[TabStop(|p.primary|)..] == p.alias
    ensures forall k | |p.primary| <= k < TabStop(|p.primary|) :: r[k] == ' '
    ensures All(p.primary, NotSpace) && All(p.alias, NotSpace) ==> Words(r) == Names(p)
  {
    var pad := Spaces(TabStop(|p.primary|) - |p.primary|);
    var r := p.primary + pad + p.alias;
    assert r[..|p.primary|] == p.primary;
    assert r[TabStop(|p.primary|)..] == p.alias;
    PairWords(p.primary, pad, p.alias);
    r
  }

  /** A name, a non-empty run of blanks and a second name split into the
      non-empty names. */
  lemma PairWords(a: string, pad: string, b: string)
    requires pad != "" && All(pad, IsSpace)
    ensures All(a, NotSpace) && All(b, NotSpace) ==>
      Words(a + pad + b) == (if a == "" then [] else [a]) + (if b == "" then [] else [b])
  {
    if All(a, NotSpace) && All(b, NotSpace) {
      if a == "" {
        assert a + pad + b == pad + b;
        PaddedWords(pad, b);
      } else if b == "" {
        assert a + pad + b == "" + a + pad;
        WordsCons("", a, pad);
        WordsOfSpaces(pad);
      } else {
        assert a + pad + b == "" + a + pad + b + "";
        WordsOfTwo("", a, pad, b, "");
      }
    }
  }

  /** view.py `add_to_listbox`: the displayed pair goes to the end of the list,
      selected when `sel` is. Afterwards `all_sites` has the new entry's split
      at its end, and the selection gains the new position exactly when `sel`
      holds. The entry field it clears is not modelled. */
  function AddToListbox(lb: seq<Entry>, sel: bool, elem: Pair): (r: seq<Entry>)
    ensures |r| == |lb| + 1 && r[..|lb|] == lb
    ensures AllSites(r) == AllSites(lb) + [Words(Display(elem))]
    ensures Selection(r) == Selection(lb) + (if sel then [|lb|] else [])
  {
    var r := lb + [Entry(Display(elem), sel)];
    assert r[..|r| - 1] == lb;
    assert forall i | 0 <= i < |lb| :: r[i] == lb[i];
    r
  }

  // ---------------------------------------------------------------------------
  // all_sites and sel_sites
  // ---------------------------------------------------------------------------

  /** view.py `all_sites`: each entry split on whitespace, so every name it
      yields is non-empty and blank-free, and an entry showing a pair of
      blank-free names yields that pair's non-empty names. */
  function AllSites(lb: seq<Entry>): (r: seq<seq<string>>)
    ensures |r| == |lb|
    ensures forall i, j | 0 <= i < |r| && 0 <= j < |r[i]| :: Token(r[i][j])
    ensures forall i, p | 0 <= i < |lb| && lb[i].text == Display(p)
              && All(p.primary, NotSpace) && All(p.alias, NotSpace) :: r[i] == Names(p)
  {
    seq(|lb|, i requires 0 <= i < |lb| => Words(lb[i].text))
  }

  /** The listbox's `curselection()`: the selected positions, ascending. */
  function Selection(lb: seq<Entry>): (r: seq<int>)
    ensures forall i :: i in r <==> 0 <= i < |lb| && lb[i].selected
    ensures forall a, b | 0 <= a < b < |r| :: r[a] < r[b]
    ensures |r| <= |lb|
  {
    if |lb| == 0 then []
    else
      var init := lb[..|lb| - 1];
      var s := Selection(init);
      assert forall a | 0 <= a < |s| :: s[a] in s && s[a] < |init|;
      assert forall i | 0 <= i < |init| :: init[i] == lb[i];
      s + (if lb[|lb| - 1].selected then [|lb| - 1] else [])
  }

  /** A token without whitespace. */
  predicate Token(s: string) { s != "" && All(s, NotSpace) }

  /** Blanks then an alias split to the alias alone, if there is one. */
  lemma PaddedWords(pad: string, alias: string)
    requires All(pad, IsSpace) && All(alias, NotSpace)
    ensures Words(pad + alias) == (if alias == "" then [] else [alias])
  {
    if alias == "" {
      assert pad + alias == pad;
      WordsOfSpaces(pad);
    } else {
      assert pad + alias == pad + alias + "";
      WordsCons(pad, alias, "");
      WordsOfSpaces("");
    }
  }

  // ---------------------------------------------------------------------------
  // delete_from_listbox
  // ---------------------------------------------------------------------------

  /** The entries that are not selected, in their order. */
  function Unselected(lb: seq<Entry>): (r: seq<Entry>)
    ensures |r| <= |lb|
    ensures forall i | 0 <= i < |r| :: !r[i].selected
  {
    if |lb| == 0 then []
    else (if lb[0].selected then [] else [lb[0]]) + Unselected(lb[1..])
  }

  lemma {:induction false} UnselectedAppend(a: seq<Entry>, b: seq<Entry>)
    ensures Unselected(a + b) == Unselected(a) + Unselected(b)
  {
    if |a| == 0 {
      assert a + b == b;
    } else {
      assert (a + b)[1..] == a[1..] + b;
      UnselectedAppend(a[1..], b);
    }
  }

  lemma {:induction false} UnselectedNone(a: seq<Entry>)
    requires forall i | 0 <= i < |a| :: !a[i].selected
    ensures Unselected(a) == a
  {
    if |a| > 0 {
      UnselectedNone(a[1..]);
    }
  }

  /** The unselected tail reaches down past an unselected stretch and one
      selected entry. */
  lemma UnselectedFrom(lb: seq<Entry>, j: int, b: int)
    requires 0 <= j < b <= |lb| && lb[j].selected
    requires forall m | j < m < b :: !lb[m].selected
    ensures Unselected(lb[j..]) == lb[j + 1..b] + Unselected(lb[b..])
  {
    var mid := lb[j + 1..b];
    UnselectedNone(mid);
    assert lb[j..] == [lb[j]] + (mid + lb[b..]);
    UnselectedAppend([lb[j]], mid + lb[b..]);
    UnselectedAppend(mid, lb[b..]);
  }

  /** The listbox's `delete(i)`: the entry at `i` goes, the later ones move up. */
  function DeleteAt(lb: seq<Entry>, i: nat): (r: seq<Entry>)
    requires i < |lb|
    ensures |r| == |lb| - 1
  {
    lb[..i] + lb[i + 1..]
  }

  /** Removing position `j` from an untouched prefix followed by a tail. */
  lemma RemoveAt(lb: seq<Entry>, tail: seq<Entry>, j: int, b: int)
    requires 0 <= j < b <= |lb|
    ensures DeleteAt(lb[..b] + tail, j) == lb[..j] + (lb[j + 1..b] + tail)
  {
    var cur := lb[..b] + tail;
    assert cur[..j] == lb[..j];
    assert cur[j + 1..] == lb[j + 1..b] + tail;
  }

  /** Deleting the selected entry at `j`, when no entry between it and `b` is
      selected, extends the unselected tail down to `j`. */
  lemma DeleteStep(lb: seq<Entry>, j: int, b: int)
    requires 0 <= j < b <= |lb| && lb[j].selected
    requires forall m | j < m < b :: !lb[m].selected
    ensures DeleteAt(lb[..b] + Unselected(lb[b..]), j) == lb[..j] + Unselected(lb[j..])
  {
    RemoveAt(lb, Unselected(lb[b..]), j, b);
    UnselectedFrom(lb, j, b);
  }

  /** Between one selected position and the next (or the end) nothing is
      selected. */
  lemma SelectionGap(lb: seq<Entry>, k: int)
    requires 0 <= k < |Selection(lb)|
    ensures var sel := Selection(lb);
      var b := if k + 1 == |sel| then |lb| else sel[k + 1];
      && 0 <= sel[k] < b <= |lb| && lb[sel[k]].selected
      && forall m | sel[k] < m < b :: !lb[m].selected
  {
    var sel := Selection(lb);
    assert sel[k] in sel;
    if k + 1 < |sel| {
      assert sel[k + 1] in sel;
    }
  }

  /** Nothing before the first selected position is selected. */
  lemma SelectionFirst(lb: seq<Entry>)
    requires |Selection(lb)| > 0
    ensures 0 <= Selection(lb)[0] < |lb|
    ensures forall m | 0 <= m < Selection(lb)[0] :: !lb[m].selected
  {
    var sel := Selection(lb);
    assert sel[0] in sel;
  }

  lemma UnselectedSplit(lb: seq<Entry>, b: int)
    requires 0 <= b <= |lb|
    requires forall m | 0 <= m < b :: !lb[m].selected
    ensures lb[..b] + Unselected(lb[b..]) == Unselected(lb)
  {
    var pre, post := lb[..b], lb[b..];
    assert forall i | 0 <= i < |pre| :: pre[i] == lb[i];
    UnselectedNone(pre);
    UnselectedAppend(pre, post);
    assert pre + post == lb;
  }

  /** One turn of the deletion loop: deleting the `k`-th selected position
      (counting from 1) once the later ones are gone. */
  lemma DeleteTurn(lb: seq<Entry>, k: int, b: int)
    requires 0 < k <= |Selection(lb)|
    requires b == (if k == |Selection(lb)| then |lb| else Selection(lb)[k])
    ensures var j := Selection(lb)[k - 1];
      && 0 <= j < b <= |lb|
      && j < |lb[..b] + Unselected(lb[b..])|
      && DeleteAt(lb[..b] + Unselected(lb[b..]), j) == lb[..j] + Unselected(lb[j..])
  {
    SelectionGap(lb, k - 1);
    DeleteStep(lb, Selection(lb)[k - 1], b);
  }

  /** Before the first turn nothing is deleted. */
  lemma DeleteStart(lb: seq<Entry>)
    ensures lb == lb[..|lb|] + Unselected(lb[|lb|..])
  {
    assert lb[|lb|..] == [];
    assert lb[..|lb|] == lb;
  }

  /** After the last turn the list is the unselected entries. */
  lemma DeleteDone(lb: seq<Entry>)
    requires |Selection(lb)| > 0
    ensures var b := Selection(lb)[0];
      0 <= b <= |lb| && lb[..b] + Unselected(lb[b..]) == Unselected(lb)
  {
    SelectionFirst(lb);
    UnselectedSplit(lb, Selection(lb)[0]);
  }

  datatype DeleteOutcome = NotSelected | Deleted(rest: seq<Entry>)

  /** view.py `delete_from_listbox`: with nothing selected the "not selected"
      error; otherwise the selected entries are deleted from the highest
      position down, so the positions still to delete do not move. */
  method DeleteFromListbox(lb: seq<Entry>) returns (out: DeleteOutcome)
    ensures out.NotSelected? <==> forall i | 0 <= i < |lb| :: !lb[i].selected
    ensures out.Deleted? ==> out.rest == Unselected(lb)
  {
    var sel := Selection(lb);
    if |sel| == 0 {
      return NotSelected;
    }
    assert sel[0] in sel;
    var cur := lb;
    var k := |sel|;
    var b := |lb|;
    DeleteStart(lb);
    while k > 0
      invariant 0 <= k <= |sel|
      invariant b == (if k == |sel| then |lb| else sel[k])
      invariant 0 <= b <= |lb|
      invariant cur == lb[..b] + Unselected(lb[b..])
    {
      DeleteTurn(lb, k, b);
      cur := DeleteAt(cur, sel[k - 1]);
      b := sel[k - 1];
      k := k - 1;
    }
    DeleteDone(lb);
    out := Deleted(cur);
  }

  // ---------------------------------------------------------------------------
  // load_from_file
  // ---------------------------------------------------------------------------

  /** The entry `add_to_listbox` makes for a parsed record. */
  function RecordEntry(x: SiteRecord): Entry {
    Entry(Display(Pair(x.primary, x.alias)), x.blocked)
  }

  /** The `for` loop of view.py `load_from_file`: `add_to_listbox` for each
      record in turn. */
  function AddAll(lb: seq<Entry>, xs: seq<SiteRecord>): (r: seq<Entry>)
    ensures |r| == |lb| + |xs| && r[..|lb|] == lb
    ensures forall i | 0 <= i < |xs| :: r[|lb| + i] == RecordEntry(xs[i])
    decreases |xs|
  {
    if |xs| == 0 then lb
    else
      var next := AddToListbox(lb, xs[0].blocked, Pair(xs[0].primary, xs[0].alias));
      assert next == lb + [RecordEntry(xs[0])];
      var r := AddAll(next, xs[1..]);
      assert r[..|lb|] == r[..|next|][..|lb|];
      forall i | 0 <= i < |xs| ensures r[|lb| + i] == RecordEntry(xs[i]) {
        if i == 0 {
          assert r[|lb|] == r[..|next|][|lb|];
        } else {
          assert r[|lb| + i] == r[|next| + (i - 1)] && xs[i] == xs[1..][i - 1];
        }
      }
      r
  }

  /** view.py `load_from_file`: the records sorted by primary name, each listed
      and selected exactly when it is blocked. */
  function LoadFromFile(lb: seq<Entry>, sites: seq<SiteRecord>): (r: seq<Entry>)
    ensures |r| == |lb| + |sites| && r[..|lb|] == lb
    ensures var sorted := SortByPrimary(sites);
      forall i | 0 <= i < |sites| ::
        && r[|lb| + i].text == Display(Pair(sorted[i].primary, sorted[i].alias))
        && r[|lb| + i].selected == sorted[i].blocked
  {
    AddAll(lb, SortByPrimary(sites))
  }

  /** Loading lists the records in primary-name order, keeps records with the
      same primary name in file order, and selects exactly the blocked ones. */
  lemma LoadFromFileOrder(lb: seq<Entry>, sites: seq<SiteRecord>)
    ensures var sorted := SortByPrimary(sites);
      && Sorted(sorted) && multiset(sorted) == multiset(sites)
      && (forall k :: WithPrimary(sorted, k) == WithPrimary(sites, k))
      && LoadFromFile(lb, sites)[..|lb|] == lb
      && forall i | 0 <= i < |sites| :: LoadFromFile(lb, sites)[|lb| + i] == RecordEntry(sorted[i])
  {
    SortSorted(sites);
    forall k { SortStable(sites, k); }
  }

  /** Loading into an empty list puts the `i`-th sorted record at position `i`. */
  lemma LoadedAt(sites: seq<SiteRecord>, i: int)
    requires 0 <= i < |sites|
    ensures LoadFromFile([], sites)[i] == RecordEntry(SortByPrimary(sites)[i])
  {
    var sorted := SortByPrimary(sites);
    assert AddAll([], sorted)[0 + i] == RecordEntry(sorted[i]);
  }

  /** A list whose flags follow the records' blocked flags selects exactly the
      blocked records' positions. */
  lemma SelectionOfFlags(lb: seq<Entry>, xs: seq<SiteRecord>)
    requires |lb| == |xs|
    requires forall i | 0 <= i < |lb| :: lb[i].selected == xs[i].blocked
    ensures forall i :: i in Selection(lb) <==> 0 <= i < |xs| && xs[i].blocked
  {
  }

  /** Selection after loading into an empty list: the blocked records' positions. */
  lemma LoadSelection(sites: seq<SiteRecord>)
    ensures forall i ::
      i in Selection(LoadFromFile([], sites)) <==> 0 <= i < |sites| && SortByPrimary(sites)[i].blocked
  {
    var sorted := SortByPrimary(sites);
    var lb := LoadFromFile([], sites);
    forall i | 0 <= i < |lb| ensures lb[i].selected == sorted[i].blocked {
      LoadedAt(sites, i);
    }
    SelectionOfFlags(lb, sorted);
  }
}
