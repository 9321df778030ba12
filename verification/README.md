# site-blocker in Dafny

A model of the core of *site-blocker*, a small Tk application that blocks web
sites by redirecting them in the system `hosts` file. The application owns a
region of that file. The region is delimited by the lines `# BEGIN <app>` and
`# END <app>` and holds one line per site: an address, a host name and its
`www.` spelling. The line is commented out with `#` when the site is not
blocked. The user sees the sites as a list, adds names to it, deletes entries
and selects the entries to block. "Block" rewrites the region from the list.

The model covers the three classes of the program:

- **`AppModel`** (model.py):
  - the marker lines;
  - `read_file`, which collects the stripped non-blank lines between the markers;
  - `extract_data` / `extract_sites`, which parse those lines with a verbose
    regular expression;
  - `validate_data` and `complete_user_input`, for what the user types;
  - `clear_hosts_file` and `write_file`, which remove the region and append a new one.
- **`AppView`** (view.py). The Tk listbox becomes a sequence of entries, each a
  display string and a selection flag. Modelled: `add_to_listbox` (tab-stop
  padding and selection), `all_sites`, `sel_sites`, `delete_from_listbox` and
  `load_from_file`.
- **`AppController`** (controller.py): `add_user_input`, `block_selected` and
  `create_gui`.

The hosts file is modelled as its text. Reading it means iterating over
`SplitLines(text)`, which gives lines that keep their `\n`, as Python's file
iteration does. Rewriting it means `ClearText(text) + Concat(appended lines)`.
So a file whose cleared remainder does not end in a newline gets the head
marker glued to its last line, exactly as appending to it would; see
"## Findings" for what follows from that and for the corrected write.

Modules, in dependency order:

| file | module | what it holds |
|---|---|---|
| text.dfy | `Text` | character classes (`\s`, `\w`, `[\w.-]`), `strip`, `split`, `" ".join`, line splitting |
| grammar.dfy | `Grammar` | `extract_data` as a greedy scanner, the regular expression as a declarative predicate, and their equivalence; `extract_sites` |
| input.dfy | `Input` | `validate_data`, `complete_user_input` |
| region.dfy | `Region` | markers, `read_file`, `clear_hosts_file`, `write_file` |
| roundtrip.dfy | `RoundTrip` | what a rewrite leaves in the file; the round trip `extract_sites(read_file(write_file(...)))` |
| order.dfy | `Order` | Python string order and the stable `sorted(..., key=lambda t: t[1])` |
| listbox.dfy | `Listbox` | the list of sites in view.py |
| controller.dfy | `Controller` | the controller's operations and the load–block–reload cycle |

Three details of the code that are easy to misread, kept as written:

- The address pattern `\d{3}.\d{1}.\d{1}.\d{1}` uses unescaped dots. Each
  separator is therefore any character but a newline, not only a dot.
- `extract_data` does not strip its line. Its leading `\s*` and the missing end
  anchor make that unnecessary, and the model does not strip either.
- `blocked` is true when the line is *not* commented out. The written
  selection, not a record's old flag, decides the `#` on rewrite.

## Model

| member | source | states |
|---|---|---|
| Region.MarkersDisjoint | model.py:16-17 | no line starts with both the head and the foot marker, so the `if`/`elif` order in the loops never matters |
| Region.ReadLines | model.py:19-36 | every line `read_file` returns is non-blank and stripped at both ends |
| Region.ReadFile | model.py:19-36 | `read_file` on a file's text returns non-blank, stripped lines only, and nothing at all when no line of the file strips to a head marker |
| Region.NoHeadReadsNothing | model.py:26-35 | a file without a head line reads as no lines at all, whatever foot lines it has |
| Region.ReadRegion | model.py:24-36 | `read_file` returns exactly the stripped non-blank lines between the first head line and the next foot line, markers excluded; a further head line inside the region is skipped and does not end it |
| Region.ReadOpenRegion | model.py:24-36 | a head line with no foot line after it reads to the end of the file, skipping any further head line |
| Region.ClearLines | model.py:117-136 | what `clear_hosts_file` keeps has no marker line and every kept line comes from the file |
| Region.ClearText | model.py:117-136 | the rewritten text, split into lines again, is exactly the lines the loop kept: no marker line is left and every line left comes from the file |
| Region.ClearUnmarked | model.py:126-133 | a file without marker lines is left as it is |
| Region.ClearIdempotent | model.py:117-136 | clearing the lines twice is clearing them once |
| Region.ClearTextIdempotent | model.py:117-136 | clearing the file text twice gives the text clearing once gives |
| Region.ClearRegion | model.py:126-133 | clearing removes a region from its head line through the next foot line inclusive and keeps the lines before it verbatim |
| Region.ClearOpenRegion | model.py:126-133 | a head line with no foot line after it removes everything to the end of the file |
| Region.ClearStrayFoot | model.py:129-131 | a foot line outside any region is dropped too, since raw lines are compared with the markers and a foot line always resumes copying |
| Region.Appended | model.py:98-111 | `write_file` appends the head line, one line per site, and the foot line; site `i` is the address and its names separated by single blanks, ending in a blank and a newline, behind `# ` unless `i` is selected; with an address of the usual shape no site line can be taken for a marker line |
| Region.WriteFile | model.py:93-111 | the cleared text stays at the front unchanged, the head marker line follows it directly, and the foot marker line ends the file |
| Grammar.OrderHosts | model.py:62-63 | the two host groups come back in their order or swapped, and a `www.` name comes before a non-`www.` one only if both or neither start with `www.` |
| Grammar.ExtractData | model.py:44-68 | an accepted line gives host-character names, at least one of them non-empty, and never a `www.` primary with a bare alias |
| Grammar.LineMatchesIff | model.py:50-57 | `extract_data` returns a record exactly when the regular expression matches the line: the greedy scanner and the declarative grammar accept the same lines |
| Grammar.ScannerFromMatch | model.py:50-57 | any match of the pattern has the greedy prefix and whitespace groups, so the regex engine's backtracking never finds a different match |
| Grammar.PrefixHashIff | model.py:58 | the comment group, stripped, starts with `#` exactly when it contains a `#` |
| Grammar.BlockedIffNoHash | model.py:58-61 | a matched line is blocked exactly when no `#` precedes the address |
| Grammar.ExtractSites | model.py:38-42 | at most one record per line; every record has host-character names, never a `www.` primary with a bare alias; lines none of which match give no records |
| Grammar.ExtractSitesAppend | model.py:38-42 | `extract_sites` distributes over concatenation of line lists |
| Grammar.ExtractSitesAllMatch | model.py:41-42 | when every line matches, the result is `extract_data` of each line, in order |
| Input.ValidateData | model.py:70-80 | an input is valid exactly when, stripped, it is non-empty, starts with an ASCII letter and has only `[\w.-]` characters |
| Input.Complete | model.py:82-91 | the completed alias is always `www.` plus the primary; a `www.` input is the alias and any other input is the primary |
| Input.CompleteAliasFixpoint | model.py:82-91 | completing the alias of a completed pair gives the same pair |
| Input.CompleteBothSpellings | model.py:87-91 | `x` and `www.x` complete to the same pair `(x, www.x)` |
| RoundTrip.WriteFileLines | model.py:93-111 | when the cleared text ends at a line end, after `write_file` the file's lines are the cleared lines followed by the appended region |
| Region.SiteLineNotMarker | model.py:100-107 | a written site line never starts like a marker line |
| RoundTrip.ClearAppended | model.py:117-136 | clearing a file whose region was just appended gives back what lay outside the region |
| RoundTrip.WritePreservesOutside | model.py:93-111 | everything outside the managed region is unchanged by a rewrite |
| RoundTrip.LastWriteWins | model.py:93-111 | writing twice is the same as writing only the second time; regions are replaced, not accumulated |
| RoundTrip.ParseStripped | model.py:44-68 | a site line as `read_file` returns it parses back to its pair, blocked exactly when it was selected |
| RoundTrip.ParseAnyOrder | model.py:58-66 | a site line parses to its names in `www.` order, whichever order they were written in |
| RoundTrip.LoneWwwName | model.py:62-66 | a line carrying only a `www.` name parses with an empty primary and that name as alias |
| RoundTrip.TolerantGroups | model.py:53-56 | after the address, one or two names set apart by any run of whitespace and followed by whitespace only are the two host groups |
| RoundTrip.ParseTolerant | model.py:44-68 | any line the pattern matches whose tail is one or two names and whitespace parses to those names in `www.` order, blocked exactly when no `#` precedes the address |
| RoundTrip.ParseSpacedLine | model.py:44-68 | a line made of a comment prefix, the address, blanks, one or two names and trailing whitespace, the shape of the lines in model_tests.py, parses to its names in `www.` order, blocked exactly when the prefix has no `#` |
| RoundTrip.WriteThenRead | model.py:19-36 | reading back a region just written gives its site lines, stripped |
| RoundTrip.WriteReadExtract | model.py:93-111 | `extract_sites(read_file(write_file(sites, sel)))` is every pair in order, blocked exactly when its position is in `sel` |
| RoundTrip.GluedHeadAsWritten | model.py:97-99 | when the text outside the region is one line without a newline, the head marker is glued to it: `read_file` then returns nothing, and clearing keeps that line, the head marker and every site line |
| RoundTrip.WriteFileTerminated | model.py:93-111 | the corrected write keeps the outside text at the front and ends with the foot line, and it is `write_file` itself whenever the outside text ends at a line end |
| RoundTrip.TerminatedPreservesOutside | model.py:93-111 | clearing what the corrected write wrote gives back the outside text, its last line terminated |
| RoundTrip.TerminatedLastWriteWins | model.py:93-111 | with the corrected write, writing twice is writing only the second time, whatever the file's last line |
| RoundTrip.TerminatedThenRead | model.py:19-36 | reading back what the corrected write wrote gives its site lines, stripped, with no condition on how the file ended |
| RoundTrip.TerminatedReadExtract | model.py:93-111 | `extract_sites(read_file(...))` after the corrected write is every pair in order, blocked exactly when selected, with no condition on how the file ended |
| Order.StrLessTransitive | view.py:132 | Python's string `<` is transitive |
| Order.StrLessTotal | view.py:132 | two different strings are ordered one way or the other |
| Order.SortByPrimary | view.py:132 | the sort returns a permutation of its input |
| Order.SortSorted | view.py:132 | the sorted records are in primary-name order |
| Order.SortStable | view.py:132 | records with the same primary name keep their relative order |
| Listbox.TabStop | view.py:77-81 | the alias column is a multiple of 4, at least 16, beyond the primary's length, and 16 or within 4 of that length |
| Listbox.TabStopLeast | view.py:77-81 | the tab stop is the least column with those properties |
| Listbox.TabColumn | view.py:77-80 | the `while` loop that moves the tab ends at that least column |
| Listbox.Display | view.py:77-82 | the primary starts the entry and the alias is aligned at the tab stop, blanks between; splitting the entry on whitespace gives back the pair's non-empty names in order, so an empty primary gives a 1-tuple |
| Listbox.AddToListbox | view.py:82-84 | the earlier entries stay; `all_sites` gains the new entry's split at its end, and the selection gains the new position exactly when `sel` holds |
| Listbox.AllSites | view.py:47-52 | `all_sites` has one split per entry; every name in it is non-empty and blank-free, and an entry showing a pair of blank-free names yields that pair's non-empty names |
| Listbox.Selection | view.py:40-45 | `sel_sites` holds exactly the selected positions, strictly ascending |
| Listbox.DeleteFromListbox | view.py:88-98 | the "not selected" error exactly when nothing is selected; otherwise deleting from the highest selected position down leaves the unselected entries in order |
| Listbox.AddAll | view.py:133-134 | the loop keeps the existing entries and adds the `i`-th record's entry at position `i` after them |
| Listbox.LoadFromFile | view.py:125-137 | the list's existing entries stay; after them the `i`-th record in primary-name order is shown as its pair and is selected exactly when it is blocked |
| Listbox.LoadFromFileOrder | view.py:125-137 | loading lists the records in primary-name order, keeps file order among equal names, and shows each record's entry |
| Listbox.LoadSelection | view.py:132-134 | after loading, the selected positions are exactly those of the blocked records |
| Controller.AddUserInput | controller.py:38-50 | "invalid" exactly when validation fails; "exists" exactly when the completed pair is already in `all_sites`; otherwise the pair is added, selected |
| Controller.AddUserInputAdds | controller.py:50 | a clean input that is added appears in `all_sites` as its completed pair at the end, and its position is appended to the selection |
| Controller.AddTwiceExists | controller.py:46-49 | once `x` is added, `x` again, its `www.` spelling or its bare spelling is reported as existing |
| Controller.TrailingSpaceDuplicate | controller.py:43-50 | a name typed with a trailing space passes validation, is not detected as existing, and lists the same pair a second time |
| Controller.LeadingSpaceWords | controller.py:46 | a name typed with a leading space is shown as an entry that splits into three tokens `x`, `www.`, `x` |
| Controller.AddUserInputStripped | controller.py:43-50 | completing the stripped input: "invalid" exactly when validation fails, and "exists" exactly when the stripped pair is listed |
| Controller.StrippedAddKeepsDistinct | controller.py:43-50 | with the input stripped first, adding keeps `all_sites` free of duplicates and appends the pair |
| Controller.BlockSelected | controller.py:52-53 | the file's text outside the region stays at the front, followed by the new region from the head marker line to the foot marker line |
| Controller.BlockSelectedPreservesOutside | controller.py:52-53 | blocking leaves everything outside the managed region as it was, when that text ends at a line end |
| Controller.BlockThenReload | controller.py:52-53 | after blocking, reading the file back gives one record per entry, with the entry's names, blocked exactly when the entry was selected |
| Controller.LoadBlockReload | controller.py:52-53 | loading records and blocking at once writes the records back sorted by primary name, each with its old blocked flag |
| Controller.CreateGui | controller.py:28-33 | the list starts with the file's parsed records in primary-name order, one entry each, showing the record's pair and selected exactly when the record is blocked |
| Controller.CreateGuiBlockReload | controller.py:28-33 | starting the application and blocking at once gives a file whose records are the original ones, sorted, each blocked as before |

## Left out

- The Tk widgets, the window title, `mainloop`, message boxes and clearing the
  entry field are not modelled. Error dialogs become outcome values:
  `AddOutcome.Invalid`, `AddOutcome.Exists` and `DeleteOutcome.NotSelected`.
- File I/O is not modelled. The file is its text, and opening, truncating,
  seeking and permissions are left out. `__main__.py` (privilege checks and the
  file path) is not part of this model.
- Universal-newline translation (`\r\n`, `\r`) is not modelled: the text is the
  already decoded text.
- Unicode character classes are approximated by ASCII ones:
  - `\s` and `str.strip` by Python's ASCII whitespace;
  - `\w` by `[A-Za-z0-9_]`;
  - `\d` by `[0-9]`.
- `WholeHostMatch` models the `$` of `validate_data` matching before a final
  newline. Stripping has already removed that newline.
- `sel_sites` and `curselection()` are modelled as the ascending selected
  positions, which is what Tk returns.
- Controller.StrippedAddKeepsDistinct: the input `www.` is excluded. It passes
  validation and completes to the pair `("", "www.")`. That pair never equals a
  split entry, which shows as the single token `www.`, so the program lists
  `www.` again each time it is typed, stripped or not.
- Controller.LoadBlockReload: requires every record to carry both names. A
  record with one name is shown as one token and written back as a one-name
  line, a case the round trip lemmas do not cover.
- Controller.CreateGuiBlockReload: requires both names on every parsed record,
  and that the cleared rest of the file ends in a newline and has no line that
  strips to a head marker. The newline condition is the defect under
  "## Findings". A file with a stray head line inside its comments
  would make `read_file` collect from there.
- RoundTrip.WriteReadExtract: requires a non-empty application name without
  newlines or trailing whitespace. It also requires names made of `[\w.-]`,
  with a non-empty primary and not a `www.` primary before a bare alias, which
  is the shape `complete_user_input` produces. Other names would not survive
  the parser's reordering.
- RoundTrip.WritePreservesOutside, RoundTrip.LastWriteWins,
  RoundTrip.WriteThenRead, RoundTrip.WriteReadExtract, RoundTrip.WriteFileLines,
  Controller.BlockSelectedPreservesOutside, Controller.BlockThenReload and
  Controller.LoadBlockReload: require the cleared text to end at
  a line end, because the code as written fails otherwise (see
  "## Findings"). The corrected write's lemmas drop that condition.

## Findings

| source | as written | input that shows it | evidently intended | confidence | as-written member | corrected member |
|---|---|---|---|---|---|---|
| model.py:97-99 | `write_file` clears the file and appends the head marker without checking that the kept text ends with a newline, so the marker is glued to the last line | a hosts file whose last line, outside any region, is `a` with no newline: after a write, `read_file` finds no head line and returns nothing, and clearing keeps `a`, the head marker and every site line, so later writes can no longer remove them | start the region on a new line, writing a newline first when the kept text lacks one | not executed | RoundTrip.GluedHeadAsWritten | RoundTrip.TerminatedReadExtract |
| controller.py:43-47 | `validate_data` strips the input, but `complete_user_input` is given the unstripped input, so the pair compared against `all_sites` and added to the list keeps the blanks | with `java.com` listed, typing `java.com ` is accepted and lists `java.com` / `www.java.com` a second time; typing ` java.com` lists an entry that splits into `java.com`, `www.`, `java.com` | complete the stripped input, so that surrounding blanks are ignored and no pair is listed twice | not executed | Controller.TrailingSpaceDuplicate | Controller.StrippedAddKeepsDistinct |
