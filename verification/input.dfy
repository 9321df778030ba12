/** User input handling (model.py `validate_data`, `complete_user_input`). */
module Input {
  import opened Text

  /** A host name and its `www.` counterpart, as shown in the list and written to the file. */
  datatype Pair = Pair(primary: string, alias: string)

  /** `re.search(r"^[\w.-]+$", t)`: a non-empty run of host characters spanning
      the whole string, where `$` also matches just before a final newline. */
  predicate WholeHostMatch(t: string) {
    || (|t| > 0 && All(t, IsHostChar))
    || (|t| > 1 && t[|t| - 1] == '\n' && All(t[..|t| - 1], IsHostChar))
  }

  /** model.py `validate_data`: strip, then `re.match("[a-zA-Z]")` (a letter
      first) and `re.search(r"^[\w.-]+$")`. The input is valid exactly when its
      stripped form is non-empty, starts with an ASCII letter and has host
      characters only: the newline that `$` tolerates has already been
      stripped. */
  function ValidateData(inp: string): (r: bool)
    ensures r <==> (var t := Strip(inp); t != "" && IsLetter(t[0]) && All(t, IsHostChar))
  {
    var t := Strip(inp);
    |t| > 0 && IsLetter(t[0]) && WholeHostMatch(t)
  }

  /** model.py `complete_user_input`: a `www.`-prefixed input is the alias and
      loses the prefix to give the primary; any other input is the primary.
      The input is not stripped here. */
  function Complete(inp: string): (r: Pair)
    ensures r.alias == "www." + r.primary
    ensures StartsWww(inp) ==> r.alias == inp
    ensures !StartsWww(inp) ==> r.primary == inp
  {
    if StartsWww(inp) then Pair(inp[4..], inp) else Pair(inp, "www." + inp)
  }

  /** Completing the alias of a completed pair gives the same pair back. */
  lemma CompleteAliasFixpoint(inp: string)
    ensures Complete(Complete(inp).alias) == Complete(inp)
  {
    var p := Complete(inp);
    assert StartsWww(p.alias);
    assert p.alias[4..] == p.primary;
  }

  /** `x` and `www.x` complete to the same pair. */
  lemma CompleteBothSpellings(x: string)
    requires !StartsWww(x)
    ensures Complete(x) == Complete("www." + x) == Pair(x, "www." + x)
  {
    assert StartsWww("www." + x);
    assert ("www." + x)[4..] == x;
  }
}
