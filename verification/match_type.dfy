/** The kind of a match a worker reports, and its fixed-width rendering in the
    result listing. */
module MatchTypes {

  datatype MatchType = Exact | Partial

  /** The `Display` text of a match kind. Both kinds print in a column nine
      characters wide, so listings line up. */
  function Display(m: MatchType): (s: string)
    ensures |s| == 9
    ensures s[0] == ' ' && s[8] == ' '
  {
    match m
    case Exact => "  Exact  "
    case Partial => " Partial "
  }

  /** The two kinds never print alike. */
  lemma DisplayInjective(m: MatchType, n: MatchType)
    ensures Display(m) == Display(n) <==> m == n
  {
    if m != n {
      assert Display(m)[1] != Display(n)[1];
    }
  }

  /** The exact texts printed. */
  lemma DisplayText()
    ensures Display(Exact) == "  Exact  "
    ensures Display(Partial) == " Partial "
  {
  }
}
