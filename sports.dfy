/**
 * `getSport`: the sport of a checklist page, read off its URL by two keyword tests.
 */
module Sports {
  import opened Text

  datatype Sport = Basketball | Football

  /** `getSport(url)`: `basketball` anywhere in the lower-cased URL wins, then
      `football`, and a URL with neither defaults to football. */
  function GetSport(url: string): Sport {
    var urlLower := Lower(url);
    if Includes(urlLower, "basketball") then Basketball
    else if Includes(urlLower, "football") then Football
    else Football
  }

  /** Basketball exactly when `basketball` occurs in the URL in some mix of cases; this
      also settles a URL with both keywords in favour of basketball. */
  lemma BasketballIffKeyword(url: string)
    ensures GetSport(url) == Basketball <==> Occurs(Lower(url), "basketball")
  {
    IncludesIffOccurs(Lower(url), "basketball");
  }

  /** Every other URL, with `football` or with no keyword at all, is football. */
  lemma FootballOtherwise(url: string)
    ensures GetSport(url) == Football <==> !Occurs(Lower(url), "basketball")
  {
    BasketballIffKeyword(url);
  }

  /** URLs that differ only in the case of ASCII letters have the same sport. */
  lemma SportIgnoresCase(u: string, v: string)
    requires EqualsIgnoreCase(u, v)
    ensures GetSport(u) == GetSport(v)
  {
    assert Lower(u) == Lower(v);
  }
}
