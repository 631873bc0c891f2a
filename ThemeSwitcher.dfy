/** The theme rotation rule of the ThemeSwitcher: on mount it reads the stored theme name,
    strips any double quotes from it, and picks the theme after it in a list of two, or the
    first theme when nothing usable is stored. Reading the store and applying the theme are
    not modelled; the stored value is a parameter (`None` when nothing is stored). */
module ThemeSwitcher {

  import opened Wrappers

  const Themes: seq<string> := ["tech-noir", "onyx-neon"]

  /** The string with every double-quote character removed, the rest kept in order. */
  function StripQuotes(s: string): (r: string)
    ensures forall c :: c in r <==> c in s && c != '"'
    ensures |r| <= |s|
  {
    if s == [] then []
    else if s[0] == '"' then StripQuotes(s[1..])
    else [s[0]] + StripQuotes(s[1..])
  }

  /** Stripping distributes over concatenation. */
  lemma {:induction false} StripQuotesAppend(a: string, b: string)
    ensures StripQuotes(a + b) == StripQuotes(a) + StripQuotes(b)
  {
    if a == [] {
      assert a + b == b;
    } else {
      assert (a + b)[0] == a[0] && (a + b)[1..] == a[1..] + b;
      StripQuotesAppend(a[1..], b);
    }
  }

  /** A string without quotes is left as it is. */
  lemma {:induction false} StripQuotesIdentity(s: string)
    requires '"' !in s
    ensures StripQuotes(s) == s
  {
    if s != [] {
      StripQuotesIdentity(s[1..]);
      assert s == [s[0]] + s[1..];
    }
  }

  /** Stripping quotes twice is stripping them once. */
  lemma StripQuotesIdempotent(s: string)
    ensures StripQuotes(StripQuotes(s)) == StripQuotes(s)
  {
    StripQuotesIdentity(StripQuotes(s));
  }

  /** The first index of `x` in `xs`, or -1 when it does not occur. */
  function IndexOf(xs: seq<string>, x: string): (r: int)
    ensures -1 <= r < |xs|
    ensures r == -1 <==> x !in xs
    ensures r >= 0 ==> xs[r] == x && x !in xs[..r]
  {
    if xs == [] then -1
    else if xs[0] == x then 0
    else
      var i := IndexOf(xs[1..], x);
      assert xs[1..][..if i >= 0 then i else 0] == xs[1..if i >= 0 then i + 1 else 1];
      if i == -1 then -1 else i + 1
  }

  /** The index of the theme to apply, given the stored value: the successor, modulo the
      number of themes, of the stored theme's index; 0 when nothing is stored, when the
      stripped value is empty, or when it names no known theme. */
  function NextThemeIndex(stored: Option<string>): (r: int)
    ensures 0 <= r < |Themes|
    ensures stored == None || StripQuotes(stored.value) !in Themes ==> r == 0
    ensures stored.Some? ==> forall i :: 0 <= i < |Themes| && Themes[i] == StripQuotes(stored.value) ==>
      r == (i + 1) % |Themes|
  {
    var lastTheme := if stored.Some? then Some(StripQuotes(stored.value)) else None;
    if lastTheme.Some? && lastTheme.value != "" then
      var lastIndex := IndexOf(Themes, lastTheme.value);
      if lastIndex != -1 then (lastIndex + 1) % |Themes| else 0
    else 0
  }

  /** The theme to apply: always one of the themes, "tech-noir" when nothing usable is
      stored, and never the stored theme itself when that is a known one. */
  function NextTheme(stored: Option<string>): (t: string)
    ensures t in Themes
    ensures stored == None || StripQuotes(stored.value) !in Themes ==> t == "tech-noir"
    ensures stored.Some? && StripQuotes(stored.value) in Themes ==> t != StripQuotes(stored.value)
  {
    Themes[NextThemeIndex(stored)]
  }

  /** Mounting twice in a row with the chosen theme stored comes back to the first theme:
      the rotation alternates between the two themes. */
  lemma RotationAlternates(t: string)
    requires t in Themes
    ensures NextTheme(Some(t)) != t
    ensures NextTheme(Some(NextTheme(Some(t)))) == t
  {
    StripQuotesIdentity(t);
    var u := NextTheme(Some(t));
    StripQuotesIdentity(u);
  }

  /** A value stored with surrounding quotes selects the same theme as the bare name. */
  lemma QuotedValueSameTheme(t: string)
    ensures NextTheme(Some("\"" + t + "\"")) == NextTheme(Some(StripQuotes(t)))
  {
    StripQuotesAppend("\"" + t, "\"");
    StripQuotesAppend("\"", t);
    assert StripQuotes("\"") == "";
    assert '"' !in StripQuotes(t);
    StripQuotesIdentity(StripQuotes(t));
  }
}
