/**
  The address-bar handler of the YouTube client window: the text typed into
  the bar is stripped; empty text leads nowhere; text that the host pattern
  matches is opened as it stands; anything else becomes a YouTube search.
  The browser call that opens the destination is replaced by the returned
  destination string.
 */
module Navigation {
  import opened Wrappers
  import opened PyStrings
  import opened HostPattern

  /** The search-results address the query is appended to, without any
      percent-encoding.  It is written as two literals because the verifier
      does not see the characters at the front of one long literal. */
  const SEARCH_PREFIX: string := "https://www.youtube.com/" + "results?search_query="

  /** The destination chosen for the address-bar text `input`, or None when
      the bar holds only whitespace and nothing is opened. */
  function Classify(input: string): (d: Option<string>)
    ensures d.None? <==> AllSpace(input)
    ensures d.Some? ==> |d.value| > 0 && IsStripped(d.value)
  {
    var query := Strip(input);
    if query == [] then None
    else if Matches(query) then Some(query)
    else
      var url := SEARCH_PREFIX + query;
      assert url[0] == 'h' && url[|url| - 1] == query[|query| - 1];
      Some(url)
  }

  /** Only the stripped text matters: whitespace around it never reaches the
      destination and never changes it. */
  lemma ClassifyIgnoresPadding(lead: string, input: string, trail: string)
    requires AllSpace(lead) && AllSpace(trail)
    ensures Classify(lead + input + trail) == Classify(input)
  {
    StripIgnoresPadding(lead, input, trail);
  }

  /** Text that the host pattern matches is opened verbatim: no scheme added,
      nothing rewritten. */
  lemma DirectIsVerbatim(input: string)
    requires Strip(input) != [] && InLanguage(Strip(input))
    ensures Classify(input) == Some(Strip(input))
  {
    MatchesIffInLanguage(Strip(input));
  }

  /** Any other non-blank text is appended, unencoded, to the search address. */
  lemma SearchOtherwise(input: string)
    requires Strip(input) != [] && !InLanguage(Strip(input))
    ensures Classify(input) == Some(SEARCH_PREFIX + Strip(input))
  {
    MatchesIffInLanguage(Strip(input));
  }

  /** Non-blank text yields exactly one destination, and it is the direct form
      exactly when the host pattern matches, and the search form otherwise. */
  lemma ExactlyOneForm(input: string)
    requires !AllSpace(input)
    ensures Classify(input).Some?
    ensures Classify(input).value == Strip(input) <==> InLanguage(Strip(input))
    ensures Classify(input).value == SEARCH_PREFIX + Strip(input) <==> !InLanguage(Strip(input))
  {
    MatchesIffInLanguage(Strip(input));
  }

  /** A search address for a query without newlines is itself matched by the
      host pattern, so entering it again opens it unchanged. */
  lemma SearchAddressIsDirect(query: string)
    requires query != [] && '\n' !in query
    ensures InLanguage(SEARCH_PREFIX + query)
  {
    var path := "results?search_query=" + query;
    assert SEARCH_PREFIX + query == Head(0, 0, 0) + path;
    MatchesHeadAndPath(0, 0, 0, path);
    MatchesIffInLanguage(SEARCH_PREFIX + query);
  }

  /** Every destination without a newline is a fixed point: entering it again
      leads to the same place. */
  lemma DestinationIsStable(input: string)
    requires Classify(input).Some? && '\n' !in Classify(input).value
    ensures Classify(Classify(input).value) == Classify(input)
  {
    var query := Strip(input);
    var d := Classify(input).value;
    ClassifyStripped(query);
    if !Matches(query) {
      assert d == SEARCH_PREFIX + query;
      assert query == d[|SEARCH_PREFIX|..];
      MatchesIffInLanguage(query);
      SearchAddressCoincides(query);
    }
  }

  // ---------------------------------------------------------------------
  // Concrete inputs

  /** Text without surrounding whitespace is classified as it stands. */
  lemma ClassifyStripped(query: string)
    requires query != [] && IsStripped(query)
    ensures Classify(query) == if Matches(query) then Some(query) else Some(SEARCH_PREFIX + query)
  {
    StripPadded([], query, []);
    assert [] + query + [] == query;
  }

  /** Plain words become a search. */
  lemma SearchExample()
    ensures Classify("cats") == Some("https://www.youtube.com/results?search_query=cats")
  {
    if Matches("cats") {
      MatchedFirstCharacter("cats");
    }
    ClassifyStripped("cats");
    CatsSearchAddress();
  }

  lemma CatsSearchAddress()
    ensures SEARCH_PREFIX + "cats" == "https://www.youtube.com/results?search_query=cats"
  {
    assert SEARCH_PREFIX + "cats" == "https://www.youtube.com/" + ("results?search_query=" + "cats");
  }

  /** A full watch address is opened as typed. */
  lemma WatchAddressExample()
    ensures Classify("https://www.youtube.com/watch?v=abc123") == Some("https://www.youtube.com/watch?v=abc123")
  {
    var watch := "https://www.youtube.com/watch?v=abc123";
    assert watch == Head(0, 0, 0) + "watch?v=abc123";
    MatchesHeadAndPath(0, 0, 0, "watch?v=abc123");
    ClassifyStripped(watch);
  }

  /** `youtu\.?be` admits both the short-link host and a bare "youtube" host;
      no scheme is added to either. */
  lemma ShortHostExamples()
    ensures Classify("youtu.be/abc") == Some("youtu.be/abc")
    ensures Classify("youtube/abc") == Some("youtube/abc")
  {
    ClassifyStripped("youtu.be/abc");
    assert Matches("youtu.be/abc");
    ClassifyStripped("youtube/abc");
    assert Matches("youtube/abc");
  }

  /** A host with nothing after the slash, or no slash at all, is searched for. */
  lemma EmptyPathExamples()
    ensures Classify("youtube.com/") == Some(SEARCH_PREFIX + "youtube.com/")
    ensures Classify("youtube.com") == Some(SEARCH_PREFIX + "youtube.com")
  {
    ClassifyStripped("youtube.com/");
    assert !Matches("youtube.com/");
    ClassifyStripped("youtube.com");
    assert !Matches("youtube.com");
  }

  /** The pattern is anchored at the start and case-sensitive. */
  lemma AnchoredCaseSensitiveExamples()
    ensures Classify("m.youtube.com/x") == Some(SEARCH_PREFIX + "m.youtube.com/x")
    ensures Classify("HTTPS://youtube.com/x") == Some(SEARCH_PREFIX + "HTTPS://youtube.com/x")
  {
    ClassifyStripped("m.youtube.com/x");
    if Matches("m.youtube.com/x") {
      MatchedFirstCharacter("m.youtube.com/x");
    }
    ClassifyStripped("HTTPS://youtube.com/x");
    if Matches("HTTPS://youtube.com/x") {
      MatchedFirstCharacter("HTTPS://youtube.com/x");
    }
  }

  /** `.` does not match a newline, so a path that continues on a second line
      is searched for. */
  lemma NewlineExample()
    ensures Classify("youtube.com/a\nb") == Some(SEARCH_PREFIX + "youtube.com/a\nb")
  {
    ClassifyStripped("youtube.com/a\nb");
    assert !Matches("youtube.com/a\nb");
  }

  /** A query that is searched for and the search address built from it lead
      to the same place: the address is opened directly. */
  lemma SearchAddressCoincides(query: string)
    requires query != [] && IsStripped(query) && '\n' !in query && !InLanguage(query)
    ensures Classify(SEARCH_PREFIX + query) == Classify(query)
  {
    var url := SEARCH_PREFIX + query;
    ClassifyStripped(query);
    MatchesIffInLanguage(query);
    assert url[0] == 'h' && url[|url| - 1] == query[|query| - 1];
    SearchAddressIsDirect(query);
    MatchesIffInLanguage(url);
    ClassifyStripped(url);
  }
}
