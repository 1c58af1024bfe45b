# YouTube client: address-bar navigation

The YouTube desktop client is a Qt window around an embedded web view with a
single address/search bar. When the user presses Enter in the bar,
`YouTubeClient.load_video_or_search` runs. It strips the text. If nothing is
left it does nothing. If the text matches the host pattern
`(https?://)?(www\.)?(youtube\.com|youtu\.?be)/.+$` it opens the text as
typed. Otherwise it opens
`https://www.youtube.com/results?search_query=` followed by the text. This
project models that decision and proves what it does.

Modules:

- `Wrappers` (wrappers.dfy): `Option`. `None` means the bar is ignored.
- `PyStrings` (strip.dfy): Python's `str.strip()` with no argument. It uses
  the exact set of code points for which `str.isspace()` holds, and
  follows CPython's shape: a left index, then a right index that never
  passes it.
- `HostPattern` (host_pattern.dfy): the regular expression as Python's
  `re.match` applies it. The match is anchored at the start and
  case-sensitive. `.` excludes only `\n`. `$` matches at the end or before
  a final newline. `InLanguage` describes the matched strings declaratively:
  one alternative per group, then a tail. `Matches` is a backtracking
  matcher that tries the alternatives in turn. The two are proved equal.
- `Navigation` (navigation.dfy): `Classify(input): Option<string>`, the
  destination handed to the web view, with its properties and the concrete
  scenarios.

Two behaviours of the code are kept as written:

- The code does not percent-encode the search query. The destination is the
  raw concatenation.
- The code does not add a scheme to a schemeless direct address such as
  `youtu.be/abc123`. That text is the destination as typed.

The older revision `main without goodbye_dpi.py` (lines 108-117) makes the
same decision in an if/else statement.

## Model

| member | source | states |
|---|---|---|
| PyStrings.IsSpace | main.py:121 | the 29 code points for which `str.isspace()` holds |
| PyStrings.SkipLeft | main.py:121 | the index where leading whitespace ends: everything before it is whitespace, the character at it is not |
| PyStrings.SkipRight | main.py:121 | the index where trailing whitespace begins, never before the left index: everything from it on is whitespace, the character before it is not |
| PyStrings.Strip | main.py:121 | the stripped text has no leading or trailing whitespace, and it is empty exactly when the input is all whitespace |
| PyStrings.StripSplits | main.py:121 | strip removes only whitespace, and only from the two ends: input = whitespace + result + whitespace |
| PyStrings.StripPadded | main.py:121 | whitespace around an already stripped string is exactly what strip removes (with Strip's contract this fixes the result) |
| PyStrings.StripIdempotent | main.py:121 | stripping twice equals stripping once |
| PyStrings.StripIgnoresPadding | main.py:121 | adding whitespace around any text does not change its stripped form |
| HostPattern.InLanguage | main.py:123 | the strings the pattern matches: one alternative per group, then a `.+$` tail |
| HostPattern.Matches | main.py:123 | the anchored, case-sensitive match of the pattern, tried group by group; MatchesIffInLanguage fixes what it accepts |
| HostPattern.LineEnd | main.py:123 | the first newline at or after an index (or the end), with no newline before it |
| HostPattern.MatchTailIffInLanguage | main.py:123 | the `.+$` matcher accepts exactly one or more non-newline characters up to the end, or up to a final newline |
| HostPattern.MatchesAtScheme | main.py:123 | the group `(https?://)?` accepts exactly "https://", "http://" or nothing before the rest of the pattern |
| HostPattern.MatchSubdomainAt | main.py:123 | the group `(www\.)?` accepts exactly "www." or nothing before the host |
| HostPattern.MatchHostAt | main.py:123 | the host group accepts exactly "youtube.com", "youtu.be" or "youtube" before the slash |
| HostPattern.MatchAfterHostAt | main.py:123 | after the host the pattern needs a "/" and a `.+$` tail |
| HostPattern.MatchesIffInLanguage | main.py:123 | the matcher succeeds exactly on the strings the pattern describes (both directions) |
| HostPattern.MatchesHeadAndPath | main.py:123 | every scheme/subdomain/host choice, a slash and a non-empty one-line path is matched |
| HostPattern.MatchedFirstCharacter | main.py:123 | the match is anchored: a matched string starts with "h", "w" or "y" |
| Navigation.Classify | main.py:120-124 | no destination exactly when the text is empty or all whitespace; any destination is non-empty with no leading or trailing whitespace |
| Navigation.ClassifyIgnoresPadding | main.py:121-123 | whitespace around the typed text never changes the destination |
| Navigation.DirectIsVerbatim | main.py:122-123 | text the pattern matches is opened verbatim after stripping: no scheme added, nothing rewritten |
| Navigation.SearchOtherwise | main.py:122-123 | other non-blank text becomes the search address followed by the stripped text, unencoded |
| Navigation.ExactlyOneForm | main.py:122-124 | non-blank text yields exactly one destination: the direct form if and only if the pattern matches, the search form if and only if it does not |
| Navigation.SearchAddressIsDirect | main.py:123 | a search address built from a one-line query is itself matched by the host pattern |
| Navigation.DestinationIsStable | main.py:121-124 | entering a newline-free destination again leads to the same destination |
| Navigation.ClassifyStripped | main.py:121-123 | text with no surrounding whitespace is classified as it stands |
| Navigation.SearchExample | main.py:123 | "cats" opens `https://www.youtube.com/results?search_query=cats` |
| Navigation.WatchAddressExample | main.py:123 | `https://www.youtube.com/watch?v=abc123` is opened unchanged |
| Navigation.ShortHostExamples | main.py:123 | "youtu.be/abc" and "youtube/abc" (no ".com") are opened as typed, with no scheme added |
| Navigation.EmptyPathExamples | main.py:123 | "youtube.com/" and "youtube.com" become searches, because the path needs at least one character |
| Navigation.AnchoredCaseSensitiveExamples | main.py:123 | "m.youtube.com/x" (the match is anchored) and "HTTPS://youtube.com/x" (the match is case-sensitive) become searches |
| Navigation.NewlineExample | main.py:123 | a path that continues past a newline becomes a search |
| Navigation.SearchAddressCoincides | main.py:121-123 | for every stripped one-line query the pattern does not match, typing its search address leads to the same destination as typing the query |

## Left out

- The Qt window, styling, background palette, fullscreen handling and the
  address-bar sync on `urlChanged` (main.py:67-118, 126-127). These are UI
  glue over Qt.
- `QtCore.QUrl` parsing and normalisation, and `browser.setUrl`
  (main.py:123-124). These are calls into Qt. The destination is the raw
  string that would be wrapped. What the web view then loads, for example
  after a `#` or `&` in an unencoded query, is not modelled.
- Reading the bar (`url_input.text()`). The input is a parameter.
- Characters are Unicode scalar values. Python strings that hold lone
  surrogates cannot be represented.
- Cookie persistence (main.py:129-142). It appends Qt's serialisation of
  each added cookie to a file, and `save_cookies` is a no-op. This is file
  I/O around Qt's own cookie code.
- Self-update (main.py:17-49). It is an HTTP request, JSON and zip
  extraction.
- The first-run flag and library installation (main.py:51-65). These are
  QSettings and subprocess calls.
- `main()` and the event loop (main.py:144-160).
