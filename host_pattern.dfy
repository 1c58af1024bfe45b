/**
  The address-bar pattern `(https?://)?(www\.)?(youtube\.com|youtu\.?be)/.+$`
  as Python's `re.match` applies it: anchored at the start of the string,
  case-sensitive, `.` matching any character except a newline, and `$`
  matching at the end of the string or just before a newline that ends it.

  The pattern is given twice.  `InLanguage` says which strings it matches, as
  a choice of one alternative per group followed by a tail that `.+$` accepts.
  `Matches` is the backtracking matcher, trying the alternatives of each group
  in turn.  `MatchesIffInLanguage` proves the two agree.
 */
module HostPattern {

  /** The alternatives of `(https?://)?`, in the order the matcher tries them. */
  const SCHEMES: seq<string> := ["https://", "http://", ""]
  /** The alternatives of `(www\.)?`. */
  const SUBDOMAINS: seq<string> := ["www.", ""]
  /** The alternatives of `(youtube\.com|youtu\.?be)`. */
  const HOSTS: seq<string> := ["youtube.com", "youtu.be", "youtube"]

  /** The fixed part of a match for one choice of scheme, subdomain and host. */
  function Head(a: nat, b: nat, c: nat): string
    requires a < |SCHEMES| && b < |SUBDOMAINS| && c < |HOSTS|
  {
    SCHEMES[a] + SUBDOMAINS[b] + HOSTS[c] + "/"
  }

  /** `.+$`: one or more non-newline characters up to the end, or up to a
      newline that is the last character. */
  ghost predicate TailInLanguage(t: string) {
    exists k | 1 <= k <= |t| ::
      && '\n' !in t[..k]
      && (k == |t| || (k == |t| - 1 && t[k] == '\n'))
  }

  /** `re.match` of the whole pattern succeeds on `s`. */
  ghost predicate InLanguage(s: string) {
    exists a: nat, b: nat, c: nat | a < |SCHEMES| && b < |SUBDOMAINS| && c < |HOSTS| ::
      Head(a, b, c) <= s && TailInLanguage(s[|Head(a, b, c)|..])
  }

  // ---------------------------------------------------------------------
  // The matcher

  /** The first index at or after `i` holding a newline, or `|t|`. */
  function LineEnd(t: string, i: nat): (n: nat)
    requires i <= |t|
    ensures i <= n <= |t|
    ensures '\n' !in t[i..n]
    ensures n == |t| || t[n] == '\n'
    decreases |t| - i
  {
    if i == |t| || t[i] == '\n' then i
    else
      var n := LineEnd(t, i + 1);
      assert t[i..n] == [t[i]] + t[i + 1..n];
      n
  }

  /** `.+$` at the start of `t`. */
  predicate MatchTail(t: string) {
    var n := LineEnd(t, 0);
    1 <= n && (n == |t| || n == |t| - 1)
  }

  /** `/.+$` */
  predicate MatchAfterHost(s: string) {
    |s| > 0 && s[0] == '/' && MatchTail(s[1..])
  }

  /** `(youtube\.com|youtu\.?be)/.+$` */
  predicate MatchHost(s: string) {
    || ("youtube.com" <= s && MatchAfterHost(s[11..]))
    || ("youtu.be" <= s && MatchAfterHost(s[8..]))
    || ("youtube" <= s && MatchAfterHost(s[7..]))
  }

  /** `(www\.)?(youtube\.com|youtu\.?be)/.+$` */
  predicate MatchSubdomain(s: string) {
    || ("www." <= s && MatchHost(s[4..]))
    || MatchHost(s)
  }

  /** `(https?://)?(www\.)?(youtube\.com|youtu\.?be)/.+$` anchored at the start. */
  predicate Matches(s: string) {
    || ("https://" <= s && MatchSubdomain(s[8..]))
    || ("http://" <= s && MatchSubdomain(s[7..]))
    || MatchSubdomain(s)
  }

  // ---------------------------------------------------------------------
  // The matcher accepts exactly the language

  lemma MatchTailIffInLanguage(t: string)
    ensures MatchTail(t) <==> TailInLanguage(t)
  {
  }

  lemma MatchesAtScheme(s: string)
    ensures Matches(s) <==> exists a: nat | a < |SCHEMES| :: SCHEMES[a] <= s && MatchSubdomain(s[|SCHEMES[a]|..])
  {
    assert s[|SCHEMES[2]|..] == s;
    if Matches(s) {
      if "https://" <= s && MatchSubdomain(s[8..]) {
        assert SCHEMES[0] <= s && MatchSubdomain(s[|SCHEMES[0]|..]);
      } else if "http://" <= s && MatchSubdomain(s[7..]) {
        assert SCHEMES[1] <= s && MatchSubdomain(s[|SCHEMES[1]|..]);
      } else {
        assert SCHEMES[2] <= s && MatchSubdomain(s[|SCHEMES[2]|..]);
      }
    }
  }

  lemma MatchSubdomainAt(s: string)
    ensures MatchSubdomain(s) <==> exists b: nat | b < |SUBDOMAINS| :: SUBDOMAINS[b] <= s && MatchHost(s[|SUBDOMAINS[b]|..])
  {
    assert s[|SUBDOMAINS[1]|..] == s;
    if MatchSubdomain(s) {
      if "www." <= s && MatchHost(s[4..]) {
        assert SUBDOMAINS[0] <= s && MatchHost(s[|SUBDOMAINS[0]|..]);
      } else {
        assert SUBDOMAINS[1] <= s && MatchHost(s[|SUBDOMAINS[1]|..]);
      }
    }
  }

  lemma MatchHostAt(s: string)
    ensures MatchHost(s) <==> exists c: nat | c < |HOSTS| :: HOSTS[c] <= s && MatchAfterHost(s[|HOSTS[c]|..])
  {
    if MatchHost(s) {
      if "youtube.com" <= s && MatchAfterHost(s[11..]) {
        assert HOSTS[0] <= s && MatchAfterHost(s[|HOSTS[0]|..]);
      } else if "youtu.be" <= s && MatchAfterHost(s[8..]) {
        assert HOSTS[1] <= s && MatchAfterHost(s[|HOSTS[1]|..]);
      } else {
        assert HOSTS[2] <= s && MatchAfterHost(s[|HOSTS[2]|..]);
      }
    }
  }

  lemma MatchAfterHostAt(s: string)
    ensures MatchAfterHost(s) <==> "/" <= s && TailInLanguage(s[1..])
  {
  }

  lemma PrefixConcat(p: string, q: string, s: string)
    ensures p + q <= s <==> p <= s && q <= s[|p|..]
    ensures p + q <= s ==> s[|p + q|..] == s[|p|..][|q|..]
  {
  }

  /** Splitting a match of `s` at the chosen scheme, subdomain and host. */
  lemma HeadSplit(a: nat, b: nat, c: nat, s: string)
    requires a < |SCHEMES| && b < |SUBDOMAINS| && c < |HOSTS|
    ensures Head(a, b, c) <= s <==>
      && SCHEMES[a] <= s
      && SUBDOMAINS[b] <= s[|SCHEMES[a]|..]
      && HOSTS[c] <= s[|SCHEMES[a]|..][|SUBDOMAINS[b]|..]
      && "/" <= s[|SCHEMES[a]|..][|SUBDOMAINS[b]|..][|HOSTS[c]|..]
    ensures Head(a, b, c) <= s ==>
      s[|Head(a, b, c)|..] == s[|SCHEMES[a]|..][|SUBDOMAINS[b]|..][|HOSTS[c]|..][1..]
  {
    var sa, sb, sc := SCHEMES[a], SUBDOMAINS[b], HOSTS[c];
    PrefixConcat(sa + sb + sc, "/", s);
    PrefixConcat(sa + sb, sc, s);
    PrefixConcat(sa, sb, s);
  }

  /** The matcher succeeds exactly on the strings the pattern describes. */
  lemma MatchesIffInLanguage(s: string)
    ensures Matches(s) <==> InLanguage(s)
  {
    MatchesAtScheme(s);
    if Matches(s) {
      var a: nat :| a < |SCHEMES| && SCHEMES[a] <= s && MatchSubdomain(s[|SCHEMES[a]|..]);
      var r := s[|SCHEMES[a]|..];
      MatchSubdomainAt(r);
      var b: nat :| b < |SUBDOMAINS| && SUBDOMAINS[b] <= r && MatchHost(r[|SUBDOMAINS[b]|..]);
      var r' := r[|SUBDOMAINS[b]|..];
      MatchHostAt(r');
      var c: nat :| c < |HOSTS| && HOSTS[c] <= r' && MatchAfterHost(r'[|HOSTS[c]|..]);
      MatchAfterHostAt(r'[|HOSTS[c]|..]);
      HeadSplit(a, b, c, s);
      assert Head(a, b, c) <= s && TailInLanguage(s[|Head(a, b, c)|..]);
    }
    if InLanguage(s) {
      var a: nat, b: nat, c: nat :| a < |SCHEMES| && b < |SUBDOMAINS| && c < |HOSTS| &&
        Head(a, b, c) <= s && TailInLanguage(s[|Head(a, b, c)|..]);
      HeadSplit(a, b, c, s);
      var r := s[|SCHEMES[a]|..];
      var r' := r[|SUBDOMAINS[b]|..];
      MatchAfterHostAt(r'[|HOSTS[c]|..]);
      MatchHostAt(r');
      MatchSubdomainAt(r);
    }
  }

  /** Every choice of scheme, subdomain and host, a slash, and a one-line path
      is matched. */
  lemma MatchesHeadAndPath(a: nat, b: nat, c: nat, path: string)
    requires a < |SCHEMES| && b < |SUBDOMAINS| && c < |HOSTS|
    requires path != [] && '\n' !in path
    ensures Matches(Head(a, b, c) + path)
  {
    var s := Head(a, b, c) + path;
    assert s[|Head(a, b, c)|..] == path;
    assert path[..|path|] == path;
    MatchesIffInLanguage(s);
  }

  /** A matched string starts with the first letter of "http", "www" or "youtu". */
  lemma MatchedFirstCharacter(s: string)
    requires Matches(s)
    ensures s[0] == 'h' || s[0] == 'w' || s[0] == 'y'
  {
  }
}
