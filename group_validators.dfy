/**
 * The value-level validators and normalisers of a group record:
 * `automatic_membership_email_domains_format_validator`,
 * `downcase_incoming_email` and `incoming_email_validator`. Ruby's `^` and
 * `$` are line anchors and `\Z` also matches before a final newline; the
 * functions below spell that out.
 */
module GroupValidators {
  import opened Wrappers
  import opened Text

  // ---------------------------------------------------------------------------
  // Scanning helpers

  /** The first index at or after `from` holding `c`, or `|s|`. */
  function IndexFrom(s: string, c: char, from: nat): (i: nat)
    requires from <= |s|
    ensures from <= i <= |s|
    ensures i < |s| ==> s[i] == c
    ensures forall j :: from <= j < i ==> s[j] != c
    decreases |s| - from
  {
    if from == |s| || s[from] == c then from else IndexFrom(s, c, from + 1)
  }

  /** The last index holding `c`, or -1. */
  function LastIndex(s: string, c: char): (i: int)
    ensures -1 <= i < |s|
    ensures i >= 0 ==> s[i] == c
    ensures forall j :: i < j < |s| ==> s[j] != c
  {
    if |s| == 0 then -1
    else if s[|s| - 1] == c then |s| - 1
    else LastIndex(s[..|s| - 1], c)
  }

  /** The text `s` with `s[p..q]` cut out. */
  function Cut(s: string, p: nat, q: nat): (r: string)
    requires p <= q <= |s|
    ensures |r| == |s| - (q - p)
    ensures forall i :: 0 <= i < p ==> r[i] == s[i]
    ensures forall i :: p <= i < |r| ==> r[i] == s[i + (q - p)]
  {
    s[..p] + s[q..]
  }

  /** Cutting never brings in a character the text lacks. */
  lemma CutKeepsOut(s: string, p: nat, q: nat, c: char)
    requires p <= q <= |s| && c !in s
    ensures c !in Cut(s, p, q)
  {
    var r := Cut(s, p, q);
    forall i | 0 <= i < |r| ensures r[i] != c {
      if i < p {
        assert r[i] == s[i];
      } else {
        assert r[i] == s[i + (q - p)];
      }
    }
  }

  // ---------------------------------------------------------------------------
  // `domain.sub!(/^https?:\/\//, '')` and `domain.sub!(/\/.*$/, '')`

  /** A line of `d` starts at `p`. */
  predicate LineStart(d: string, p: nat)
    requires p <= |d|
  {
    p == 0 || d[p - 1] == '\n'
  }

  /** The length of the scheme prefix at `p`, or 0 when there is none. */
  function SchemeLength(d: string, p: nat): (n: nat)
    requires p <= |d|
    ensures n == 0 || n == 7 || n == 8
    ensures p + n <= |d|
  {
    if StartsWith(d[p..], "https://") then 8
    else if StartsWith(d[p..], "http://") then 7
    else 0
  }

  /** The leftmost position at or after `from` where a line starts with a scheme, or `|d|`. */
  function SchemeFrom(d: string, from: nat): (p: nat)
    requires from <= |d|
    ensures from <= p <= |d|
    ensures p < |d| ==> LineStart(d, p) && SchemeLength(d, p) > 0
    ensures forall j :: from <= j < p ==> !(LineStart(d, j) && SchemeLength(d, j) > 0)
    decreases |d| - from
  {
    if from == |d| then from
    else if LineStart(d, from) && SchemeLength(d, from) > 0 then from
    else SchemeFrom(d, from + 1)
  }

  /** The first `http://` or `https://` that begins a line is removed. */
  function StripScheme(d: string): (r: string)
    ensures |r| <= |d|
  {
    var p := SchemeFrom(d, 0);
    if p == |d| then d else Cut(d, p, p + SchemeLength(d, p))
  }

  /** The first `/` and the rest of its line are removed. */
  function StripPath(d: string): (r: string)
    ensures |r| <= |d|
    ensures '/' !in d ==> r == d
  {
    var p := IndexFrom(d, '/', 0);
    if p == |d| then d else Cut(d, p, IndexFrom(d, '\n', p))
  }

  /** One entry of the list after both substitutions. */
  function NormalizeDomain(d: string): (r: string)
    ensures |r| <= |d|
  {
    StripPath(StripScheme(d))
  }

  /** Normalising never brings in a character the entry lacks. */
  lemma NormalizeKeepsOut(d: string, c: char)
    requires c !in d
    ensures c !in NormalizeDomain(d)
  {
    var p := SchemeFrom(d, 0);
    if p < |d| {
      CutKeepsOut(d, p, p + SchemeLength(d, p), c);
    }
    var e := StripScheme(d);
    var q := IndexFrom(e, '/', 0);
    if q < |e| {
      CutKeepsOut(e, q, IndexFrom(e, '\n', q), c);
    }
  }

  // ---------------------------------------------------------------------------
  // `/\A[a-z0-9]+([\-\.]{1}[a-z0-9]+)*\.[a-z]{2,24}(:[0-9]{1,5})?(\/.*)?\Z/i`

  predicate IsLetter(c: char) { 'a' <= c <= 'z' || 'A' <= c <= 'Z' }
  predicate IsDigit(c: char) { '0' <= c <= '9' }
  predicate IsAlnum(c: char) { IsLetter(c) || IsDigit(c) }
  predicate IsLabelSeparator(c: char) { c == '-' || c == '.' }

  /** `[a-z0-9]+([\-\.][a-z0-9]+)*`: alphanumeric runs joined by single `-` or `.`. */
  predicate Labels(x: string)
  {
    |x| >= 1 && IsAlnum(x[0]) && LabelsTail(x[1..])
  }

  /** `[a-z0-9]*([\-\.][a-z0-9]+)*`, what may follow the first character of `Labels`. */
  predicate LabelsTail(y: string)
  {
    || |y| == 0
    || (IsAlnum(y[0]) && LabelsTail(y[1..]))
    || (|y| >= 2 && IsLabelSeparator(y[0]) && IsAlnum(y[1]) && LabelsTail(y[2..]))
  }

  predicate AllLetters(x: string)
  {
    |x| == 0 || (IsLetter(x[0]) && AllLetters(x[1..]))
  }

  predicate AllDigits(x: string)
  {
    |x| == 0 || (IsDigit(x[0]) && AllDigits(x[1..]))
  }

  /** `[a-z]{2,24}`. */
  predicate TopLevel(x: string)
  {
    2 <= |x| <= 24 && AllLetters(x)
  }

  /**
   * The host part. The top-level label has no `.`, so the `\.` before it is
   * the last dot of the host.
   */
  predicate Host(h: string)
  {
    var i := LastIndex(h, '.');
    i >= 1 && Labels(h[..i]) && TopLevel(h[i + 1..])
  }

  /** `[0-9]{1,5}`. */
  predicate Port(x: string)
  {
    1 <= |x| <= 5 && AllDigits(x)
  }

  /** The host with its optional port; the host holds no `:`, so the first `:` starts the port. */
  predicate HostPort(x: string)
  {
    var j := IndexFrom(x, ':', 0);
    if j == |x| then Host(x) else Host(x[..j]) && Port(x[j + 1..])
  }

  /** A match ending at the very end: no newline, and what precedes the first `/` is a host with an optional port. */
  predicate DomainLine(c: string)
  {
    '\n' !in c && HostPort(c[..IndexFrom(c, '/', 0)])
  }

  /** The whole pattern, `\Z` allowing one final newline. */
  predicate DomainPattern(d: string)
  {
    DomainLine(d) || (|d| >= 1 && d[|d| - 1] == '\n' && DomainLine(d[..|d| - 1]))
  }

  lemma {:induction false} AlnumLabelsTail(y: string)
    requires forall i :: 0 <= i < |y| ==> IsAlnum(y[i])
    ensures LabelsTail(y)
  {
    if |y| > 0 {
      AlnumLabelsTail(y[1..]);
    }
  }

  lemma {:induction false} LettersAllLetters(x: string)
    requires forall i :: 0 <= i < |x| ==> IsLetter(x[i])
    ensures AllLetters(x)
  {
    if |x| > 0 {
      LettersAllLetters(x[1..]);
    }
  }

  /**
   * A plain `name.tld` entry, such as `wikipedia.org` or
   * `discourse.institute`, matches.
   */
  lemma PlainDomainMatches(name: string, tld: string)
    requires |name| >= 1 && forall i :: 0 <= i < |name| ==> IsAlnum(name[i])
    requires 2 <= |tld| <= 24 && forall i :: 0 <= i < |tld| ==> IsLetter(tld[i])
    ensures DomainPattern(name + "." + tld)
  {
    var d := name + "." + tld;
    assert d[|name|] == '.';
    assert forall i :: |name| < i < |d| ==> d[i] == tld[i - |name| - 1];
    assert LastIndex(d, '.') == |name|;
    assert d[..|name|] == name && d[|name| + 1..] == tld;
    AlnumLabelsTail(name[1..]);
    LettersAllLetters(tld);
    assert forall i :: 0 <= i < |d| ==> d[i] != '/' && d[i] != ':' && d[i] != '\n';
    assert IndexFrom(d, '/', 0) == |d| && d[..|d|] == d;
    assert IndexFrom(d, ':', 0) == |d|;
  }

  /** An entry that does not begin with a letter or digit, such as `*@example.com`, never matches. */
  lemma BadFirstCharacterRefused(d: string)
    requires |d| >= 1 && !IsAlnum(d[0])
    ensures !DomainPattern(d)
  {
    NoDomainLine(d);
    var e := d[..|d| - 1];
    if |e| >= 1 {
      assert e[0] == d[0];
    }
    NoDomainLine(e);
  }

  lemma NoDomainLine(s: string)
    requires s == [] || !IsAlnum(s[0])
    ensures !DomainLine(s)
  {
    var c := s[..IndexFrom(s, '/', 0)];
    if |c| >= 1 {
      assert c[0] == s[0];
    }
    NoHostPort(c);
  }

  lemma NoHostPort(c: string)
    requires c == [] || !IsAlnum(c[0])
    ensures !HostPort(c)
  {
    var h := c[..IndexFrom(c, ':', 0)];
    if |h| >= 1 {
      assert h[0] == c[0];
    }
    NoHost(h);
    NoHost(c);
  }

  lemma NoHost(h: string)
    requires h == [] || !IsAlnum(h[0])
    ensures !Host(h)
  {
    var i := LastIndex(h, '.');
    if i >= 1 {
      assert h[..i][0] == h[0];
    }
  }

  /** A match holds no newline except a final one. */
  lemma DomainPatternNewlines(d: string)
    requires DomainPattern(d)
    ensures forall i :: 0 <= i < |d| - 1 ==> d[i] != '\n'
    ensures |d| >= 1
  {
    if !DomainLine(d) {
      assert forall i :: 0 <= i < |d| - 1 ==> d[i] == d[..|d| - 1][i];
    }
  }

  /** A match left by `StripPath` holds no `/`. */
  lemma StripPathMatchHasNoSlash(x: string)
    requires DomainPattern(StripPath(x))
    ensures '/' !in StripPath(x)
  {
    var r := StripPath(x);
    DomainPatternNewlines(r);
    var p := IndexFrom(x, '/', 0);
    if p < |x| {
      var q := IndexFrom(x, '\n', p);
      assert r == x[..p] + x[q..];
      if q < |x| {
        assert r[p] == '\n';
        assert p == |r| - 1;
        assert x[q..] == [x[q]] + x[q + 1..];
        assert |x[q..]| == 1;
      }
      assert forall i :: 0 <= i < p ==> r[i] == x[i];
      assert forall i :: p <= i < |r| ==> r[i] == '\n';
    }
  }

  /** A scheme prefix holds a `/`. */
  lemma SchemeNeedsSlash(r: string, p: nat)
    requires p <= |r|
    ensures '/' !in r ==> SchemeLength(r, p) == 0
  {
    var n := SchemeLength(r, p);
    if n > 0 {
      assert r[p..][..n][n - 1] == '/';
      assert r[p + n - 1] == '/';
    }
  }

  /** An entry that normalises to a match is left alone by a second normalisation. */
  lemma NormalizeFixed(d: string)
    requires DomainPattern(NormalizeDomain(d))
    ensures NormalizeDomain(NormalizeDomain(d)) == NormalizeDomain(d)
  {
    var r := NormalizeDomain(d);
    StripPathMatchHasNoSlash(StripScheme(d));
    var p := SchemeFrom(r, 0);
    SchemeNeedsSlash(r, p);
  }

  // ---------------------------------------------------------------------------
  // The domain list validator

  /** `f` applied to every entry, in order. */
  function Each(xs: seq<string>, f: string -> string): (r: seq<string>)
    ensures |r| == |xs|
    ensures forall i :: 0 <= i < |r| ==> r[i] == f(xs[i])
  {
    seq(|xs|, i requires 0 <= i < |xs| => f(xs[i]))
  }

  lemma EachSnoc(xs: seq<string>, i: nat, f: string -> string)
    requires i < |xs|
    ensures Each(xs[..i + 1], f) == Each(xs[..i], f) + [f(xs[i])]
  {
    var a := Each(xs[..i + 1], f);
    var b := Each(xs[..i], f) + [f(xs[i])];
    assert |a| == |b|;
    forall j | 0 <= j < |a| ensures a[j] == b[j] {
      assert xs[..i + 1][j] == xs[j];
      if j < i {
        assert xs[..i][j] == xs[j];
      }
    }
  }

  /** Every entry normalised, in order. */
  function NormalizeAll(parts: seq<string>): (r: seq<string>)
    ensures |r| == |parts|
    ensures forall i :: 0 <= i < |r| ==> r[i] == NormalizeDomain(parts[i])
  {
    Each(parts, NormalizeDomain)
  }

  /**
   * The entries that fail `ok`, in order: the validator adds one error for
   * each normalised entry that fails the pattern.
   */
  function Rejected(xs: seq<string>, ok: string -> bool): (r: seq<string>)
    ensures |r| <= |xs|
    ensures forall x :: x in r ==> !ok(x) && x in xs
    ensures r == [] <==> forall i :: 0 <= i < |xs| ==> ok(xs[i])
  {
    if |xs| == 0 then []
    else
      var init := xs[..|xs| - 1];
      var last := xs[|xs| - 1];
      assert forall i :: 0 <= i < |init| ==> init[i] == xs[i];
      Rejected(init, ok) + (if ok(last) then [] else [last])
  }

  lemma RejectedSnoc(xs: seq<string>, d: string, ok: string -> bool)
    ensures Rejected(xs + [d], ok) == Rejected(xs, ok) + (if ok(d) then [] else [d])
  {
    assert (xs + [d])[..|xs|] == xs;
  }

  /** The column after validation: a blank list is left alone, any other is rewritten. */
  function DomainsAfter(value: Option<string>): (r: Option<string>)
  {
    if value.None? || IsBlank(value.value) then value
    else Some(Join(NormalizeAll(Split(value.value, '|')), "|"))
  }

  /** The entries the validator reports. */
  function DomainErrors(value: Option<string>): (r: seq<string>)
  {
    if value.None? || IsBlank(value.value) then []
    else Rejected(NormalizeAll(Split(value.value, '|')), DomainPattern)
  }

  /**
   * `automatic_membership_email_domains_format_validator`: rewrites the
   * column to the normalised entries and reports every entry that does not
   * match.
   */
  method ValidateDomains(value: Option<string>) returns (rewritten: Option<string>, invalid: seq<string>)
    ensures rewritten == DomainsAfter(value)
    ensures invalid == DomainErrors(value)
  {
    if value.None? || IsBlank(value.value) {
      return value, [];
    }
    var domains := Split(value.value, '|');
    var normalized: seq<string> := [];
    invalid := [];
    var i := 0;
    while i < |domains|
      invariant 0 <= i <= |domains|
      invariant normalized == NormalizeAll(domains[..i])
      invariant invalid == Rejected(normalized, DomainPattern)
    {
      var domain := NormalizeDomain(domains[i]);
      RejectedSnoc(normalized, domain, DomainPattern);
      if !DomainPattern(domain) {
        invalid := invalid + [domain];
      }
      EachSnoc(domains, i, NormalizeDomain);
      normalized := normalized + [domain];
      i := i + 1;
    }
    assert domains[..i] == domains;
    rewritten := Some(Join(normalized, "|"));
  }

  /** The parts of a Ruby `split` hold no separator. */
  lemma SplitPartsLackSeparator(s: string, c: char)
    ensures forall i :: 0 <= i < |Split(s, c)| ==> c !in Split(s, c)[i]
  {
    var parts := Split(s, c);
    assert parts == SplitAll(s, c)[..|parts|];
    assert forall i :: 0 <= i < |parts| ==> parts[i] == SplitAll(s, c)[i];
  }

  /** One entry that normalises to a match: its normal form is non-empty, `|`-free and fixed. */
  lemma EntryFixed(d: string)
    requires '|' !in d
    requires DomainPattern(NormalizeDomain(d))
    ensures '|' !in NormalizeDomain(d) && NormalizeDomain(d) != ""
    ensures NormalizeDomain(NormalizeDomain(d)) == NormalizeDomain(d)
  {
    NormalizeFixed(d);
    NormalizeKeepsOut(d, '|');
    DomainPatternNewlines(NormalizeDomain(d));
  }

  /** Entries that normalise to matches, joined again, split back into themselves and stay put. */
  lemma RejoinedFixed(parts: seq<string>)
    requires forall i :: 0 <= i < |parts| ==> '|' !in parts[i]
    requires forall i :: 0 <= i < |parts| ==> DomainPattern(NormalizeDomain(parts[i]))
    ensures Split(Join(NormalizeAll(parts), "|"), '|') == NormalizeAll(parts)
    ensures NormalizeAll(NormalizeAll(parts)) == NormalizeAll(parts)
  {
    var normed := NormalizeAll(parts);
    forall i | 0 <= i < |normed|
      ensures '|' !in normed[i] && normed[i] != "" && NormalizeDomain(normed[i]) == normed[i]
    {
      EntryFixed(parts[i]);
    }
    SplitJoin(normed, '|');
  }

  /** A list the validator accepts is accepted again, unchanged, by a second validation. */
  lemma ValidateDomainsIdempotent(value: Option<string>)
    requires DomainErrors(value) == []
    ensures DomainsAfter(DomainsAfter(value)) == DomainsAfter(value)
    ensures DomainErrors(DomainsAfter(value)) == []
  {
    if value.Some? && !IsBlank(value.value) {
      var parts := Split(value.value, '|');
      SplitPartsLackSeparator(value.value, '|');
      var normed := NormalizeAll(parts);
      assert Rejected(normed, DomainPattern) == [];
      RejoinedFixed(parts);
    }
  }

  // ---------------------------------------------------------------------------
  // `downcase_incoming_email`

  /** `(incoming_email || "").strip.downcase.presence`. */
  function DowncaseIncomingEmail(value: Option<string>): (r: Option<string>)
  {
    match value
    case None => None
    case Some(v) =>
      var s := ToLower(Strip(v));
      if IsBlank(s) then None else Some(s)
  }

  lemma ToLowerKeepsStripSpace(s: string)
    ensures |ToLower(s)| == |s|
    ensures forall i :: 0 <= i < |s| ==> (IsStripSpace(ToLower(s)[i]) <==> IsStripSpace(s[i]))
  {
  }

  lemma StripOfStripped(s: string)
    requires s == [] || (!IsStripSpace(s[0]) && !IsStripSpace(s[|s| - 1]))
    ensures Strip(s) == s
  {
  }

  /** The stored address is absent or a non-blank, lower-case, stripped string, and normalising twice changes nothing. */
  lemma DowncaseIncomingEmailNormal(value: Option<string>)
    ensures var r := DowncaseIncomingEmail(value);
      && (r.Some? ==> !IsBlank(r.value) && ToLower(r.value) == r.value && Strip(r.value) == r.value)
      && DowncaseIncomingEmail(r) == r
  {
    var stripped := Strip(value.GetOr(""));
    var s := ToLower(stripped);
    ToLowerIdempotent(stripped);
    ToLowerKeepsStripSpace(stripped);
    StripEdges(value.GetOr(""));
    assert stripped == [] || (!IsStripSpace(stripped[0]) && !IsStripSpace(stripped[|stripped| - 1]));
    StripOfStripped(s);
    if !IsBlank(s) {
      assert DowncaseIncomingEmail(Some(s)) == Some(ToLower(Strip(s)));
    }
  }

  // ---------------------------------------------------------------------------
  // `incoming_email_validator`

  /** The error reported for one address. */
  datatype EmailError =
    | InvalidIncomingEmail(email: string)
    | EmailUsedInGroup(email: string, groupName: string)
    | EmailUsedInCategory(email: string, categoryName: string)

  /**
   * The check of one address: `Email.is_valid?`, another group whose
   * addresses include it, and a category using it are collaborators.
   */
  function AddressError(email: string, isValid: string -> bool,
                        otherGroup: string -> Option<string>, category: string -> Option<string>): (r: Option<EmailError>)
    ensures r.Some? ==> r.value.email == email
    ensures r.None? <==> isValid(email) && otherGroup(email).None? && category(email).None?
  {
    if !isValid(email) then Some(InvalidIncomingEmail(email))
    else if otherGroup(email).Some? then Some(EmailUsedInGroup(email, otherGroup(email).value))
    else if category(email).Some? then Some(EmailUsedInCategory(email, category(email).value))
    else None
  }

  /** The errors for a list of addresses, at most one for each, in order. */
  function AddressErrors(emails: seq<string>, isValid: string -> bool,
                         otherGroup: string -> Option<string>, category: string -> Option<string>): (r: seq<EmailError>)
    ensures |r| <= |emails|
    ensures forall e :: e in r ==> e.email in emails
    ensures r == [] <==> forall i :: 0 <= i < |emails| ==> AddressError(emails[i], isValid, otherGroup, category).None?
  {
    if |emails| == 0 then []
    else
      var rest := AddressErrors(emails[1..], isValid, otherGroup, category);
      var e := AddressError(emails[0], isValid, otherGroup, category);
      assert forall i :: 1 <= i < |emails| ==> emails[i] == emails[1..][i - 1];
      (if e.Some? then [e.value] else []) + rest
  }

  /** `incoming_email_validator`: nothing for an automatic group or a blank column. */
  function IncomingEmailErrors(automatic: bool, value: Option<string>, isValid: string -> bool,
                               otherGroup: string -> Option<string>, category: string -> Option<string>): (r: seq<EmailError>)
    ensures automatic || value.None? || IsBlank(value.value) ==> r == []
    ensures !automatic && value.Some? ==> |r| <= |Split(value.value, '|')|
    ensures forall e :: e in r ==> value.Some? && e.email in Split(value.value, '|')
  {
    if automatic || value.None? || IsBlank(value.value) then []
    else AddressErrors(Split(value.value, '|'), isValid, otherGroup, category)
  }
}
