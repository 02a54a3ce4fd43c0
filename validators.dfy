/**
 * The string helpers of the validation service: an e-mail format check
 * written as a regular expression, name normalisation (trim, then
 * capitalise) and a count of the fields that carry validation errors.
 *
 * Strings are sequences of characters. The e-mail pattern is written out
 * by hand as a recogniser and proved equal to the language of the pattern;
 * whitespace and case mapping are those of Python on ASCII characters.
 */
module Validators {

  datatype Option<T> = None | Some(value: T)

  // ---------------------------------------------------------------------
  // Character classes of the e-mail pattern
  // ---------------------------------------------------------------------

  predicate IsAsciiUpper(c: char) { 'A' <= c <= 'Z' }

  predicate IsAsciiLower(c: char) { 'a' <= c <= 'z' }

  /** `[a-zA-Z]` */
  predicate IsAsciiLetter(c: char) { IsAsciiLower(c) || IsAsciiUpper(c) }

  predicate IsAsciiDigit(c: char) { '0' <= c <= '9' }

  /** `[a-zA-Z0-9._%+-]`, the characters of the local part */
  predicate IsLocalChar(c: char) {
    IsAsciiLetter(c) || IsAsciiDigit(c) || c == '.' || c == '_' || c == '%' || c == '+' || c == '-'
  }

  /** `[a-zA-Z0-9.-]`, the characters of the domain */
  predicate IsDomainChar(c: char) {
    IsAsciiLetter(c) || IsAsciiDigit(c) || c == '.' || c == '-'
  }

  predicate AllLocalChars(s: string) { forall i :: 0 <= i < |s| ==> IsLocalChar(s[i]) }

  predicate AllDomainChars(s: string) { forall i :: 0 <= i < |s| ==> IsDomainChar(s[i]) }

  predicate AllLetters(s: string) { forall i :: 0 <= i < |s| ==> IsAsciiLetter(s[i]) }

  /** `[a-zA-Z0-9._%+-]+` */
  predicate IsLocalPart(s: string) { |s| >= 1 && AllLocalChars(s) }

  /** `[a-zA-Z0-9.-]+` */
  predicate IsDomain(s: string) { |s| >= 1 && AllDomainChars(s) }

  /** `[a-zA-Z]{2,}` */
  predicate IsTopLevel(s: string) { |s| >= 2 && AllLetters(s) }

  // ---------------------------------------------------------------------
  // The language of the e-mail pattern
  // ---------------------------------------------------------------------

  function Address(local: string, domain: string, tld: string): string {
    local + "@" + (domain + "." + tld)
  }

  /** `s` is local `@` domain `.` tld, each part in its class. */
  ghost predicate IsAddress(s: string) {
    exists local, domain, tld {:trigger Address(local, domain, tld)} ::
      && s == Address(local, domain, tld)
      && IsLocalPart(local) && IsDomain(domain) && IsTopLevel(tld)
  }

  /**
   * What `re.match` accepts for the pattern anchored by `^` and `$`: without
   * the multi-line flag `$` matches at the end of the input and also just
   * before a newline that ends the input.
   */
  ghost predicate PatternAccepts(s: string) {
    IsAddress(s) || (|s| >= 1 && s[|s| - 1] == '\n' && IsAddress(s[..|s| - 1]))
  }

  // ---------------------------------------------------------------------
  // The recogniser
  // ---------------------------------------------------------------------

  /** Position of the first `c` in `s`. */
  function IndexOf(s: string, c: char): (r: Option<nat>)
    ensures r.None? ==> forall j :: 0 <= j < |s| ==> s[j] != c
    ensures r.Some? ==> r.value < |s| && s[r.value] == c
    ensures r.Some? ==> forall j :: 0 <= j < r.value ==> s[j] != c
  {
    if s == [] then None
    else if s[0] == c then Some(0)
    else
      match IndexOf(s[1..], c)
      case None => None
      case Some(i) => Some(i + 1)
  }

  /** Position of the last `c` in `s`. */
  function LastIndexOf(s: string, c: char): (r: Option<nat>)
    ensures r.None? ==> forall j :: 0 <= j < |s| ==> s[j] != c
    ensures r.Some? ==> r.value < |s| && s[r.value] == c
    ensures r.Some? ==> forall j :: r.value < j < |s| ==> s[j] != c
  {
    if s == [] then None
    else if s[|s| - 1] == c then Some(|s| - 1)
    else LastIndexOf(s[..|s| - 1], c)
  }

  /**
   * `[a-zA-Z0-9.-]+\.[a-zA-Z]{2,}` against the whole of `s`. Letters and the
   * dot are domain characters, so the pattern holds exactly when every
   * character is a domain character and the last dot has something before it
   * and two or more letters after it.
   */
  function MatchesHost(s: string): bool {
    && AllDomainChars(s)
    && match LastIndexOf(s, '.')
       case None => false
       case Some(dot) => dot >= 1 && IsTopLevel(s[dot + 1..])
  }

  /**
   * The anchored pattern against the whole of `s`. Neither class admits `@`,
   * so the `@` of the pattern can only be the first one of the input.
   */
  function MatchesWhole(s: string): bool {
    match IndexOf(s, '@')
    case None => false
    case Some(at) => IsLocalPart(s[..at]) && MatchesHost(s[at + 1..])
  }

  /** `re.match(pattern, s)` succeeds. */
  function PatternMatches(s: string): bool {
    MatchesWhole(s) || (|s| >= 1 && s[|s| - 1] == '\n' && MatchesWhole(s[..|s| - 1]))
  }

  lemma IndexOfIs(s: string, c: char, k: nat)
    requires k < |s| && s[k] == c
    requires forall j :: 0 <= j < k ==> s[j] != c
    ensures IndexOf(s, c) == Some(k)
  {
  }

  lemma LastIndexOfIs(s: string, c: char, k: nat)
    requires k < |s| && s[k] == c
    requires forall j :: k < j < |s| ==> s[j] != c
    ensures LastIndexOf(s, c) == Some(k)
  {
  }

  lemma HostParts(host: string) returns (domain: string, tld: string)
    requires MatchesHost(host)
    ensures host == domain + "." + tld && IsDomain(domain) && IsTopLevel(tld)
  {
    var dot := LastIndexOf(host, '.').value;
    domain, tld := host[..dot], host[dot + 1..];
    assert host == domain + "." + tld;
    assert forall i :: 0 <= i < |domain| ==> domain[i] == host[i];
  }

  lemma MatchedIsAddress(s: string)
    requires MatchesWhole(s)
    ensures IsAddress(s)
  {
    var at := IndexOf(s, '@').value;
    var local, host := s[..at], s[at + 1..];
    assert s == local + "@" + host;
    var domain, tld := HostParts(host);
    assert s == Address(local, domain, tld);
  }

  lemma HostIsMatched(domain: string, tld: string)
    requires IsDomain(domain) && IsTopLevel(tld)
    ensures MatchesHost(domain + "." + tld)
  {
    var host := domain + "." + tld;
    assert forall j :: 0 <= j < |domain| ==> host[j] == domain[j];
    assert forall j :: |domain| < j < |host| ==> host[j] == tld[j - |domain| - 1];
    LastIndexOfIs(host, '.', |domain|);
    assert host[|domain| + 1..] == tld;
  }

  lemma AddressIsMatched(local: string, domain: string, tld: string)
    requires IsLocalPart(local) && IsDomain(domain) && IsTopLevel(tld)
    ensures MatchesWhole(Address(local, domain, tld))
  {
    var s := Address(local, domain, tld);
    var host := domain + "." + tld;
    assert s == local + "@" + host;
    assert forall j :: 0 <= j < |local| ==> s[j] == local[j];
    IndexOfIs(s, '@', |local|);
    assert s[..|local|] == local;
    assert s[|local| + 1..] == host;
    HostIsMatched(domain, tld);
  }

  /** The recogniser accepts exactly the strings of the form local@domain.tld. */
  lemma MatchesWholeIff(s: string)
    ensures MatchesWhole(s) <==> IsAddress(s)
  {
    if MatchesWhole(s) {
      MatchedIsAddress(s);
    }
    if IsAddress(s) {
      var local, domain, tld :|
        s == Address(local, domain, tld) && IsLocalPart(local) && IsDomain(domain) && IsTopLevel(tld);
      AddressIsMatched(local, domain, tld);
    }
  }

  lemma PatternMatchesIff(s: string)
    ensures PatternMatches(s) <==> PatternAccepts(s)
  {
    MatchesWholeIff(s);
    if |s| >= 1 {
      MatchesWholeIff(s[..|s| - 1]);
    }
  }

  // ---------------------------------------------------------------------
  // validate_email
  // ---------------------------------------------------------------------

  const InvalidEmailMessage: string := "Invalid email format"

  /** The pair (is_valid, error_message) of the e-mail check. */
  function ValidateEmail(email: string): (result: (bool, string))
    ensures result.0 <==> PatternAccepts(email)
    ensures result.0 ==> result.1 == ""
    ensures !result.0 ==> result.1 == InvalidEmailMessage
    ensures result.1 == "" <==> result.0
  {
    PatternMatchesIff(email);
    if PatternMatches(email) then (true, "") else (false, InvalidEmailMessage)
  }

  lemma AddressParts(s: string) returns (local: string, domain: string, tld: string)
    requires IsAddress(s)
    ensures s == Address(local, domain, tld)
    ensures IsLocalPart(local) && IsDomain(domain) && IsTopLevel(tld)
  {
    local, domain, tld :|
      s == Address(local, domain, tld) && IsLocalPart(local) && IsDomain(domain) && IsTopLevel(tld);
  }

  /** An address holds exactly one `@`: neither class admits it. */
  lemma AddressHasOneAt(local: string, domain: string, tld: string)
    requires IsLocalPart(local) && IsDomain(domain) && IsTopLevel(tld)
    ensures multiset(Address(local, domain, tld))['@'] == 1
  {
    var host := domain + "." + tld;
    assert Address(local, domain, tld) == local + "@" + host;
    assert '@' !in local;
    assert '@' !in host by {
      assert forall j :: 0 <= j < |domain| ==> host[j] == domain[j];
      assert forall j :: |domain| < j < |host| ==> host[j] == tld[j - |domain| - 1];
    }
  }

  /** An address ends in a dot and the top-level label. */
  lemma AddressEndsInTopLevel(local: string, domain: string, tld: string)
    ensures var s := Address(local, domain, tld);
      && |s| == |local| + |domain| + |tld| + 2
      && s[|s| - |tld| - 1] == '.' && s[|s| - |tld|..] == tld
  {
    var s := Address(local, domain, tld);
    assert s == (local + "@" + domain + ".") + tld;
    assert s[|s| - |tld|..] == tld;
  }

  /**
   * An address is at least six characters long, ends in a letter, and has a
   * dot followed by the top-level label.
   */
  lemma AddressEnd(s: string)
    requires IsAddress(s)
    ensures |s| >= 6 && IsAsciiLetter(s[|s| - 1])
    ensures exists dot :: 0 < dot < |s| && s[dot] == '.' && IsTopLevel(s[dot + 1..])
  {
    var local, domain, tld := AddressParts(s);
    AddressEndsInTopLevel(local, domain, tld);
    assert s[|s| - 1] == tld[|tld| - 1];
    var dot := |s| - |tld| - 1;
    assert s[dot + 1..] == tld;
  }

  /** What an accepted input is: an address, possibly followed by one newline. */
  lemma AcceptedBody(email: string) returns (body: string)
    requires ValidateEmail(email).0
    ensures IsAddress(body)
    ensures email == body || email == body + "\n"
  {
    if IsAddress(email) {
      body := email;
    } else {
      body := email[..|email| - 1];
      assert email == body + "\n";
    }
  }

  /**
   * An accepted input holds exactly one `@`: inputs with none or with several
   * are refused.
   */
  lemma AcceptedHasOneAt(email: string)
    requires ValidateEmail(email).0
    ensures multiset(email)['@'] == 1
  {
    var body := AcceptedBody(email);
    var local, domain, tld := AddressParts(body);
    AddressHasOneAt(local, domain, tld);
    if email != body {
      assert multiset(email) == multiset(body) + multiset{'\n'};
    }
  }

  /**
   * An accepted input ends in a dot and two or more letters, after which at
   * most one newline may follow.
   */
  lemma AcceptedEndsInTopLevel(email: string)
    requires ValidateEmail(email).0
    ensures |email| >= 6
    ensures var body := if email[|email| - 1] == '\n' then email[..|email| - 1] else email;
      exists dot :: 0 < dot < |body| && body[dot] == '.' && IsTopLevel(body[dot + 1..])
  {
    var body := AcceptedBody(email);
    AddressEnd(body);
    if email != body {
      assert email[..|email| - 1] == body;
    }
  }

  /**
   * Because of `$`, an address followed by one newline is accepted, and
   * nothing else that ends in a newline is.
   */
  lemma FinalNewline(s: string)
    ensures ValidateEmail(s + "\n").0 <==> IsAddress(s)
  {
    assert (s + "\n")[..|s|] == s;
    if IsAddress(s + "\n") {
      AddressEnd(s + "\n");
    }
  }

  lemma EmailAcceptedExample()
    ensures ValidateEmail("juan@example.com") == (true, "")
  {
    assert "juan@example.com" == Address("juan", "example", "com");
    assert IsLocalPart("juan") && IsDomain("example") && IsTopLevel("com");
  }

  lemma EmailDottedLocalExample()
    ensures ValidateEmail("juan.perez@example.com") == (true, "")
  {
    assert "juan.perez@example.com" == Address("juan.perez", "example", "com");
    assert IsLocalPart("juan.perez") && IsDomain("example") && IsTopLevel("com");
  }

  lemma EmailRejectedExample()
    ensures ValidateEmail("not-an-email") == (false, InvalidEmailMessage)
  {
    assert '@' !in "not-an-email";
  }

  // ---------------------------------------------------------------------
  // capitalize_name
  // ---------------------------------------------------------------------

  /**
   * Python's `str.isspace` on ASCII: tab, line feed, vertical tab, form feed,
   * carriage return (9-13), the separators 0x1C-0x1F and space (28-32).
   */
  predicate IsSpace(c: char) {
    var n := c as int;
    9 <= n <= 13 || 28 <= n <= 32
  }

  predicate AllSpace(s: string) { forall i :: 0 <= i < |s| ==> IsSpace(s[i]) }

  /** No whitespace at either end. */
  predicate Trimmed(s: string) { s == [] || (!IsSpace(s[0]) && !IsSpace(s[|s| - 1])) }

  /** Number of whitespace characters that open `s`. */
  function LeadingSpace(s: string): (n: nat)
    ensures n <= |s|
    ensures forall i :: 0 <= i < n ==> IsSpace(s[i])
    ensures n < |s| ==> !IsSpace(s[n])
  {
    if s != [] && IsSpace(s[0]) then LeadingSpace(s[1..]) + 1 else 0
  }

  /** Number of whitespace characters that close `s`. */
  function TrailingSpace(s: string): (n: nat)
    ensures n <= |s|
    ensures forall i :: |s| - n <= i < |s| ==> IsSpace(s[i])
    ensures n < |s| ==> !IsSpace(s[|s| - n - 1])
  {
    if s != [] && IsSpace(s[|s| - 1]) then TrailingSpace(s[..|s| - 1]) + 1 else 0
  }

  /**
   * `str.strip()`: the slice between the leading and the trailing whitespace.
   * The result has no whitespace at either end, and only whitespace is cut
   * away on either side of it.
   */
  function Strip(s: string): (r: string)
    ensures Trimmed(r)
    ensures exists i, j :: 0 <= i <= j <= |s| && r == s[i..j] && AllSpace(s[..i]) && AllSpace(s[j..])
  {
    var n := LeadingSpace(s);
    if n == |s| then
      assert s[|s|..|s|] == [];
      []
    else
      var m := TrailingSpace(s);
      assert n < |s| - m;
      s[n..|s| - m]
  }

  /** The count of opening whitespace is exactly the whitespace prefix given. */
  lemma LeadingSpaceOf(pre: string, s: string)
    requires AllSpace(pre) && (s == [] || !IsSpace(s[0]))
    ensures LeadingSpace(pre + s) == |pre| + LeadingSpace(s)
  {
    var x := pre + s;
    if s == [] {
      assert x == pre;
    } else {
      assert x[|pre|] == s[0];
      assert forall i :: 0 <= i < |pre| ==> x[i] == pre[i];
    }
  }

  /** The count of closing whitespace is exactly the whitespace suffix given. */
  lemma TrailingSpaceOf(s: string, post: string)
    requires AllSpace(post) && (s == [] || !IsSpace(s[|s| - 1]))
    ensures TrailingSpace(s + post) == |post| + TrailingSpace(s)
  {
    var x := s + post;
    if s == [] {
      assert x == post;
    } else {
      assert x[|s| - 1] == s[|s| - 1];
      assert forall i :: |s| <= i < |x| ==> x[i] == post[i - |s|];
    }
  }

  /** Strip removes exactly the whitespace around a trimmed middle. */
  lemma StripSurrounded(pre: string, s: string, post: string)
    requires AllSpace(pre) && Trimmed(s) && AllSpace(post)
    ensures Strip(pre + s + post) == s
  {
    var x := pre + s + post;
    if s == [] {
      assert x == pre + post;
      assert AllSpace(pre + post);
      LeadingSpaceOf(pre + post, []);
      assert pre + post + [] == pre + post;
    } else {
      assert x == pre + (s + post);
      LeadingSpaceOf(pre, s + post);
      assert x == (pre + s) + post;
      TrailingSpaceOf(pre + s, post);
      assert x[|pre|..|x| - |post|] == s;
    }
  }

  lemma StripTrimmed(s: string)
    requires Trimmed(s)
    ensures Strip(s) == s
  {
    StripSurrounded([], s, []);
    assert [] + s + [] == s;
  }

  /** Upper case of an ASCII letter; any other character is unchanged. */
  function ToUpper(c: char): (u: char)
    ensures !IsAsciiLower(u)
    ensures ToLower(u) == ToLower(c) && IsSpace(u) == IsSpace(c)
    ensures !IsAsciiLower(c) ==> u == c
  {
    if IsAsciiLower(c) then (c as int - 32) as char else c
  }

  /** Lower case of an ASCII letter; any other character is unchanged. */
  function ToLower(c: char): (l: char)
    ensures !IsAsciiUpper(l)
    ensures IsSpace(l) == IsSpace(c)
    ensures !IsAsciiUpper(c) ==> l == c
  {
    if IsAsciiUpper(c) then (c as int + 32) as char else c
  }

  function LowerAll(s: string): (r: string)
    ensures |r| == |s|
    ensures forall i :: 0 <= i < |s| ==> r[i] == ToLower(s[i])
  {
    seq(|s|, i requires 0 <= i < |s| => ToLower(s[i]))
  }

  /**
   * `str.capitalize()`: the first character in upper case, all others in
   * lower case; each character equal to the input's up to case.
   */
  function Capitalize(s: string): (r: string)
    ensures |r| == |s|
    ensures r != [] ==> !IsAsciiLower(r[0])
    ensures forall i :: 1 <= i < |r| ==> !IsAsciiUpper(r[i])
    ensures forall i :: 0 <= i < |r| ==> ToLower(r[i]) == ToLower(s[i]) && IsSpace(r[i]) == IsSpace(s[i])
  {
    if s == [] then [] else [ToUpper(s[0])] + LowerAll(s[1..])
  }

  /** A string already in capitalised form is left as it is. */
  lemma CapitalizeFixed(s: string)
    requires s != [] ==> !IsAsciiLower(s[0])
    requires forall i :: 1 <= i < |s| ==> !IsAsciiUpper(s[i])
    ensures Capitalize(s) == s
  {
  }

  /**
   * The normalised name: no whitespace at either end, as long as the trimmed
   * input, equal to it up to ASCII case, with only its first character
   * possibly upper case and that one never lower case.
   */
  function CapitalizeName(name: string): (r: string)
    ensures Trimmed(r)
    ensures |r| == |Strip(name)|
    ensures forall i :: 0 <= i < |r| ==> ToLower(r[i]) == ToLower(Strip(name)[i])
    ensures r != [] ==> !IsAsciiLower(r[0])
    ensures forall i :: 1 <= i < |r| ==> !IsAsciiUpper(r[i])
  {
    Capitalize(Strip(name))
  }

  lemma CapitalizeNameIdempotent(name: string)
    ensures CapitalizeName(CapitalizeName(name)) == CapitalizeName(name)
  {
    var c := CapitalizeName(name);
    StripTrimmed(c);
    CapitalizeFixed(c);
  }

  lemma CapitalizeNameExample()
    ensures CapitalizeName("juan") == "Juan"
  {
    StripTrimmed("juan");
    assert Capitalize("juan") == "Juan";
  }

  lemma StripExample()
    ensures Strip("  pEREZ ") == "pEREZ"
  {
    StripSurrounded("  ", "pEREZ", " ");
    assert "  " + "pEREZ" + " " == "  pEREZ ";
  }

  lemma CapitalizeExample()
    ensures Capitalize("pEREZ") == "Perez"
  {
  }

  lemma CapitalizeNameTrimExample()
    ensures CapitalizeName("  pEREZ ") == "Perez"
  {
    StripExample();
    CapitalizeExample();
  }

  // ---------------------------------------------------------------------
  // count_validation_errors
  // ---------------------------------------------------------------------

  /** Number of fields in a field -> error-information map. */
  function CountValidationErrors<K, V>(errors: map<K, V>): (n: nat)
    ensures n == |errors.Keys|
    ensures n == 0 <==> errors == map[]
  {
    |errors|
  }

  /** Recording an error for a new field adds one; for a field already present, nothing. */
  lemma CountAfterRecording<K, V>(errors: map<K, V>, field: K, info: V)
    ensures CountValidationErrors(errors[field := info])
      == CountValidationErrors(errors) + (if field in errors then 0 else 1)
  {
    if field in errors {
      assert errors[field := info].Keys == errors.Keys;
    } else {
      assert errors[field := info].Keys == errors.Keys + {field};
    }
  }
}
