/** The Some/None wrapper shared by the modules below. */
module Options {
  datatype Option<+T> = None | Some(value: T)
}

/**
  The two input validators of the phone book, `is_valid_phone` and
  `is_valid_email`. Each is one anchored regular expression run with
  Python's `re.match`; here each is a predicate over the characters, and a
  lemma ties it to the "there is a way to split the input" reading of the
  expression.

  Python's `$` (without MULTILINE) matches at the end of the string and also
  just before a single newline that ends the string, so both validators
  accept one trailing "\n".
*/
module Validation {
  import opened Options

  /** `\d`, restricted to ASCII decimal digits. */
  predicate IsDigit(c: char) {
    '0' <= c <= '9'
  }

  /** `\w`, restricted to ASCII: letters, digits and the underscore. */
  predicate IsWordChar(c: char) {
    'a' <= c <= 'z' || 'A' <= c <= 'Z' || IsDigit(c) || c == '_'
  }

  /** The character class `[\w\.-]` of the local part and the domain. */
  predicate IsLocalChar(c: char) {
    IsWordChar(c) || c == '.' || c == '-'
  }

  predicate AllDigits(s: string) {
    forall i :: 0 <= i < |s| ==> IsDigit(s[i])
  }

  predicate AllWord(s: string) {
    forall i :: 0 <= i < |s| ==> IsWordChar(s[i])
  }

  predicate AllLocal(s: string) {
    forall i :: 0 <= i < |s| ==> IsLocalChar(s[i])
  }

  /** Python's `$`: a match of the prefix `s[..n]` may stop at the end of `s`
      or just before a newline that is the last character of `s`. */
  predicate EndsMatchAt(s: string, n: nat) {
    n == |s| || (n + 1 == |s| && s[n] == '\n')
  }

  /** The part of `s` that `$` leaves for the rest of the pattern to match:
      `s` without one final newline. */
  function StripLineEnd(s: string): (b: string)
    ensures |b| <= |s| && b == s[..|b|] && EndsMatchAt(s, |b|)
    ensures |b| < |s| ==> s[|s| - 1] == '\n'
  {
    if |s| > 0 && s[|s| - 1] == '\n' then s[..|s| - 1] else s
  }

  /** Position of the first `c` in `s`, if any. */
  function IndexOf(s: string, c: char): (r: Option<nat>)
    ensures r.Some? ==> r.value < |s| && s[r.value] == c
    ensures forall j :: 0 <= j < |s| && s[j] == c ==> r.Some? && r.value <= j
  {
    if |s| == 0 then None
    else if s[0] == c then Some(0)
    else match IndexOf(s[1..], c)
      case None => None
      case Some(i) => Some(i + 1)
  }

  /** Position of the last `c` in `s`, if any. */
  function LastIndexOf(s: string, c: char): (r: Option<nat>)
    ensures r.Some? ==> r.value < |s| && s[r.value] == c
    ensures forall j :: 0 <= j < |s| && s[j] == c ==> r.Some? && j <= r.value
  {
    if |s| == 0 then None
    else if s[|s| - 1] == c then Some(|s| - 1)
    else LastIndexOf(s[..|s| - 1], c)
  }

  /** `is_valid_phone`: `^\d+$` — one or more digits, then the end of the
      string or a final newline. */
  predicate IsValidPhone(s: string) {
    var b := StripLineEnd(s);
    |b| > 0 && AllDigits(b)
  }

  /** The part after the `@` as `[\w\.-]+\.\w+` sees it: characters of
      `[\w\.-]` whose LAST dot has at least one character before it and one
      or more word characters after it, up to the end. */
  predicate IsDomain(d: string) {
    AllLocal(d) &&
    match LastIndexOf(d, '.')
    case None => false
    case Some(k) => 0 < k && k + 1 < |d| && AllWord(d[k + 1..])
  }

  /** `is_valid_email`: `^[\w\.-]+@[\w\.-]+\.\w+$`. Neither class admits `@`,
      so the text left by `$` splits at its only `@` into a non-empty local
      part of `[\w\.-]` and a domain. */
  predicate IsValidEmail(s: string) {
    var b := StripLineEnd(s);
    match IndexOf(b, '@')
    case None => false
    case Some(a) => 0 < a && AllLocal(b[..a]) && IsDomain(b[a + 1..])
  }

  // ---------------------------------------------------------------------
  // The regular expressions read directly: "there is a split of the input
  // into the pieces of the pattern, followed by what `$` admits".
  // ---------------------------------------------------------------------

  /** `\d+$` matches `s[..n]` and `$` holds at `n`. */
  ghost predicate PhoneMatchesAt(s: string, n: nat) {
    EndsMatchAt(s, n) && 0 < n && AllDigits(s[..n])
  }

  ghost predicate PhoneRegex(s: string) {
    exists n: nat :: PhoneMatchesAt(s, n)
  }

  /** `s[..n]` is `L @ D . T` with the `@` at `a` and the dot at `k`, where
      `L` and `D` are non-empty runs of `[\w\.-]` and `T` a non-empty run of
      `\w`, and `$` holds at `n`. */
  ghost predicate EmailMatchesAt(s: string, n: nat, a: nat, k: nat) {
    EndsMatchAt(s, n) && 0 < a && a + 1 < k && k + 1 < n &&
    AllLocal(s[..a]) && s[a] == '@' && AllLocal(s[a + 1..k]) &&
    s[k] == '.' && AllWord(s[k + 1..n])
  }

  ghost predicate EmailRegex(s: string) {
    exists n: nat, a: nat, k: nat :: EmailMatchesAt(s, n, a, k)
  }

  /** The first `c` of `s` is the one at `i` when nothing before `i` is `c`. */
  lemma IndexOfAt(s: string, c: char, i: nat)
    requires i < |s| && s[i] == c
    requires forall j :: 0 <= j < i ==> s[j] != c
    ensures IndexOf(s, c) == Some(i)
  {
  }

  /** The last `c` of `s` is the one at `i` when nothing after `i` is `c`. */
  lemma LastIndexOfAt(s: string, c: char, i: nat)
    requires i < |s| && s[i] == c
    requires forall j :: i < j < |s| ==> s[j] != c
    ensures LastIndexOf(s, c) == Some(i)
  {
  }

  /** `is_valid_phone` agrees with `^\d+$` as `re.match` runs it. */
  lemma PhoneMatchesRegex(s: string)
    ensures IsValidPhone(s) <==> PhoneRegex(s)
  {
    var b := StripLineEnd(s);
    if IsValidPhone(s) {
      assert PhoneMatchesAt(s, |b|);
    }
    if PhoneRegex(s) {
      var n: nat :| PhoneMatchesAt(s, n);
      if n == |s| {
        assert s[..n] == s;
        assert IsDigit(s[|s| - 1]);
        assert b == s;
      } else {
        assert b == s[..n];
      }
    }
  }

  /** A well-formed domain is the `[\w\.-]+\.\w+` part of the pattern: split
      it at its last dot. */
  lemma DomainSplit(d: string) returns (k: nat)
    requires IsDomain(d)
    ensures 0 < k && k + 1 < |d| && d[k] == '.'
    ensures AllLocal(d[..k]) && AllWord(d[k + 1..])
  {
    k := LastIndexOf(d, '.').value;
    assert forall i :: 0 <= i < k ==> d[..k][i] == d[i];
  }

  /** `is_valid_email` agrees with `^[\w\.-]+@[\w\.-]+\.\w+$` as `re.match`
      runs it: the last-dot reading and the there-is-a-split reading of the
      pattern accept the same strings. */
  lemma EmailMatchesRegex(s: string)
    ensures IsValidEmail(s) <==> EmailRegex(s)
  {
    if IsValidEmail(s) {
      var b := StripLineEnd(s);
      var a := IndexOf(b, '@').value;
      var d := b[a + 1..];
      var k := DomainSplit(d);
      var n := |b|;
      assert s[..n] == b;
      assert s[..a] == b[..a];
      assert d[..k] == b[a + 1..a + 1 + k] == s[a + 1..a + 1 + k];
      assert d[k + 1..] == b[a + 1 + k + 1..] == s[a + 1 + k + 1..n];
      assert EmailMatchesAt(s, n, a, a + 1 + k);
    }
    if EmailRegex(s) {
      var n: nat, a: nat, k: nat :| EmailMatchesAt(s, n, a, k);
      RegexToLastDot(s, n, a, k);
    }
  }

  /** The converse of DomainSplit: `D . T` with `D` a non-empty run of
      `[\w\.-]` and `T` a non-empty run of `\w` is a well-formed domain, and
      its last dot is the one between them. */
  lemma DomainJoin(d: string, j: nat)
    requires 0 < j && j + 1 < |d| && d[j] == '.'
    requires AllLocal(d[..j]) && AllWord(d[j + 1..])
    ensures LastIndexOf(d, '.') == Some(j) && IsDomain(d)
  {
    assert AllLocal(d) by {
      forall i | 0 <= i < |d| ensures IsLocalChar(d[i]) {
        if i < j {
          assert d[i] == d[..j][i];
        } else if i > j {
          assert d[i] == d[j + 1..][i - j - 1];
        }
      }
    }
    forall i | j < i < |d| ensures d[i] != '.' {
      assert IsWordChar(d[j + 1..][i - j - 1]);
    }
    LastIndexOfAt(d, '.', j);
  }

  /** A string laid out as `L @ D . T` (the pieces of the pattern, with
      nothing after `T`) is found again by its first `@` and its last dot. */
  lemma LastDotSplit(b: string, a: nat, k: nat)
    requires 0 < a && a + 1 < k && k + 1 < |b|
    requires AllLocal(b[..a]) && b[a] == '@' && AllLocal(b[a + 1..k])
    requires b[k] == '.' && AllWord(b[k + 1..])
    ensures StripLineEnd(b) == b
    ensures IndexOf(b, '@') == Some(a) && IsDomain(b[a + 1..])
  {
    assert IsWordChar(b[k + 1..][|b| - k - 2]);
    forall i | 0 <= i < a ensures b[i] != '@' {
      assert IsLocalChar(b[..a][i]);
    }
    IndexOfAt(b, '@', a);
    var d := b[a + 1..];
    var j := k - a - 1;
    assert d[..j] == b[a + 1..k];
    assert d[j + 1..] == b[k + 1..];
    DomainJoin(d, j);
  }

  /** One direction of EmailMatchesRegex: a split of the input that the
      pattern admits is found again by the first `@` and the last dot. */
  lemma RegexToLastDot(s: string, n: nat, a: nat, k: nat)
    requires EmailMatchesAt(s, n, a, k)
    ensures IsValidEmail(s)
  {
    var b := s[..n];
    assert StripLineEnd(s) == b by {
      if n == |s| {
        var t := s[k + 1..n];
        assert s[|s| - 1] == t[|t| - 1];
        assert IsWordChar(t[|t| - 1]);
      }
    }
    assert b[..a] == s[..a];
    assert b[a + 1..k] == s[a + 1..k];
    assert b[k + 1..] == s[k + 1..n];
    LastDotSplit(b, a, k);
  }

  /** A valid address holds exactly one `@`. */
  lemma ValidEmailHasOneAt(s: string)
    requires IsValidEmail(s)
    ensures exists a :: 0 < a < |s| && s[a] == '@'
    ensures forall i, j :: 0 <= i < |s| && 0 <= j < |s| && s[i] == '@' && s[j] == '@' ==> i == j
  {
    var b := StripLineEnd(s);
    var a := IndexOf(b, '@').value;
    assert s[a] == '@';
    forall i | 0 <= i < |s| && s[i] == '@' ensures i == a {
    }
  }

  /** Inputs that `is_valid_phone` rejects and accepts. */
  lemma PhoneExamples()
    ensures IsValidPhone("5551234") && IsValidPhone("123\n")
    ensures !IsValidPhone("") && !IsValidPhone("\n") && !IsValidPhone("12a4")
    ensures !IsValidPhone("+123") && !IsValidPhone("555 1234") && !IsValidPhone("1\n\n")
  {
    assert StripLineEnd("123\n") == "123";
    assert StripLineEnd("1\n\n") == "1\n";
    assert !IsDigit("1\n"[1]);
    assert !IsDigit("12a4"[2]);
    assert !IsDigit("+123"[0]);
    assert !IsDigit("555 1234"[3]);
  }

  /** An address that `is_valid_email` accepts. */
  lemma EmailAccepted()
    ensures IsValidEmail("bob@x.com")
  {
    LastDotSplit("bob@x.com", 3, 5);
  }

  /** Dots and hyphens on both sides of the `@`, several dots in the domain,
      and a final newline that `$` lets through. */
  lemma EmailAcceptedLineEnd()
    ensures IsValidEmail("a.b-c@d-e.f.io\n")
  {
    assert StripLineEnd("a.b-c@d-e.f.io\n") == "a.b-c@d-e.f.io";
    LastDotSplit("a.b-c@d-e.f.io", 5, 11);
  }

  /** Inputs that `is_valid_email` rejects for their local part: no `@` at
      all, nothing before the `@`. */
  lemma EmailRejectedLocal()
    ensures !IsValidEmail("not-an-email") && !IsValidEmail("@b.com")
  {
    assert '@' !in "not-an-email";
    IndexOfAt("@b.com", '@', 0);
  }

  /** Inputs that `is_valid_email` rejects after the `@`: a second `@`, no
      dot. */
  lemma EmailRejectedAfterAt()
    ensures !IsValidEmail("a@b@c.com") && !IsValidEmail("a@b")
  {
    IndexOfAt("a@b@c.com", '@', 1);
    assert !IsLocalChar("b@c.com"[1]);
    IndexOfAt("a@b", '@', 1);
  }

  /** Inputs that `is_valid_email` rejects for their last dot: right after the
      `@`, at the very end. */
  lemma EmailRejectedDot()
    ensures !IsValidEmail("a@.com") && !IsValidEmail("a@b.")
  {
    IndexOfAt("a@.com", '@', 1);
    LastIndexOfAt(".com", '.', 0);
    IndexOfAt("a@b.", '@', 1);
    LastIndexOfAt("b.", '.', 1);
  }

  /** `\w+$` admits no hyphen after the last dot. */
  lemma EmailRejectedTld()
    ensures !IsValidEmail("a@b.c-d")
  {
    IndexOfAt("a@b.c-d", '@', 1);
    LastIndexOfAt("b.c-d", '.', 1);
    assert !IsWordChar("c-d"[1]);
  }
}
