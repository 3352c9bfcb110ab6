/** The test data the happy-path scenario builds once per run: a username with every
    character outside `[a-zA-Z0-9_]` replaced by `_` and cut to 20 characters, a lower-cased
    email, a fixed password, and tag and account names made of fixed prefixes and one shared
    suffix. The generated raw username, email and suffix are parameters. */
module HappyPath {
  import opened Ascii

  /** A character of `[a-zA-Z0-9_]`. */
  predicate IsWordChar(c: char) {
    IsUpper(c) || IsLower(c) || IsDigit(c) || c == '_'
  }

  predicate IsWord(s: string) {
    forall i :: 0 <= i < |s| ==> IsWordChar(s[i])
  }

  /** `s.replace(/[^a-zA-Z0-9_]/g, '_')`: each character outside the class, one character at a
      time, becomes one `_`; the others stay where they are. */
  function Sanitize(s: string): (r: string)
    ensures |r| == |s| && IsWord(r)
    ensures forall i :: 0 <= i < |s| && IsWordChar(s[i]) ==> r[i] == s[i]
    ensures forall i :: 0 <= i < |s| && !IsWordChar(s[i]) ==> r[i] == '_'
  {
    if s == [] then [] else [if IsWordChar(s[0]) then s[0] else '_'] + Sanitize(s[1..])
  }

  /** A string already in the class is left as it is. */
  lemma {:induction false} SanitizeOfWord(s: string)
    requires IsWord(s)
    ensures Sanitize(s) == s
  {
    if s != [] {
      SanitizeOfWord(s[1..]);
      assert s == [s[0]] + s[1..];
    }
  }

  /** Sanitising twice is sanitising once. */
  lemma {:induction false} SanitizeIdempotent(s: string)
    ensures Sanitize(Sanitize(s)) == Sanitize(s)
  {
    SanitizeOfWord(Sanitize(s));
  }

  /** The most characters a username may have. */
  const MaxUsernameLength: nat := 20

  /** `s.slice(0, n)`: the first min(|s|, n) characters. */
  function Take(s: string, n: nat): (r: string)
    ensures |r| == if |s| < n then |s| else n
    ensures r == s[..|r|]
  {
    if |s| <= n then s else s[..n]
  }

  /** `rawUsername.slice(0, 20)` of the sanitised raw username. */
  function Username(raw: string): (u: string)
    ensures IsWord(u)
    ensures |u| <= MaxUsernameLength
    ensures |u| == if |raw| < MaxUsernameLength then |raw| else MaxUsernameLength
    ensures u == Sanitize(raw)[..|u|]
  {
    Take(Sanitize(raw), MaxUsernameLength)
  }

  /** A username of the class and within the length limit is its own username. */
  lemma {:induction false} UsernameOfValid(u: string)
    requires IsWord(u) && |u| <= MaxUsernameLength
    ensures Username(u) == u
  {
    SanitizeOfWord(u);
  }

  /** The password every generated user registers with. */
  const Password: string := "TestPass123!"

  /** The credentials of the scenario's user. */
  datatype TestUser = TestUser(username: string, email: string, password: string)

  /** The user the scenario registers, from the generated username and email. */
  function MakeTestUser(rawUsername: string, rawEmail: string): (u: TestUser)
    ensures u.username == Username(rawUsername)
    ensures |u.email| == |rawEmail| && forall i :: 0 <= i < |u.email| ==> !IsUpper(u.email[i])
    ensures forall i :: 0 <= i < |rawEmail| ==> u.email[i] == Lower(rawEmail[i])
    ensures u.password == Password
  {
    TestUser(Username(rawUsername), ToLower(rawEmail), Password)
  }

  /** The password meets the rule it was chosen for: at least 8 characters, with an
      upper-case letter, a lower-case letter and a digit. */
  lemma {:induction false} PasswordPolicy()
    ensures |Password| >= 8
    ensures exists i :: 0 <= i < |Password| && IsUpper(Password[i])
    ensures exists i :: 0 <= i < |Password| && IsLower(Password[i])
    ensures exists i :: 0 <= i < |Password| && IsDigit(Password[i])
  {
    assert IsUpper(Password[0]) && IsLower(Password[1]) && IsDigit(Password[8]);
  }

  // ----- Tag and account names -----

  const Tag1Prefix: string := "Savings-"
  const Tag2Prefix: string := "Trading-"
  const Account1Prefix: string := "Main Wallet "
  const Account2Prefix: string := "Trading Wallet "

  /** The two tag names and the two account names of one run. */
  datatype Names = Names(tag1: string, tag2: string, account1: string, account2: string)

  /** The names built from the run's suffix (`faker.string.numeric(4)`): each a fixed prefix
      followed by the same suffix, and no two of them equal whatever the suffix. */
  function NamesFor(suffix: string): (n: Names)
    ensures n.tag1 == Tag1Prefix + suffix && n.tag2 == Tag2Prefix + suffix
    ensures n.account1 == Account1Prefix + suffix && n.account2 == Account2Prefix + suffix
    ensures n.tag1 != n.tag2 && n.account1 != n.account2
    ensures n.tag1 != n.account1 && n.tag1 != n.account2
    ensures n.tag2 != n.account1 && n.tag2 != n.account2
  {
    var n := Names(Tag1Prefix + suffix, Tag2Prefix + suffix, Account1Prefix + suffix, Account2Prefix + suffix);
    assert n.tag1[0] == 'S' && n.tag2[0] == 'T' && n.account1[0] == 'M' && n.account2[0] == 'T';
    assert n.tag2[7] == '-' && n.account2[7] == ' ';
    n
  }

  /** Two runs with different suffixes never share a name: a name determines its suffix. */
  lemma {:induction false} NamesDetermineSuffix(a: string, b: string)
    requires NamesFor(a).tag1 == NamesFor(b).tag1 || NamesFor(a).tag2 == NamesFor(b).tag2
          || NamesFor(a).account1 == NamesFor(b).account1 || NamesFor(a).account2 == NamesFor(b).account2
    ensures a == b
  {
    var na, nb := NamesFor(a), NamesFor(b);
    if na.tag1 == nb.tag1 {
      SuffixOf(Tag1Prefix, a, b);
    } else if na.tag2 == nb.tag2 {
      SuffixOf(Tag2Prefix, a, b);
    } else if na.account1 == nb.account1 {
      SuffixOf(Account1Prefix, a, b);
    } else {
      SuffixOf(Account2Prefix, a, b);
    }
  }

  /** A shared prefix can be cancelled. */
  lemma {:induction false} SuffixOf(prefix: string, a: string, b: string)
    requires prefix + a == prefix + b
    ensures a == b
  {
    assert a == (prefix + a)[|prefix|..];
    assert b == (prefix + b)[|prefix|..];
  }
}
