/** The SQL text the database helpers hand to `psql`: the caller's string with every single
    quote doubled (`replace(/'/g, "''")`), placed in the one quoted slot of a fixed statement. */
module DbHelpers {
  import opened Wrappers
  import opened SqlLiteral

  /** How many times c occurs in s. */
  function Count(s: string, c: char): nat
  {
    if s == [] then 0 else (if s[0] == c then 1 else 0) + Count(s[1..], c)
  }

  lemma {:induction false} CountZero(s: string, c: char)
    ensures Count(s, c) == 0 <==> c !in s
  {
    if s != [] {
      CountZero(s[1..], c);
      assert s == [s[0]] + s[1..];
    }
  }

  /** The characters of s other than the quote, in order. */
  function Others(s: string): (r: string)
    ensures Quote !in r
  {
    if s == [] then [] else (if s[0] == Quote then [] else [s[0]]) + Others(s[1..])
  }

  lemma {:induction false} OthersConcat(a: string, b: string)
    ensures Others(a + b) == Others(a) + Others(b)
  {
    if a != [] {
      assert (a + b)[0] == a[0] && (a + b)[1..] == a[1..] + b;
      OthersConcat(a[1..], b);
    } else {
      assert a + b == b;
    }
  }

  /** The escape of one character: a quote is doubled, anything else kept. */
  function EscapeChar(c: char): string
  {
    if c == Quote then [Quote, Quote] else [c]
  }

  /** `s.replace(/'/g, "''")`. */
  function Escape(s: string): string
  {
    if s == [] then [] else EscapeChar(s[0]) + Escape(s[1..])
  }

  /** The escape is longer than the original by one character per quote. */
  lemma {:induction false} EscapeLength(s: string)
    ensures |Escape(s)| == |s| + Count(s, Quote)
  {
    if s != [] {
      EscapeLength(s[1..]);
    }
  }

  /** Text without a quote is its own escape. */
  lemma {:induction false} EscapeOfQuoteFree(s: string)
    requires Quote !in s
    ensures Escape(s) == s
  {
    if s != [] {
      assert s[0] != Quote && Quote !in s[1..];
      EscapeOfQuoteFree(s[1..]);
      assert [s[0]] + s[1..] == s;
    }
  }

  /** The escape changes a text exactly when the text holds a quote. */
  lemma {:induction false} EscapeUnchangedIff(s: string)
    ensures Escape(s) == s <==> Quote !in s
  {
    EscapeLength(s);
    CountZero(s, Quote);
    if Quote !in s {
      EscapeOfQuoteFree(s);
    }
  }

  /** The escape leaves every character other than the quote unchanged and in order. */
  lemma {:induction false} EscapeKeepsOthers(s: string)
    ensures Others(Escape(s)) == Others(s)
  {
    if s != [] {
      OthersConcat(EscapeChar(s[0]), Escape(s[1..]));
      EscapeKeepsOthers(s[1..]);
      assert Others(s) == (if s[0] == Quote then [] else [s[0]]) + Others(s[1..]);
    }
  }

  /** [i, j) is a maximal run of quotes in r. */
  predicate QuoteRun(r: string, i: nat, j: nat) {
    i <= j <= |r|
    && (forall k :: i <= k < j ==> r[k] == Quote)
    && (i == 0 || r[i - 1] != Quote)
    && (j == |r| || r[j] != Quote)
  }

  /** A maximal run of r = h + t that starts inside t is a maximal run of t. */
  lemma {:induction false} QuoteRunInTail(r: string, h: string, t: string, i: nat, j: nat)
    requires r == h + t && |h| <= i && QuoteRun(r, i, j)
    ensures QuoteRun(t, i - |h|, j - |h|)
  {
    var n := |h|;
    forall k | i - n <= k < j - n ensures t[k] == Quote {
      assert t[k] == r[k + n];
    }
    assert i - n > 0 ==> t[i - n - 1] == r[i - 1];
    assert j - n < |t| ==> t[j - n] == r[j];
  }

  /** A maximal run of r that starts at a doubled quote in front of t continues as a maximal
      run at the start of t, two quotes shorter. */
  lemma {:induction false} QuoteRunAfterPair(r: string, t: string, j: nat)
    requires r == [Quote, Quote] + t && QuoteRun(r, 0, j)
    ensures 2 <= j && QuoteRun(t, 0, j - 2)
  {
    assert r[1] == Quote;
    forall k | 0 <= k < j - 2 ensures t[k] == Quote {
      assert t[k] == r[k + 2];
    }
    assert j - 2 < |t| ==> t[j - 2] == r[j];
  }

  /** A nonempty maximal run of r that does not start at the front of a doubled quote starts
      after the escape of the first character. */
  lemma {:induction false} RunStartsInTail(r: string, c: char, t: string, i: nat, j: nat)
    requires r == EscapeChar(c) + t && i < j && QuoteRun(r, i, j)
    requires c == Quote ==> i != 0
    ensures |EscapeChar(c)| <= i
  {
    var h := EscapeChar(c);
    assert r[i] == Quote && r[0] == h[0];
    assert |h| == 2 ==> r[1] == Quote;
  }

  /** Every maximal run of quotes in escaped text has even length. */
  lemma {:induction false} QuoteRunsEven(s: string, i: nat, j: nat)
    requires QuoteRun(Escape(s), i, j)
    ensures (j - i) % 2 == 0
  {
    if s != [] && i < j {
      var r, t := Escape(s), Escape(s[1..]);
      var h := EscapeChar(s[0]);
      if s[0] == Quote && i == 0 {
        QuoteRunAfterPair(r, t, j);
        QuoteRunsEven(s[1..], 0, j - 2);
      } else {
        RunStartsInTail(r, s[0], t, i, j);
        QuoteRunInTail(r, h, t, i, j);
        QuoteRunsEven(s[1..], i - |h|, j - |h|);
      }
    }
  }

  /** Reading an ordinary character, or a doubled quote, denotes one character. */
  lemma {:induction false} ReadBodyStep(c: char, tail: string, t: string)
    requires t == EscapeChar(c) + tail
    ensures ReadBody(t) == Prepend(c, ReadBody(tail))
  {
    assert c != Quote ==> t[0] == c && t[1..] == tail;
    assert c == Quote ==> t[0] == Quote && t[1] == Quote && t[2..] == tail;
  }

  /** The escaped text followed by a closing quote is read back, under quote doubling, as
      exactly the original text; the literal closes there and nowhere earlier. */
  lemma {:induction false} ReadEscaped(s: string, rest: string)
    requires rest == [] || rest[0] != Quote
    ensures ReadBody(Escape(s) + [Quote] + rest) == Some((s, rest))
  {
    var t := Escape(s) + [Quote] + rest;
    if s == [] {
      assert t == [Quote] + rest;
      assert t[0] == Quote && t[1..] == rest;
    } else {
      var c := s[0];
      var tail := Escape(s[1..]) + [Quote] + rest;
      assert t == EscapeChar(c) + tail;
      ReadEscaped(s[1..], rest);
      ReadBodyStep(c, tail, t);
      assert [c] + s[1..] == s;
    }
  }

  /** The quoted literal the helpers build around a caller's string. */
  function Quoted(s: string): (q: string)
    ensures |q| == |Escape(s)| + 2
  {
    [Quote] + Escape(s) + [Quote]
  }

  /** A quoted literal, followed by anything that does not start with a quote, reads back as
      the original string and ends where the quoted text ends. */
  lemma {:induction false} LiteralRoundTrip(s: string, rest: string)
    requires rest == [] || rest[0] != Quote
    ensures ReadLiteral(Quoted(s) + rest) == Some((s, rest))
  {
    var t := Quoted(s) + rest;
    assert t[1..] == Escape(s) + [Quote] + rest;
    ReadEscaped(s, rest);
  }

  /** Different strings give different escapes. */
  lemma {:induction false} EscapeInjective(a: string, b: string)
    requires Escape(a) == Escape(b)
    ensures a == b
  {
    ReadEscaped(a, []);
    ReadEscaped(b, []);
  }

  /** The shape of every statement built here: fixed text, the caller's string as a quoted
      literal, and text that does not start with a quote. The text before the slot is kept,
      the literal in the slot reads back as exactly the caller's string, and the statement
      goes on with the text after it. */
  function Fill(head: string, s: string, after: string): (q: string)
    requires after == [] || after[0] != Quote
    ensures |head| < |q| && q[..|head|] == head
    ensures ReadLiteral(q[|head|..]) == Some((s, after))
    ensures |after| < |q| && q[|q| - |after|..] == after
  {
    Cut3(head, Quoted(s), after);
    LiteralRoundTrip(s, after);
    head + Quoted(s) + after
  }

  /** Text that is its own escape can be written into the quotes as it is. */
  lemma {:induction false} FillUnescaped(head: string, s: string, after: string)
    requires after == [] || after[0] != Quote
    requires Escape(s) == s
    ensures head + [Quote] + s + [Quote] + after == Fill(head, s, after)
  {
  }

  // ----- verifyUserEmail -----

  /** The fixed text before the quoted email. */
  const VerifyHead: string :=
    "UPDATE users SET email_verified = true, email_verified_at = NOW() WHERE email = "

  /** The statement `verifyUserEmail` runs: the fixed UPDATE with the email as its one
      literal, which reads back as the email and is followed only by the closing `;`. */
  function VerifyEmailQuery(email: string): (q: string)
    ensures |VerifyHead| < |q| && q[..|VerifyHead|] == VerifyHead
    ensures ReadLiteral(q[|VerifyHead|..]) == Some((email, ";"))
  {
    Fill(VerifyHead, email, ";")
  }

  /** Two emails give the same statement only when they are the same email. */
  lemma {:induction false} VerifyEmailQueryInjective(a: string, b: string)
    requires VerifyEmailQuery(a) == VerifyEmailQuery(b)
    ensures a == b
  {
    var qa, qb := VerifyEmailQuery(a), VerifyEmailQuery(b);
    assert qa[|VerifyHead|..] == qb[|VerifyHead|..];
  }

  // ----- fundAccountWithTestEth -----

  /** The id of the ETH asset on the Sepolia network. */
  const EthSepoliaAssetId: string := "2745a97c-2201-52f5-b41e-dfb933bea3b5"

  /** The fixed text before the quoted asset id. */
  const FundHead: string :=
    "INSERT INTO onchain_balances (account_id, asset_id, balance, block_number) SELECT a.id, "

  /** The fixed text that ends the middle part, opening the address slot. */
  const MiddleTail: string := ", 1 FROM accounts a WHERE LOWER(a.address) = LOWER("

  /** The fixed text that opens the tail, closing the `LOWER(` around the address. */
  const TailHead: string := ")" + " ON CONFLICT (account_id, asset_id) DO UPDATE SET balance = "

  /** The text between the asset id literal and the address literal; `amount` is the amount
      as JavaScript renders the number. */
  function FundMiddle(amount: string): string
  {
    ", " + amount + MiddleTail
  }

  /** The text after the address literal. */
  function FundTail(amount: string): string
  {
    TailHead + amount + ";"
  }

  /** A concatenation of three parts, cut back into them. */
  lemma {:induction false} Cut3<T>(x: seq<T>, y: seq<T>, z: seq<T>)
    ensures (x + y + z)[..|x|] == x
    ensures (x + y + z)[|x|..] == y + z
    ensures (x + y + z)[|x + y|..] == z
  {
  }

  /** The last k elements of a concatenation come from its second part when it is long enough. */
  lemma {:induction false} LastOf<T>(x: seq<T>, y: seq<T>, k: nat)
    requires k <= |y|
    ensures (x + y)[|x + y| - k..] == y[|y| - k..]
  {
  }

  /** The address slot is the argument of `LOWER(`: the text before it ends with `LOWER(`, so
      it does not start with a quote... */
  lemma {:induction false} FundMiddleShape(amount: string)
    ensures FundMiddle(amount)[0] == ','
    ensures |FundMiddle(amount)| >= 6 && FundMiddle(amount)[|FundMiddle(amount)| - 6..] == "LOWER("
  {
    assert MiddleTail[|MiddleTail| - 6..] == "LOWER(";
    LastOf(", " + amount, MiddleTail, 6);
  }

  /** ...and the text after it starts with the `)` that closes `LOWER(`. */
  lemma {:induction false} FundTailShape(amount: string)
    ensures FundTail(amount)[0] == ')'
  {
    assert TailHead[0] == ')';
    Cut3(TailHead, amount, ";");
  }

  /** The asset id holds no quote, so it needs no escaping. */
  lemma {:induction false} AssetIdNeedsNoEscape()
    ensures Escape(EthSepoliaAssetId) == EthSepoliaAssetId
  {
    assert Quote !in EthSepoliaAssetId by {
      forall k | 0 <= k < |EthSepoliaAssetId| ensures EthSepoliaAssetId[k] != Quote {
        assert EthSepoliaAssetId[k] in "0123456789abcdef-";
      }
    }
    EscapeOfQuoteFree(EthSepoliaAssetId);
  }

  /** Everything before the address literal: the asset id, written into its quotes as it is,
      and the amount. It does not depend on the address. */
  function FundPrefix(amount: string): (p: string)
    ensures |FundHead| < |p| && p[..|FundHead|] == FundHead
    ensures ReadLiteral(p[|FundHead|..]) == Some((EthSepoliaAssetId, FundMiddle(amount)))
  {
    var m := FundMiddle(amount);
    FundMiddleShape(amount);
    AssetIdNeedsNoEscape();
    FillUnescaped(FundHead, EthSepoliaAssetId, m);
    FundHead + [Quote] + EthSepoliaAssetId + [Quote] + m
  }

  /** The statement `fundAccountWithTestEth` runs: the address escaped once, as the literal
      inside `LOWER(...)`, after the constant asset id and before the fixed tail. */
  function FundAccountQuery(address: string, amount: string): (q: string)
    ensures |FundPrefix(amount)| < |q| && q[..|FundPrefix(amount)|] == FundPrefix(amount)
    ensures ReadLiteral(q[|FundPrefix(amount)|..]) == Some((address, FundTail(amount)))
    ensures |FundTail(amount)| < |q| && q[|q| - |FundTail(amount)|..] == FundTail(amount)
  {
    FundTailShape(amount);
    Fill(FundPrefix(amount), address, FundTail(amount))
  }
}
