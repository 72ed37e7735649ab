/**
  Stand-ins for the three Go library calls the merger relies on
  (`strings.Split(s, ",")`, `strconv.Itoa`, `fmt.Sprintf("%s,%s", a, b)`),
  plus a decimal reader `Atoi` that serves as the inverse of `Itoa`. The
  `Sprintf` call is plain concatenation `a + "," + b`.
*/
module Text {
  import opened Wrappers

  const Comma: char := ','

  /** `strings.Split(s, ",")`: the pieces between commas; `""` splits into `[""]`. */
  function Split(s: string): (r: seq<string>)
    ensures |r| >= 1
    decreases |s|
  {
    if |s| == 0 then [""]
    else
      var rest := Split(s[1..]);
      if s[0] == Comma then [""] + rest
      else [[s[0]] + rest[0]] + rest[1..]
  }

  /** `strings.Join(parts, ",")`, the inverse of `Split`. */
  function Join(parts: seq<string>): string
    requires |parts| >= 1
    decreases |parts|
  {
    if |parts| == 1 then parts[0] else parts[0] + [Comma] + Join(parts[1..])
  }

  /** No piece of a split contains a comma. */
  lemma {:induction false} SplitPiecesCommaFree(s: string)
    ensures forall i :: 0 <= i < |Split(s)| ==> Comma !in Split(s)[i]
    decreases |s|
  {
    if |s| > 0 {
      SplitPiecesCommaFree(s[1..]);
    }
  }

  /** Splitting and joining again gives back the string. */
  lemma {:induction false} JoinSplit(s: string)
    ensures Join(Split(s)) == s
    decreases |s|
  {
    if |s| > 0 {
      var rest := Split(s[1..]);
      JoinSplit(s[1..]);
      if s[0] == Comma {
        assert Split(s) == [""] + rest;
        assert ([""] + rest)[1..] == rest;
      } else {
        var r := Split(s);
        assert r == [[s[0]] + rest[0]] + rest[1..];
        if |rest| > 1 {
          assert r[1..] == rest[1..];
          assert Join(rest) == rest[0] + [Comma] + Join(rest[1..]);
        }
      }
    }
  }

  /** A string without a comma is a single piece. */
  lemma {:induction false} SplitSingle(s: string)
    requires Comma !in s
    ensures Split(s) == [s]
    decreases |s|
  {
    if |s| > 0 {
      assert Comma !in s[1..] by {
        forall i | 0 <= i < |s[1..]| ensures s[1..][i] != Comma { assert s[1..][i] == s[i + 1]; }
      }
      SplitSingle(s[1..]);
      assert [s[0]] + s[1..] == s;
    }
  }

  /** One unfolding of `Split` on a string with a known first character. */
  lemma SplitCons(c: char, t: string)
    ensures Split([c] + t) ==
      if c == Comma then [""] + Split(t) else [[c] + Split(t)[0]] + Split(t)[1..]
  {
    var s := [c] + t;
    assert s[0] == c && s[1..] == t;
  }

  /** Splitting `a + "," + b` splits `a` and `b` separately. */
  lemma {:induction false} SplitAppend(a: string, b: string)
    ensures Split(a + [Comma] + b) == Split(a) + Split(b)
    decreases |a|
  {
    if |a| == 0 {
      assert a + [Comma] + b == [Comma] + b;
      SplitCons(Comma, b);
      assert [""] + Split(b) == Split(a) + Split(b);
    } else {
      SplitAppend(a[1..], b);
      SplitAppendCons(a[0], a[1..], b);
      assert a == [a[0]] + a[1..];
      assert a + [Comma] + b == [a[0]] + (a[1..] + [Comma] + b);
    }
  }

  /** The inductive step of `SplitAppend`: one more character in front of `u`. */
  lemma SplitAppendCons(c: char, u: string, b: string)
    requires Split(u + [Comma] + b) == Split(u) + Split(b)
    ensures Split([c] + (u + [Comma] + b)) == Split([c] + u) + Split(b)
  {
    if c == Comma {
      SplitAppendSeparator(u, b);
    } else {
      SplitAppendChar(c, u, b);
    }
  }

  lemma SplitAppendSeparator(u: string, b: string)
    requires Split(u + [Comma] + b) == Split(u) + Split(b)
    ensures Split([Comma] + (u + [Comma] + b)) == Split([Comma] + u) + Split(b)
  {
    SplitCons(Comma, u + [Comma] + b);
    SplitCons(Comma, u);
    PrependPiece(Split(u), Split(b));
  }

  lemma SplitAppendChar(c: char, u: string, b: string)
    requires c != Comma
    requires Split(u + [Comma] + b) == Split(u) + Split(b)
    ensures Split([c] + (u + [Comma] + b)) == Split([c] + u) + Split(b)
  {
    SplitCons(c, u + [Comma] + b);
    SplitCons(c, u);
    PrependToHead(c, Split(u), Split(b));
  }

  lemma PrependPiece(ru: seq<string>, rb: seq<string>)
    ensures [""] + (ru + rb) == ([""] + ru) + rb
  {
  }

  lemma PrependToHead(c: char, ru: seq<string>, rb: seq<string>)
    requires |ru| >= 1
    ensures [[c] + (ru + rb)[0]] + (ru + rb)[1..] == ([[c] + ru[0]] + ru[1..]) + rb
  {
    assert (ru + rb)[1..] == ru[1..] + rb;
  }

  /** Joining comma-free pieces and splitting again gives back the pieces. */
  lemma {:induction false} SplitJoin(parts: seq<string>)
    requires |parts| >= 1
    requires forall i :: 0 <= i < |parts| ==> Comma !in parts[i]
    ensures Split(Join(parts)) == parts
    decreases |parts|
  {
    SplitSingle(parts[0]);
    if |parts| > 1 {
      SplitJoin(parts[1..]);
      SplitAppend(parts[0], Join(parts[1..]));
      assert [parts[0]] + parts[1..] == parts;
    }
  }

  predicate IsDigit(c: char) { '0' <= c <= '9' }

  predicate AllDigits(s: string) { forall i :: 0 <= i < |s| ==> IsDigit(s[i]) }

  function DigitChar(d: nat): (c: char)
    requires d < 10
    ensures IsDigit(c) && (c as int) - ('0' as int) == d
  {
    ('0' as int + d) as char
  }

  /** The decimal digits of `n`, most significant first, without leading zeros. */
  function NatDigits(n: nat): (r: string)
    ensures |r| >= 1 && AllDigits(r)
    ensures |r| > 1 ==> r[0] != '0'
    decreases n
  {
    if n < 10 then [DigitChar(n)] else NatDigits(n / 10) + [DigitChar(n % 10)]
  }

  /** `strconv.Itoa`: decimal text of `n`, with a leading '-' when negative. */
  function Itoa(n: int): (r: string)
    ensures |r| >= 1
    ensures Comma !in r
  {
    if n < 0 then "-" + NatDigits(-n) else NatDigits(n)
  }

  /** The value of a string of decimal digits. */
  function ParseNat(s: string): nat
    requires AllDigits(s)
    decreases |s|
  {
    if |s| == 0 then 0
    else 10 * ParseNat(s[..|s| - 1]) + ((s[|s| - 1] as int) - ('0' as int))
  }

  /**
    A decimal reader in the manner of `strconv.Atoi`: an optional sign, then
    one or more digits; anything else is `None`. The 64-bit range check of
    `strconv.Atoi` is not modelled.
  */
  function Atoi(s: string): (r: Option<int>)
    ensures r.Some? ==> |s| >= 1
  {
    if |s| >= 2 && s[0] == '-' && AllDigits(s[1..]) then Some(-(ParseNat(s[1..]) as int))
    else if |s| >= 2 && s[0] == '+' && AllDigits(s[1..]) then Some(ParseNat(s[1..]))
    else if |s| >= 1 && AllDigits(s) then Some(ParseNat(s))
    else None
  }

  lemma {:induction false} ParseNatDigits(n: nat)
    ensures ParseNat(NatDigits(n)) == n
    decreases n
  {
    if n >= 10 {
      var d := NatDigits(n);
      ParseNatDigits(n / 10);
      assert d[..|d| - 1] == NatDigits(n / 10);
    }
  }

  /** `Itoa` writes exactly the value: reading its text back gives `n`. */
  lemma ItoaRoundTrip(n: int)
    ensures Atoi(Itoa(n)) == Some(n)
  {
    if n < 0 {
      NegativeRoundTrip(-n);
    } else {
      ParseNatDigits(n);
      var d := NatDigits(n);
      assert d[0] != '-' && d[0] != '+';
    }
  }

  lemma NegativeRoundTrip(m: nat)
    requires m > 0
    ensures Atoi("-" + NatDigits(m)) == Some(-(m as int))
  {
    var d := NatDigits(m);
    var s := "-" + d;
    ParseNatDigits(m);
    assert s[1..] == d;
    assert |s| >= 2 && s[0] == '-' && AllDigits(s[1..]);
  }

  /** Different numbers are written differently. */
  lemma ItoaInjective(m: int, n: int)
    requires Itoa(m) == Itoa(n)
    ensures m == n
  {
    ItoaRoundTrip(m);
    ItoaRoundTrip(n);
  }
}
