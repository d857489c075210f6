/** Decimal numerals: `parse_size_token` of src/http.c and the `%zu` of the response headers. */
module Numerals {
  import opened Prelude

  predicate IsDigit(c: char) {
    '0' <= c <= '9'
  }

  function Digit(c: char): (r: nat)
    requires IsDigit(c)
  {
    c as int - '0' as int
  }

  predicate IsDigits(s: string) {
    forall i :: 0 <= i < |s| ==> IsDigit(s[i])
  }

  /** The number a digit string denotes, leading zeros allowed. */
  function Value(s: string): (r: nat)
    requires IsDigits(s)
  {
    if s == "" then 0 else 10 * Value(s[..|s| - 1]) + Digit(s[|s| - 1])
  }

  lemma {:induction false} PrefixValue(s: string, k: nat)
    requires IsDigits(s) && k <= |s|
    ensures Value(s[..k]) <= Value(s)
    decreases |s|
  {
    if k == |s| {
      assert s[..k] == s;
    } else {
      PrefixValue(s[..|s| - 1], k);
      assert s[..|s| - 1][..k] == s[..k];
    }
  }

  /** A token is a size exactly if it is a nonempty digit string denoting at most SIZE_MAX. */
  predicate IsSize(s: string) {
    s != "" && IsDigits(s) && Value(s) <= SIZE_MAX
  }

  /** `parse_size_token`: the overflow test is made before each multiplication, so nothing wraps. */
  method ParseSizeToken(token: string) returns (ok: bool, value: Size)
    ensures ok <==> IsSize(token)
    ensures ok ==> value == Value(token)
  {
    value := 0;
    if |token| == 0 {
      return false, 0;
    }
    for cursor := 0 to |token|
      invariant IsDigits(token[..cursor])
      invariant value == Value(token[..cursor])
    {
      if !IsDigit(token[cursor]) {
        return false, 0;
      }
      assert token[..cursor + 1][..cursor] == token[..cursor];
      assert Value(token[..cursor + 1]) == 10 * value + Digit(token[cursor]);
      if value > (SIZE_MAX - Digit(token[cursor])) / 10 {
        if IsDigits(token) {
          PrefixValue(token, cursor + 1);
        }
        return false, 0;
      }
      value := value * 10 + Digit(token[cursor]);
    }
    assert token[..|token|] == token;
    ok := true;
  }

  /** `%zu`. */
  function PrintSize(n: nat): (s: string)
    ensures s != "" && IsDigits(s)
  {
    if n < 10 then [('0' as int + n) as char]
    else PrintSize(n / 10) + [('0' as int + n % 10) as char]
  }

  /** Printing and reading back: the numeral of `n` denotes `n` and has no superfluous zero. */
  lemma {:induction false} PrintedValue(n: nat)
    ensures Value(PrintSize(n)) == n
    ensures n > 0 ==> PrintSize(n)[0] != '0'
  {
    if n < 10 {
      assert PrintSize(n)[..0] == "";
    } else {
      PrintedValue(n / 10);
      var s := PrintSize(n);
      assert s[..|s| - 1] == PrintSize(n / 10);
    }
  }

  /** Every `size_t` survives the trip through its numeral. */
  lemma SizeRoundTrip(n: nat)
    ensures IsSize(PrintSize(n)) <==> n <= SIZE_MAX
    ensures Value(PrintSize(n)) == n
    ensures forall m: nat :: PrintSize(m) == PrintSize(n) ==> m == n
  {
    PrintedValue(n);
    forall m: nat | PrintSize(m) == PrintSize(n)
      ensures m == n
    {
      PrintedValue(m);
    }
  }

  function Pow10(k: nat): (r: nat) {
    if k == 0 then 1 else 10 * Pow10(k - 1)
  }

  lemma {:induction false} PrintedLength(n: nat, k: nat)
    requires 1 <= k && n < Pow10(k)
    ensures |PrintSize(n)| <= k
    decreases k
  {
    if n >= 10 {
      assert k > 1;
      PrintedLength(n / 10, k - 1);
    }
  }

  /** No `size_t` takes more than twenty digits. */
  lemma SizeLength(n: nat)
    requires n <= SIZE_MAX
    ensures 1 <= |PrintSize(n)| <= 20
  {
    assert Pow10(5) == 100000;
    assert Pow10(10) == 100000 * 100000;
    assert Pow10(15) == 100000 * 100000 * 100000;
    assert Pow10(20) == 100000 * 100000 * 100000 * 100000;
    PrintedLength(n, 20);
  }
}
