/** Positions of texts inside longer texts, white space, and decimal digits. */
module Texts {

  /** The text t stands in s at position i. */
  predicate At(s: string, i: nat, t: string) {
    i + |t| <= |s| && s[i..i + |t|] == t
  }

  lemma AtSplit(s: string, i: nat, a: string, b: string)
    requires At(s, i, a + b)
    ensures At(s, i, a) && At(s, i + |a|, b)
  {
    var t := a + b;
    assert s[i..i + |a|] == t[..|a|];
    assert s[i + |a|..i + |a| + |b|] == t[|a|..];
  }

  lemma AtChar(s: string, i: nat, t: string, k: nat)
    requires At(s, i, t) && k < |t|
    ensures i + k < |s| && s[i + k] == t[k]
  {
    assert s[i..i + |t|][k] == t[k];
  }

  lemma Cut(s: string, i: nat, first: string, tail: string)
    requires i <= |s| && s[i..] == first + tail
    ensures i + |first| <= |s| && s[i..i + |first|] == first
    ensures i + |first| == |s| <==> tail == ""
    ensures tail != "" ==> s[i + |first|] == tail[0] && s[i + |first| + 1..] == tail[1..]
  {
    assert s[i..i + |first|] == s[i..][..|first|];
    if tail != "" {
      assert s[i..][|first|] == tail[0];
      assert s[i + |first| + 1..] == s[i..][|first| + 1..];
    }
  }

  /** The text occurs somewhere in s. */
  predicate Contains(s: string, t: string) {
    exists i: nat | i <= |s| :: At(s, i, t)
  }

  /** The chunks one after the other. */
  function Flatten(chunks: seq<string>): string {
    if chunks == [] then "" else chunks[0] + Flatten(chunks[1..])
  }

  // White space

  const VERTICAL_TAB: char := 11 as char
  const FORM_FEED: char := 12 as char

  predicate IsSpace(c: char) {
    c == ' ' || c == '\t' || c == '\n' || c == '\r' || c == VERTICAL_TAB || c == FORM_FEED
  }

  /** `input >> std::ws`. */
  function SkipSpace(s: string, i: nat): (r: nat)
    requires i <= |s|
    ensures i <= r <= |s|
    ensures r < |s| ==> !IsSpace(s[r])
    decreases |s| - i
  {
    if i < |s| && IsSpace(s[i]) then SkipSpace(s, i + 1) else i
  }

  // Decimal digits

  predicate IsDigit(c: char) { '0' <= c <= '9' }

  /** Past the run of digits at i. */
  function DigitsEnd(s: string, i: nat): (r: nat)
    requires i <= |s|
    ensures i <= r <= |s|
    ensures forall k :: i <= k < r ==> IsDigit(s[k])
    decreases |s| - i
  {
    if i < |s| && IsDigit(s[i]) then DigitsEnd(s, i + 1) else i
  }

  /** The value of the decimal digits s[i..j], most significant first. */
  function DigitsValue(s: string, i: nat, j: nat): nat
    requires i <= j <= |s|
    requires forall k :: i <= k < j ==> IsDigit(s[k])
    decreases j - i
  {
    if i == j then 0
    else
      assert IsDigit(s[j - 1]);
      10 * DigitsValue(s, i, j - 1) + (s[j - 1] as int - '0' as int)
  }

  /** A number in decimal, without leading zeros. */
  function PrintNat(n: nat): (r: string)
    ensures r != ""
  {
    if n < 10 then [(n + '0' as nat) as char]
    else PrintNat(n / 10) + [(n % 10 + '0' as nat) as char]
  }

  lemma {:induction false} DigitsEndAt(s: string, i: nat, j: nat)
    requires i <= j < |s| && !IsDigit(s[j]) && forall k :: i <= k < j ==> IsDigit(s[k])
    ensures DigitsEnd(s, i) == j
    decreases j - i
  {
    if i < j {
      DigitsEndAt(s, i + 1, j);
    }
  }

  lemma {:induction false} PrintNatRead(s: string, i: nat, n: nat)
    requires At(s, i, PrintNat(n))
    ensures forall k :: i <= k < i + |PrintNat(n)| ==> IsDigit(s[k])
    ensures DigitsValue(s, i, i + |PrintNat(n)|) == n
  {
    if n < 10 {
      AtChar(s, i, PrintNat(n), 0);
      assert DigitsValue(s, i, i) == 0;
    } else {
      var last := [(n % 10 + '0' as nat) as char];
      AtSplit(s, i, PrintNat(n / 10), last);
      AtChar(s, i + |PrintNat(n / 10)|, last, 0);
      PrintNatRead(s, i, n / 10);
    }
  }
}
