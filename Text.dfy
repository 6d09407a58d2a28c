/** String helpers standing in for the Python string operations the core uses:
    `str(n)` inside f-strings, `str.strip()`, slicing, and the ASCII part of the
    case-insensitive `icontains` lookup. */
module Text {
  import opened Common


  predicate IsDigit(c: char) { '0' <= c <= '9' }

  function DigitChar(d: nat): (c: char)
    requires d < 10
    ensures IsDigit(c)
  {
    ('0' as int + d) as char
  }

  function DigitValue(c: char): (d: nat)
    requires IsDigit(c)
    ensures d < 10
  {
    c as int - '0' as int
  }

  predicate AllDigits(s: string) {
    forall i :: 0 <= i < |s| ==> IsDigit(s[i])
  }

  /** Python's `str(n)` for a non-negative integer: decimal, no leading zeros. */
  function DecimalString(n: nat): (s: string)
    ensures |s| >= 1 && AllDigits(s)
    ensures n >= 10 ==> s[0] != '0'
    decreases n
  {
    if n < 10 then [DigitChar(n)] else DecimalString(n / 10) + [DigitChar(n % 10)]
  }

  /** Reads a string of decimal digits back as a number (the inverse of `DecimalString`). */
  function ParseDecimal(s: string): nat
    requires AllDigits(s)
    decreases |s|
  {
    if s == [] then 0 else 10 * ParseDecimal(s[..|s| - 1]) + DigitValue(s[|s| - 1])
  }

  lemma {:induction false} ParseDecimalString(n: nat)
    ensures ParseDecimal(DecimalString(n)) == n
    decreases n
  {
    if n >= 10 {
      var s := DecimalString(n);
      var prefix := DecimalString(n / 10);
      assert s == prefix + [DigitChar(n % 10)];
      assert s[..|s| - 1] == prefix;
      ParseDecimalString(n / 10);
    }
  }

  /** Different numbers print differently, so `f"chat_{id}"` names one group per chat. */
  lemma DecimalStringInjective(a: nat, b: nat)
    ensures DecimalString(a) == DecimalString(b) ==> a == b
  {
    ParseDecimalString(a);
    ParseDecimalString(b);
  }

  /** `s[:n]` in Python. */
  function Take(s: string, n: nat): (r: string)
    ensures |r| <= n && r <= s
    ensures |s| <= n ==> r == s
    ensures |s| > n ==> |r| == n
  {
    if |s| <= n then s else s[..n]
  }

  /** The characters Python's `str.strip()` removes that lie in ASCII. */
  predicate IsSpace(c: char) {
    c == ' ' || c == '\t' || c == '\n' || c == '\r' || c == '\U{B}' || c == '\U{C}'
    || ('\U{1C}' <= c <= '\U{1F}')
  }

  /** Drops the leading whitespace (see `StripLeftDropsSpace`). */
  function StripLeft(s: string): (r: string)
    ensures |r| <= |s| && r == s[|s| - |r|..]
    ensures r != [] ==> !IsSpace(r[0])
    ensures r == [] ==> forall i :: 0 <= i < |s| ==> IsSpace(s[i])
    decreases |s|
  {
    if s != [] && IsSpace(s[0]) then StripLeft(s[1..]) else s
  }

  /** Drops the trailing whitespace (see `StripRightDropsSpace`). */
  function StripRight(s: string): (r: string)
    ensures |r| <= |s| && r == s[..|r|]
    ensures r != [] ==> !IsSpace(r[|r| - 1])
    ensures r == [] ==> forall i :: 0 <= i < |s| ==> IsSpace(s[i])
    decreases |s|
  {
    if s != [] && IsSpace(s[|s| - 1]) then StripRight(s[..|s| - 1]) else s
  }

  /** Python's `str.strip()` restricted to ASCII whitespace: the result is a
      slice of `s` with no whitespace at either end, empty exactly when `s` is
      all whitespace. */
  function Strip(s: string): (r: string)
    ensures |r| <= |s|
    ensures r != [] ==> !IsSpace(r[0]) && !IsSpace(r[|r| - 1])
    ensures r == [] <==> forall i :: 0 <= i < |s| ==> IsSpace(s[i])
  {
    StripRight(StripLeft(s))
  }

  /** What `StripLeft` drops is whitespace. */
  lemma {:induction false} StripLeftDropsSpace(s: string)
    ensures forall k :: 0 <= k < |s| - |StripLeft(s)| ==> IsSpace(s[k])
    decreases |s|
  {
    if s != [] && IsSpace(s[0]) {
      StripLeftDropsSpace(s[1..]);
      forall k | 1 <= k < |s| - |StripLeft(s)| ensures IsSpace(s[k]) {
        assert s[k] == s[1..][k - 1];
      }
    }
  }

  /** What `StripRight` drops is whitespace. */
  lemma {:induction false} StripRightDropsSpace(s: string)
    ensures forall k :: |StripRight(s)| <= k < |s| ==> IsSpace(s[k])
    decreases |s|
  {
    if s != [] && IsSpace(s[|s| - 1]) {
      StripRightDropsSpace(s[..|s| - 1]);
      forall k | |StripRight(s)| <= k < |s| - 1 ensures IsSpace(s[k]) {
        assert s[k] == s[..|s| - 1][k];
      }
    }
  }

  /** `Strip(s)` is the slice of `s` that starts at `i`, and everything
      outside that slice is whitespace. */
  lemma StripIsSlice(s: string) returns (i: nat)
    ensures i + |Strip(s)| <= |s| && Strip(s) == s[i..i + |Strip(s)|]
    ensures forall k :: 0 <= k < i ==> IsSpace(s[k])
    ensures forall k :: i + |Strip(s)| <= k < |s| ==> IsSpace(s[k])
  {
    var l := StripLeft(s);
    var r := StripRight(l);
    i := |s| - |l|;
    StripLeftDropsSpace(s);
    StripRightDropsSpace(l);
    assert Strip(s) == r;
    PrefixOfSuffix(s, i, l, r);
  }

  /** A prefix `r` of the suffix `l == s[i..]` is the slice of `s` at `i`, and
      whatever follows `r` in `l` follows that slice in `s`. */
  lemma PrefixOfSuffix(s: string, i: nat, l: string, r: string)
    requires i <= |s| && l == s[i..] && |r| <= |l| && r == l[..|r|]
    requires forall k :: |r| <= k < |l| ==> IsSpace(l[k])
    ensures i + |r| <= |s| && r == s[i..i + |r|]
    ensures forall k :: i + |r| <= k < |s| ==> IsSpace(s[k])
  {
    forall k | i + |r| <= k < |s| ensures IsSpace(s[k]) {
      assert s[k] == l[k - i];
    }
  }

  /** Trimming removes whitespace only: every other character stays. */
  lemma StripKeeps(s: string, k: nat)
    requires k < |s| && !IsSpace(s[k])
    ensures s[k] in Strip(s)
  {
    var i := StripIsSlice(s);
    assert s[k] == Strip(s)[k - i];
  }

  /** What DRF's `CharField` accepts for a required value: not blank once
      trimmed, and free of U+0000, which its `ProhibitNullCharactersValidator`
      refuses. */
  predicate CharFieldAccepts(s: string) {
    Strip(s) != [] && '\0' !in Strip(s)
  }

  /** A string with no whitespace at either end is its own strip. */
  lemma StripUnpadded(s: string)
    requires s != [] ==> !IsSpace(s[0]) && !IsSpace(s[|s| - 1])
    ensures Strip(s) == s
  {
  }

  /** The position of the last `c` in `s`: where `str.rsplit(c, 1)` cuts. */
  function LastIndex(s: string, c: char): (r: Option<nat>)
    ensures r.None? <==> c !in s
    ensures r.Some? ==> r.value < |s| && s[r.value] == c && c !in s[r.value + 1..]
    decreases |s|
  {
    if s == [] then None
    else if s[|s| - 1] == c then Some(|s| - 1)
    else
      var r := LastIndex(s[..|s| - 1], c);
      assert s == s[..|s| - 1] + [s[|s| - 1]];
      if r.Some? then
        assert s[r.value + 1..] == s[..|s| - 1][r.value + 1..] + [s[|s| - 1]];
        r
      else r
  }

  function LowerChar(c: char): char {
    if 'A' <= c <= 'Z' then (c as int - 'A' as int + 'a' as int) as char else c
  }

  /** ASCII lower-casing, the case folding the `icontains` lookup applies to both sides. */
  function Lower(s: string): (r: string)
    ensures |r| == |s|
    ensures forall i :: 0 <= i < |s| ==> r[i] == LowerChar(s[i])
  {
    seq(|s|, i requires 0 <= i < |s| => LowerChar(s[i]))
  }

  /** Lower-casing maps `@` and whitespace to themselves and nothing else to them. */
  lemma LowerCharKeeps(c: char)
    ensures LowerChar(c) == '@' <==> c == '@'
    ensures IsSpace(LowerChar(c)) <==> IsSpace(c)
  {
  }

  /** The last `c` is at `at` when `s[at]` is one and none follows. */
  lemma LastIndexIs(s: string, c: char, at: nat)
    requires at < |s| && s[at] == c
    requires forall i :: at < i < |s| ==> s[i] != c
    ensures LastIndex(s, c) == Some(at)
  {
  }

  /** Nothing after the last `c` is a `c`. */
  lemma AfterLastIndex(s: string, c: char, i: nat)
    requires c in s && LastIndex(s, c).value < i < |s|
    ensures s[i] != c
  {
    var at := LastIndex(s, c).value;
    assert s[at + 1..][i - at - 1] == s[i];
  }

  /** `s` with every character after position `at` lower-cased. */
  function LowerAfter(s: string, at: nat): (r: string)
    ensures |r| == |s|
    ensures forall i :: 0 <= i < |s| ==> r[i] == if i > at then LowerChar(s[i]) else s[i]
  {
    seq(|s|, i requires 0 <= i < |s| => if i > at then LowerChar(s[i]) else s[i])
  }

  lemma LowerAfterTwice(s: string, at: nat)
    ensures LowerAfter(LowerAfter(s, at), at) == LowerAfter(s, at)
  {
    var r := LowerAfter(s, at);
    forall i | 0 <= i < |r| ensures LowerAfter(r, at)[i] == r[i] {
      if i > at {
        assert LowerChar(LowerChar(s[i])) == LowerChar(s[i]);
      }
    }
  }

  /** Lower-casing after the `@` of an address whose domain is already lower case changes nothing. */
  lemma LowerAfterLowered(local: string, domain: string)
    requires Lower(domain) == domain
    ensures LowerAfter(local + ['@'] + domain, |local|) == local + ['@'] + domain
  {
    var e := local + ['@'] + domain;
    var n := |local|;
    forall k | 0 <= k < |e| ensures LowerAfter(e, n)[k] == e[k] {
      if k > n {
        assert e[k] == domain[k - n - 1];
        assert Lower(domain)[k - n - 1] == LowerChar(domain[k - n - 1]);
      }
    }
  }

  /** `q` occurs somewhere in `t` as a contiguous substring. */
  predicate Contains(t: string, q: string)
    decreases |t|
  {
    q <= t || (t != [] && Contains(t[1..], q))
  }

  /** Django's `text__icontains=q`, with ASCII case folding. */
  predicate IContains(t: string, q: string) {
    Contains(Lower(t), Lower(q))
  }

  /** Every text contains the empty query (the search endpoint's default `q=''`). */
  lemma {:induction false} ContainsEmpty(t: string)
    ensures Contains(t, [])
  {
  }

  /** Where an occurrence found by `Contains` starts. */
  lemma {:induction false} ContainsIndex(t: string, q: string) returns (i: nat)
    requires Contains(t, q)
    ensures i + |q| <= |t| && t[i..i + |q|] == q
    decreases |t|
  {
    if q <= t {
      i := 0;
    } else {
      var j := ContainsIndex(t[1..], q);
      assert t[j + 1..j + 1 + |q|] == t[1..][j..j + |q|];
      i := j + 1;
    }
  }

  lemma {:induction false} ContainsAt(t: string, q: string, i: nat)
    requires i + |q| <= |t| && t[i..i + |q|] == q
    ensures Contains(t, q)
    decreases i
  {
    if i == 0 {
      assert q <= t;
    } else {
      assert t[1..][i - 1..i - 1 + |q|] == q;
      ContainsAt(t[1..], q, i - 1);
    }
  }

  /** An exact occurrence is also a case-insensitive one. */
  lemma {:induction false} ContainsImpliesIContains(t: string, q: string)
    requires Contains(t, q)
    ensures IContains(t, q)
  {
    var i := ContainsIndex(t, q);
    var lt, lq := Lower(t), Lower(q);
    assert lt[i..i + |q|] == lq by {
      forall k | 0 <= k < |q| ensures lt[i..i + |q|][k] == lq[k] {
        assert t[i + k] == q[k];
      }
    }
    ContainsAt(lt, lq, i);
  }

  lemma LowerIdempotent(s: string)
    ensures Lower(Lower(s)) == Lower(s)
  {
    assert forall i :: 0 <= i < |s| ==> Lower(Lower(s))[i] == Lower(s)[i];
  }

  /** `icontains` ignores the case of the query: lower-casing it first changes nothing. */
  lemma IContainsIgnoresQueryCase(t: string, q: string)
    ensures IContains(t, Lower(q)) == IContains(t, q)
  {
    LowerIdempotent(q);
  }
}
