/**
  The parts of Go's `strings` and `strconv` packages the gateway relies on.
  A Go string is a sequence of bytes; here each `char` stands for one byte,
  and every search looks for ASCII bytes or for a non-token; since every
  non-ASCII byte and every non-ASCII rune is a non-token, a byte-wise search
  finds the same first position as Go's rune-wise one.
*/
module GoStrings {

  /** `strings.IndexAny(s, chars)`: the first index of a character of `chars`, or -1. */
  function IndexAny(s: string, chars: string): (r: int)
    ensures -1 <= r < |s|
    ensures r == -1 <==> forall k :: 0 <= k < |s| ==> s[k] !in chars
    ensures r >= 0 ==> s[r] in chars && forall k :: 0 <= k < r ==> s[k] !in chars
    decreases |s|
  {
    if s == [] then -1
    else if s[0] in chars then 0
    else
      var r := IndexAny(s[1..], chars);
      if r < 0 then -1 else r + 1
  }

  /** `strings.IndexByte(s, c)`: the first index of `c`, or -1. */
  function IndexByte(s: string, c: char): (r: int)
    ensures -1 <= r < |s|
    ensures r == -1 <==> c !in s
    ensures r >= 0 ==> s[r] == c && c !in s[..r]
  {
    var r := IndexAny(s, [c]);
    assert r >= 0 ==> forall k :: 0 <= k < r ==> s[..r][k] != c;
    r
  }

  /** The first occurrence of `c` is where `IndexByte` finds it. */
  lemma FirstIndexOf(s: string, c: char, j: nat)
    requires j < |s| && s[j] == c && c !in s[..j]
    ensures IndexByte(s, c) == j
  {
  }

  /** The first character from `chars` is where `IndexAny` finds it. */
  lemma FirstIndexAnyOf(s: string, chars: string, j: nat)
    requires j < |s| && s[j] in chars
    requires forall k :: 0 <= k < j ==> s[k] !in chars
    ensures IndexAny(s, chars) == j
  {
  }

  /** `t` is what remains of `s` once its leading characters from `cutset` are removed. */
  predicate IsTrimLeft(s: string, cutset: string, t: string)
  {
    && |t| <= |s|
    && t == s[|s| - |t|..]
    && (forall k :: 0 <= k < |s| - |t| ==> s[k] in cutset)
    && (t == [] || t[0] !in cutset)
  }

  /** A string that does not start with a character of `cutset` is its own left trim. */
  lemma TrimLeftNothing(t: string, cutset: string)
    requires t == [] || t[0] !in cutset
    ensures IsTrimLeft(t, cutset, t)
  {
    assert t[|t| - |t|..] == t;
  }

  /** `strings.TrimLeft(s, cutset)`. */
  function TrimLeft(s: string, cutset: string): (r: string)
    ensures |r| <= |s|
    decreases |s|
  {
    if s != [] && s[0] in cutset then TrimLeft(s[1..], cutset) else s
  }

  /** TrimLeft removes exactly the leading run of cutset bytes. */
  lemma {:induction false} TrimLeftSpec(s: string, cutset: string)
    ensures IsTrimLeft(s, cutset, TrimLeft(s, cutset))
    decreases |s|
  {
    if s != [] && s[0] in cutset {
      TrimLeftSpec(s[1..], cutset);
    } else {
      TrimLeftNothing(s, cutset);
    }
  }

  /** What TrimLeft leaves is a suffix of `s`. */
  lemma {:induction false} TrimLeftSuffix(s: string, cutset: string)
    ensures var r := TrimLeft(s, cutset); r == s[|s| - |r|..]
    decreases |s|
  {
    if s != [] && s[0] in cutset {
      TrimLeftSuffix(s[1..], cutset);
    }
  }

  /** Only one string is what is left of `s` after trimming: TrimLeft is determined by its contract. */
  lemma {:induction false} TrimLeftUnique(s: string, cutset: string, t: string, u: string)
    requires IsTrimLeft(s, cutset, t) && IsTrimLeft(s, cutset, u)
    ensures t == u
  {
  }

  /** A string is its prefix followed by its suffix. */
  lemma SplitAt(s: string, i: nat)
    requires i <= |s|
    ensures s == s[..i] + s[i..]
  {
  }

  /** `strings.HasPrefix(s, prefix)`. */
  predicate HasPrefix(s: string, prefix: string)
  {
    |prefix| <= |s| && s[..|prefix|] == prefix
  }

  /** `strings.Replace(s, string(old), "", n)` for `n >= 0`: drop the first `n` occurrences of `drop`. */
  function ReplaceN(s: string, drop: char, n: nat): (r: string)
    ensures |s| - n <= |r| <= |s|
    ensures drop !in s ==> r == s
    decreases |s|
  {
    if n == 0 || s == [] then s
    else if s[0] == drop then ReplaceN(s[1..], drop, n - 1)
    else [s[0]] + ReplaceN(s[1..], drop, n)
  }

  /** Removing occurrences stops at the first `n` of them and keeps everything else in order. */
  lemma {:induction false} ReplaceNSkip(a: string, drop: char, b: string, n: nat)
    requires drop !in a
    ensures ReplaceN(a + [drop] + b, drop, n + 1) == a + ReplaceN(b, drop, n)
    decreases |a|
  {
    if a == [] {
      assert a + [drop] + b == [drop] + b;
      assert ([drop] + b)[1..] == b;
    } else {
      var t := a[1..] + [drop] + b;
      ConsAppend(a, [drop] + b);
      assert a + [drop] + b == [a[0]] + t;
      ReplaceNKeep(a[0], t, drop, n + 1);
      ReplaceNSkip(a[1..], drop, b, n);
      ConsAppend(a, ReplaceN(b, drop, n));
    }
  }

  /** A non-empty sequence is its head followed by its tail, whatever comes after it. */
  lemma ConsAppend<T>(a: seq<T>, x: seq<T>)
    requires a != []
    ensures [a[0]] + (a[1..] + x) == a + x
    ensures a + x == [a[0]] + (a[1..] + x)
  {
    assert a == [a[0]] + a[1..];
  }

  /** A character other than `drop` at the front is kept. */
  lemma ReplaceNKeep(c: char, t: string, drop: char, n: nat)
    requires c != drop && n > 0
    ensures ReplaceN([c] + t, drop, n) == [c] + ReplaceN(t, drop, n)
  {
    assert ([c] + t)[1..] == t;
  }

  /** The number of occurrences of `c` in `s` (`strings.Count` for a one-byte separator). */
  function Occurrences(s: string, c: char): (r: nat)
    ensures r <= |s|
    ensures r == 0 <==> c !in s
    decreases |s|
  {
    if s == [] then 0
    else (if s[0] == c then 1 else 0) + Occurrences(s[1..], c)
  }

  /** Occurrences add up over concatenation. */
  lemma {:induction false} OccurrencesAppend(a: string, b: string, c: char)
    ensures Occurrences(a + b, c) == Occurrences(a, c) + Occurrences(b, c)
    decreases |a|
  {
    if a == [] {
      assert a + b == b;
    } else {
      assert (a + b)[0] == a[0];
      assert (a + b)[1..] == a[1..] + b;
      OccurrencesAppend(a[1..], b, c);
    }
  }

  /** The decimal digit character for `d`. */
  function Digit(d: nat): char
    requires d < 10
  {
    "0123456789"[d]
  }

  /** The value of a decimal digit character. */
  function DigitValue(c: char): nat
  {
    if '0' <= c <= '9' then (c as int) - ('0' as int) else 0
  }

  /** Decimal rendering of a natural number, most significant digit first. */
  function FormatNat(n: nat): (r: string)
    ensures |r| > 0
    ensures forall k :: 0 <= k < |r| ==> '0' <= r[k] <= '9'
    decreases n
  {
    if n < 10 then [Digit(n)] else FormatNat(n / 10) + [Digit(n % 10)]
  }

  /** `fmt`'s `%d` (and `strconv.Itoa`): decimal with a leading `-` for negative values. */
  function FormatInt(n: int): (r: string)
    ensures |r| > 0
    ensures (r[0] == '-') <==> n < 0
  {
    if n < 0 then "-" + FormatNat(-n) else FormatNat(n)
  }

  /** Reads a string of decimal digits back into a number. */
  function ParseNat(s: string): nat
    decreases |s|
  {
    if s == [] then 0 else ParseNat(s[..|s| - 1]) * 10 + DigitValue(s[|s| - 1])
  }

  /** Decimal rendering loses nothing: reading it back gives the number. */
  lemma {:induction false} ParseFormatNat(n: nat)
    ensures ParseNat(FormatNat(n)) == n
    decreases n
  {
    if n >= 10 {
      var prefix := FormatNat(n / 10);
      var r := prefix + [Digit(n % 10)];
      assert r[..|r| - 1] == prefix;
      ParseFormatNat(n / 10);
    }
  }
}
