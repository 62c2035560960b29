/** The two pieces of text handling `prepare_statement` relies on, over the
    UTF-8 bytes of the input: `str::split_whitespace`, restricted to the ASCII
    whitespace bytes, and `str::parse::<u32>`, i.e. an optional `+` followed by
    decimal digits whose value fits in 32 bits. */
module Lexing {
  import opened Bytes
  import opened Wrappers

  const SPACE: byte := 32
  const PLUS: byte := 43
  const ZERO_DIGIT: byte := 48

  /** The ASCII bytes `char::is_whitespace` accepts: tab, line feed, vertical tab,
      form feed, carriage return and space. */
  predicate IsSpace(b: byte)
  {
    b == 9 || b == 10 || b == 11 || b == 12 || b == 13 || b == 32
  }

  /** A token as `split_whitespace` yields it: non-empty, without whitespace. */
  predicate IsToken(t: seq<byte>)
  {
    |t| > 0 && forall i :: 0 <= i < |t| ==> !IsSpace(t[i])
  }

  /** The length of the token at the start of `s`: up to the first whitespace byte
      or the end of `s`. */
  function WordLength(s: seq<byte>): (n: nat)
    requires |s| > 0 && !IsSpace(s[0])
    ensures 1 <= n <= |s|
    ensures forall i :: 0 <= i < n ==> !IsSpace(s[i])
    ensures n == |s| || IsSpace(s[n])
    decreases |s|
  {
    if |s| == 1 || IsSpace(s[1]) then 1 else 1 + WordLength(s[1..])
  }

  /** The first whitespace byte, or the end, is where the token stops. */
  lemma WordLengthIs(s: seq<byte>, m: nat)
    requires |s| > 0 && !IsSpace(s[0]) && 1 <= m <= |s|
    requires forall i :: 0 <= i < m ==> !IsSpace(s[i])
    requires m == |s| || IsSpace(s[m])
    ensures WordLength(s) == m
  {
  }

  /** `split_whitespace`: the maximal runs of non-whitespace bytes, in order. */
  function Tokens(s: seq<byte>): (ts: seq<seq<byte>>)
    ensures forall k :: 0 <= k < |ts| ==> IsToken(ts[k])
    decreases |s|
  {
    if |s| == 0 then []
    else if IsSpace(s[0]) then Tokens(s[1..])
    else
      var n := WordLength(s);
      [s[..n]] + Tokens(s[n..])
  }

  /** The words joined with one space between each, as an input line is typed. */
  function Unwords(ws: seq<seq<byte>>): seq<byte>
    decreases |ws|
  {
    if |ws| == 0 then []
    else if |ws| == 1 then ws[0]
    else ws[0] + [SPACE] + Unwords(ws[1..])
  }

  /** A whitespace byte separates the tokens on its two sides. */
  lemma {:induction false} TokensAroundSpace(a: seq<byte>, c: byte, b: seq<byte>)
    requires IsSpace(c)
    ensures Tokens(a + [c] + b) == Tokens(a) + Tokens(b)
    decreases |a|
  {
    var s := a + [c] + b;
    if |a| == 0 {
      assert s[1..] == b;
    } else if IsSpace(a[0]) {
      assert s[1..] == a[1..] + [c] + b;
      TokensAroundSpace(a[1..], c, b);
    } else {
      var n := WordLength(a);
      WordLengthIs(s, n);
      assert s[..n] == a[..n];
      assert s[n..] == a[n..] + [c] + b;
      TokensAroundSpace(a[n..], c, b);
    }
  }

  /** A token on its own splits into just itself. */
  lemma TokensOfToken(t: seq<byte>)
    requires IsToken(t)
    ensures Tokens(t) == [t]
  {
    WordLengthIs(t, |t|);
    assert t[..|t|] == t;
    assert t[|t|..] == [];
  }

  /** Splitting words joined by single spaces gives the words back. */
  lemma {:induction false} TokensUnwords(ws: seq<seq<byte>>)
    requires forall k :: 0 <= k < |ws| ==> IsToken(ws[k])
    ensures Tokens(Unwords(ws)) == ws
    decreases |ws|
  {
    if |ws| == 0 {
    } else if |ws| == 1 {
      TokensOfToken(ws[0]);
    } else {
      TokensAroundSpace(ws[0], SPACE, Unwords(ws[1..]));
      TokensOfToken(ws[0]);
      TokensUnwords(ws[1..]);
      assert ws == [ws[0]] + ws[1..];
    }
  }

  predicate IsDigit(b: byte)
  {
    48 <= b <= 57
  }

  predicate AllDigits(ds: seq<byte>)
  {
    forall i :: 0 <= i < |ds| ==> IsDigit(ds[i])
  }

  /** The value of a string of decimal digits, most significant first. */
  function DecimalValue(ds: seq<byte>): nat
    requires AllDigits(ds)
    decreases |ds|
  {
    if |ds| == 0 then 0 else 10 * DecimalValue(ds[..|ds| - 1]) + (ds[|ds| - 1] - ZERO_DIGIT) as nat
  }

  /** `str::parse::<u32>`: an optional leading `+`, then at least one decimal
      digit, with a value below 2^32; anything else is an error. */
  function ParseU32(t: seq<byte>): (r: Option<u32>)
    ensures r.Some? ==> exists ds :: (t == ds || t == [PLUS] + ds) && |ds| > 0 && AllDigits(ds) && DecimalValue(ds) == r.value
  {
    var ds := if |t| > 0 && t[0] == PLUS then t[1..] else t;
    if |ds| == 0 || !AllDigits(ds) then None
    else if DecimalValue(ds) < 0x1_0000_0000 then
      assert t == ds || t == [PLUS] + ds;
      Some(DecimalValue(ds))
    else None
  }

  /** A token holding a byte that is neither a digit nor the leading `+` does not parse. */
  lemma ParseRejectsNonDigit(t: seq<byte>, i: nat)
    requires i < |t| && !IsDigit(t[i]) && !(i == 0 && t[i] == PLUS)
    ensures ParseU32(t) == None
  {
    if |t| > 0 && t[0] == PLUS {
      assert t[1..][i - 1] == t[i];
    }
  }

  /** A digit string of value at least 2^32 does not parse: the range check. */
  lemma ParseRejectsOverflow(ds: seq<byte>)
    requires |ds| > 0 && AllDigits(ds) && DecimalValue(ds) >= 0x1_0000_0000
    ensures ParseU32(ds) == None && ParseU32([PLUS] + ds) == None
  {
    assert ([PLUS] + ds)[1..] == ds;
  }

  /** The decimal spelling of `n`, without leading zeros. */
  function Decimal(n: nat): (ds: seq<byte>)
    ensures |ds| > 0
    decreases n
  {
    if n < 10 then [(ZERO_DIGIT as nat + n) as byte]
    else Decimal(n / 10) + [(ZERO_DIGIT as nat + n % 10) as byte]
  }

  /** The spelling is made of digits and reads back as `n`. */
  lemma {:induction false} DecimalDigits(n: nat)
    ensures AllDigits(Decimal(n)) && DecimalValue(Decimal(n)) == n
    decreases n
  {
    if n >= 10 {
      DecimalDigits(n / 10);
      var ds := Decimal(n);
      assert ds[..|ds| - 1] == Decimal(n / 10);
    }
  }

  /** Conversely, a non-empty digit string below 2^32, with or without a leading
      `+`, parses to its value. */
  lemma ParseAccepts(ds: seq<byte>)
    requires |ds| > 0 && AllDigits(ds) && DecimalValue(ds) < 0x1_0000_0000
    ensures ParseU32(ds) == Some(DecimalValue(ds))
    ensures ParseU32([PLUS] + ds) == Some(DecimalValue(ds))
  {
    assert ds[0] != PLUS;
    assert ([PLUS] + ds)[1..] == ds;
  }

  /** Every `u32`, written in decimal, parses back to itself, and its spelling is
      a token. */
  lemma ParseDecimal(v: u32)
    ensures IsToken(Decimal(v))
    ensures ParseU32(Decimal(v)) == Some(v)
  {
    DecimalDigits(v);
    ParseAccepts(Decimal(v));
  }

  /** `str::starts_with` on bytes. */
  predicate StartsWith(s: seq<byte>, prefix: seq<byte>)
  {
    |prefix| <= |s| && s[..|prefix|] == prefix
  }

  /** `s` followed by zeros up to `n` bytes: a zeroed fixed-size array with `s`
      copied into its front. */
  function PadTo(s: seq<byte>, n: nat): (r: seq<byte>)
    requires |s| <= n
    ensures |r| == n && r[..|s|] == s && AllZero(r[|s|..])
  {
    CopyInto(Zeros(n), 0, s)
  }
}
