/** Values shared by every part of the pipeline model: bytes, optional values,
    the decimal text that `%d` / `std::to_string` produce, and the truncation
    `snprintf` applies to a fixed-size buffer. */
module Common {

  /** One element of a C `unsigned char` / `char` buffer. */
  newtype Byte = b: int | 0 <= b < 256

  datatype Option<T> = None | Some(value: T)

  function Min(a: int, b: int): int { if a <= b then a else b }

  function Max(a: int, b: int): int { if a >= b then a else b }

  predicate IsDigit(c: char) { '0' <= c <= '9' }

  predicate AllDigits(s: string) { forall i :: 0 <= i < |s| ==> IsDigit(s[i]) }

  function DigitChar(d: nat): (c: char)
    requires d < 10
    ensures IsDigit(c) && c as int - '0' as int == d
  {
    ('0' as int + d) as char
  }

  /** Decimal text of a non-negative number, without leading zeros. */
  function NatToString(n: nat): (s: string)
    ensures |s| >= 1 && AllDigits(s)
    ensures n > 0 ==> s[0] != '0'
    decreases n
  {
    if n < 10 then [DigitChar(n)] else NatToString(n / 10) + [DigitChar(n % 10)]
  }

  /** The number a string of decimal digits denotes (the reading partner of NatToString). */
  function DigitsValue(s: string): nat
    requires AllDigits(s)
  {
    if s == [] then 0 else 10 * DigitsValue(s[..|s| - 1]) + (s[|s| - 1] as int - '0' as int)
  }

  lemma {:induction false} NatToStringRoundTrip(n: nat)
    ensures DigitsValue(NatToString(n)) == n
  {
    var s := NatToString(n);
    if n >= 10 {
      assert s[..|s| - 1] == NatToString(n / 10);
      NatToStringRoundTrip(n / 10);
    }
  }

  /** Distinct numbers print differently. */
  lemma NatToStringInjective(a: nat, b: nat)
    requires NatToString(a) == NatToString(b)
    ensures a == b
  {
    NatToStringRoundTrip(a);
    NatToStringRoundTrip(b);
  }

  /** The text `snprintf` leaves in a buffer of `bufSize` bytes: the formatted text,
      cut to at most `bufSize - 1` characters (one byte is kept for the terminator). */
  function Snprintf(s: string, bufSize: nat): (r: string)
    requires bufSize > 0
    ensures |r| < bufSize && r <= s
    ensures |s| < bufSize ==> r == s
    ensures |s| >= bufSize ==> |r| == bufSize - 1
  {
    if |s| < bufSize then s else s[..bufSize - 1]
  }

  /** Concatenation of a sequence of byte strings, in order. */
  function Flatten(parts: seq<seq<Byte>>): (r: seq<Byte>)
  {
    if parts == [] then [] else Flatten(parts[..|parts| - 1]) + parts[|parts| - 1]
  }

  lemma {:induction false} FlattenAppend(parts: seq<seq<Byte>>, p: seq<Byte>)
    ensures Flatten(parts + [p]) == Flatten(parts) + p
  {
    assert (parts + [p])[..|parts|] == parts;
  }

  /** Adding one more part extends the concatenation of a prefix by that part. */
  lemma FlattenStep(parts: seq<seq<Byte>>, i: nat)
    requires i < |parts|
    ensures Flatten(parts[..i + 1]) == Flatten(parts[..i]) + parts[i]
  {
    assert parts[..i + 1] == parts[..i] + [parts[i]];
    FlattenAppend(parts[..i], parts[i]);
  }

  /** A longer prefix of the parts never concatenates to fewer bytes. */
  lemma {:induction false} FlattenPrefixGrows(parts: seq<seq<Byte>>, i: nat, j: nat)
    requires i <= j <= |parts|
    ensures |Flatten(parts[..i])| <= |Flatten(parts[..j])|
    decreases j - i
  {
    if i < j {
      FlattenPrefixGrows(parts, i, j - 1);
      FlattenStep(parts, j - 1);
    }
  }
}
