/**
 * Byte-level decoding used by the header accessors of tar.rb:
 * null-terminated text (`null_terminated`, alias `nt`) and Ruby's
 * `String#oct` as the accessors use it on octal numeric fields.
 */
module TarFields {
  import opened Wrappers

  type Byte = b: int | 0 <= b < 256

  const NUL: Byte := 0

  // ---------------------------------------------------------------------
  // Null-terminated text

  /** Index of the first NUL byte in `s`, as Ruby's `String#index("\x00")`. */
  function FirstNul(s: seq<Byte>): (r: Option<nat>)
    ensures r.None? <==> NUL !in s
    ensures r.Some? ==> r.value < |s| && s[r.value] == NUL && NUL !in s[..r.value]
  {
    if s == [] then None
    else if s[0] == NUL then Some(0)
    else
      match FirstNul(s[1..])
      case None => None
      case Some(i) =>
        assert s[..i + 1] == [s[0]] + s[1..][..i];
        Some(i + 1)
  }

  /**
   * `value[0, value.index("\x00")]`: the bytes before the first NUL.
   * With no NUL, `index` yields nil and the slice raises; that is `None` here.
   */
  function NullTerminated(field: seq<Byte>): (r: Option<seq<Byte>>)
    ensures r.Some? <==> NUL in field
    ensures r.Some? ==> |r.value| < |field| && r.value == field[..|r.value|]
                        && field[|r.value|] == NUL && NUL !in r.value
    ensures r == Some([]) <==> |field| > 0 && field[0] == NUL
  {
    match FirstNul(field)
    case None => None
    case Some(i) => Some(field[..i])
  }

  /** Text followed by a NUL decodes to exactly that text, whatever follows. */
  lemma NullTerminatedText(text: seq<Byte>, rest: seq<Byte>)
    requires NUL !in text
    ensures NullTerminated(text + [NUL] + rest) == Some(text)
  {
    var field := text + [NUL] + rest;
    var v := NullTerminated(field).value;
    assert field[|text|] == NUL;
    assert |v| == |text|;
    assert field[..|text|] == text;
  }

  // ---------------------------------------------------------------------
  // Octal numbers, as `String#oct` reads them

  /** Ruby's ISSPACE: space, tab, newline, vertical tab, form feed, carriage return. */
  predicate IsSpace(b: Byte) {
    b == 32 || 9 <= b <= 13
  }

  predicate IsOctalDigit(b: Byte) {
    48 <= b <= 55
  }

  predicate AllOctal(d: seq<Byte>) {
    forall i :: 0 <= i < |d| ==> IsOctalDigit(d[i])
  }

  /** `s` with its leading whitespace removed. */
  function SkipSpace(s: seq<Byte>): (r: seq<Byte>)
    ensures |r| <= |s|
  {
    if s != [] && IsSpace(s[0]) then SkipSpace(s[1..]) else s
  }

  /**
   * Reads octal digits from the front of `s` onto the value `acc` read so
   * far, stopping at the first byte that is not an octal digit.
   */
  function ReadOctal(s: seq<Byte>, acc: nat): nat {
    if s == [] || !IsOctalDigit(s[0]) then acc
    else ReadOctal(s[1..], acc * 8 + (s[0] - 48))
  }

  function Pow8(k: nat): (r: nat)
    ensures r >= 1
  {
    if k == 0 then 1 else 8 * Pow8(k - 1)
  }

  lemma {:induction false} Pow8Monotone(j: nat, k: nat)
    requires j <= k
    ensures Pow8(j) <= Pow8(k)
  {
    if j < k {
      Pow8Monotone(j, k - 1);
    }
  }

  /** Each digit read multiplies the bound by 8. */
  lemma {:induction false} ReadOctalBound(s: seq<Byte>, acc: nat, k: nat)
    requires acc < Pow8(k)
    ensures ReadOctal(s, acc) < Pow8(k + |s|)
    decreases |s|
  {
    if s == [] || !IsOctalDigit(s[0]) {
      Pow8Monotone(k, k + |s|);
    } else {
      ReadOctalBound(s[1..], acc * 8 + (s[0] - 48), k + 1);
    }
  }

  /**
   * `String#oct`: skip leading whitespace, then read the longest run of
   * octal digits; no digits gives 0. The result never exceeds what the
   * field width can hold.
   */
  function Oct(s: seq<Byte>): (r: nat)
    ensures r < Pow8(|s|)
  {
    var digits := SkipSpace(s);
    ReadOctalBound(digits, 0, 0);
    Pow8Monotone(|digits|, |s|);
    ReadOctal(digits, 0)
  }

  /** A field that starts with NUL (an all-zero field, say) reads as 0. */
  lemma OctOfBlank(s: seq<Byte>)
    requires |s| > 0 && s[0] == NUL
    ensures Oct(s) == 0
  {
  }

  // ---------------------------------------------------------------------
  // Writing octal numbers, the partner of `Oct`

  /** `n` as exactly `k` octal digits, zero-padded on the left. */
  function Digits(n: nat, k: nat): (r: seq<Byte>)
    ensures |r| == k && AllOctal(r)
  {
    if k == 0 then [] else Digits(n / 8, k - 1) + [48 + n % 8]
  }

  /** Reading a run of digits and then what follows is reading what follows from the run's value. */
  lemma {:induction false} ReadOctalAppend(d: seq<Byte>, rest: seq<Byte>, acc: nat)
    requires AllOctal(d)
    ensures ReadOctal(d + rest, acc) == ReadOctal(rest, ReadOctal(d, acc))
    decreases |d|
  {
    if d == [] {
      assert d + rest == rest;
    } else {
      assert (d + rest)[1..] == d[1..] + rest;
      assert IsOctalDigit(d[0]);
      ReadOctalAppend(d[1..], rest, acc * 8 + (d[0] - 48));
    }
  }

  lemma {:induction false} ReadOctalDigits(n: nat, k: nat)
    requires n < Pow8(k)
    ensures ReadOctal(Digits(n, k), 0) == n
  {
    if k > 0 {
      assert n / 8 < Pow8(k - 1);
      ReadOctalDigits(n / 8, k - 1);
      ReadOctalAppend(Digits(n / 8, k - 1), [48 + n % 8], 0);
    }
  }

  lemma {:induction false} SkipSpaceOf(lead: seq<Byte>, s: seq<Byte>)
    requires forall i :: 0 <= i < |lead| ==> IsSpace(lead[i])
    requires s == [] || !IsSpace(s[0])
    ensures SkipSpace(lead + s) == s
  {
    if lead != [] {
      assert (lead + s)[1..] == lead[1..] + s;
      SkipSpaceOf(lead[1..], s);
    } else {
      assert lead + s == s;
    }
  }

  /**
   * Round trip: `n` written as `k` zero-padded octal digits, optionally
   * after leading whitespace and followed by any non-digit terminator
   * (NUL or space in tar headers), reads back as `n`.
   */
  lemma OctRoundTrip(lead: seq<Byte>, n: nat, k: nat, tail: seq<Byte>)
    requires forall i :: 0 <= i < |lead| ==> IsSpace(lead[i])
    requires 1 <= k && n < Pow8(k)
    requires tail == [] || !IsOctalDigit(tail[0])
    ensures Oct(lead + Digits(n, k) + tail) == n
  {
    var d := Digits(n, k);
    assert lead + d + tail == lead + (d + tail);
    assert (d + tail)[0] == d[0];
    SkipSpaceOf(lead, d + tail);
    ReadOctalAppend(d, tail, 0);
    ReadOctalDigits(n, k);
  }
}
