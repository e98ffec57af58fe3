/**
 * Unpadded URL-safe base64, as Go's `base64.RawURLEncoding` writes and
 * reads it: the "base64url" alphabet of section 5 of RFC 4648, with the
 * padding of section 3.2 omitted. Three bytes become four six-bit digits;
 * a final group of one or two bytes becomes two or three digits. Each digit
 * is then written as one character of the alphabet.
 */
module Base64 {
  import opened Wrappers
  import opened ByteOrder

  /** `A`-`Z`, `a`-`z`, `0`-`9`, `-`, `_` for the values 0 to 63. */
  function Char(v: nat): (c: char)
    requires v < 64
    ensures CharValue(c) == Some(v)
  {
    if v < 26 then ('A' as int + v) as char
    else if v < 52 then ('a' as int + v - 26) as char
    else if v < 62 then ('0' as int + v - 52) as char
    else if v == 62 then '-'
    else '_'
  }

  /** The value of a base64url character; `None` for any other character. */
  function CharValue(c: char): (v: Option<nat>)
    ensures v.Some? ==> v.value < 64
  {
    if 'A' <= c <= 'Z' then Some(c as int - 'A' as int)
    else if 'a' <= c <= 'z' then Some(c as int - 'a' as int + 26)
    else if '0' <= c <= '9' then Some(c as int - '0' as int + 52)
    else if c == '-' then Some(62)
    else if c == '_' then Some(63)
    else None
  }

  predicate IsUrlChar(c: char) {
    CharValue(c).Some?
  }

  predicate AreDigits(vs: seq<nat>) {
    forall i :: 0 <= i < |vs| ==> vs[i] < 64
  }

  /**
   * The bits of a final short group's last digit that no byte fills are
   * zero: four of them after one byte, two after two bytes.
   */
  predicate PadBitsZero(vs: seq<nat>) {
    && (|vs| % 4 == 2 ==> vs[|vs| - 1] % 16 == 0)
    && (|vs| % 4 == 3 ==> vs[|vs| - 1] % 4 == 0)
  }

  /**
   * Canonical unpadded base64url text (section 3.5 of RFC 4648): only
   * alphabet characters, no single leftover character, and the pad bits of
   * the last character zero.
   */
  predicate Canonical(s: string) {
    && |s| % 4 != 1
    && (forall i :: 0 <= i < |s| ==> IsUrlChar(s[i]))
    && (|s| % 4 == 2 ==> CharValue(s[|s| - 1]).Some? && CharValue(s[|s| - 1]).value % 16 == 0)
    && (|s| % 4 == 3 ==> CharValue(s[|s| - 1]).Some? && CharValue(s[|s| - 1]).value % 4 == 0)
  }

  /** Each six-bit digit as its character. */
  function ToChars(vs: seq<nat>): (s: string)
    requires AreDigits(vs)
    ensures |s| == |vs|
  {
    if vs == [] then [] else [Char(vs[0])] + ToChars(vs[1..])
  }

  /** Each character as its six-bit digit; `None` if one is outside the alphabet. */
  function FromChars(s: string): (r: Option<seq<nat>>)
    ensures r.Some? <==> forall i :: 0 <= i < |s| ==> IsUrlChar(s[i])
    ensures r.Some? ==> |r.value| == |s| && AreDigits(r.value)
  {
    if s == [] then Some([])
    else
      var v, rest := CharValue(s[0]), FromChars(s[1..]);
      if v.None? || rest.None? then None else Some([v.value] + rest.value)
  }

  /** The 24-bit value of a group of one to three bytes, missing bytes counting as zero. */
  function GroupOf(bs: seq<Byte>): (n: nat)
    requires 1 <= |bs| <= 3
    ensures n < 0x100_0000
  {
    var b0: int := bs[0];
    var b1: int := if |bs| > 1 then bs[1] else 0;
    var b2: int := if |bs| > 2 then bs[2] else 0;
    b0 * 0x1_0000 + b1 * 0x100 + b2
  }

  /** The first `k` of the four six-bit digits of `n`, most significant first. */
  function Sextets(n: nat, k: nat): (vs: seq<nat>)
    requires n < 0x100_0000 && k <= 4
    ensures |vs| == k && AreDigits(vs)
  {
    [n / 0x4_0000, (n / 0x1000) % 64, (n / 64) % 64, n % 64][..k]
  }

  /** The six-bit digits of a byte string: four per whole group, two or three for a final short group. */
  function SextetsOf(bs: seq<Byte>): (vs: seq<nat>)
    ensures |vs| == (8 * |bs| + 5) / 6 && AreDigits(vs)
  {
    if |bs| == 0 then []
    else if |bs| < 3 then Sextets(GroupOf(bs), |bs| + 1)
    else Sextets(GroupOf(bs[..3]), 4) + SextetsOf(bs[3..])
  }

  /**
   * `base64.RawURLEncoding.EncodeToString`: `(8 * n + 5) / 6` characters
   * for `n` bytes (11 for the eight bytes of an identifier).
   */
  function Encode(bs: seq<Byte>): (s: string)
    ensures |s| == (8 * |bs| + 5) / 6
    ensures Canonical(s)
  {
    SextetsOfCanonical(bs);
    ToCharsValues(SextetsOf(bs));
    ToChars(SextetsOf(bs))
  }

  /** The 24-bit value of two to four digits, missing digits counting as zero. */
  function ValueOf(vs: seq<nat>): (n: nat)
    requires 2 <= |vs| <= 4 && AreDigits(vs)
    ensures n < 0x100_0000
  {
    var v2 := if |vs| > 2 then vs[2] else 0;
    var v3 := if |vs| > 3 then vs[3] else 0;
    vs[0] * 0x4_0000 + vs[1] * 0x1000 + v2 * 64 + v3
  }

  /** The first `k` of the three bytes of the 24-bit value `n`. */
  function BytesOf(n: nat, k: nat): (bs: seq<Byte>)
    requires n < 0x100_0000 && k <= 3
    ensures |bs| == k
  {
    [n / 0x1_0000, (n / 0x100) % 0x100, n % 0x100][..k]
  }

  /**
   * The bytes of a digit string: `None` when a single digit is left over;
   * bits below the last whole byte of a short final group are ignored.
   */
  function FromSextets(vs: seq<nat>): (r: Option<seq<Byte>>)
    requires AreDigits(vs)
    ensures r.None? <==> |vs| % 4 == 1
    ensures r.Some? ==> |r.value| == 6 * |vs| / 8
  {
    if |vs| == 0 then Some([])
    else if |vs| == 1 then None
    else if |vs| < 4 then Some(BytesOf(ValueOf(vs), |vs| - 1))
    else
      var rest := FromSextets(vs[4..]);
      if rest.None? then None else Some(BytesOf(ValueOf(vs[..4]), 3) + rest.value)
  }

  /**
   * `base64.RawURLEncoding.DecodeString`: it fails exactly when a character
   * is outside the alphabet or a single character is left over after the
   * groups of four; otherwise `n` characters give `6 * n / 8` bytes.
   */
  function Decode(s: string): (r: Option<seq<Byte>>)
    ensures r.Some? <==> |s| % 4 != 1 && forall i :: 0 <= i < |s| ==> IsUrlChar(s[i])
    ensures r.Some? ==> |r.value| == 6 * |s| / 8
  {
    var vs := FromChars(s);
    if vs.None? then None else FromSextets(vs.value)
  }

  /** Each character written for a digit reads as that digit. */
  lemma {:induction false} ToCharsValues(vs: seq<nat>)
    requires AreDigits(vs)
    ensures forall i :: 0 <= i < |vs| ==> CharValue(ToChars(vs)[i]) == Some(vs[i])
  {
    if vs != [] {
      ToCharsValues(vs[1..]);
      var s := ToChars(vs);
      assert s[1..] == ToChars(vs[1..]);
      forall i | 1 <= i < |vs|
        ensures CharValue(s[i]) == Some(vs[i])
      {
        assert s[i] == s[1..][i - 1];
      }
    }
  }

  /** Each digit read from a text is the value of its character. */
  lemma {:induction false} FromCharsValues(s: string)
    requires FromChars(s).Some?
    ensures forall i :: 0 <= i < |s| ==> CharValue(s[i]) == Some(FromChars(s).value[i])
  {
    if s != [] {
      FromCharsValues(s[1..]);
      var vs := FromChars(s).value;
      assert vs[1..] == FromChars(s[1..]).value;
      forall i | 1 <= i < |s|
        ensures CharValue(s[i]) == Some(vs[i])
      {
        assert s[i] == s[1..][i - 1] && vs[i] == vs[1..][i - 1];
      }
    }
  }

  /** Reading the characters of digits gives the digits back. */
  lemma {:induction false} FromCharsToChars(vs: seq<nat>)
    requires AreDigits(vs)
    ensures FromChars(ToChars(vs)) == Some(vs)
  {
    if vs != [] {
      var s := ToChars(vs);
      assert s[1..] == ToChars(vs[1..]);
      FromCharsToChars(vs[1..]);
      assert vs == [vs[0]] + vs[1..];
    }
  }

  /** A 24-bit number is the sum of its four six-bit digits. */
  lemma SextetsSum(n: nat)
    ensures n == (n / 0x4_0000) * 0x4_0000 + ((n / 0x1000) % 64) * 0x1000 + ((n / 64) % 64) * 64 + n % 64
  {
    var a := n / 64;
    var b := a / 64;
    assert n == 64 * a + n % 64;
    assert a == 64 * b + a % 64;
    assert b == n / 0x1000;
    assert b == 64 * (b / 64) + b % 64;
    assert b / 64 == n / 0x4_0000;
  }

  /** The digits of `n` add back up to `n`, provided the digits a short group leaves out are zero. */
  lemma ValueOfSextets(n: nat, k: nat)
    requires n < 0x100_0000 && 2 <= k <= 4
    requires k <= 3 ==> n % 64 == 0
    requires k == 2 ==> (n / 64) % 64 == 0
    ensures ValueOf(Sextets(n, k)) == n
  {
    SextetsSum(n);
  }

  /**
   * The bytes of a group are read back from its value; the low digits of a
   * group of one or two bytes are zero.
   */
  lemma BytesOfGroup(bs: seq<Byte>)
    requires 1 <= |bs| <= 3
    ensures BytesOf(GroupOf(bs), |bs|) == bs
    ensures |bs| <= 2 ==> GroupOf(bs) % 64 == 0
    ensures |bs| == 1 ==> (GroupOf(bs) / 64) % 64 == 0
  {
    var n := GroupOf(bs);
    var b0: int := bs[0];
    var b1: int := if |bs| > 1 then bs[1] else 0;
    var b2: int := if |bs| > 2 then bs[2] else 0;
    assert n / 0x100 == b0 * 0x100 + b1;
    assert n / 0x1_0000 == b0 && (n / 0x100) % 0x100 == b1 && n % 0x100 == b2;
    if |bs| <= 2 {
      assert n == 64 * (b0 * 0x400 + b1 * 4);
    }
    if |bs| == 1 {
      assert n / 64 == 64 * (b0 * 16);
    }
    assert bs == if |bs| == 1 then [b0] else if |bs| == 2 then [b0, b1] else [b0, b1, b2];
  }

  /** The digits of any byte string convert back to the bytes. */
  lemma {:induction false} FromSextetsOf(bs: seq<Byte>)
    ensures FromSextets(SextetsOf(bs)) == Some(bs)
    decreases |bs|
  {
    if 1 <= |bs| <= 2 {
      BytesOfGroup(bs);
      ValueOfSextets(GroupOf(bs), |bs| + 1);
    } else if |bs| >= 3 {
      var g, rest := bs[..3], bs[3..];
      var head, tail := Sextets(GroupOf(g), 4), SextetsOf(rest);
      var vs := head + tail;
      assert vs[..4] == head && vs[4..] == tail;
      FromSextetsOf(rest);
      BytesOfGroup(g);
      ValueOfSextets(GroupOf(g), 4);
      assert g + rest == bs;
    }
  }

  /** A whole group in front leaves the pad bits of what follows as they are. */
  lemma PadBitsZeroAppend(head: seq<nat>, tail: seq<nat>)
    requires |head| == 4
    ensures |head + tail| % 4 == |tail| % 4
    ensures PadBitsZero(head + tail) <==> PadBitsZero(tail)
  {
    DivModOfSum(|tail| / 4 + 1, |tail| % 4, 4);
    if |tail| > 0 {
      assert (head + tail)[|head + tail| - 1] == tail[|tail| - 1];
    }
  }

  /** Euclidean division of `q * m + r` by `m` when `0 <= r < m`. */
  lemma DivModOfSum(q: int, r: int, m: int)
    requires 0 <= r < m
    ensures (q * m + r) / m == q && (q * m + r) % m == r
  {
    var x := q * m + r;
    var d := x / m - q;
    assert d * m == r - x % m;
  }

  /** The last digit of a group of one or two bytes has its pad bits zero. */
  lemma ShortGroupPad(bs: seq<Byte>)
    requires 1 <= |bs| <= 2
    ensures PadBitsZero(Sextets(GroupOf(bs), |bs| + 1))
  {
    var n := GroupOf(bs);
    var b0: int := bs[0];
    if |bs| == 1 {
      DivModOfSum(16 * b0, 0, 0x1000);
      DivModOfSum(b0 / 4, 16 * (b0 % 4), 64);
      DivModOfSum(b0 % 4, 0, 16);
    } else {
      var w: int := b0 * 0x100 + bs[1];
      DivModOfSum(4 * w, 0, 64);
      DivModOfSum(w / 16, 4 * (w % 16), 64);
      DivModOfSum(w % 16, 0, 4);
    }
  }

  /**
   * The digits of any byte string never leave a single digit over, and
   * their pad bits are zero.
   */
  lemma {:induction false} SextetsOfCanonical(bs: seq<Byte>)
    ensures |SextetsOf(bs)| % 4 != 1 && PadBitsZero(SextetsOf(bs))
    decreases |bs|
  {
    if 1 <= |bs| < 3 {
      ShortGroupPad(bs);
    } else if |bs| >= 3 {
      SextetsOfCanonical(bs[3..]);
      PadBitsZeroAppend(Sextets(GroupOf(bs[..3]), 4), SextetsOf(bs[3..]));
    }
  }

  /** An alphabet character is the character written for its value. */
  lemma CharOfValue(c: char)
    requires IsUrlChar(c)
    ensures Char(CharValue(c).value) == c
  {
  }

  /** Writing the digits of a decodable text as characters gives the text back. */
  lemma {:induction false} ToCharsFromChars(s: string)
    requires FromChars(s).Some?
    ensures ToChars(FromChars(s).value) == s
  {
    if s != [] {
      var v, vs := CharValue(s[0]).value, FromChars(s).value;
      assert vs == [v] + FromChars(s[1..]).value;
      assert vs[1..] == FromChars(s[1..]).value;
      ToCharsFromChars(s[1..]);
      CharOfValue(s[0]);
      assert ToChars(vs) == [Char(v)] + ToChars(vs[1..]);
      assert s == [s[0]] + s[1..];
    }
  }

  /** Two to four digits are the leading digits of their value. */
  lemma SextetsOfValueOf(vs: seq<nat>)
    requires 2 <= |vs| <= 4 && AreDigits(vs)
    ensures Sextets(ValueOf(vs), |vs|) == vs
  {
    var n := ValueOf(vs);
    var v2 := if |vs| > 2 then vs[2] else 0;
    var v3 := if |vs| > 3 then vs[3] else 0;
    assert n == 64 * (vs[0] * 0x1000 + vs[1] * 64 + v2) + v3;
    assert n % 64 == v3 && n / 64 == vs[0] * 0x1000 + vs[1] * 64 + v2;
    assert n / 0x1000 == (n / 64) / 64 == vs[0] * 64 + vs[1];
    assert n / 0x4_0000 == (n / 0x1000) / 64 == vs[0];
    var ws := Sextets(n, |vs|);
    assert ws[0] == vs[0] && ws[1] == vs[1];
    assert |vs| > 2 ==> ws[2] == vs[2];
    assert |vs| > 3 ==> ws[3] == vs[3];
  }

  /**
   * The bytes read from two to four digits group back to their value: the
   * pad bits make sure the value has nothing below its last whole byte.
   */
  lemma GroupOfBytesOf(vs: seq<nat>)
    requires 2 <= |vs| <= 4 && AreDigits(vs) && PadBitsZero(vs)
    ensures GroupOf(BytesOf(ValueOf(vs), |vs| - 1)) == ValueOf(vs)
  {
    var n := ValueOf(vs);
    var hi, lo := n / 0x100, n % 0x100;
    DivModOfSum(hi, lo, 0x100);
    DivModOfSum(hi / 0x100, hi % 0x100, 0x100);
    DivModOfSum(hi / 0x100, hi % 0x100 * 0x100 + lo, 0x1_0000);
    assert n / 0x1_0000 == hi / 0x100;
    if |vs| == 3 {
      assert vs[2] == 4 * (vs[2] / 4);
      DivModOfSum(vs[0] * 0x400 + vs[1] * 16 + vs[2] / 4, 0, 0x100);
      assert lo == 0;
    } else if |vs| == 2 {
      assert vs[1] == 16 * (vs[1] / 16);
      DivModOfSum(vs[0] * 0x400 + vs[1] / 16 * 0x100, 0, 0x100);
      DivModOfSum(vs[0] * 4 + vs[1] / 16, 0, 0x100);
      assert lo == 0 && hi % 0x100 == 0;
    }
  }

  /** A string of at least three bytes splits into the digits of its first group and the digits of the rest. */
  lemma SextetsOfWholeGroup(g: seq<Byte>, rest: seq<Byte>)
    requires |g| == 3
    ensures SextetsOf(g + rest) == Sextets(GroupOf(g), 4) + SextetsOf(rest)
  {
    var bs := g + rest;
    assert bs[..3] == g && bs[3..] == rest;
  }

  /** Canonical digits regroup into bytes whose digits they are. */
  lemma {:induction false} SextetsOfFromSextets(vs: seq<nat>)
    requires AreDigits(vs) && |vs| % 4 != 1 && PadBitsZero(vs)
    ensures FromSextets(vs).Some? && SextetsOf(FromSextets(vs).value) == vs
    decreases |vs|
  {
    if 2 <= |vs| < 4 {
      GroupOfBytesOf(vs);
      SextetsOfValueOf(vs);
    } else if |vs| >= 4 {
      var head, tail := vs[..4], vs[4..];
      assert head + tail == vs;
      PadBitsZeroAppend(head, tail);
      SextetsOfFromSextets(tail);
      var g, rest := BytesOf(ValueOf(head), 3), FromSextets(tail).value;
      assert FromSextets(vs) == Some(g + rest);
      SextetsOfWholeGroup(g, rest);
      GroupOfBytesOf(head);
      SextetsOfValueOf(head);
    }
  }

  /** Canonical text decodes, and is the encoding of what it decodes to. */
  lemma EncodeDecode(s: string)
    requires Canonical(s)
    ensures Decode(s).Some? && Encode(Decode(s).value) == s
  {
    var vs := FromChars(s).value;
    FromCharsValues(s);
    assert PadBitsZero(vs) by {
      if |s| > 0 {
        assert CharValue(s[|s| - 1]) == Some(vs[|vs| - 1]);
      }
    }
    SextetsOfFromSextets(vs);
    ToCharsFromChars(s);
  }

  /** Decoding the encoding of any byte string gives the bytes back. */
  lemma DecodeEncode(bs: seq<Byte>)
    ensures Decode(Encode(bs)) == Some(bs)
  {
    FromCharsToChars(SextetsOf(bs));
    FromSextetsOf(bs);
  }
}
