/** The request token of rrl.go: sixteen random bytes printed with Go's
    `%X` verb (two upper-case hexadecimal digits per byte) in groups of
    4, 2, 2, 2 and 6 bytes joined by dashes. The entropy source is a
    parameter: what `crypto/rand.Read` produced, or its failure. */
module Uuid {
  import opened Wrappers

  type Byte = x: int | 0 <= x < 256

  /** Exactly the sixteen bytes `rand.Read` fills when it succeeds. */
  type Block = s: seq<Byte> | |s| == 16
    witness [0, 0, 0, 0, 0, 0, 0, 0, 0, 0, 0, 0, 0, 0, 0, 0]

  datatype Entropy = Random(bytes: Block) | ReadFailed

  datatype EntropyError = EntropyUnavailable

  predicate IsUpperHex(c: char) {
    '0' <= c <= '9' || 'A' <= c <= 'F'
  }

  function HexDigit(d: int): (c: char)
    requires 0 <= d < 16
    ensures IsUpperHex(c)
  {
    if d < 10 then (48 + d) as char else (55 + d) as char
  }

  function DigitValue(c: char): (d: int)
    requires IsUpperHex(c)
    ensures 0 <= d < 16 && HexDigit(d) == c
  {
    if c <= '9' then c as int - 48 else c as int - 55
  }

  /** What `%X` prints for a byte slice. */
  function Hex(bs: seq<Byte>): (r: string)
    ensures |r| == 2 * |bs|
    ensures forall i :: 0 <= i < |r| ==> IsUpperHex(r[i])
  {
    if bs == [] then "" else [HexDigit(bs[0] / 16), HexDigit(bs[0] % 16)] + Hex(bs[1..])
  }

  /** Reads back the bytes of a string of upper-case hexadecimal digit pairs. */
  function Unhex(s: string): (bs: seq<Byte>)
    requires |s| % 2 == 0
    requires forall i :: 0 <= i < |s| ==> IsUpperHex(s[i])
    ensures |bs| == |s| / 2
  {
    if s == [] then [] else [16 * DigitValue(s[0]) + DigitValue(s[1])] + Unhex(s[2..])
  }

  lemma {:induction false} UnhexHex(bs: seq<Byte>)
    ensures Unhex(Hex(bs)) == bs
  {
    if bs != [] {
      var h := Hex(bs);
      assert h[2..] == Hex(bs[1..]);
      UnhexHex(bs[1..]);
    }
  }

  lemma {:induction false} HexAppend(a: seq<Byte>, b: seq<Byte>)
    ensures Hex(a + b) == Hex(a) + Hex(b)
  {
    if a == [] {
      assert a + b == b;
    } else {
      assert (a + b)[0] == a[0] && (a + b)[1..] == a[1..] + b;
      HexAppend(a[1..], b);
    }
  }

  /** The `fmt.Sprintf("%X-%X-%X-%X-%X", ...)` of rrl.go's uuid. */
  function Format(b: Block): (s: string)
    ensures |s| == 36
    ensures forall i :: 0 <= i < 36 && IsDashPosition(i) ==> s[i] == '-'
  {
    Hex(b[0..4]) + "-" + Hex(b[4..6]) + "-" + Hex(b[6..8]) + "-" + Hex(b[8..10]) + "-" + Hex(b[10..])
  }

  predicate IsDashPosition(i: int) {
    i == 8 || i == 13 || i == 18 || i == 23
  }

  /** The shape of a token: 36 characters, dashes at 8, 13, 18 and 23 and
      an upper-case hexadecimal digit everywhere else. */
  predicate WellFormed(s: string) {
    && |s| == 36
    && (forall i :: 0 <= i < 36 && IsDashPosition(i) ==> s[i] == '-')
    && (forall i :: 0 <= i < 36 && !IsDashPosition(i) ==> IsUpperHex(s[i]))
  }

  /** A token's 32 digits: everything but the four dashes. */
  function Digits(s: string): (d: string)
    requires WellFormed(s)
    ensures |d| == 32 && forall i :: 0 <= i < 32 ==> IsUpperHex(d[i])
  {
    var d := s[0..8] + s[9..13] + s[14..18] + s[19..23] + s[24..36];
    assert forall i :: 0 <= i < 32 ==> IsUpperHex(d[i]) by {
      forall i | 0 <= i < 32 ensures IsUpperHex(d[i]) {
        if i < 8 { assert d[i] == s[i]; }
        else if i < 12 { assert d[i] == s[i + 1]; }
        else if i < 16 { assert d[i] == s[i + 2]; }
        else if i < 20 { assert d[i] == s[i + 3]; }
        else { assert d[i] == s[i + 4]; }
      }
    }
    d
  }

  /** The inverse of Format: the digits with the dashes taken out. */
  function Parse(s: string): (r: Option<Block>)
    ensures r.Some? <==> WellFormed(s)
  {
    if WellFormed(s) then Some(Unhex(Digits(s))) else None
  }

  lemma FormatShape(b: Block)
    ensures WellFormed(Format(b))
  {
    var s := Format(b);
    assert |Hex(b[0..4])| == 8 && |Hex(b[10..])| == 12;
    forall i | 0 <= i < 36 && !IsDashPosition(i)
      ensures IsUpperHex(s[i])
    {
      if i < 8 { assert s[i] == Hex(b[0..4])[i]; }
      else if i < 13 { assert s[i] == Hex(b[4..6])[i - 9]; }
      else if i < 18 { assert s[i] == Hex(b[6..8])[i - 14]; }
      else if i < 23 { assert s[i] == Hex(b[8..10])[i - 19]; }
      else { assert s[i] == Hex(b[10..])[i - 24]; }
    }
  }

  /** Parse undoes Format, so the token determines the random bytes. */
  lemma ParseFormat(b: Block)
    ensures Parse(Format(b)) == Some(b)
  {
    var s := Format(b);
    FormatShape(b);
    assert s[0..8] == Hex(b[0..4]);
    assert s[9..13] == Hex(b[4..6]);
    assert s[14..18] == Hex(b[6..8]);
    assert s[19..23] == Hex(b[8..10]);
    assert s[24..36] == Hex(b[10..]);
    HexAppend(b[0..4], b[4..6]);
    HexAppend(b[0..6] , b[6..8]);
    HexAppend(b[0..8], b[8..10]);
    HexAppend(b[0..10], b[10..]);
    assert b[0..4] + b[4..6] == b[0..6];
    assert b[0..6] + b[6..8] == b[0..8];
    assert b[0..8] + b[8..10] == b[0..10];
    assert b[0..10] + b[10..] == b;
    UnhexHex(b);
  }

  /** Distinct random blocks give distinct tokens. */
  lemma FormatInjective(a: Block, b: Block)
    ensures Format(a) == Format(b) <==> a == b
  {
    ParseFormat(a);
    ParseFormat(b);
  }

  /** Printing the bytes read back from hex digit pairs gives the digits again. */
  lemma {:induction false} HexUnhex(s: string)
    requires |s| % 2 == 0
    requires forall i :: 0 <= i < |s| ==> IsUpperHex(s[i])
    ensures Hex(Unhex(s)) == s
  {
    if s != [] {
      var hi, lo := DigitValue(s[0]), DigitValue(s[1]);
      var b := 16 * hi + lo;
      assert b / 16 == hi && b % 16 == lo;
      HexUnhex(s[2..]);
      assert Unhex(s)[1..] == Unhex(s[2..]);
      assert s == [s[0], s[1]] + s[2..];
    }
  }

  /** The hex of a suffix is the matching suffix of the hex. */
  lemma {:induction false} HexDrop(bs: seq<Byte>, i: nat)
    requires i <= |bs|
    ensures Hex(bs[i..]) == Hex(bs)[2 * i..]
  {
    if i > 0 {
      assert Hex(bs)[2..] == Hex(bs[1..]);
      HexDrop(bs[1..], i - 1);
      assert bs[1..][i - 1..] == bs[i..];
    }
  }

  /** The hex of a prefix is the matching prefix of the hex. */
  lemma {:induction false} HexTake(bs: seq<Byte>, j: nat)
    requires j <= |bs|
    ensures Hex(bs[..j]) == Hex(bs)[..2 * j]
  {
    if j > 0 {
      var h := Hex(bs);
      assert h[2..] == Hex(bs[1..]);
      HexTake(bs[1..], j - 1);
      assert bs[1..][..j - 1] == bs[..j][1..];
      assert Hex(bs[..j]) == h[..2] + Hex(bs[..j][1..]);
    }
  }

  /** The hex of a slice is the matching slice of the hex. */
  lemma HexSlice(bs: seq<Byte>, i: nat, j: nat)
    requires i <= j <= |bs|
    ensures Hex(bs[i..j]) == Hex(bs)[2 * i..2 * j]
  {
    HexTake(bs, j);
    HexDrop(bs[..j], i);
    assert bs[..j][i..] == bs[i..j];
  }

  /** A string with the token's dashes whose four groups are the hex of
      the block's groups is that block's token. */
  lemma FormatFromGroups(b: Block, s: string)
    requires WellFormed(s)
    requires Hex(b[0..4]) == s[0..8] && Hex(b[4..6]) == s[9..13]
    requires Hex(b[6..8]) == s[14..18] && Hex(b[8..10]) == s[19..23]
    requires Hex(b[10..]) == s[24..36]
    ensures Format(b) == s
  {
    var t := Format(b);
    forall i | 0 <= i < 36 ensures t[i] == s[i] {
      if i < 8 { assert t[i] == Hex(b[0..4])[i]; }
      else if i == 8 { }
      else if i < 13 { assert t[i] == Hex(b[4..6])[i - 9]; }
      else if i == 13 { }
      else if i < 18 { assert t[i] == Hex(b[6..8])[i - 14]; }
      else if i == 18 { }
      else if i < 23 { assert t[i] == Hex(b[8..10])[i - 19]; }
      else if i == 23 { }
      else { assert t[i] == Hex(b[10..])[i - 24]; }
    }
  }

  /** Format undoes Parse: every string of the token's shape is the token
      of the block it parses to, so the shape describes exactly the strings
      uuid() can return. */
  lemma FormatParse(s: string)
    requires WellFormed(s)
    ensures Parse(s).Some? && Format(Parse(s).value) == s
  {
    var d := Digits(s);
    var b := Unhex(d);
    HexUnhex(d);
    HexSlice(b, 0, 4);
    HexSlice(b, 4, 6);
    HexSlice(b, 6, 8);
    HexSlice(b, 8, 10);
    HexSlice(b, 10, 16);
    assert b[10..] == b[10..16];
    FormatFromGroups(b, s);
  }

  /** rrl.go's uuid(): the formatted token, or the entropy failure. */
  function NewToken(rand: Entropy): (r: Result<string, EntropyError>)
    ensures r.Err? <==> rand.ReadFailed?
    ensures r.Ok? ==> WellFormed(r.value) && Parse(r.value) == Some(rand.bytes)
  {
    match rand
    case ReadFailed => Err(EntropyUnavailable)
    case Random(b) => ParseFormat(b); Ok(Format(b))
  }
}
