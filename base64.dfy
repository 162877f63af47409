/**
 * The base 64 encoding of section 4 of RFC 4648 (`base64.b64encode` and
 * `base64.b64decode`), with `=` padding.
 */
module Base64 {
  import opened Wrappers
  import opened Bytes

  type sextet = x: int | 0 <= x < 64

  /** The character for a 6-bit value (Table 1 of RFC 4648). */
  function Alphabet(i: sextet): char
  {
    if i < 26 then ('A' as int + i) as char
    else if i < 52 then ('a' as int + (i - 26)) as char
    else if i < 62 then ('0' as int + (i - 52)) as char
    else if i == 62 then '+'
    else '/'
  }

  /** The 6-bit value of an alphabet character; None for any other character. */
  function Index(c: char): Option<sextet>
  {
    if 'A' <= c <= 'Z' then Some(c as int - 'A' as int)
    else if 'a' <= c <= 'z' then Some(c as int - 'a' as int + 26)
    else if '0' <= c <= '9' then Some(c as int - '0' as int + 52)
    else if c == '+' then Some(62)
    else if c == '/' then Some(63)
    else None
  }

  lemma IndexOfAlphabet(i: sextet)
    ensures Index(Alphabet(i)) == Some(i)
  {
  }

  lemma AlphabetOfIndex(c: char)
    requires Index(c).Some?
    ensures Alphabet(Index(c).value) == c
  {
  }

  /** The bits a padded quantum leaves unused are zero (section 3.5 of
      RFC 4648): with `==` the low 4 bits of the second character, with `=`
      the low 2 bits of the third. */
  predicate PaddingBitsZeroIn(q: string)
    requires |q| == 4
  {
    && (q[2] == '=' && q[3] == '=' ==> Index(q[1]).Some? && Index(q[1]).value % 16 == 0)
    && (q[2] != '=' && q[3] == '=' ==> Index(q[2]).Some? && Index(q[2]).value % 4 == 0)
  }

  /** The padding bits of a text's last quantum, the only one that may be
      padded, are zero. */
  predicate PaddingBitsZero(s: string) {
    |s| >= 4 ==> PaddingBitsZeroIn(s[|s| - 4..])
  }

  /** The encoding of one group of three octets (or fewer, padded with `=`). */
  function EncodeGroup(bs: seq<byte>): (s: string)
    requires 1 <= |bs| <= 3
    ensures |s| == 4
    ensures forall c :: c in s ==> c == '=' || Index(c).Some?
    ensures PaddingBitsZeroIn(s)
  {
    var b0 := bs[0];
    var b1 := if |bs| > 1 then bs[1] else 0;
    var b2 := if |bs| > 2 then bs[2] else 0;
    var i0, i1, i2, i3 := b0 / 4, (b0 % 4) * 16 + b1 / 16, (b1 % 16) * 4 + b2 / 64, b2 % 64;
    IndexOfAlphabet(i0);
    IndexOfAlphabet(i1);
    IndexOfAlphabet(i2);
    IndexOfAlphabet(i3);
    var c0 := Alphabet(i0);
    var c1 := Alphabet(i1);
    var c2 := if |bs| > 1 then Alphabet(i2) else '=';
    var c3 := if |bs| > 2 then Alphabet(i3) else '=';
    [c0, c1, c2, c3]
  }

  /** A text of one quantum has that quantum's padding bits. */
  lemma PaddingBitsZeroSingle(s: string)
    requires |s| == 4
    ensures PaddingBitsZero(s) <==> PaddingBitsZeroIn(s)
    ensures s[..4] == s
  {
    assert s[|s| - 4..] == s;
  }

  /** Characters put in front of a text leave its padding bits alone. */
  lemma PaddingBitsZeroConcat(g: string, rest: string)
    requires |rest| >= 4 && PaddingBitsZero(rest)
    ensures PaddingBitsZero(g + rest)
  {
    assert (g + rest)[|g + rest| - 4..] == rest[|rest| - 4..];
  }

  /** `base64.b64encode`: each group of three octets becomes four characters;
      a last group of one or two octets is padded to four characters. */
  function Encode(bs: seq<byte>): (s: string)
    ensures |s| == (|bs| + 2) / 3 * 4
    ensures forall c :: c in s ==> c == '=' || Index(c).Some?
    ensures PaddingBitsZero(s)
  {
    if |bs| == 0 then []
    else if |bs| <= 3 then
      var g := EncodeGroup(bs);
      PaddingBitsZeroSingle(g);
      g
    else
      var g, rest := EncodeGroup(bs[..3]), Encode(bs[3..]);
      PaddingBitsZeroConcat(g, rest);
      g + rest
  }

  /** Decodes four characters; padding is accepted only in the last quantum. */
  function DecodeQuantum(q: string, last: bool): (r: Option<seq<byte>>)
    requires |q| == 4
    ensures r.Some? ==> 1 <= |r.value| <= 3 && (!last ==> |r.value| == 3)
    ensures r.Some? && |r.value| < 3 ==> q[3] == '='
  {
    var i0, i1, i2, i3 := Index(q[0]), Index(q[1]), Index(q[2]), Index(q[3]);
    if i0.None? || i1.None? then None
    else
      var b0 := i0.value * 4 + i1.value / 16;
      if i2.Some? && i3.Some? then
        Some([b0, (i1.value % 16) * 16 + i2.value / 4, (i2.value % 4) * 64 + i3.value])
      else if last && i2.Some? && q[3] == '=' then
        Some([b0, (i1.value % 16) * 16 + i2.value / 4])
      else if last && q[2] == '=' && q[3] == '=' then
        Some([b0])
      else None
  }

  /** `base64.b64decode`: None when the text is not a padded base 64 string. */
  function Decode(s: string): (r: Option<seq<byte>>)
    ensures |s| % 4 != 0 ==> r.None?
    ensures r.Some? ==> |s| / 4 * 3 - 2 <= |r.value| <= |s| / 4 * 3
    ensures r.Some? && |s| > 0 && s[|s| - 1] != '=' ==> |r.value| == |s| / 4 * 3
  {
    if |s| == 0 then Some([])
    else if |s| < 4 then None
    else
      var head := DecodeQuantum(s[..4], |s| == 4);
      var tail := Decode(s[4..]);
      if head.None? || tail.None? then None
      else Some(head.value + tail.value)
  }

  /** A text that decodes is exactly as long as the encoding of what it
      decodes to: 4 characters per started group of 3 octets. */
  lemma DecodedLength(s: string)
    requires Decode(s).Some?
    ensures |s| == (|Decode(s).value| + 2) / 3 * 4
  {
    var n, m := |s| / 4, |Decode(s).value|;
    assert |s| == 4 * n;
    assert 3 * n - 2 <= m <= 3 * n;
    assert (m + 2) / 3 == n;
  }

  lemma DivMod16(a: int, r: int)
    requires 0 <= r < 16
    ensures (a * 16 + r) / 16 == a && (a * 16 + r) % 16 == r
  {
  }

  lemma DivMod4(a: int, r: int)
    requires 0 <= r < 4
    ensures (a * 4 + r) / 4 == a && (a * 4 + r) % 4 == r
  {
  }

  /** The sextets of a group of octets give those octets back. */
  lemma SextetsOfOctets(b0: byte, b1: byte, b2: byte)
    ensures (b0 / 4) * 4 + ((b0 % 4) * 16 + b1 / 16) / 16 == b0
    ensures (((b0 % 4) * 16 + b1 / 16) % 16) * 16 + ((b1 % 16) * 4 + b2 / 64) / 4 == b1
    ensures (((b1 % 16) * 4 + b2 / 64) % 4) * 64 + b2 % 64 == b2
  {
    DivMod16(b0 % 4, b1 / 16);
    DivMod4(b1 % 16, b2 / 64);
  }

  lemma DecodeGroup(bs: seq<byte>, last: bool)
    requires 1 <= |bs| <= 3
    requires |bs| < 3 ==> last
    ensures DecodeQuantum(EncodeGroup(bs), last) == Some(bs)
  {
    var b0 := bs[0];
    var b1 := if |bs| > 1 then bs[1] else 0;
    var b2 := if |bs| > 2 then bs[2] else 0;
    var i0, i1, i2, i3 := b0 / 4, (b0 % 4) * 16 + b1 / 16, (b1 % 16) * 4 + b2 / 64, b2 % 64;
    SextetsOfOctets(b0, b1, b2);
    var q := EncodeGroup(bs);
    IndexOfAlphabet(i0);
    IndexOfAlphabet(i1);
    assert Index(q[0]) == Some(i0) && Index(q[1]) == Some(i1);
    if |bs| == 1 {
      DecodeOne(q, last, i0, i1, b0);
      assert bs == [b0];
    } else if |bs| == 2 {
      IndexOfAlphabet(i2);
      DecodeTwo(q, last, i0, i1, i2, b0, b1);
      assert bs == [b0, b1];
    } else {
      IndexOfAlphabet(i2);
      IndexOfAlphabet(i3);
      DecodeThree(q, last, i0, i1, i2, i3, b0, b1, b2);
      assert bs == [b0, b1, b2];
    }
  }

  lemma DecodeOne(q: string, last: bool, i0: sextet, i1: sextet, b0: int)
    requires |q| == 4 && last
    requires Index(q[0]) == Some(i0) && Index(q[1]) == Some(i1) && q[2] == '=' && q[3] == '='
    requires i0 * 4 + i1 / 16 == b0
    ensures DecodeQuantum(q, last) == Some([b0])
  {
    assert Index('=').None?;
  }

  lemma DecodeTwo(q: string, last: bool, i0: sextet, i1: sextet, i2: sextet, b0: int, b1: int)
    requires |q| == 4 && last
    requires Index(q[0]) == Some(i0) && Index(q[1]) == Some(i1) && Index(q[2]) == Some(i2) && q[3] == '='
    requires i0 * 4 + i1 / 16 == b0 && (i1 % 16) * 16 + i2 / 4 == b1
    ensures DecodeQuantum(q, last) == Some([b0, b1])
  {
    assert Index('=').None?;
  }

  lemma DecodeThree(q: string, last: bool, i0: sextet, i1: sextet, i2: sextet, i3: sextet, b0: int, b1: int, b2: int)
    requires |q| == 4
    requires Index(q[0]) == Some(i0) && Index(q[1]) == Some(i1) && Index(q[2]) == Some(i2) && Index(q[3]) == Some(i3)
    requires i0 * 4 + i1 / 16 == b0 && (i1 % 16) * 16 + i2 / 4 == b1 && (i2 % 4) * 64 + i3 == b2
    ensures DecodeQuantum(q, last) == Some([b0, b1, b2])
  {
  }

  /** Decoding undoes encoding. */
  lemma {:induction false} DecodeEncode(bs: seq<byte>)
    ensures Decode(Encode(bs)) == Some(bs)
  {
    if 0 < |bs| <= 3 {
      DecodeGroup(bs, true);
      assert Encode(bs)[..4] == Encode(bs);
      assert Encode(bs)[4..] == [];
      assert Decode(Encode(bs)[4..]) == Some([]);
      assert bs + [] == bs;
    } else if |bs| > 3 {
      var g := EncodeGroup(bs[..3]);
      var rest := Encode(bs[3..]);
      DecodeEncode(bs[3..]);
      DecodeGroup(bs[..3], |rest| == 0);
      assert (g + rest)[..4] == g;
      assert (g + rest)[4..] == rest;
      assert bs == bs[..3] + bs[3..];
    }
  }

  lemma DivMod64(a: int, r: int)
    requires 0 <= r < 64
    ensures (a * 64 + r) / 64 == a && (a * 64 + r) % 64 == r
  {
  }

  /** A full quantum re-encodes to itself. */
  lemma EncodeThree(q: string, g: seq<byte>, i0: sextet, i1: sextet, i2: sextet, i3: sextet)
    requires |q| == 4
    requires Index(q[0]) == Some(i0) && Index(q[1]) == Some(i1) && Index(q[2]) == Some(i2) && Index(q[3]) == Some(i3)
    requires g == [i0 * 4 + i1 / 16, (i1 % 16) * 16 + i2 / 4, (i2 % 4) * 64 + i3]
    ensures EncodeGroup(g) == q
  {
    AlphabetOfIndex(q[0]);
    AlphabetOfIndex(q[1]);
    AlphabetOfIndex(q[2]);
    AlphabetOfIndex(q[3]);
    DivMod4(i0, i1 / 16);
    DivMod16(i1 % 16, i2 / 4);
    DivMod64(i2 % 4, i3);
  }

  /** A quantum padded with `=` and zero padding bits re-encodes to itself. */
  lemma EncodeTwo(q: string, g: seq<byte>, i0: sextet, i1: sextet, i2: sextet)
    requires |q| == 4 && q[3] == '='
    requires Index(q[0]) == Some(i0) && Index(q[1]) == Some(i1) && Index(q[2]) == Some(i2) && i2 % 4 == 0
    requires g == [i0 * 4 + i1 / 16, (i1 % 16) * 16 + i2 / 4]
    ensures EncodeGroup(g) == q
  {
    AlphabetOfIndex(q[0]);
    AlphabetOfIndex(q[1]);
    AlphabetOfIndex(q[2]);
    DivMod4(i0, i1 / 16);
    DivMod16(i1 % 16, i2 / 4);
  }

  /** A quantum padded with `==` and zero padding bits re-encodes to itself. */
  lemma EncodeOne(q: string, g: seq<byte>, i0: sextet, i1: sextet)
    requires |q| == 4 && q[2] == '=' && q[3] == '='
    requires Index(q[0]) == Some(i0) && Index(q[1]) == Some(i1) && i1 % 16 == 0
    requires g == [i0 * 4 + i1 / 16]
    ensures EncodeGroup(g) == q
  {
    AlphabetOfIndex(q[0]);
    AlphabetOfIndex(q[1]);
    DivMod4(i0, i1 / 16);
  }

  /** A quantum that decodes, with zero padding bits, is the encoding of
      what it decodes to. */
  lemma EncodeOfDecodedQuantum(q: string, last: bool)
    requires |q| == 4 && DecodeQuantum(q, last).Some? && PaddingBitsZeroIn(q)
    ensures EncodeGroup(DecodeQuantum(q, last).value) == q
  {
    var g := DecodeQuantum(q, last).value;
    var i0: int, i1: int := Index(q[0]).value, Index(q[1]).value;
    var b0: int := i0 * 4 + i1 / 16;
    assert Index('=').None?;
    if Index(q[2]).Some? && Index(q[3]).Some? {
      var i2: int, i3: int := Index(q[2]).value, Index(q[3]).value;
      DecodeThree(q, last, i0, i1, i2, i3, b0, (i1 % 16) * 16 + i2 / 4, (i2 % 4) * 64 + i3);
      EncodeThree(q, g, i0, i1, i2, i3);
    } else if Index(q[2]).Some? {
      var i2: int := Index(q[2]).value;
      assert last && q[3] == '=';
      DecodeTwo(q, last, i0, i1, i2, b0, (i1 % 16) * 16 + i2 / 4);
      EncodeTwo(q, g, i0, i1, i2);
    } else {
      assert last && q[2] == '=' && q[3] == '=';
      DecodeOne(q, last, i0, i1, b0);
      EncodeOne(q, g, i0, i1);
    }
  }

  /** A quantum that is not the last one has no padding, so no padding bits. */
  lemma InnerQuantumUnpadded(q: string)
    requires |q| == 4 && DecodeQuantum(q, false).Some?
    ensures PaddingBitsZeroIn(q)
  {
    assert Index('=').None?;
  }

  /** Encoding a full group followed by more octets puts the group's four
      characters first. */
  lemma EncodePrefix(head: seq<byte>, tail: seq<byte>)
    requires |head| == 3 && |tail| > 0
    ensures Encode(head + tail) == EncodeGroup(head) + Encode(tail)
  {
    assert (head + tail)[..3] == head && (head + tail)[3..] == tail;
  }

  /** The padding bits of a text are those of its last quantum. */
  lemma PaddingBitsZeroSuffix(s: string)
    requires |s| >= 8 && PaddingBitsZero(s)
    ensures PaddingBitsZero(s[4..])
  {
    assert s[4..][|s[4..]| - 4..] == s[|s| - 4..];
  }

  /** The base case of `EncodeDecode`: a single quantum. */
  lemma EncodeDecodeSingle(s: string)
    requires |s| == 4 && Decode(s).Some? && PaddingBitsZero(s)
    ensures Encode(Decode(s).value) == s
  {
    var head := DecodeQuantum(s[..4], true).value;
    assert Decode(s[4..]).value == [];
    assert Decode(s).value == head + [] == head;
    PaddingBitsZeroSingle(s);
    EncodeOfDecodedQuantum(s, true);
  }

  /** The step of `EncodeDecode`: an inner quantum in front of a text that
      re-encodes to itself. */
  lemma EncodeDecodeStep(q: string, rest: string, head: seq<byte>, tail: seq<byte>)
    requires |q| == 4 && DecodeQuantum(q, false) == Some(head)
    requires |tail| > 0 && Encode(tail) == rest
    ensures Encode(head + tail) == q + rest
  {
    InnerQuantumUnpadded(q);
    EncodeOfDecodedQuantum(q, false);
    EncodePrefix(head, tail);
  }

  /** A text of at least one quantum is its first quantum and the rest. */
  lemma SplitQuantum(s: string)
    requires |s| >= 4
    ensures s == s[..4] + s[4..]
  {
  }

  /** Encoding undoes decoding on every text whose padding bits are zero:
      such a text is the one encoding of the octets it decodes to. */
  lemma {:induction false} EncodeDecode(s: string)
    requires Decode(s).Some? && PaddingBitsZero(s)
    ensures Encode(Decode(s).value) == s
    decreases |s|
  {
    if |s| == 4 {
      EncodeDecodeSingle(s);
    } else if |s| > 0 {
      assert |s| >= 8;
      var head, tail := DecodeQuantum(s[..4], false).value, Decode(s[4..]).value;
      assert Decode(s).value == head + tail;
      PaddingBitsZeroSuffix(s);
      EncodeDecode(s[4..]);
      EncodeDecodeStep(s[..4], s[4..], head, tail);
      SplitQuantum(s);
    }
  }
}
