/** `base64d`: decode standard, padded Base64 (section 4 of RFC 4648) as Go's
    `base64.StdEncoding.DecodeString` does, and fall back to the input string
    itself when decoding fails.

    Go's decoder, which this module models, skips carriage returns and line
    feeds wherever they occur, accepts only 4-character quanta, allows padding
    only in the final quantum (`xx==` or `xxx=`), and is not strict: the bits
    that padding leaves over need not be zero. */
module Base64 {
  import opened Bytes
  import opened Wrappers

  const Pad: byte := 61  // '='
  const CR: byte := 13   // '\r'
  const LF: byte := 10   // '\n'

  /** The RFC 4648 alphabet: A-Z, a-z, 0-9, '+', '/' for 0..63. */
  function EncodeSextet(v: int): (c: byte)
    requires 0 <= v < 64
  {
    if v < 26 then (65 + v) as byte
    else if v < 52 then (71 + v) as byte
    else if v < 62 then (v - 4) as byte
    else if v == 62 then 43
    else 47
  }

  /** The decoder's table: the value of an alphabet byte, `None` for every
      other byte (padding and line breaks included). */
  function DecodeSextet(c: byte): (r: Option<int>)
    ensures r.Some? ==> 0 <= r.value < 64 && EncodeSextet(r.value) == c
    ensures c == Pad || c == CR || c == LF ==> r.None?
  {
    if 65 <= c <= 90 then Some(c as int - 65)
    else if 97 <= c <= 122 then Some(c as int - 71)
    else if 48 <= c <= 57 then Some(c as int + 4)
    else if c == 43 then Some(62)
    else if c == 47 then Some(63)
    else None
  }

  lemma SextetRoundTrip(v: int)
    requires 0 <= v < 64
    ensures DecodeSextet(EncodeSextet(v)) == Some(v)
  {
  }

  predicate IsAlphabet(c: byte) {
    DecodeSextet(c).Some?
  }

  function Sextet(c: byte): (v: int)
    requires IsAlphabet(c)
    ensures 0 <= v < 64
  {
    DecodeSextet(c).value
  }

  // The three bytes of a quantum of sextets a, b, c, d (bits aaaaaabb bbbbcccc ccdddddd).
  function Byte0(a: int, b: int): byte requires 0 <= a < 64 && 0 <= b < 64 { (a * 4 + b / 16) as byte }
  function Byte1(b: int, c: int): byte requires 0 <= b < 64 && 0 <= c < 64 { ((b % 16) * 16 + c / 4) as byte }
  function Byte2(c: int, d: int): byte requires 0 <= c < 64 && 0 <= d < 64 { ((c % 4) * 64 + d) as byte }

  /** One 4-character quantum. Padding is accepted only in the final quantum,
      and only as `xx==` (one byte) or `xxx=` (two bytes). */
  function DecodeQuantum(q: seq<byte>, final: bool): (r: Option<seq<byte>>)
    requires |q| == 4
    ensures r.Some? ==> 1 <= |r.value| <= 3
    ensures r.Some? && |r.value| < 3 ==> final
    ensures r.Some? ==> IsAlphabet(q[0]) && IsAlphabet(q[1])
    ensures r.Some? ==> (IsAlphabet(q[2]) || q[2] == Pad) && (IsAlphabet(q[3]) || q[3] == Pad)
  {
    if IsAlphabet(q[0]) && IsAlphabet(q[1]) && IsAlphabet(q[2]) && IsAlphabet(q[3]) then
      var a, b, c, d := Sextet(q[0]), Sextet(q[1]), Sextet(q[2]), Sextet(q[3]);
      Some([Byte0(a, b), Byte1(b, c), Byte2(c, d)])
    else if final && IsAlphabet(q[0]) && IsAlphabet(q[1]) && q[2] == Pad && q[3] == Pad then
      Some([Byte0(Sextet(q[0]), Sextet(q[1]))])
    else if final && IsAlphabet(q[0]) && IsAlphabet(q[1]) && IsAlphabet(q[2]) && q[3] == Pad then
      var a, b, c := Sextet(q[0]), Sextet(q[1]), Sextet(q[2]);
      Some([Byte0(a, b), Byte1(b, c)])
    else
      None
  }

  /** Decoding of input without line breaks: whole quanta, the last one
      possibly padded. */
  function DecodeQuanta(t: seq<byte>): Option<seq<byte>>
    decreases |t|
  {
    if |t| == 0 then Some([])
    else if |t| < 4 then None
    else
      match DecodeQuantum(t[..4], |t| == 4)
      case None => None
      case Some(head) =>
        match DecodeQuanta(t[4..])
        case None => None
        case Some(tail) => Some(head + tail)
  }

  /** The input with every carriage return and line feed removed. */
  function StripLineBreaks(s: seq<byte>): (t: seq<byte>)
    ensures |t| <= |s|
    ensures forall i :: 0 <= i < |t| ==> t[i] != CR && t[i] != LF
    ensures forall c :: c in t <==> c in s && c != CR && c != LF
  {
    if s == [] then []
    else (if s[0] == CR || s[0] == LF then [] else [s[0]]) + StripLineBreaks(s[1..])
  }

  /** `base64.StdEncoding.DecodeString`: `None` stands for a non-nil error. */
  function Decode(s: seq<byte>): Option<seq<byte>> {
    DecodeQuanta(StripLineBreaks(s))
  }

  /** Standard padded Base64 as a shape, independent of the decoder: whole
      quanta of alphabet characters, except that the final quantum may end in
      `xx==` or `xxx=`. */
  predicate WellFormed(t: seq<byte>) {
    |t| % 4 == 0 &&
    (forall i :: 0 <= i < |t| - 2 ==> IsAlphabet(t[i])) &&
    (|t| >= 4 ==>
      (IsAlphabet(t[|t| - 2]) || (t[|t| - 2] == Pad && t[|t| - 1] == Pad)) &&
      (IsAlphabet(t[|t| - 1]) || t[|t| - 1] == Pad))
  }

  /** `base64d(varl)`: the decoded bytes, or the input unchanged when it does
      not decode. Input that is not standard Base64 once line breaks are set
      aside comes back as it is; input that is comes back decoded; in
      particular the encoding of any bytes comes back as those bytes. */
  function Base64d(varl: GoString): (r: GoString)
    ensures !WellFormed(StripLineBreaks(varl)) ==> r == varl
    ensures WellFormed(StripLineBreaks(varl)) ==> Decode(varl) == Some(r)
    ensures forall data :: StripLineBreaks(varl) == Encode(data) ==> r == data
  {
    DecodeQuantaIffWellFormed(StripLineBreaks(varl));
    assert forall data :: StripLineBreaks(varl) == Encode(data) ==> Decode(varl) == Some(data) by {
      forall data | StripLineBreaks(varl) == Encode(data)
        ensures Decode(varl) == Some(data)
      {
        DecodeQuantaEncode(data);
      }
    }
    match Decode(varl)
    case None => varl
    case Some(decodeBytes) => decodeBytes
  }

  /** One group of one to three bytes as a 4-character quantum, padded with
      `=` when the group is short. */
  function EncodeQuantum(group: seq<byte>): (q: seq<byte>)
    requires 1 <= |group| <= 3
    ensures |q| == 4
  {
    var x := group[0] as int;
    var y := if |group| > 1 then group[1] as int else 0;
    var z := if |group| > 2 then group[2] as int else 0;
    [EncodeSextet(x / 4),
     EncodeSextet((x % 4) * 16 + y / 16),
     if |group| > 1 then EncodeSextet((y % 16) * 4 + z / 64) else Pad,
     if |group| > 2 then EncodeSextet(z % 64) else Pad]
  }

  /** The RFC 4648 section 4 encoder with padding, the inverse the decoder is
      measured against. */
  function Encode(data: seq<byte>): seq<byte>
    decreases |data|
  {
    if |data| == 0 then []
    else if |data| <= 3 then EncodeQuantum(data)
    else EncodeQuantum(data[..3]) + Encode(data[3..])
  }

  /** The encoding is made of alphabet characters and padding only, so it
      holds no line break. */
  lemma {:induction false} EncodeAlphabet(data: seq<byte>)
    ensures forall i :: 0 <= i < |Encode(data)| ==> IsAlphabet(Encode(data)[i]) || Encode(data)[i] == Pad
    decreases |data|
  {
    if |data| > 3 {
      EncodeAlphabet(data[3..]);
    }
  }

  /** Four characters for every started group of three bytes. */
  lemma {:induction false} EncodeLength(data: seq<byte>)
    ensures |Encode(data)| == 4 * ((|data| + 2) / 3)
    decreases |data|
  {
    if |data| > 3 {
      EncodeLength(data[3..]);
    }
  }

  // How the decoder's bytes reassemble the encoder's sextets.
  lemma JoinByte0(x: int, y: int)
    requires 0 <= x < 256 && 0 <= y < 256
    ensures Byte0(x / 4, (x % 4) * 16 + y / 16) as int == x
  {
  }

  lemma JoinByte1(x: int, y: int, z: int)
    requires 0 <= x < 256 && 0 <= y < 256 && 0 <= z < 256
    ensures Byte1((x % 4) * 16 + y / 16, (y % 16) * 4 + z / 64) as int == y
  {
    var b, c := (x % 4) * 16 + y / 16, (y % 16) * 4 + z / 64;
    assert 0 <= y / 16 < 16 && 0 <= z / 64 < 4;
    assert b % 16 == y / 16;
    assert c / 4 == y % 16;
    assert (y / 16) * 16 + y % 16 == y;
  }

  lemma JoinByte2(y: int, z: int)
    requires 0 <= y < 256 && 0 <= z < 256
    ensures Byte2((y % 16) * 4 + z / 64, z % 64) as int == z
  {
  }

  lemma FullQuantumRoundTrip(x: byte, y: byte, z: byte, final: bool)
    ensures DecodeQuantum(EncodeQuantum([x, y, z]), final) == Some([x, y, z])
  {
    var x', y', z' := x as int, y as int, z as int;
    var a, b, c, d := x' / 4, (x' % 4) * 16 + y' / 16, (y' % 16) * 4 + z' / 64, z' % 64;
    var q := EncodeQuantum([x, y, z]);
    assert q == [EncodeSextet(a), EncodeSextet(b), EncodeSextet(c), EncodeSextet(d)];
    SextetRoundTrip(a);
    SextetRoundTrip(b);
    SextetRoundTrip(c);
    SextetRoundTrip(d);
    assert DecodeQuantum(q, final) == Some([Byte0(a, b), Byte1(b, c), Byte2(c, d)]);
    JoinByte0(x', y');
    JoinByte1(x', y', z');
    JoinByte2(y', z');
  }

  lemma TwoByteQuantumRoundTrip(x: byte, y: byte)
    ensures DecodeQuantum(EncodeQuantum([x, y]), true) == Some([x, y])
  {
    var x', y' := x as int, y as int;
    var a, b, c := x' / 4, (x' % 4) * 16 + y' / 16, (y' % 16) * 4 + 0 / 64;
    var q := EncodeQuantum([x, y]);
    assert q == [EncodeSextet(a), EncodeSextet(b), EncodeSextet(c), Pad];
    SextetRoundTrip(a);
    SextetRoundTrip(b);
    SextetRoundTrip(c);
    assert !IsAlphabet(q[3]);
    assert DecodeQuantum(q, true) == Some([Byte0(a, b), Byte1(b, c)]);
    JoinByte0(x', y');
    JoinByte1(x', y', 0);
  }

  lemma OneByteQuantumRoundTrip(x: byte)
    ensures DecodeQuantum(EncodeQuantum([x]), true) == Some([x])
  {
    var x' := x as int;
    var a, b := x' / 4, (x' % 4) * 16 + 0 / 16;
    var q := EncodeQuantum([x]);
    assert q == [EncodeSextet(a), EncodeSextet(b), Pad, Pad];
    SextetRoundTrip(a);
    SextetRoundTrip(b);
    assert !IsAlphabet(q[3]);
    assert DecodeQuantum(q, true) == Some([Byte0(a, b)]);
    JoinByte0(x', 0);
  }

  /** A quantum decodes back to its group; a short group only as the final
      quantum. */
  lemma QuantumRoundTrip(group: seq<byte>, final: bool)
    requires 1 <= |group| <= 3
    requires |group| < 3 ==> final
    ensures DecodeQuantum(EncodeQuantum(group), final) == Some(group)
  {
    if |group| == 3 {
      assert group == [group[0], group[1], group[2]];
      FullQuantumRoundTrip(group[0], group[1], group[2], final);
    } else if |group| == 2 {
      assert group == [group[0], group[1]];
      TwoByteQuantumRoundTrip(group[0], group[1]);
    } else {
      assert group == [group[0]];
      OneByteQuantumRoundTrip(group[0]);
    }
  }

  /** Decoding undoes encoding for every byte string. */
  lemma {:induction false} DecodeQuantaEncode(data: seq<byte>)
    ensures DecodeQuanta(Encode(data)) == Some(data)
    decreases |data|
  {
    var e := Encode(data);
    if |data| == 0 {
    } else if |data| <= 3 {
      QuantumRoundTrip(data, true);
      assert e[..4] == e && e[4..] == [];
      assert DecodeQuanta(e[4..]) == Some([]);
      assert data + [] == data;
    } else {
      QuantumRoundTrip(data[..3], false);
      EncodeLength(data[3..]);
      assert e[..4] == EncodeQuantum(data[..3]) && e[4..] == Encode(data[3..]);
      DecodeQuantaEncode(data[3..]);
      assert data == data[..3] + data[3..];
    }
  }

  lemma {:induction false} StripWithoutBreaks(s: seq<byte>)
    requires forall i :: 0 <= i < |s| ==> s[i] != CR && s[i] != LF
    ensures StripLineBreaks(s) == s
    decreases |s|
  {
    if s != [] {
      StripWithoutBreaks(s[1..]);
    }
  }

  /** `base64d` returns the original bytes of every standard encoding. */
  lemma Base64dOfEncoding(data: seq<byte>)
    ensures Base64d(Encode(data)) == data
  {
    var e := Encode(data);
    EncodeAlphabet(data);
    assert forall i :: 0 <= i < |e| ==> e[i] != CR && e[i] != LF;
    StripWithoutBreaks(e);
    DecodeQuantaEncode(data);
  }

  lemma FinalQuantumIffWellFormed(q: seq<byte>)
    requires |q| == 4
    ensures DecodeQuantum(q, true).Some? <==> WellFormed(q)
  {
  }

  lemma InnerQuantumIffAlphabet(q: seq<byte>)
    requires |q| == 4
    ensures DecodeQuantum(q, false).Some? <==> forall i :: 0 <= i < 4 ==> IsAlphabet(q[i])
  {
  }

  lemma WellFormedSplit(t: seq<byte>)
    requires |t| > 4
    ensures WellFormed(t) <==> (forall i :: 0 <= i < 4 ==> IsAlphabet(t[i])) && WellFormed(t[4..])
  {
    var rest := t[4..];
    assert |rest| == |t| - 4;
    assert forall i :: 0 <= i < |rest| ==> rest[i] == t[i + 4];
    if (forall i :: 0 <= i < 4 ==> IsAlphabet(t[i])) && WellFormed(rest) {
      forall i | 0 <= i < |t| - 2 ensures IsAlphabet(t[i]) {
        if i >= 4 {
          assert t[i] == rest[i - 4];
        }
      }
    }
  }

  /** The decoder accepts exactly the well-formed inputs. */
  lemma {:induction false} DecodeQuantaIffWellFormed(t: seq<byte>)
    ensures DecodeQuanta(t).Some? <==> WellFormed(t)
    decreases |t|
  {
    if |t| == 0 {
    } else if |t| < 4 {
      assert !WellFormed(t);
    } else if |t| == 4 {
      assert t[..4] == t;
      FinalQuantumIffWellFormed(t);
      assert DecodeQuanta(t[4..]) == Some([]);
    } else {
      InnerQuantumIffAlphabet(t[..4]);
      DecodeQuantaIffWellFormed(t[4..]);
      WellFormedSplit(t);
      assert forall i :: 0 <= i < 4 ==> t[..4][i] == t[i];
    }
  }

  /** A non-empty decodable input starts with a whole quantum and the rest
      decodes too. */
  lemma DecodeQuantaStep(t: seq<byte>)
    requires DecodeQuanta(t).Some? && t != []
    ensures |t| >= 4 && DecodeQuanta(t[4..]).Some?
  {
  }

  lemma ModFourStep(n: int)
    requires n >= 4 && (n - 4) % 4 == 0
    ensures n % 4 == 0
  {
  }

  lemma {:induction false} DecodeQuantaLength(t: seq<byte>)
    requires DecodeQuanta(t).Some?
    ensures |t| % 4 == 0
    decreases |t|
  {
    if |t| > 0 {
      DecodeQuantaStep(t);
      DecodeQuantaLength(t[4..]);
      ModFourStep(|t|);
    }
  }

  /** Input whose characters, line breaks aside, do not fill whole quanta is
      returned unchanged. */
  lemma BrokenQuantumKept(s: GoString)
    requires |StripLineBreaks(s)| % 4 != 0
    ensures Base64d(s) == s
  {
    if Decode(s).Some? {
      DecodeQuantaLength(StripLineBreaks(s));
    }
  }

  lemma {:induction false} DecodeQuantaRejectsForeign(t: seq<byte>, c: byte)
    requires c in t && !IsAlphabet(c) && c != Pad
    ensures DecodeQuanta(t).None?
    decreases |t|
  {
    if |t| >= 4 {
      assert t == t[..4] + t[4..];
      if c !in t[..4] {
        DecodeQuantaRejectsForeign(t[4..], c);
      }
    }
  }

  /** Input holding a byte that is neither in the alphabet, nor padding, nor a
      line break is returned unchanged. */
  lemma ForeignByteKept(s: GoString, i: int)
    requires 0 <= i < |s|
    requires !IsAlphabet(s[i]) && s[i] != Pad && s[i] != CR && s[i] != LF
    ensures Base64d(s) == s
  {
    assert s[i] in StripLineBreaks(s);
    DecodeQuantaRejectsForeign(StripLineBreaks(s), s[i]);
  }

  lemma {:induction false} DecodeQuantaRejectsEarlyPad(t: seq<byte>, i: int)
    requires 0 <= i < |t| - 2 && t[i] == Pad
    ensures DecodeQuanta(t).None?
    decreases |t|
  {
    if |t| >= 4 && i >= 4 {
      assert t[4..][i - 4] == t[i];
      DecodeQuantaRejectsEarlyPad(t[4..], i - 4);
    } else if |t| >= 4 {
      assert t[..4][i] == Pad;
    }
  }

  /** Padding anywhere but in the last two places (line breaks aside) makes
      the input come back unchanged. */
  lemma EarlyPaddingKept(s: GoString, i: int)
    requires 0 <= i < |StripLineBreaks(s)| - 2 && StripLineBreaks(s)[i] == Pad
    ensures Base64d(s) == s
  {
    DecodeQuantaRejectsEarlyPad(StripLineBreaks(s), i);
  }

  lemma {:induction false} StripAppend(a: seq<byte>, b: seq<byte>)
    ensures StripLineBreaks(a + b) == StripLineBreaks(a) + StripLineBreaks(b)
    decreases |a|
  {
    if a == [] {
      assert a + b == b;
    } else {
      assert (a + b)[0] == a[0] && (a + b)[1..] == a[1..] + b;
      StripAppend(a[1..], b);
    }
  }

  /** A carriage return or line feed inserted anywhere leaves the decoding,
      and so what `base64d` yields for decodable input, unchanged. */
  lemma LineBreakIgnored(s: GoString, i: int, c: byte)
    requires 0 <= i <= |s| && (c == CR || c == LF)
    ensures Decode(s[..i] + [c] + s[i..]) == Decode(s)
  {
    assert [c][1..] == [];
    assert StripLineBreaks([c]) == [];
    StripAppend(s[..i] + [c], s[i..]);
    StripAppend(s[..i], [c]);
    assert StripLineBreaks(s[..i] + [c]) == StripLineBreaks(s[..i]);
    StripAppend(s[..i], s[i..]);
    assert s[..i] + s[i..] == s;
  }
}
