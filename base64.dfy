/**
 * Base64 with the standard alphabet of RFC 4648, section 4, as Python's
 * `base64.b64decode(s)` decodes it without `validate=True`: the text must be
 * ASCII, characters outside the alphabet are skipped, a completed padding
 * group ends the input, and leftover data characters are an error. The
 * decoder follows CPython's `binascii.a2b_base64` in its non-strict mode; an
 * encoder (`b64encode`) is given as its partner.
 */
module Base64 {
  import opened Optional

  newtype byte = x: int | 0 <= x < 256

  /** The value of one alphabet character, or None for anything else ('=' included). */
  function SextetOf(c: char): (r: Option<nat>)
    ensures r.Some? ==> r.value < 64
    ensures c == '=' ==> r.None?
  {
    if 'A' <= c <= 'Z' then Some(c as int - 'A' as int)
    else if 'a' <= c <= 'z' then Some(c as int - 'a' as int + 26)
    else if '0' <= c <= '9' then Some(c as int - '0' as int + 52)
    else if c == '+' then Some(62)
    else if c == '/' then Some(63)
    else None
  }

  /** The alphabet character for a 6-bit value; `SextetOf` reads it back. */
  function SextetChar(v: nat): (c: char)
    requires v < 64
    ensures SextetOf(c) == Some(v)
    ensures c != '=' && (c as int) < 128
  {
    if v < 26 then ('A' as int + v) as char
    else if v < 52 then ('a' as int + v - 26) as char
    else if v < 62 then ('0' as int + v - 52) as char
    else if v == 62 then '+'
    else '/'
  }

  /**
   * The decoder's registers: how many characters of the current group of four
   * have been read, the bits carried to the next byte, and the run of '='
   * seen since the last data character.
   */
  datatype Quad = Quad(pos: nat, left: nat, pads: nat)

  predicate QuadOk(q: Quad) {
    && q.pos < 4
    && (q.pos == 0 ==> q.left == 0)
    && (q.pos == 1 ==> q.left < 64)
    && (q.pos == 2 ==> q.left < 16)
    && (q.pos == 3 ==> q.left < 4)
  }

  /** Feeding one 6-bit value: the next registers and the byte completed, if any. */
  function Feed(q: Quad, v: nat): (r: (Quad, seq<byte>))
    requires QuadOk(q) && v < 64
    ensures QuadOk(r.0) && r.0.pos == (q.pos + 1) % 4 && r.0.pads == 0
    ensures |r.1| == if q.pos == 0 then 0 else 1
  {
    if q.pos == 0 then (Quad(1, v, 0), [])
    else if q.pos == 1 then (Quad(2, v % 16, 0), [(q.left * 4 + v / 16) as byte])
    else if q.pos == 2 then (Quad(3, v % 4, 0), [(q.left * 16 + v / 4) as byte])
    else (Quad(0, 0, 0), [(q.left * 64 + v) as byte])
  }

  const Start := Quad(0, 0, 0)

  /** The decoding loop over the remaining characters `s`, with `out` decoded so far. */
  function A2b(s: string, q: Quad, out: seq<byte>): Option<seq<byte>>
    requires QuadOk(q)
    decreases |s|
  {
    if s == [] then
      (if q.pos == 0 then Some(out) else None)
    else if s[0] == '=' then
      if q.pos >= 2 && q.pos + q.pads + 1 >= 4 then Some(out)
      else if q.pos >= 2 then A2b(s[1..], q.(pads := q.pads + 1), out)
      else A2b(s[1..], q, out)
    else
      match SextetOf(s[0])
      case None => A2b(s[1..], q, out)
      case Some(v) =>
        var (q', b) := Feed(q, v);
        A2b(s[1..], q', out + b)
  }

  predicate IsAscii(s: string) {
    forall i | 0 <= i < |s| :: (s[i] as int) < 128
  }

  /** `base64.b64decode(s)`: None where Python raises (non-ASCII text, bad length or padding). */
  function Decode(s: string): (r: Option<seq<byte>>)
    ensures !IsAscii(s) ==> r.None?
  {
    if IsAscii(s) then A2b(s, Start, []) else None
  }

  /** `base64.b64encode(b)`: groups of three bytes become four characters, '='-padded. */
  function Encode(b: seq<byte>): string
    decreases |b|
  {
    if |b| == 0 then []
    else if |b| == 1 then
      [SextetChar(b[0] as nat / 4), SextetChar(b[0] as nat % 4 * 16), '=', '=']
    else if |b| == 2 then
      [SextetChar(b[0] as nat / 4), SextetChar(b[0] as nat % 4 * 16 + b[1] as nat / 16),
       SextetChar(b[1] as nat % 16 * 4), '=']
    else Quartet(b[0], b[1], b[2]) + Encode(b[3..])
  }

  /** `b64encode` writes only ASCII characters. */
  lemma {:induction false} EncodeAscii(b: seq<byte>)
    ensures IsAscii(Encode(b))
    decreases |b|
  {
    if |b| >= 3 {
      EncodeAscii(b[3..]);
      var q, e := Quartet(b[0], b[1], b[2]), Encode(b[3..]);
      assert Encode(b) == q + e;
      assert forall i | 0 <= i < |q| :: (q[i] as int) < 128;
    }
  }

  /** The four characters for a full group of three bytes. */
  function Quartet(x: byte, y: byte, z: byte): (s: string)
    ensures |s| == 4
  {
    [SextetChar(x as nat / 4), SextetChar(x as nat % 4 * 16 + y as nat / 16),
     SextetChar(y as nat % 16 * 4 + z as nat / 64), SextetChar(z as nat % 64)]
  }

  /** One data character: the loop feeds its value and moves on. */
  lemma DataStep(c: char, s: string, q: Quad, out: seq<byte>)
    requires QuadOk(q) && SextetOf(c).Some?
    ensures var (q', b) := Feed(q, SextetOf(c).value);
      A2b([c] + s, q, out) == A2b(s, q', out + b)
  {
    assert ([c] + s)[1..] == s;
  }

  /** The 6-bit values of a full group carry exactly the bits of its three bytes. */
  lemma GroupBits(x: nat, y: nat, z: nat)
    requires x < 256 && y < 256 && z < 256
    ensures var v0, v1, v2, v3 := x / 4, x % 4 * 16 + y / 16, y % 16 * 4 + z / 64, z % 64;
      && v0 < 64 && v1 < 64 && v2 < 64 && v3 < 64
      && v0 * 4 + v1 / 16 == x && v1 % 16 * 16 + v2 / 4 == y && v2 % 4 * 64 + v3 == z
  {
  }

  /** Decoding the four characters of a full group yields its three bytes. */
  lemma DecodeQuartet(x: byte, y: byte, z: byte, rest: string, out: seq<byte>)
    ensures A2b(Quartet(x, y, z) + rest, Start, out) == A2b(rest, Start, out + [x, y, z])
  {
    var v0, v1, v2, v3 := x as nat / 4, x as nat % 4 * 16 + y as nat / 16, y as nat % 16 * 4 + z as nat / 64, z as nat % 64;
    GroupBits(x as nat, y as nat, z as nat);
    var c0, c1, c2, c3 := SextetChar(v0), SextetChar(v1), SextetChar(v2), SextetChar(v3);
    var s3 := [c3] + rest;
    var s2 := [c2] + s3;
    var s1 := [c1] + s2;
    assert Quartet(x, y, z) + rest == [c0] + s1;
    var q1, q2, q3 := Quad(1, v0, 0), Quad(2, v1 % 16, 0), Quad(3, v2 % 4, 0);
    assert Feed(Start, v0) == (q1, []);
    assert Feed(q1, v1) == (q2, [x]);
    assert Feed(q2, v2) == (q3, [y]);
    assert Feed(q3, v3) == (Start, [z]);
    DataStep(c0, s1, Start, out);
    assert out + [] == out;
    DataStep(c1, s2, q1, out);
    DataStep(c2, s3, q2, out + [x]);
    DataStep(c3, rest, q3, out + [x] + [y]);
    assert out + [x] + [y] + [z] == out + [x, y, z];
  }

  /** The final group of `Encode` for one byte: two characters and "==". */
  lemma DecodeTailOne(b: seq<byte>, out: seq<byte>)
    requires |b| == 1
    ensures A2b(Encode(b), Start, out) == Some(out + b)
  {
    var b0 := b[0] as nat;
    var c0, c1 := SextetChar(b0 / 4), SextetChar(b0 % 4 * 16);
    assert Encode(b) == [c0] + ([c1] + "==");
    assert b0 / 4 * 4 + b0 % 4 * 16 / 16 == b0;
    calc {
      A2b([c0] + ([c1] + "=="), Start, out);
      { DataStep(c0, [c1] + "==", Start, out); assert Feed(Start, b0 / 4) == (Quad(1, b0 / 4, 0), []); assert out + [] == out; }
      A2b([c1] + "==", Quad(1, b0 / 4, 0), out);
      { DataStep(c1, "==", Quad(1, b0 / 4, 0), out); }
      A2b("==", Quad(2, 0, 0), out + [b[0]]);
      { assert "=="[1..] == "="; }
      A2b("=", Quad(2, 0, 1), out + [b[0]]);
      Some(out + [b[0]]);
    }
    assert [b[0]] == b;
  }

  /** The final group of `Encode` for two bytes: three characters and "=". */
  lemma DecodeTailTwo(b: seq<byte>, out: seq<byte>)
    requires |b| == 2
    ensures A2b(Encode(b), Start, out) == Some(out + b)
  {
    var b0, b1 := b[0] as nat, b[1] as nat;
    var v0, v1, v2 := b0 / 4, b0 % 4 * 16 + b1 / 16, b1 % 16 * 4;
    var c0, c1, c2 := SextetChar(v0), SextetChar(v1), SextetChar(v2);
    assert Encode(b) == [c0] + ([c1] + ([c2] + "="));
    assert v0 * 4 + v1 / 16 == b0;
    assert v1 % 16 * 16 + v2 / 4 == b1;
    calc {
      A2b([c0] + ([c1] + ([c2] + "=")), Start, out);
      { DataStep(c0, [c1] + ([c2] + "="), Start, out); assert Feed(Start, v0) == (Quad(1, v0, 0), []); assert out + [] == out; }
      A2b([c1] + ([c2] + "="), Quad(1, v0, 0), out);
      { DataStep(c1, [c2] + "=", Quad(1, v0, 0), out); assert Feed(Quad(1, v0, 0), v1) == (Quad(2, v1 % 16, 0), [b[0]]); }
      A2b([c2] + "=", Quad(2, v1 % 16, 0), out + [b[0]]);
      { DataStep(c2, "=", Quad(2, v1 % 16, 0), out + [b[0]]); assert Feed(Quad(2, v1 % 16, 0), v2) == (Quad(3, v2 % 4, 0), [b[1]]); }
      A2b("=", Quad(3, v2 % 4, 0), out + [b[0]] + [b[1]]);
      Some(out + [b[0]] + [b[1]]);
    }
    assert out + [b[0]] + [b[1]] == out + b;
  }

  /** The last, partial group of `Encode`, if there is one. */
  lemma DecodeTail(b: seq<byte>, out: seq<byte>)
    requires |b| < 3
    ensures A2b(Encode(b), Start, out) == Some(out + b)
  {
    if |b| == 0 {
      assert out + b == out;
    } else if |b| == 1 {
      DecodeTailOne(b, out);
    } else {
      DecodeTailTwo(b, out);
    }
  }

  /** The first full group of `Encode(b)` decodes to the first three bytes. */
  lemma DecodeFirstGroup(b: seq<byte>, out: seq<byte>)
    requires |b| >= 3
    ensures A2b(Encode(b), Start, out) == A2b(Encode(b[3..]), Start, out + [b[0], b[1], b[2]])
  {
    DecodeQuartet(b[0], b[1], b[2], Encode(b[3..]), out);
  }

  lemma {:induction false} DecodeEncodeFrom(b: seq<byte>, out: seq<byte>)
    ensures A2b(Encode(b), Start, out) == Some(out + b)
    decreases |b|, 1
  {
    if |b| < 3 {
      DecodeTail(b, out);
    } else {
      DecodeGroups(b, out);
    }
  }

  lemma {:induction false} DecodeGroups(b: seq<byte>, out: seq<byte>)
    requires |b| >= 3
    ensures A2b(Encode(b), Start, out) == Some(out + b)
    decreases |b|, 0
  {
    var mid := out + [b[0], b[1], b[2]];
    DecodeFirstGroup(b, out);
    DecodeEncodeFrom(b[3..], mid);
    AppendGroup(out, b);
  }

  lemma AppendGroup(out: seq<byte>, b: seq<byte>)
    requires |b| >= 3
    ensures out + [b[0], b[1], b[2]] + b[3..] == out + b
  {
    assert b == [b[0], b[1], b[2]] + b[3..];
  }

  /** Round trip: whatever `b64encode` produces, `b64decode` turns back into the same bytes. */
  lemma DecodeEncode(b: seq<byte>)
    ensures Decode(Encode(b)) == Some(b)
  {
    EncodeAscii(b);
    DecodeEncodeFrom(b, []);
    assert [] + b == b;
  }

  /**
   * How the decoder treats '=': text short of its padding fails, a completed
   * padding group ends the input so that extra '=' are ignored, and '=' where
   * a group of four starts is skipped.
   */
  lemma PaddingCases()
    ensures Decode("QQ").None? && Decode("QQ=").None?
    ensures Decode("QQ==") == Some([65]) && Decode("QQ===") == Some([65])
    ensures Decode("QUJD=") == Some([65, 66, 67])
  {
    PaddingMissing();
    PaddingComplete();
    PaddingAtBoundary();
  }

  /** One '=' read while `q.pos >= 2`: either the group's padding is complete, or one more pad is counted. */
  lemma PadStep(s: string, q: Quad, out: seq<byte>)
    requires QuadOk(q) && q.pos >= 2
    ensures A2b("=" + s, q, out) ==
      if q.pos + q.pads + 1 >= 4 then Some(out) else A2b(s, q.(pads := q.pads + 1), out)
  {
    assert ("=" + s)[1..] == s;
  }

  /** One data character read, with the registers and output it leaves named. */
  lemma DataStepTo(c: char, s: string, q: Quad, out: seq<byte>, q': Quad, out': seq<byte>)
    requires QuadOk(q) && SextetOf(c).Some?
    requires Feed(q, SextetOf(c).value).0 == q' && out + Feed(q, SextetOf(c).value).1 == out'
    ensures A2b([c] + s, q, out) == A2b(s, q', out')
  {
    DataStep(c, s, q, out);
  }

  /** "QQ" and "QQ=": one byte's data with no or half its padding. */
  lemma PaddingMissing()
    ensures Decode("QQ").None? && Decode("QQ=").None?
  {
    var one := Quad(2, 0, 0);
    DataStepTo('Q', "Q", Start, [], Quad(1, 16, 0), []);
    DataStepTo('Q', "", Quad(1, 16, 0), [], one, [65]);
    assert "QQ" == ['Q'] + "Q" && "Q" == ['Q'] + "";
    DataStepTo('Q', "Q=", Start, [], Quad(1, 16, 0), []);
    DataStepTo('Q', "=", Quad(1, 16, 0), [], one, [65]);
    PadStep("", one, [65]);
    assert "QQ=" == ['Q'] + "Q=" && "Q=" == ['Q'] + "=" && "=" == "=" + "";
  }

  /** "QQ==" and "QQ===": a completed padding group ends the input. */
  lemma PaddingComplete()
    ensures Decode("QQ==") == Some([65]) && Decode("QQ===") == Some([65])
  {
    var one := Quad(2, 0, 0);
    DataStepTo('Q', "Q==", Start, [], Quad(1, 16, 0), []);
    DataStepTo('Q', "==", Quad(1, 16, 0), [], one, [65]);
    PadStep("=", one, [65]);
    PadStep("", one.(pads := 1), [65]);
    assert "QQ==" == ['Q'] + "Q==" && "Q==" == ['Q'] + "==" && "==" == "=" + "=" && "=" == "=" + "";
    DataStepTo('Q', "Q===", Start, [], Quad(1, 16, 0), []);
    DataStepTo('Q', "===", Quad(1, 16, 0), [], one, [65]);
    PadStep("==", one, [65]);
    PadStep("=", one.(pads := 1), [65]);
    assert "QQ===" == ['Q'] + "Q===" && "Q===" == ['Q'] + "===" && "===" == "=" + "==" && "==" == "=" + "=";
  }

  /** "QUJD=": a '=' where a new group would start is skipped. */
  lemma PaddingAtBoundary()
    ensures Decode("QUJD=") == Some([65, 66, 67])
  {
    BoundaryFirstHalf();
    BoundarySecondHalf();
  }

  lemma BoundaryFirstHalf()
    ensures A2b("QUJD=", Start, []) == A2b("JD=", Quad(2, 4, 0), [65])
  {
    DataStepTo('Q', "UJD=", Start, [], Quad(1, 16, 0), []);
    DataStepTo('U', "JD=", Quad(1, 16, 0), [], Quad(2, 4, 0), [65]);
    assert "QUJD=" == ['Q'] + "UJD=" && "UJD=" == ['U'] + "JD=";
  }

  lemma BoundarySecondHalf()
    ensures A2b("JD=", Quad(2, 4, 0), [65]) == Some([65, 66, 67])
  {
    DataStepTo('J', "D=", Quad(2, 4, 0), [65], Quad(3, 1, 0), [65, 66]);
    DataStepTo('D', "=", Quad(3, 1, 0), [65, 66], Start, [65, 66, 67]);
    assert "JD=" == ['J'] + "D=" && "D=" == ['D'] + "=";
    assert "="[1..] == [];
  }

  /** The text with every character outside the alphabet and '=' removed. */
  function AlphabetOnly(s: string): (r: string)
    ensures |r| <= |s|
    ensures forall i | 0 <= i < |r| :: r[i] == '=' || SextetOf(r[i]).Some?
    decreases |s|
  {
    if s == [] then []
    else if s[0] == '=' || SextetOf(s[0]).Some? then [s[0]] + AlphabetOnly(s[1..])
    else AlphabetOnly(s[1..])
  }

  lemma {:induction false} A2bSkipsNoise(s: string, q: Quad, out: seq<byte>)
    requires QuadOk(q)
    ensures A2b(s, q, out) == A2b(AlphabetOnly(s), q, out)
    decreases |s|
  {
    if s != [] {
      var t := AlphabetOnly(s[1..]);
      if s[0] == '=' || SextetOf(s[0]).Some? {
        assert AlphabetOnly(s) == [s[0]] + t;
        assert ([s[0]] + t)[1..] == t;
        if s[0] == '=' {
          if q.pos >= 2 && q.pos + q.pads + 1 < 4 {
            A2bSkipsNoise(s[1..], q.(pads := q.pads + 1), out);
          } else if q.pos < 2 {
            A2bSkipsNoise(s[1..], q, out);
          }
        } else {
          var (q', b) := Feed(q, SextetOf(s[0]).value);
          A2bSkipsNoise(s[1..], q', out + b);
        }
      } else {
        A2bSkipsNoise(s[1..], q, out);
      }
    }
  }

  /** Non-validating decoding: for ASCII text, characters outside the alphabet are ignored. */
  lemma DecodeIgnoresNoise(s: string)
    requires IsAscii(s)
    ensures Decode(s) == Decode(AlphabetOnly(s))
  {
    A2bSkipsNoise(s, Start, []);
    assert IsAscii(AlphabetOnly(s)) by {
      forall i | 0 <= i < |AlphabetOnly(s)|
        ensures (AlphabetOnly(s)[i] as int) < 128
      {
        var c := AlphabetOnly(s)[i];
        assert c == '=' || SextetOf(c).Some?;
      }
    }
  }

  lemma {:induction false} A2bDataOnly(s: string, q: Quad, out: seq<byte>)
    requires QuadOk(q)
    requires forall i | 0 <= i < |s| :: s[i] != '='
    ensures A2b(s, q, out).Some? <==> (q.pos + |AlphabetOnly(s)|) % 4 == 0
    decreases |s|
  {
    if s != [] {
      match SextetOf(s[0])
      case None =>
        A2bDataOnly(s[1..], q, out);
      case Some(v) =>
        var (q', b) := Feed(q, v);
        A2bDataOnly(s[1..], q', out + b);
    }
  }

  /**
   * Without '=' in the text, decoding succeeds exactly when the number of
   * alphabet characters is a multiple of four; otherwise Python raises.
   */
  lemma DecodeUnpadded(s: string)
    requires IsAscii(s) && '=' !in s
    ensures Decode(s).Some? <==> |AlphabetOnly(s)| % 4 == 0
  {
    A2bDataOnly(s, Start, []);
  }
}
