/** The strict UTF-8 codec behind `bytes(s, 'utf8')` and `b.decode('utf8')`. */
module Utf8 {
  import opened Wrappers
  import opened Words
  import opened Sequences

  function EncodeChar(c: char): (b: seq<byte>)
    ensures 1 <= |b| <= 4
  {
    var u := c as int;
    if u < 0x80 then [u]
    else if u < 0x800 then [0xC0 + u / 64, 0x80 + u % 64]
    else if u < 0x10000 then [0xE0 + u / 4096, 0x80 + u / 64 % 64, 0x80 + u % 64]
    else [0xF0 + u / 262144, 0x80 + u / 4096 % 64, 0x80 + u / 64 % 64, 0x80 + u % 64]
  }

  function Encode(s: string): seq<byte> {
    if s == "" then [] else EncodeChar(s[0]) + Encode(s[1..])
  }

  predicate IsTail(x: byte) { 0x80 <= x < 0xC0 }

  /** Six more payload bits. */
  function Join(u: nat, bits: nat): nat { u * 64 + bits }

  /** The first character of b and the number of bytes it takes. */
  function DecodeChar(b: seq<byte>): (r: Option<(char, nat)>)
    requires b != []
    ensures r.Some? ==> 1 <= r.value.1 <= |b|
  {
    if b[0] < 0x80 then Some((b[0] as char, 1))
    else if 0xC0 <= b[0] < 0xE0 && |b| >= 2 && IsTail(b[1]) then
      var u := Join(Join(0, b[0] - 0xC0), b[1] - 0x80);
      if u >= 0x80 then Some((u as char, 2)) else None
    else if 0xE0 <= b[0] < 0xF0 && |b| >= 3 && IsTail(b[1]) && IsTail(b[2]) then
      var u := Join(Join(Join(0, b[0] - 0xE0), b[1] - 0x80), b[2] - 0x80);
      if u >= 0x800 && !(0xD800 <= u < 0xE000) then Some((u as char, 3)) else None
    else if 0xF0 <= b[0] < 0xF8 && |b| >= 4 && IsTail(b[1]) && IsTail(b[2]) && IsTail(b[3]) then
      var u := Join(Join(Join(Join(0, b[0] - 0xF0), b[1] - 0x80), b[2] - 0x80), b[3] - 0x80);
      if 0x10000 <= u < 0x110000 then Some((u as char, 4)) else None
    else None
  }

  function Decode(b: seq<byte>): (r: Result<string>)
    ensures r.Ok? ==> |r.value| <= |b|
  {
    if b == [] then Ok("")
    else match DecodeChar(b)
      case None => Err(UnicodeError)
      case Some((c, n)) =>
        var s :- Decode(b[n..]);
        Ok([c] + s)
  }

  lemma DecodeCharEncode(c: char, b: seq<byte>)
    ensures DecodeChar(EncodeChar(c) + b) == Some((c, |EncodeChar(c)|))
  {
    var u := c as int;
    assert u / 64 / 64 == u / 4096 && u / 4096 / 64 == u / 262144;
    assert u == Join(u / 64, u % 64) && u / 64 == Join(u / 4096, u / 64 % 64);
    assert u / 4096 == Join(u / 262144, u / 4096 % 64);
  }

  lemma DecodeStep(c: char, b: seq<byte>)
    ensures Decode(b).Ok? ==> Decode(EncodeChar(c) + b) == Ok([c] + Decode(b).value)
  {
    hide DecodeChar, EncodeChar;
    DecodeCharEncode(c, b);
    assert (EncodeChar(c) + b)[|EncodeChar(c)|..] == b;
  }

  /** Decoding undoes encoding, whatever follows. */
  lemma {:induction false} DecodeEncode(s: string, b: seq<byte>)
    requires Decode(b).Ok?
    ensures Decode(Encode(s) + b) == Ok(s + Decode(b).value)
  {
    hide DecodeChar, EncodeChar, Decode;
    if s == "" {
      assert Encode(s) + b == b && s + Decode(b).value == Decode(b).value;
    } else {
      assert Encode(s) + b == EncodeChar(s[0]) + (Encode(s[1..]) + b);
      DecodeEncode(s[1..], b);
      DecodeStep(s[0], Encode(s[1..]) + b);
      assert [s[0]] + (s[1..] + Decode(b).value) == s + Decode(b).value;
    }
  }

  /** A zero byte occurs in the encoding only where the text has a NUL. */
  lemma {:induction false} NulFree(s: string)
    ensures '\0' !in s <==> 0 !in Encode(s)
    ensures |s| <= |Encode(s)|
    ensures s != "" && Encode(s)[|Encode(s)| - 1] == 0 ==> '\0' in s
  {
    if s != "" {
      NulFree(s[1..]);
      assert Encode(s) == EncodeChar(s[0]) + Encode(s[1..]);
      assert 0 in EncodeChar(s[0]) <==> s[0] == '\0';
      assert s == [s[0]] + s[1..];
      if s[1..] == "" {
        assert Encode(s) == EncodeChar(s[0]);
      }
    }
  }

  /** Text that encodes to ASCII is the same sequence of code points. */
  lemma {:induction false} AsciiEncode(s: string)
    requires (forall x :: x in Encode(s) ==> x < 0x80) || (forall c :: c in s ==> (c as int) < 0x80)
    ensures |Encode(s)| == |s|
    ensures forall i :: 0 <= i < |s| ==> s[i] as int == Encode(s)[i]
  {
    if s != "" {
      var h, t := EncodeChar(s[0]), Encode(s[1..]);
      assert Encode(s) == h + t;
      assert h[0] in Encode(s);
      assert forall x :: x in t ==> x in Encode(s);
      assert s[0] in s && forall c :: c in s[1..] ==> c in s;
      assert |h| == 1;
      AsciiEncode(s[1..]);
      assert s == [s[0]] + s[1..];
    }
  }

  /** ASCII bytes decode to the same sequence of code points. */
  lemma {:induction false} AsciiDecode(b: seq<byte>)
    requires forall x :: x in b ==> x < 0x80
    ensures Decode(b).Ok? && |Decode(b).value| == |b|
    ensures forall i :: 0 <= i < |b| ==> Decode(b).value[i] as int == b[i]
  {
    if b != [] {
      assert b[0] in b;
      assert forall x :: x in b[1..] ==> x in b;
      AsciiDecode(b[1..]);
    }
  }

  lemma JoinSplits(u: nat, bits: nat)
    requires bits < 64
    ensures Join(u, bits) / 64 == u && Join(u, bits) % 64 == bits
  {
  }

  lemma EncodeTwo(x: nat, y: nat)
    requires x < 32 && y < 64 && Join(x, y) >= 0x80
    ensures EncodeChar(Join(x, y) as char) == [0xC0 + x, 0x80 + y]
  {
    hide Join;
    JoinSplits(x, y);
    assert Join(x, y) / 64 == x ==> Join(x, y) < 0x800;
  }

  lemma EncodeThree(x: nat, y: nat, z: nat)
    requires x < 16 && y < 64 && z < 64
    requires var u := Join(Join(x, y), z); u >= 0x800 && !(0xD800 <= u < 0xE000)
    ensures Join(Join(x, y), z) < 0x10000 && EncodeChar(Join(Join(x, y), z) as char) == [0xE0 + x, 0x80 + y, 0x80 + z]
  {
    hide Join;
    JoinSplits(x, y);
    JoinSplits(Join(x, y), z);
    var u := Join(Join(x, y), z);
    assert u / 64 / 64 == u / 4096;
  }

  lemma EncodeFour(w: nat, x: nat, y: nat, z: nat)
    requires w < 8 && x < 64 && y < 64 && z < 64
    requires 0x10000 <= Join(Join(Join(w, x), y), z) < 0x110000
    ensures EncodeChar(Join(Join(Join(w, x), y), z) as char) == [0xF0 + w, 0x80 + x, 0x80 + y, 0x80 + z]
  {
    hide Join;
    JoinSplits(w, x);
    JoinSplits(Join(w, x), y);
    JoinSplits(Join(Join(w, x), y), z);
    var u := Join(Join(Join(w, x), y), z);
    assert u / 64 / 64 == u / 4096 && u / 4096 / 64 == u / 262144;
  }

  lemma JoinZero(x: nat)
    ensures Join(0, x) == x
  {
  }

  lemma EncodeCharDecode(b: seq<byte>)
    requires b != [] && DecodeChar(b).Some?
    ensures var (c, n) := DecodeChar(b).value; EncodeChar(c) == b[..n]
  {
    if b[0] >= 0x80 {
      hide Join, EncodeChar;
      var n := DecodeChar(b).value.1;
      if n == 2 {
        JoinZero(b[0] - 0xC0);
        EncodeTwo(b[0] - 0xC0, b[1] - 0x80);
      } else if n == 3 {
        JoinZero(b[0] - 0xE0);
        EncodeThree(b[0] - 0xE0, b[1] - 0x80, b[2] - 0x80);
      } else {
        JoinZero(b[0] - 0xF0);
        EncodeFour(b[0] - 0xF0, b[1] - 0x80, b[2] - 0x80, b[3] - 0x80);
      }
    }
  }

  /** Strict decoding loses nothing: encoding restores the bytes. */
  lemma {:induction false} EncodeDecode(b: seq<byte>)
    requires Decode(b).Ok?
    ensures Encode(Decode(b).value) == b
  {
    hide DecodeChar, EncodeChar;
    if b != [] {
      EncodeCharDecode(b);
      EncodeDecode(b[DecodeChar(b).value.1..]);
    }
  }

  lemma {:induction false} EncodeAppend(s: string, t: string)
    ensures Encode(s + t) == Encode(s) + Encode(t)
  {
    hide EncodeChar;
    if s == "" {
      assert s + t == t;
    } else {
      assert (s + t)[1..] == s[1..] + t;
      EncodeAppend(s[1..], t);
    }
  }

  // ---- the encoding by its bits ----

  /** One byte below 128, otherwise a lead byte that tells the length and tail bytes of six bits each. */
  lemma EncodedForm(c: char)
    ensures var u := c as int; var b := EncodeChar(c);
      if u < 0x80 then b == [u]
      else if u < 0x800 then
        |b| == 2 && 0xC0 <= b[0] < 0xE0 && IsTail(b[1]) && u == 64 * (b[0] as int - 0xC0) + (b[1] as int - 0x80)
      else if u < 0x1_0000 then
        |b| == 3 && 0xE0 <= b[0] < 0xF0 && IsTail(b[1]) && IsTail(b[2])
        && u == 4096 * (b[0] as int - 0xE0) + 64 * (b[1] as int - 0x80) + (b[2] as int - 0x80)
      else
        |b| == 4 && 0xF0 <= b[0] < 0xF8 && IsTail(b[1]) && IsTail(b[2]) && IsTail(b[3])
        && u == 262144 * (b[0] as int - 0xF0) + 4096 * (b[1] as int - 0x80) + 64 * (b[2] as int - 0x80)
                + (b[3] as int - 0x80)
  {
    var u := c as int;
    assert u / 64 / 64 == u / 4096 && u / 4096 / 64 == u / 262144;
  }

  /** Only encodings decode: bytes that no text encodes to are an error. */
  lemma {:induction false} DecodesExactly(b: seq<byte>)
    ensures Decode(b).Ok? <==> exists s :: Encode(s) == b
  {
    if Decode(b).Ok? {
      EncodeDecode(b);
      assert Encode(Decode(b).value) == b;
    }
    if exists s :: Encode(s) == b {
      var s :| Encode(s) == b;
      DecodeEncode(s, []);
      assert Encode(s) + [] == b;
    }
  }

  // ---- ASCII text in encoded text ----

  predicate Ascii(s: string) { forall i :: 0 <= i < |s| ==> (s[i] as int) < 0x80 }

  lemma {:induction false} AsciiPrefix(s: string, t: string)
    requires Ascii(t)
    ensures Encode(t) <= Encode(s) <==> t <= s
  {
    if t != "" && s != "" {
      AsciiPrefix(s[1..], t[1..]);
      var a, b := Encode(s), Encode(t);
      assert a == EncodeChar(s[0]) + Encode(s[1..]) && b == [t[0] as int] + Encode(t[1..]);
      if b <= a {
        assert a[0] == b[0] == t[0] as int;
        assert s[0] == t[0];
        assert a[1..] == Encode(s[1..]) && b[1..] == Encode(t[1..]);
      }
      if t <= s {
        assert t[1..] <= s[1..];
      }
    } else if t != "" {
      assert |Encode(t)| > 0;
    }
  }

  /** The bytes of a character that is not ASCII start no ASCII text. */
  lemma {:induction false} SkipHigh(b: seq<byte>, hay: seq<byte>, needle: seq<byte>)
    requires (forall i :: 0 <= i < |b| ==> b[i] >= 0x80) && needle != [] && needle[0] < 0x80
    ensures Contains(b + hay, needle) <==> Contains(hay, needle)
    decreases |b|
  {
    if b == [] {
      assert b + hay == hay;
    } else {
      assert (b + hay)[1..] == b[1..] + hay;
      SkipHigh(b[1..], hay, needle);
      assert (b + hay)[0] == b[0] != needle[0];
    }
  }

  /** ASCII text occurs in a text exactly when its bytes occur in the text's bytes. */
  lemma {:induction false} ContainsAscii(s: string, t: string)
    requires Ascii(t) && t != ""
    ensures Contains(Encode(s), Encode(t)) <==> Contains(s, t)
  {
    AsciiPrefix(s, t);
    assert Encode(t) == [t[0] as int] + Encode(t[1..]);
    if s != "" {
      ContainsAscii(s[1..], t);
      AsciiPrefix(s[1..], t);
      var c, r := EncodeChar(s[0]), Encode(s[1..]);
      assert Encode(s) == c + r;
      if (s[0] as int) < 0x80 {
        assert (c + r)[1..] == r;
      } else {
        HighBytes(s[0]);
        SkipHigh(c, r, Encode(t));
        assert !(t <= s);
      }
    }
  }

  lemma HighBytes(c: char)
    requires c as int >= 0x80
    ensures forall i :: 0 <= i < |EncodeChar(c)| ==> EncodeChar(c)[i] >= 0x80
  {
  }
}
