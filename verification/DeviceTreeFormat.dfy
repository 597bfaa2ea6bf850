/** The device tree format byte by byte, and the decoder's guess, without the codec's own vocabulary. */
module DeviceTreeFormat {
  import opened Wrappers
  import opened Words
  import opened Sequences
  import opened DeviceTree
  import DeviceTreeRoundTrip
  import Utf8
  import PyInt

  // ---- what the decoder makes of a value ----

  function Chars(text: seq<byte>): (s: string)
    ensures |s| == |text| && forall i :: 0 <= i < |text| ==> s[i] as int == text[i]
  {
    seq(|text|, i requires 0 <= i < |text| => text[i] as char)
  }

  /** m printable ASCII characters, at least three, and zeros behind them. */
  ghost predicate PaddedAscii(p: seq<byte>, m: nat) {
    3 <= m <= |p| && (forall i :: 0 <= i < m ==> 32 <= p[i] <= 126) && forall i :: m <= i < |p| ==> p[i] == 0
  }

  lemma GuessIsPaddedAscii(p: seq<byte>)
    ensures IsProbablyString(p) <==> exists m: nat :: PaddedAscii(p, m)
    ensures IsProbablyString(p) ==> PaddedAscii(p, |Until(p, 0)|)
    ensures forall m: nat :: PaddedAscii(p, m) ==> m == |Until(p, 0)|
  {
    var d := Until(p, 0);
    assert forall i :: 0 <= i < |d| ==> d[i] == p[i] != 0;
    if IsProbablyString(p) {
      assert PaddedAscii(p, |d|);
    }
    forall m: nat | PaddedAscii(p, m)
      ensures m == |d| && IsProbablyString(p)
    {
      UntilUnique(p, 0, p[..m]);
    }
  }

  /** At least three printable ASCII characters with any number of zeros behind them are text, under every name. */
  lemma TextIsRecognized(k: string, text: seq<byte>, n: nat)
    requires |text| >= 3 && forall i :: 0 <= i < |text| ==> 32 <= text[i] <= 126
    ensures DecodeProp(k, text + Zeros(n)) == Ok(Str(Chars(text)))
  {
    var p := text + Zeros(n);
    assert PaddedAscii(p, |text|);
    GuessIsPaddedAscii(p);
    DeviceTreeRoundTrip.ProbableText(p);
    assert DecodeCString(p).value == Chars(text);
  }

  /** Under any name but `name`, bytes of no such form are never text: they are nothing, a number or themselves. */
  lemma OthersAreNoText(k: string, p: seq<byte>)
    requires k != "name" && forall m: nat :: !PaddedAscii(p, m)
    ensures |p| == 0 ==> DecodeProp(k, p) == Ok(Str("<NULL>"))
    ensures |p| == 4 ==> DecodeProp(k, p) == Ok(Str("u32:" + PyInt.Hex(Number(p))))
    ensures |p| == 8 ==>
      DecodeProp(k, p) == Ok(Str("u64:" + PyInt.Hex(Number(p[..4]) + 0x1_0000_0000 * Number(p[4..]))))
    ensures |p| !in {0, 4, 8} ==> DecodeProp(k, p) == Ok(Bytes(p))
  {
    hide IsProbablyString, PyInt.Hex;
    GuessIsPaddedAscii(p);
    if |p| == 4 {
      NumberIs(p);
    } else if |p| == 8 {
      EightBytes(p);
    }
  }

  /** The value of `name` is its text up to the first NUL, printable or not, and must be UTF-8. */
  lemma NameIsText(p: seq<byte>)
    ensures match Utf8.Decode(p)
      case Ok(s) => DecodeProp("name", p) == Ok(Str(Until(s, '\0')))
      case Err(e) => DecodeProp("name", p) == Err(e)
  {
  }

  /** Four bytes as a number, the first one counting ones. */
  function Number(b: seq<byte>): nat
    requires |b| == 4
  {
    b[0] as int + 0x100 * (b[1] as int) + 0x1_0000 * (b[2] as int) + 0x100_0000 * (b[3] as int)
  }

  lemma NumberIs(b: seq<byte>)
    requires |b| == 4
    ensures FromLe(b) == Number(b)
  {
    assert FromLe(b) == b[0] + 256 * FromLe(b[1..]) && FromLe(b[1..]) == b[1] + 256 * FromLe(b[1..][1..]);
    assert b[1..][1..] == b[2..] && FromLe(b[2..]) == b[2] + 256 * FromLe(b[2..][1..]);
    assert b[2..][1..] == b[3..] && FromLe(b[3..]) == b[3] + 256 * FromLe(b[3..][1..]);
    assert b[3..][1..] == [];
  }

  lemma EightBytes(b: seq<byte>)
    requires |b| == 8
    ensures FromLe(b) == Number(b[..4]) + 0x1_0000_0000 * Number(b[4..])
  {
    hide Number;
    NumberIs(b[4..]);
    NumberIs(b[..4]);
    FourMore(b[..4], b[4..]);
    assert b[..4] + b[4..] == b;
  }

  lemma FourMore(a: seq<byte>, b: seq<byte>)
    requires |a| == 4
    ensures FromLe(a + b) == FromLe(a) + 0x1_0000_0000 * FromLe(b)
  {
    OneByte(a, b);
    OneByte(a[1..], b);
    OneByte(a[2..], b);
    OneByte(a[3..], b);
    assert a[1..][1..] == a[2..] && a[2..][1..] == a[3..] && a[3..][1..] == [] && [] + b == b;
  }

  lemma OneByte(a: seq<byte>, b: seq<byte>)
    requires a != []
    ensures FromLe(a + b) == a[0] + 256 * FromLe(a[1..] + b) && FromLe(a) == a[0] + 256 * FromLe(a[1..])
  {
    assert (a + b)[1..] == a[1..] + b;
  }

  // ---- a property in bytes ----

  /** b, and zeros up to the next multiple of four behind at least n bytes. */
  ghost predicate PaddedTo4(e: seq<byte>, b: seq<byte>, n: nat) {
    && b <= e && n <= |e| < n + 4 && |e| % 4 == 0
    && forall i :: |b| <= i < |e| ==> e[i] == 0
  }

  /** The value behind the length word. */
  ghost predicate ValueBytes(v: Value, len: nat, e: seq<byte>) {
    match v
    case Bytes(b) => len == |b| && PaddedTo4(e, b, |b|)
    case Str(s) =>
      if "u32:" <= s then
        var n := PyInt.ParseInt(s[4..]);
        len == 4 && |e| == 4 && n == Some(Number(e))
      else if "u64:" <= s then
        var n := PyInt.ParseInt(s[4..]);
        len == 8 && |e| == 8 && n == Some(Number(e[..4]) + 0x1_0000_0000 * Number(e[4..]))
      else if s == "<NULL>" then len == 0 && e == []
      else
        && len == |s| + 1 && e != [] && e[|e| - 1] == 0 && |e| % 4 == 0
        && (|Utf8.Encode(s)| <= |s| + 1 ==> PaddedTo4(e, Utf8.Encode(s), |s| + 1))
  }

  /** 32 bytes of name with zeros behind it, four bytes of length, the value. */
  lemma PropertyBytes(k: string, v: Value)
    requires EncodeProp(k, v).Ok? && |Utf8.Encode(k)| < 32
    ensures var e := EncodeProp(k, v).value;
      && |e| >= 36 && Utf8.Encode(k) <= e && (forall i :: |Utf8.Encode(k)| <= i < 32 ==> e[i] == 0)
      && ValueBytes(v, Number(e[32..36]), e[36..])
  {
    hide Utf8.Encode, EncodeValue, ValueBytes;
    var (len, val) := EncodeValue(v).value;
    var name := Pad(Utf8.Encode(k), 32);
    var e := EncodeProp(k, v).value;
    assert e == name + Le(len, 4) + val;
    assert e[32..36] == Le(len, 4) && e[36..] == val;
    NumberIs(e[32..36]);
    assert Pow256(4) == TWO32;
    LeRoundTrip(len, 4);
    EncodedValue(v);
  }

  lemma EncodedValue(v: Value)
    requires EncodeValue(v).Ok? && |EncodeValue(v).value.1| % 4 == 0
    ensures ValueBytes(v, EncodeValue(v).value.0, EncodeValue(v).value.1)
  {
    match v
    case Bytes(b) =>
    case Str(s) =>
      hide Utf8.Encode, PyInt.ParseInt, PackInt, Number, PaddedTo4, Pad, RoundUp4;
      if "u32:" <= s {
        PackedFour(s[4..]);
      } else if "u64:" <= s {
        PackedEight(s[4..]);
      } else if s != "<NULL>" {
        EncodedText(s);
      }
  }

  lemma EncodedText(s: string)
    ensures var u := Utf8.Encode(s); var val := Pad(u, RoundUp4(|s| + 1));
      && val != [] && (|u| <= |s| + 1 ==> PaddedTo4(val, u, |s| + 1))
  {
    hide Utf8.Encode;
  }

  lemma PackedFour(t: string)
    requires PackInt(t, 4).Ok?
    ensures PyInt.ParseInt(t) == Some(Number(PackInt(t, 4).value))
  {
    hide PyInt.ParseInt, Le, Number;
    var n := PyInt.ParseInt(t).value;
    LeRoundTrip(n, 4);
    NumberIs(Le(n, 4));
  }

  lemma PackedEight(t: string)
    requires PackInt(t, 8).Ok?
    ensures var e := PackInt(t, 8).value; PyInt.ParseInt(t) == Some(Number(e[..4]) + 0x1_0000_0000 * Number(e[4..]))
  {
    hide PyInt.ParseInt, Le, Number;
    var n := PyInt.ParseInt(t).value;
    LeRoundTrip(n, 8);
    EightBytes(Le(n, 8));
  }

  /** A node starts with its two counts; its properties come next, in order, and then its children, in order. */
  lemma NodeBytes(t: Tree)
    requires EncodeNode(t).Ok?
    ensures var e := EncodeNode(t).value;
      && |e| >= 8 && Number(e[..4]) == |t.props| && Number(e[4..8]) == |t.children|
      && EncodeProps(t.props).Ok? && EncodeChildren(t.children).Ok?
      && e[8..] == EncodeProps(t.props).value + EncodeChildren(t.children).value
  {
    hide EncodeProps, EncodeChildren, Le, Number;
    var e := EncodeNode(t).value;
    var ps, cs := EncodeProps(t.props).value, EncodeChildren(t.children).value;
    assert e == Le(|t.props|, 4) + Le(|t.children|, 4) + ps + cs;
    assert e[..4] == Le(|t.props|, 4) && e[4..8] == Le(|t.children|, 4) && e[8..] == ps + cs;
    assert Pow256(4) == TWO32;
    LeRoundTrip(|t.props|, 4);
    LeRoundTrip(|t.children|, 4);
    NumberIs(e[..4]);
    NumberIs(e[4..8]);
  }

  lemma {:induction false} PropsInOrder(a: Props, b: Props)
    ensures EncodeProps(a + b).Ok? <==> EncodeProps(a).Ok? && EncodeProps(b).Ok?
    ensures EncodeProps(a + b).Ok? ==> EncodeProps(a + b).value == EncodeProps(a).value + EncodeProps(b).value
  {
    hide EncodeProp;
    if a == [] {
      assert a + b == b;
    } else {
      assert (a + b)[1..] == a[1..] + b;
      PropsInOrder(a[1..], b);
    }
  }

  lemma {:induction false} ChildrenInOrder(a: seq<Tree>, b: seq<Tree>)
    ensures EncodeChildren(a + b).Ok? <==> EncodeChildren(a).Ok? && EncodeChildren(b).Ok?
    ensures EncodeChildren(a + b).Ok? ==>
      EncodeChildren(a + b).value == EncodeChildren(a).value + EncodeChildren(b).value
  {
    hide EncodeNode;
    if a == [] {
      assert a + b == b;
    } else {
      assert (a + b)[1..] == a[1..] + b;
      ChildrenInOrder(a[1..], b);
    }
  }

  // ---- what is accepted ----

  /** The encoder accepts a value when its number is in range, or its text leaves room for the NUL. */
  predicate Writable(v: Value) {
    match v
    case Bytes(b) => |b| < 0x1_0000_0000
    case Str(s) =>
      if "u32:" <= s then
        PyInt.ParseInt(s[4..]).Some? && 0 <= PyInt.ParseInt(s[4..]).value < 0x1_0000_0000
      else if "u64:" <= s then
        PyInt.ParseInt(s[4..]).Some? && 0 <= PyInt.ParseInt(s[4..]).value < 0x1_0000_0000_0000_0000
      else
        || s == "<NULL>"
        || (|s| + 1 < 0x1_0000_0000
            && var u := Utf8.Encode(s);
            |u| < RoundUp4(|s| + 1) || (u[|u| - 1] == 0 && |u| % 4 == 0))
  }

  lemma ValueAccepted(v: Value)
    ensures Writable(v) <==>
      (EncodeValue(v).Ok? && EncodeValue(v).value.0 < TWO32 && |EncodeValue(v).value.1| % 4 == 0)
  {
    hide Utf8.Encode, PyInt.ParseInt, Le;
    assert Pow256(4) == 0x1_0000_0000 && Pow256(8) == 0x1_0000_0000_0000_0000 by {
      assert Pow256(4) == TWO32;
    }
  }

  /** Exactly such values, under names below 32 characters whose bytes leave room for the NUL (or end in one). */
  lemma PropertyAccepted(k: string, v: Value)
    ensures var u := Utf8.Encode(k);
      EncodeProp(k, v).Ok? <==>
        |k| < 32 && (|u| < 32 || (u[|u| - 1] == 0 && |u| % 4 == 0)) && Writable(v)
  {
    hide Utf8.Encode, EncodeValue, Writable, Le;
    ValueAccepted(v);
  }

  // ---- reading raw bytes ----

  lemma HeadIs(dt: seq<byte>, name: string, l: nat, p: seq<byte>)
    requires |dt| >= 36 && DecodeCString(Slice(dt, 0, 32)) == Ok(name)
    requires l == RoundUp4(FromLe(dt[32..36]) % TWO31) && Slice(dt, 36, 36 + l) == p
    ensures match DecodeProp(name, p)
      case Err(e) => DecodeHead(dt) == Err(e)
      case Ok(v) => DecodeHead(dt) == Ok((name, v, 36 + l))
  {
    hide DecodeProp, DecodeCString, FromLe, RoundUp4, Slice;
  }

  /** However the length word is flagged, a property takes its length rounded up to whole words. */
  lemma PropertyRead(field: seq<byte>, len: nat, flag: bool, p: seq<byte>, rest: seq<byte>)
    requires |field| == 32 && len < 0x8000_0000 && len <= |p| < len + 4 && |p| % 4 == 0
    ensures var dt := field + Le(len + (if flag then 0x8000_0000 else 0), 4) + p + rest;
      match Utf8.Decode(field)
      case Err(e) => DecodeHead(dt) == Err(e)
      case Ok(s) =>
        match DecodeProp(Until(s, '\0'), p)
        case Err(e) => DecodeHead(dt) == Err(e)
        case Ok(v) => DecodeHead(dt) == Ok((Until(s, '\0'), v, 36 + |p|))
  {
    hide DecodeProp, Utf8.Decode, Le, FromLe;
    var word := len + (if flag then 0x8000_0000 else 0);
    DeviceTreeRoundTrip.HeadFields(field, word, p, rest);
    assert word % TWO31 == len;
    assert RoundUp4(len) == |p|;
    assert Slice(p + rest, 0, |p|) == p;
  }

  /** At the end of the file a value may be cut short; its property still claims its full size. */
  lemma CutPropertyRead(field: seq<byte>, len: nat, p: seq<byte>)
    requires |field| == 32 && len < 0x8000_0000 && |p| < len && Utf8.Decode(field).Ok?
    ensures var dt := field + Le(len, 4) + p; var name := Until(Utf8.Decode(field).value, '\0');
      match DecodeProp(name, p)
      case Err(e) => DecodeHead(dt) == Err(e)
      case Ok(v) =>
        && DecodeHead(dt).Ok? && DecodeHead(dt).value.0 == name && DecodeHead(dt).value.1 == v
        && DecodeHead(dt).value.2 % 4 == 0 && 36 + len <= DecodeHead(dt).value.2 < 36 + len + 4
  {
    hide DecodeProp, Utf8.Decode, Le, FromLe;
    hide DecodeHead, Slice;
    DeviceTreeRoundTrip.HeadFields(field, len, p, []);
    assert field + Le(len, 4) + p + [] == field + Le(len, 4) + p;
    WholeSlice(p, RoundUp4(len));
    HeadIs(field + Le(len, 4) + p, Until(Utf8.Decode(field).value, '\0'), RoundUp4(len), p);
  }

  lemma WholeSlice(p: seq<byte>, l: nat)
    requires |p| <= l
    ensures Slice(p + [], 0, l) == p
  {
  }

  /** Too short for a header, or for a property that is announced. */
  lemma TooShort(dt: seq<byte>)
    ensures |dt| < 8 ==> DecodeNode(dt) == Err(ValueError)
    ensures |dt| < 36 ==> DecodeHead(dt).Err?
  {
  }
}
