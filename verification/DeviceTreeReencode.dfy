/** What decoding guarantees about its result, and when re-encoding it is stable. */
module DeviceTreeReencode {
  import opened Wrappers
  import opened Words
  import opened Sequences
  import opened DeviceTree
  import opened DeviceTreeRoundTrip
  import Utf8
  import PyInt

  predicate Tagged(s: string) { "u32:" <= s || "u64:" <= s || s == "<NULL>" }

  /** The shapes a value decoded from complete bytes can take. */
  predicate Decoded(k: string, v: Value) {
    match v
    case Bytes(b) => k != "name" && |b| % 4 == 0 && |b| !in {0, 4, 8} && |b| <= TWO31 && !IsProbablyString(b)
    case Str(s) =>
      || (k == "name" && '\0' !in s)
      || (k != "name" && '\0' !in s && |s| >= 3 && forall i :: 0 <= i < |s| ==> Printable(s[i] as int))
      || (k != "name" && s == "<NULL>")
      || (k != "name" && "u32:" <= s && CanonicalNumber(s, "u32:", 4))
      || (k != "name" && "u64:" <= s && CanonicalNumber(s, "u64:", 8))
  }

  predicate DecodedProps(ps: Props) {
    forall i :: 0 <= i < |ps| ==> '\0' !in ps[i].0 && Decoded(ps[i].0, ps[i].1)
  }

  ghost predicate DecodedTree(t: Tree) {
    && |t.props| < TWO32 && |t.children| < TWO32 && DistinctKeys(t.props) && DecodedProps(t.props)
    && forall c :: c in t.children ==> DecodedTree(c)
  }

  /** The conditions a caller can test on a decoded property before writing it back. */
  predicate Reencodable(k: string, v: Value) {
    && |Utf8.Encode(k)| < 32
    && match v
       case Bytes(b) => |b| < TWO31
       case Str(s) =>
         && (k == "name" ==> !Tagged(s) && |Utf8.Encode(s)| < RoundUp4(|s| + 1))
         && ("u32:" <= s ==> CanonicalNumber(s, "u32:", 4))
         && ("u64:" <= s ==> CanonicalNumber(s, "u64:", 8))
         && (!Tagged(s) ==> |s| + 1 < TWO31)
  }

  predicate ReencodableTree(t: Tree) {
    && (forall i :: 0 <= i < |t.props| ==> Reencodable(t.props[i].0, t.props[i].1))
    && forall c :: c in t.children ==> ReencodableTree(c)
  }

  // ---- what decoding guarantees ----

  lemma DecodedNumber(k: string, p: seq<byte>, tag: string, width: nat)
    requires k != "name" && |p| == width && !IsProbablyString(p)
    ensures CanonicalNumber(tag + PyInt.Hex(FromLe(p)), tag, width)
  {
    hide IsProbablyString, PyInt.ParseInt, PyInt.Hex;
    FromLeRoundTrip(p);
    PyInt.ParseHex(FromLe(p));
    var s := tag + PyInt.Hex(FromLe(p));
    assert s[|tag|..] == PyInt.Hex(FromLe(p));
  }

  lemma DecodedValue(k: string, p: seq<byte>)
    requires DecodeProp(k, p).Ok? && |p| % 4 == 0 && |p| <= TWO31
    ensures Decoded(k, DecodeProp(k, p).value)
  {
    hide CanonicalNumber;
    if DecodeProp(k, p).value.Str? {
      DecodedNulFree(k, p);
    }
    if k != "name" {
      if IsProbablyString(p) {
        ProbableText(p);
      } else if |p| == 4 {
        DecodedNumber(k, p, "u32:", 4);
      } else if |p| == 8 {
        DecodedNumber(k, p, "u64:", 8);
      }
    }
  }

  lemma DecodedHead(dt: seq<byte>)
    requires DecodeHead(dt).Ok? && DecodeHead(dt).value.2 <= |dt|
    ensures var (k, v, size) := DecodeHead(dt).value; '\0' !in k && Decoded(k, v)
  {
    hide DecodeProp, Decoded, Utf8.Decode;
    var l := RoundUp4(FromLe(dt[32..36]) % TWO31);
    DecodedValue(DecodeHead(dt).value.0, Slice(dt, 36, 36 + l));
  }

  lemma {:induction false} PutMembers(ps: Props, k: string, v: Value)
    ensures forall e :: e in Put(ps, k, v) ==> e == (k, v) || e in ps
    ensures DistinctKeys(ps) ==> DistinctKeys(Put(ps, k, v))
  {
    if ps != [] && ps[0].0 != k {
      var r := Put(ps[1..], k, v);
      PutMembers(ps[1..], k, v);
      assert Put(ps, k, v) == [ps[0]] + r;
      assert forall e :: e in ps[1..] ==> e in ps;
      if DistinctKeys(ps) {
        assert DistinctKeys(ps[1..]);
        assert forall i :: 0 <= i < |r| ==> r[i] in r;
      }
    } else if ps != [] {
      assert Put(ps, k, v) == [(k, v)] + ps[1..];
    }
  }

  lemma PutKeeps(ps: Props, k: string, v: Value)
    requires DistinctKeys(ps) && DecodedProps(ps) && '\0' !in k && Decoded(k, v)
    ensures DistinctKeys(Put(ps, k, v)) && DecodedProps(Put(ps, k, v))
  {
    hide Decoded, Put;
    PutMembers(ps, k, v);
    var r := Put(ps, k, v);
    assert forall i :: 0 <= i < |r| ==> r[i] in r;
  }

  lemma {:induction false} DecodePropsKeeps(dt: seq<byte>, n: nat, ps: Props)
    requires DistinctKeys(ps) && DecodedProps(ps)
    requires DecodeProps(dt, n, ps).Ok? && DecodeProps(dt, n, ps).value.1 <= |dt|
    ensures var out := DecodeProps(dt, n, ps).value.0; DistinctKeys(out) && DecodedProps(out)
    decreases n
  {
    hide DecodeHead, DistinctKeys, DecodedProps, Decoded, Put;
    if n > 0 {
      var (k, v, size) := DecodeHead(dt).value;
      DecodedHead(dt);
      PutKeeps(ps, k, v);
      DecodePropsKeeps(From(dt, size), n - 1, Put(ps, k, v));
    }
  }

  lemma HeaderBounds(b: seq<byte>)
    requires |b| == 4
    ensures FromLe(b) < TWO32
  {
    FromLeRoundTrip(b);
  }

  lemma {:induction false} NodeDecoded(dt: seq<byte>)
    requires DecodeNode(dt).Ok? && DecodeNode(dt).value.1 <= |dt|
    ensures DecodedTree(DecodeNode(dt).value.0)
    decreases |dt|, 0, 0
  {
    hide DecodeProps, DistinctKeys, DecodedProps;
    var (ps, psize) := DecodeProps(dt[8..], FromLe(dt[..4]), []).value;
    assert DistinctKeys([]) && DecodedProps([]) by { NothingDecoded(); }
    DecodePropsKeeps(dt[8..], FromLe(dt[..4]), []);
    DecodePropsGrows(dt[8..], FromLe(dt[..4]), []);
    HeaderBounds(dt[..4]);
    HeaderBounds(dt[4..8]);
    ChildrenDecoded(From(dt, 8 + psize), FromLe(dt[4..8]));
  }

  lemma NothingDecoded()
    ensures DistinctKeys([]) && DecodedProps([])
  {
  }

  lemma {:induction false} ChildrenDecoded(dt: seq<byte>, n: nat)
    requires DecodeChildren(dt, n).Ok? && DecodeChildren(dt, n).value.1 <= |dt|
    ensures forall c :: c in DecodeChildren(dt, n).value.0 ==> DecodedTree(c)
    decreases |dt|, 1, n
  {
    hide DecodeNode, DecodedTree;
    if n > 0 {
      NodeDecoded(dt);
      ChildrenDecoded(From(dt, DecodeNode(dt).value.1), n - 1);
    }
  }

  // ---- when a decoded tree is canonical ----

  lemma TextIsPlain(k: string, s: string)
    requires Decoded(k, Str(s)) && !Tagged(s) && k != "name"
    ensures '\0' !in s && |s| >= 3 && forall i :: 0 <= i < |s| ==> Printable(s[i] as int)
  {
    hide CanonicalNumber;
  }

  lemma TagsDisjoint(s: string)
    ensures "u32:" <= s ==> !("u64:" <= s) && s != "<NULL>"
    ensures "u64:" <= s ==> s != "<NULL>"
  {
    assert "u32:"[1] == '3' && "u64:"[1] == '6' && "<NULL>"[0] == '<' && "u32:"[0] == 'u' && "u64:"[0] == 'u';
  }

  /** On decoded properties, canonical and re-encodable are the same thing. */
  lemma DecodedCanonical(k: string, v: Value)
    requires '\0' !in k && Decoded(k, v)
    ensures CanonicalKey(k) && CanonicalValue(k, v) <==> Reencodable(k, v)
  {
    hide CanonicalNumber, IsProbablyString;
    if v.Str? {
      TagsDisjoint(v.s);
      if !Tagged(v.s) && k != "name" {
        TextIsPlain(k, v.s);
      }
    }
  }

  lemma {:induction false} TreeCanonical(t: Tree)
    requires DecodedTree(t)
    ensures IsDictTree(t) && (Canonical(t) <==> ReencodableTree(t))
    decreases t
  {
    hide CanonicalKey, CanonicalValue, Reencodable, Decoded;
    forall i | 0 <= i < |t.props|
      ensures CanonicalKey(t.props[i].0) && CanonicalValue(t.props[i].0, t.props[i].1)
        <==> Reencodable(t.props[i].0, t.props[i].1)
    {
      DecodedCanonical(t.props[i].0, t.props[i].1);
    }
    forall c | c in t.children
      ensures IsDictTree(c) && (Canonical(c) <==> ReencodableTree(c))
    {
      TreeCanonical(c);
    }
  }

  /** Whatever complete bytes were decoded, encoding the tree and decoding again gives the same tree
      exactly when the tree is re-encodable; then a second encoding has the bytes of the first. */
  lemma ReencodeOnce(dt: seq<byte>, rest: seq<byte>)
    requires DecodeNode(dt).Ok? && DecodeNode(dt).value.1 <= |dt|
    ensures var t := DecodeNode(dt).value.0;
      ReencodableTree(t) <==>
      var r := EncodeNode(t);
      r.Ok? && DecodeNode(r.value + rest) == Ok((t, |r.value|))
  {
    hide *;
    NodeDecoded(dt);
    TreeCanonical(DecodeNode(dt).value.0);
    RoundTrip(DecodeNode(dt).value.0, rest);
  }

  // ---- when the first encoding already has the bytes of the input ----

  /** Text, its NUL, and nothing but zeros behind it. */
  predicate ZeroTail(b: seq<byte>) {
    |Until(b, 0)| < |b| && forall i :: |Until(b, 0)| <= i < |b| ==> b[i] == 0
  }

  /** The length word and padded bytes p are the ones written for v: text is zero-padded, is not a tag, and is
      measured in code points with its NUL; anything else is measured in whole words; the flag bit is clear. */
  predicate PlainValue(k: string, v: Value, len: nat, p: seq<byte>) {
    && len < TWO31
    && if k == "name" || IsProbablyString(p) then ZeroTail(p) && v.Str? && !Tagged(v.s) && len == |v.s| + 1
       else len % 4 == 0
  }

  /** The property at the start of dt, with its name field, length word and bytes as the encoder writes them. */
  predicate Plain(dt: seq<byte>) {
    && DecodeHead(dt).Ok?
    && var (k, v, size) := DecodeHead(dt).value;
    && ZeroTail(Slice(dt, 0, 32)) && PlainValue(k, v, FromLe(dt[32..36]), Slice(dt, 36, size))
  }

  /** The bytes before the first zero are the text before the first NUL. */
  lemma TextBytes(b: seq<byte>)
    requires Utf8.Decode(b).Ok?
    ensures Utf8.Encode(DecodeCString(b).value) == Until(b, 0)
  {
    hide Utf8.Decode;
    var s := Utf8.Decode(b).value;
    var t := Until(s, '\0');
    Utf8.EncodeDecode(b);
    assert s == t + s[|t|..];
    Utf8.EncodeAppend(t, s[|t|..]);
    Utf8.NulFree(t);
    UntilUnique(b, 0, Utf8.Encode(t));
  }

  lemma PadRestores(b: seq<byte>)
    requires ZeroTail(b)
    ensures Pad(Until(b, 0), |b|) == b
  {
    assert b == Until(b, 0) + b[|Until(b, 0)|..];
  }

  lemma PadIsZeroTail(s: string, n: nat)
    requires '\0' !in s && |Utf8.Encode(s)| < n
    ensures ZeroTail(Pad(Utf8.Encode(s), n))
  {
    PaddedText(s, n);
  }

  lemma TextRewritten(k: string, p: seq<byte>, s: string, len: nat)
    requires k == "name" || IsProbablyString(p)
    requires DecodeProp(k, p) == Ok(Str(s)) && |p| == RoundUp4(len) && PlainValue(k, Str(s), len, p)
    ensures EncodeValue(Str(s)) == Ok((len, p))
  {
    hide IsProbablyString, Utf8.Decode, Utf8.Encode;
    TextBytes(p);
    PadRestores(p);
  }

  lemma NumberRewritten(p: seq<byte>, tag: string, width: nat)
    requires (tag == "u32:" && width == 4) || (tag == "u64:" && width == 8)
    requires |p| == width
    ensures EncodeValue(Str(tag + PyInt.Hex(FromLe(p)))) == Ok((width, p))
  {
    hide PyInt.ParseInt, PyInt.Hex, Le, FromLe;
    FromLeRoundTrip(p);
    PyInt.ParseHex(FromLe(p));
    var s := tag + PyInt.Hex(FromLe(p));
    assert s[4..] == PyInt.Hex(FromLe(p));
    TagsDisjoint(s);
  }

  /** A plain value is written back as it was. */
  lemma PlainValueRewritten(k: string, p: seq<byte>, v: Value, len: nat)
    requires DecodeProp(k, p) == Ok(v) && |p| == RoundUp4(len) && PlainValue(k, v, len, p)
    ensures EncodeValue(v) == Ok((len, p))
  {
    hide EncodeValue, IsProbablyString, DecodeCString, PyInt.Hex, FromLe;
    if k == "name" || IsProbablyString(p) {
      TextRewritten(k, p, v.s, len);
    } else {
      OthersRewritten(k, p, v, len);
    }
  }

  lemma OthersRewritten(k: string, p: seq<byte>, v: Value, len: nat)
    requires !(k == "name" || IsProbablyString(p)) && len % 4 == 0
    requires DecodeProp(k, p) == Ok(v) && |p| == RoundUp4(len)
    ensures EncodeValue(v) == Ok((len, p))
  {
    hide IsProbablyString, PyInt.Hex, FromLe, PackInt;
    if |p| == 4 {
      NumberRewritten(p, "u32:", 4);
    } else if |p| == 8 {
      NumberRewritten(p, "u64:", 8);
    } else if |p| == 0 {
      TagsDisjoint("<NULL>");
    } else {
      BytesWritten(p);
    }
  }

  /** A value that is written back as it was is plain. */
  lemma RewrittenIsPlain(k: string, p: seq<byte>, v: Value, len: nat)
    requires CanonicalValue(k, v) && EncodeValue(v) == Ok((len, p)) && DecodeProp(k, p) == Ok(v)
    ensures PlainValue(k, v, len, p)
  {
    hide IsProbablyString, DecodeProp, CanonicalNumber, PackInt, CanonicalText, EncodeValue, ZeroTail;
    ValueForward(k, v);
    match v
    case Bytes(b) =>
      BytesWritten(b);
    case Str(s) =>
      TagsDisjoint(s);
      if Tagged(s) {
        TagIsNoText(k, s, len, p);
      } else {
        TextIsPlainlyWritten(k, s, len, p);
      }
  }

  lemma BytesWritten(b: seq<byte>)
    requires |b| % 4 == 0
    ensures EncodeValue(Bytes(b)) == Ok((|b|, b))
  {
  }

  lemma TagIsNoText(k: string, s: string, len: nat, p: seq<byte>)
    requires Tagged(s) && CanonicalValue(k, Str(s)) && EncodeValue(Str(s)) == Ok((len, p))
    ensures k != "name" && !IsProbablyString(p) && len % 4 == 0
  {
    hide PyInt.ParseInt, PyInt.Hex, Le;
    TagsDisjoint(s);
    if s == "<NULL>" {
      assert p == [];
    }
  }

  lemma TextIsPlainlyWritten(k: string, s: string, len: nat, p: seq<byte>)
    requires !Tagged(s) && CanonicalText(k, s) && EncodeValue(Str(s)) == Ok((len, p)) && DecodeProp(k, p) == Ok(Str(s))
    ensures (k == "name" || IsProbablyString(p)) && ZeroTail(p) && len == |s| + 1
  {
    assert len == |s| + 1 && p == Pad(Utf8.Encode(s), RoundUp4(|s| + 1));
    if k != "name" {
      assert forall c :: c in s ==> (c as int) < 0x80;
      Utf8.AsciiEncode(s);
    }
    PadIsZeroTail(s, RoundUp4(|s| + 1));
    assert k == "name" || IsProbablyString(p) by {
      hide IsProbablyString, DecodeCString, PyInt.Hex, Utf8.Encode;
    }
  }

  /** The property is re-encoded to the bytes it was read from exactly when those bytes are plain. */
  lemma PropReproduced(dt: seq<byte>)
    requires DecodeHead(dt).Ok? && DecodeHead(dt).value.2 <= |dt|
    ensures var (k, v, size) := DecodeHead(dt).value; EncodeProp(k, v) == Ok(dt[..size]) <==> Plain(dt)
  {
    hide EncodeProp, DecodeHead, Plain;
    var (k, v, size) := DecodeHead(dt).value;
    if Plain(dt) {
      PlainReproduced(dt);
    }
    if EncodeProp(k, v) == Ok(dt[..size]) {
      ReproducedIsPlain(dt);
    }
  }

  /** What the head decoder read. */
  lemma HeadParts(dt: seq<byte>)
    requires DecodeHead(dt).Ok? && DecodeHead(dt).value.2 <= |dt|
    ensures var (k, v, size) := DecodeHead(dt).value; var p := Slice(dt, 36, size);
      && DecodeCString(Slice(dt, 0, 32)) == Ok(k) && Utf8.Decode(Slice(dt, 0, 32)).Ok?
      && |p| == size - 36 == RoundUp4(FromLe(dt[32..36]) % TWO31) && DecodeProp(k, p) == Ok(v)
      && dt[..size] == Slice(dt, 0, 32) + dt[32..36] + p
  {
    hide DecodeProp, Utf8.Decode, FromLe;
  }

  lemma PlainReproduced(dt: seq<byte>)
    requires Plain(dt) && DecodeHead(dt).value.2 <= |dt|
    ensures var (k, v, size) := DecodeHead(dt).value; EncodeProp(k, v) == Ok(dt[..size])
  {
    hide *;
    PlainName(dt);
    PlainBytes(dt);
    HeadParts(dt);
    var (k, v, size) := DecodeHead(dt).value;
    FromLeRoundTrip(dt[32..36]);
    EncodePropIs(k, v);
  }

  /** The name field of a plain property is what its name is written as. */
  lemma PlainName(dt: seq<byte>)
    requires Plain(dt)
    ensures DecodeHead(dt).Ok?
    ensures var k := DecodeHead(dt).value.0; CanonicalKey(k) && Pad(Utf8.Encode(k), 32) == Slice(dt, 0, 32)
  {
    hide DecodeProp, Utf8.Decode, Utf8.Encode, FromLe, PlainValue;
    var name := Slice(dt, 0, 32);
    TextBytes(name);
    PadRestores(name);
  }

  /** So are its length word and bytes. */
  lemma PlainBytes(dt: seq<byte>)
    requires Plain(dt) && DecodeHead(dt).value.2 <= |dt|
    ensures var (k, v, size) := DecodeHead(dt).value; var len := FromLe(dt[32..36]);
      len < TWO32 && |Slice(dt, 36, size)| % 4 == 0 && EncodeValue(v) == Ok((len, Slice(dt, 36, size)))
  {
    hide *;
    PlainIs(dt);
    HeadParts(dt);
    var (k, v, size) := DecodeHead(dt).value;
    LengthWord(k, v, FromLe(dt[32..36]), Slice(dt, 36, size));
    PlainValueRewritten(k, Slice(dt, 36, size), v, FromLe(dt[32..36]));
  }

  lemma PlainIs(dt: seq<byte>)
    ensures Plain(dt) <==> (DecodeHead(dt).Ok? && var (k, v, size) := DecodeHead(dt).value;
      ZeroTail(Slice(dt, 0, 32)) && PlainValue(k, v, FromLe(dt[32..36]), Slice(dt, 36, size)))
  {
    hide DecodeHead, ZeroTail, PlainValue, FromLe, Slice;
  }

  lemma LengthWord(k: string, v: Value, len: nat, p: seq<byte>)
    requires PlainValue(k, v, len, p)
    ensures len % TWO31 == len && len < TWO32
  {
    hide ZeroTail, IsProbablyString, Tagged;
  }

  lemma ReproducedIsPlain(dt: seq<byte>)
    requires DecodeHead(dt).Ok? && DecodeHead(dt).value.2 <= |dt|
    requires var (k, v, size) := DecodeHead(dt).value; EncodeProp(k, v) == Ok(dt[..size])
    ensures Plain(dt)
  {
    hide *;
    HeadParts(dt);
    var (k, v, size) := DecodeHead(dt).value;
    WrittenHead(dt, k, v, size);
    var (len, val) := EncodeValue(v).value;
    KeyIsZeroTail(k);
    SameParts(dt, size, Pad(Utf8.Encode(k), 32), len, val);
    RewrittenIsPlain(k, val, v, len);
    PlainIs(dt);
  }

  lemma WrittenHead(dt: seq<byte>, k: string, v: Value, size: nat)
    requires DecodeHead(dt) == Ok((k, v, size)) && size <= |dt| && EncodeProp(k, v) == Ok(dt[..size])
    ensures CanonicalKey(k) && CanonicalValue(k, v) && EncodeValue(v).Ok? && EncodeValue(v).value.0 < TWO32
    ensures dt[..size] == Pad(Utf8.Encode(k), 32) + Le(EncodeValue(v).value.0, 4) + EncodeValue(v).value.1
  {
    hide EncodeProp, EncodeValue, DecodeHead, DecodeProp, CanonicalKey, CanonicalValue, Utf8.Encode, Le, Pad;
    assert dt == dt[..size] + dt[size..];
    HeadBackward(k, v, dt[size..], size);
    ValueForward(k, v);
    EncodePropIs(k, v);
  }

  /** The parts of a head that was written from these. */
  lemma SameParts(dt: seq<byte>, size: nat, name: seq<byte>, len: nat, val: seq<byte>)
    requires |name| == 32 && len < TWO32 && 36 <= size <= |dt| && dt[..size] == name + Le(len, 4) + val
    ensures Slice(dt, 0, 32) == name && FromLe(dt[32..36]) == len && Slice(dt, 36, size) == val
  {
    hide Le, FromLe;
    assert dt == name + Le(len, 4) + val + dt[size..];
    HeadFields(name, len, val, dt[size..]);
  }

  lemma KeyIsZeroTail(k: string)
    requires CanonicalKey(k)
    ensures ZeroTail(Pad(Utf8.Encode(k), 32)) && |Pad(Utf8.Encode(k), 32)| == 32
  {
    PadIsZeroTail(k, 32);
  }

  // ---- the same for trees ----

  predicate PlainProps(dt: seq<byte>, n: nat)
    decreases n
  {
    n > 0 ==> Plain(dt) && PlainProps(From(dt, DecodeHead(dt).value.2), n - 1)
  }

  /** A node whose properties are plain, none of them named twice, and whose children are plain. */
  predicate PlainNode(dt: seq<byte>)
    decreases |dt|, 0, 0
  {
    && DecodeNode(dt).Ok?
    && var n := FromLe(dt[..4]); var (ps, psize) := DecodeProps(dt[8..], n, []).value;
    && |ps| == n && PlainProps(dt[8..], n) && PlainChildren(From(dt, 8 + psize), FromLe(dt[4..8]))
  }

  predicate PlainChildren(dt: seq<byte>, n: nat)
    decreases |dt|, 1, n
  {
    n > 0 ==> PlainNode(dt) && PlainChildren(From(dt, DecodeNode(dt).value.1), n - 1)
  }

  /** Two neighbouring parts of dt are both as given exactly when their sum is, once the first has the right length. */
  lemma TwoParts(dt: seq<byte>, a: seq<byte>, b: seq<byte>, m: nat, n: nat)
    requires m + n <= |dt|
    ensures a == dt[..m] && b == From(dt, m)[..n] ==> a + b == dt[..m + n]
    ensures a + b == dt[..m + n] ==> dt == a + (b + dt[m + n..])
    ensures a + b == dt[..m + n] && |a| == m ==> a == dt[..m] && b == From(dt, m)[..n]
  {
    assert dt[..m + n] == dt[..m] + dt[m..][..n];
    assert dt == dt[..m + n] + dt[m + n..];
  }

  lemma HeadLength(k: string, v: Value, e: seq<byte>, rest: seq<byte>, size: nat)
    requires EncodeProp(k, v) == Ok(e) && DecodeHead(e + rest) == Ok((k, v, size))
    ensures |e| == size
  {
    hide EncodeProp, DecodeHead, CanonicalKey, CanonicalValue;
    HeadBackward(k, v, rest, size);
    HeadForward(k, v, rest);
  }

  /** The step of the next lemma. */
  lemma PropsOneMore(dt: seq<byte>, k: string, v: Value, size: nat, ps: Props, size': nat)
    requires DecodeHead(dt) == Ok((k, v, size)) && size + size' <= |dt|
    ensures EncodeProps([(k, v)] + ps) == Ok(dt[..size + size'])
      <==> Plain(dt) && EncodeProps(ps) == Ok(From(dt, size)[..size'])
  {
    hide EncodeProp, DecodeHead, Plain;
    assert ([(k, v)] + ps)[1..] == ps;
    PropReproduced(dt);
    if EncodeProp(k, v).Ok? && EncodeProps(ps).Ok? {
      var e, es := EncodeProp(k, v).value, EncodeProps(ps).value;
      TwoParts(dt, e, es, size, size');
      if e + es == dt[..size + size'] {
        HeadLength(k, v, e, es + dt[size + size'..], size);
      }
    }
  }

  lemma {:induction false} PropsReproduced(dt: seq<byte>, n: nat, acc: Props)
    requires DecodeProps(dt, n, acc).Ok? && DecodeProps(dt, n, acc).value.1 <= |dt|
    requires |DecodeProps(dt, n, acc).value.0| == |acc| + n
    ensures var (out, size) := DecodeProps(dt, n, acc).value;
      acc <= out && (EncodeProps(out[|acc|..]) == Ok(dt[..size]) <==> PlainProps(dt, n))
    decreases n
  {
    hide DecodeHead, Plain, Put, EncodeProps;
    DecodePropsGrows(dt, n, acc);
    var (out, size) := DecodeProps(dt, n, acc).value;
    if n == 0 {
      NothingEncoded();
      assert out[|acc|..] == [] && dt[..size] == [];
    } else {
      var (k, v, s) := DecodeHead(dt).value;
      PutAppends(acc, k, v);
      DecodePropsGrows(From(dt, s), n - 1, Put(acc, k, v));
      PropsReproduced(From(dt, s), n - 1, acc + [(k, v)]);
      var ps := out[|acc| + 1..];
      assert out[|acc|..] == [(k, v)] + ps;
      PropsOneMore(dt, k, v, s, ps, size - s);
    }
  }

  lemma NothingEncoded()
    ensures EncodeProps([]) == Ok([]) && EncodeChildren([]) == Ok([])
  {
  }

  lemma NodeLength(t: Tree, e: seq<byte>, rest: seq<byte>, size: nat)
    requires IsDictTree(t) && EncodeNode(t) == Ok(e) && DecodeNode(e + rest) == Ok((t, size))
    ensures |e| == size
  {
    hide *;
    NodeBackward(t, rest);
    NodeForward(t, rest);
  }

  lemma DecodedIsDict(dt: seq<byte>)
    requires DecodeNode(dt).Ok? && DecodeNode(dt).value.1 <= |dt|
    ensures IsDictTree(DecodeNode(dt).value.0)
  {
    hide *;
    NodeDecoded(dt);
    TreeCanonical(DecodeNode(dt).value.0);
  }

  lemma {:induction false} ChildrenReproduced(dt: seq<byte>, n: nat)
    requires DecodeChildren(dt, n).Ok? && DecodeChildren(dt, n).value.1 <= |dt|
    ensures var (cs, size) := DecodeChildren(dt, n).value;
      EncodeChildren(cs) == Ok(dt[..size]) <==> PlainChildren(dt, n)
    decreases |dt|, 1, n
  {
    hide DecodeNode, EncodeNode, PlainNode, EncodeChildren;
    var (cs, size) := DecodeChildren(dt, n).value;
    if n == 0 {
      NothingEncoded();
      assert dt[..size] == [];
    } else {
      var (c, s) := DecodeNode(dt).value;
      NodeReproduced(dt);
      ChildrenReproduced(From(dt, s), n - 1);
      ChildrenOneMore(dt, c, s, cs[1..], size - s);
      assert cs == [c] + cs[1..];
    }
  }

  lemma ChildrenOneMore(dt: seq<byte>, c: Tree, size: nat, cs: seq<Tree>, size': nat)
    requires DecodeNode(dt) == Ok((c, size)) && size + size' <= |dt|
    ensures EncodeChildren([c] + cs) == Ok(dt[..size + size'])
      <==> EncodeNode(c) == Ok(dt[..size]) && EncodeChildren(cs) == Ok(From(dt, size)[..size'])
  {
    hide DecodeNode, EncodeNode, IsDictTree;
    assert ([c] + cs)[1..] == cs;
    if EncodeNode(c).Ok? && EncodeChildren(cs).Ok? {
      var e, es := EncodeNode(c).value, EncodeChildren(cs).value;
      TwoParts(dt, e, es, size, size');
      if e + es == dt[..size + size'] {
        DecodedIsDict(dt);
        NodeLength(c, e, es + dt[size + size'..], size);
      }
    }
  }

  /** A tree is re-encoded to the bytes it was read from exactly when they are plain at every depth. */
  lemma {:induction false} NodeReproduced(dt: seq<byte>)
    requires DecodeNode(dt).Ok? && DecodeNode(dt).value.1 <= |dt|
    ensures var (t, size) := DecodeNode(dt).value; EncodeNode(t) == Ok(dt[..size]) <==> PlainNode(dt)
    decreases |dt|, 0, 0
  {
    hide DecodeProps, DecodeChildren, EncodeProps, EncodeChildren, PlainProps, PlainChildren, EncodeNode, FromLe;
    var (t, size) := DecodeNode(dt).value;
    var n, m := FromLe(dt[..4]), FromLe(dt[4..8]);
    var psize := DecodeProps(dt[8..], n, []).value.1;
    var below := From(dt, 8 + psize);
    assert From(dt[8..], psize) == below;
    ChildrenReproduced(below, m);
    if |t.props| == n {
      PropsReproduced(dt[8..], n, []);
      assert t.props[0..] == t.props;
    }
    NodeParts(dt, t, psize, size - 8 - psize);
  }

  lemma NodeParts(dt: seq<byte>, t: Tree, psize: nat, csize: nat)
    requires |dt| >= 8 && 8 + psize + csize <= |dt|
    requires DecodeProps(dt[8..], FromLe(dt[..4]), []) == Ok((t.props, psize))
    requires DecodeChildren(From(dt, 8 + psize), FromLe(dt[4..8])) == Ok((t.children, csize))
    ensures EncodeNode(t) == Ok(dt[..8 + psize + csize]) <==>
      && |t.props| == FromLe(dt[..4]) && EncodeProps(t.props) == Ok(dt[8..][..psize])
      && EncodeChildren(t.children) == Ok(From(dt, 8 + psize)[..csize])
  {
    hide DecodeProps, DecodeChildren, EncodeProps, EncodeChildren, FromLe, Le;
    HeaderBounds(dt[..4]);
    HeaderBounds(dt[4..8]);
    FromLeRoundTrip(dt[..4]);
    FromLeRoundTrip(dt[4..8]);
    DecodePropsGrows(dt[8..], FromLe(dt[..4]), []);
    assert From(dt[8..], psize) == From(dt, 8 + psize);
    if EncodeProps(t.props).Ok? && EncodeChildren(t.children).Ok? {
      var ps, cs := EncodeProps(t.props).value, EncodeChildren(t.children).value;
      HeadedParts(dt, Le(|t.props|, 4) + Le(|t.children|, 4), ps + cs, psize + csize);
      TwoParts(dt[8..], ps, cs, psize, csize);
      var rest := dt[8..][psize + csize..];
      if Le(|t.props|, 4) + Le(|t.children|, 4) + (ps + cs) == dt[..8 + psize + csize] {
        CountRead(dt, |t.props|, |t.children|);
        PropsLength(dt, t.props, psize, ps, cs + rest);
      }
    }
    if EncodeNode(t).Ok? {
      var ps, cs := EncodeProps(t.props).value, EncodeChildren(t.children).value;
      var h := Le(|t.props|, 4) + Le(|t.children|, 4);
      assert EncodeNode(t).value == h + (ps + cs);
    }
  }

  lemma HeadedParts(dt: seq<byte>, h: seq<byte>, body: seq<byte>, n: nat)
    requires |h| == 8 && 8 + n <= |dt|
    ensures h + body == dt[..8 + n] <==> h == dt[..4] + dt[4..8] && body == dt[8..][..n]
  {
    assert dt[..8 + n] == dt[..4] + dt[4..8] + dt[8..][..n];
  }

  lemma CountRead(dt: seq<byte>, n: nat, m: nat)
    requires |dt| >= 8 && n < TWO32 && m < TWO32 && Le(n, 4) + Le(m, 4) == dt[..4] + dt[4..8]
    ensures FromLe(dt[..4]) == n
  {
    hide FromLe;
    assert (Le(n, 4) + Le(m, 4))[..4] == Le(n, 4) && (dt[..4] + dt[4..8])[..4] == dt[..4];
    assert Pow256(4) == TWO32;
    LeRoundTrip(n, 4);
  }

  lemma PropsLength(dt: seq<byte>, ps: Props, psize: nat, e: seq<byte>, rest: seq<byte>)
    requires |dt| >= 8 && dt[8..] == e + rest && EncodeProps(ps) == Ok(e) && psize <= |dt| - 8
    requires DecodeProps(dt[8..], |ps|, []) == Ok((ps, psize))
    ensures |e| == psize
  {
    hide DecodeProps, EncodeProps, CanonicalProps, DistinctKeys, DecodedProps;
    NothingDecoded();
    DecodePropsKeeps(dt[8..], |ps|, []);
    assert [] + ps == ps;
    PropsBackward(ps, [], rest);
    PropsForward(ps, [], rest);
  }

  /** The flag bit of a length word is dropped: the heads with and without
      it decode alike, so one of them is not plain. */
  lemma FlagBitIsDropped(name: seq<byte>, len: nat, rest: seq<byte>)
    requires |name| == 32 && len < TWO31
    ensures DecodeHead(name + Le(len + TWO31, 4) + rest) == DecodeHead(name + Le(len, 4) + rest)
    ensures name + Le(len + TWO31, 4) + rest != name + Le(len, 4) + rest
  {
    hide Slice, DecodeCString, DecodeProp;
    var a, b := name + Le(len + TWO31, 4) + rest, name + Le(len, 4) + rest;
    HeadFields(name, len, [], rest);
    HeadFields(name, len + TWO31, [], rest);
    assert a == name + Le(len + TWO31, 4) + [] + rest && b == name + Le(len, 4) + [] + rest;
    assert (len + TWO31) % TWO31 == len % TWO31;
    var l := RoundUp4(len % TWO31);
    assert Slice(a, 36, 36 + l) == Slice([] + rest, 0, l) == Slice(b, 36, 36 + l);
  }
}
