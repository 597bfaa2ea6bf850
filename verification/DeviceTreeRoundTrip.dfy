/** When encoding and decoding a device tree are inverse: exactly on the canonical trees. */
module DeviceTreeRoundTrip {
  import opened Wrappers
  import opened Words
  import opened Sequences
  import opened DeviceTree
  import Utf8
  import PyInt

  // ---- the canonical domain ----

  predicate CanonicalKey(k: string) { '\0' !in k && |Utf8.Encode(k)| < 32 }

  /** A tagged number in the one spelling the decoder prints, whose bytes do not read as text. */
  predicate CanonicalNumber(s: string, tag: string, width: nat)
    requires tag <= s
  {
    var n := PyInt.ParseInt(s[|tag|..]);
    && n.Some? && 0 <= n.value < Pow256(width)
    && s == tag + PyInt.Hex(n.value)
    && !IsProbablyString(Le(n.value, width))
  }

  predicate CanonicalText(k: string, s: string) {
    && '\0' !in s && |s| + 1 < TWO31
    && if k == "name" then |Utf8.Encode(s)| < RoundUp4(|s| + 1)
       else |s| >= 3 && forall i :: 0 <= i < |s| ==> Printable(s[i] as int)
  }

  predicate CanonicalValue(k: string, v: Value) {
    match v
    case Bytes(b) => k != "name" && |b| % 4 == 0 && |b| !in {0, 4, 8} && |b| < TWO31 && !IsProbablyString(b)
    case Str(s) =>
      if "u32:" <= s then k != "name" && CanonicalNumber(s, "u32:", 4)
      else if "u64:" <= s then k != "name" && CanonicalNumber(s, "u64:", 8)
      else if s == "<NULL>" then k != "name"
      else CanonicalText(k, s)
  }

  predicate CanonicalProps(ps: Props) {
    forall i :: 0 <= i < |ps| ==> CanonicalKey(ps[i].0) && CanonicalValue(ps[i].0, ps[i].1)
  }

  predicate Canonical(t: Tree) {
    && |t.props| < TWO32 && |t.children| < TWO32
    && CanonicalProps(t.props)
    && forall c :: c in t.children ==> Canonical(c)
  }

  /** What every Python dict guarantees: no key twice. */
  ghost predicate DistinctKeys(ps: Props) {
    forall i, j :: 0 <= i < j < |ps| ==> ps[i].0 != ps[j].0
  }

  ghost predicate IsDictTree(t: Tree) {
    DistinctKeys(t.props) && forall c :: c in t.children ==> IsDictTree(c)
  }

  // ---- text ----

  function Nuls(n: nat): string { seq(n, _ => '\0') }

  lemma {:induction false} DecodeZeros(n: nat)
    ensures Utf8.Decode(Zeros(n)) == Ok(Nuls(n))
  {
    if n > 0 {
      DecodeZeros(n - 1);
      assert Zeros(n)[1..] == Zeros(n - 1);
      assert Utf8.DecodeChar(Zeros(n)) == Some(('\0', 1));
      assert Nuls(n) == ['\0'] + Nuls(n - 1);
    } else {
      assert Zeros(0) == [] && Nuls(0) == "";
    }
  }

  /** Padded NUL-free text reads back as the text. */
  lemma PaddedText(s: string, n: nat)
    requires '\0' !in s
    ensures DecodeCString(Pad(Utf8.Encode(s), n)) == Ok(s)
    ensures Until(Pad(Utf8.Encode(s), n), 0) == Utf8.Encode(s)
  {
    var e := Utf8.Encode(s);
    var z: nat := if |e| >= n then 0 else n - |e|;
    assert Pad(e, n) == e + Zeros(z);
    DecodeZeros(z);
    Utf8.DecodeEncode(s, Zeros(z));
    UntilUnique(s + Nuls(z), '\0', s);
    Utf8.NulFree(s);
    UntilUnique(e + Zeros(z), 0, e);
  }

  /** Bytes that pass as a string decode to their printable prefix. */
  lemma ProbableText(p: seq<byte>)
    requires IsProbablyString(p)
    ensures var r := DecodeCString(p); r.Ok? && '\0' !in r.value && |r.value| == |Until(p, 0)| >= 3
    ensures forall i :: 0 <= i < |Until(p, 0)| ==> DecodeCString(p).value[i] as int == p[i] && Printable(p[i])
  {
    var d := Until(p, 0);
    forall x | x in p ensures x < 0x80 {
      var i :| 0 <= i < |p| && p[i] == x;
      assert i < |d| ==> d[i] == p[i];
    }
    Utf8.AsciiDecode(p);
    var s := Utf8.Decode(p).value;
    assert forall i :: 0 <= i < |d| ==> d[i] == p[i] && s[i] as int == p[i];
    UntilUnique(s, '\0', s[..|d|]);
  }

  /** Every string the decoder returns is NUL-free. */
  lemma DecodedNulFree(k: string, p: seq<byte>)
    requires DecodeProp(k, p).Ok? && DecodeProp(k, p).value.Str?
    ensures '\0' !in DecodeProp(k, p).value.s
  {
    if !(k == "name" || IsProbablyString(p)) && p != [] {
      var n := FromLe(p);
      PyInt.ParseDigitsRoundTrip(n, PyInt.Hexadecimal);
      var d := PyInt.Digits(n, PyInt.Hexadecimal);
      assert forall i :: 0 <= i < |d| ==> PyInt.IsDigit(d[i], PyInt.Hexadecimal) && d[i] != '\0';
    }
  }

  // ---- one property ----

  /** A canonical value survives the trip through its bytes. */
  lemma ValueForward(k: string, v: Value)
    requires CanonicalValue(k, v)
    ensures var r := EncodeValue(v);
      && r.Ok? && r.value.0 < TWO31 && |r.value.1| == RoundUp4(r.value.0)
      && DecodeProp(k, r.value.1) == Ok(v)
  {
    match v
    case Bytes(b) =>
    case Str(s) =>
      StrForward(k, s);
  }

  lemma StrForward(k: string, s: string)
    requires CanonicalValue(k, Str(s))
    ensures var r := EncodeValue(Str(s));
      && r.Ok? && r.value.0 < TWO31 && |r.value.1| == RoundUp4(r.value.0)
      && DecodeProp(k, r.value.1) == Ok(Str(s))
  {
    hide DecodeProp, CanonicalNumber, CanonicalText, PackInt, Utf8.Encode, RoundUp4;
    if "u32:" <= s {
      NumberForward(k, s, "u32:", 4);
    } else if "u64:" <= s {
      NumberForward(k, s, "u64:", 8);
    } else if s == "<NULL>" {
      NullForward(k);
    } else {
      TextForward(k, s);
    }
  }

  lemma NullForward(k: string)
    requires k != "name"
    ensures DecodeProp(k, []) == Ok(Str("<NULL>")) && RoundUp4(0) == 0
    ensures RoundUp4(4) == 4 && RoundUp4(8) == 8
  {
  }

  lemma NumberForward(k: string, s: string, tag: string, width: nat)
    requires (tag == "u32:" && width == 4) || (tag == "u64:" && width == 8)
    requires tag <= s && k != "name" && CanonicalNumber(s, tag, width)
    ensures var p := PackInt(s[4..], width);
      p.Ok? && |p.value| == width && DecodeProp(k, p.value) == Ok(Str(s))
  {
    var n := PyInt.ParseInt(s[4..]).value;
    LeRoundTrip(n, width);
  }

  lemma TextForward(k: string, s: string)
    requires CanonicalText(k, s)
    ensures var b := Pad(Utf8.Encode(s), RoundUp4(|s| + 1));
      |s| + 1 < TWO31 && |b| == RoundUp4(|s| + 1) && b[|b| - 1] == 0 && DecodeProp(k, b) == Ok(Str(s))
  {
    var e, m := Utf8.Encode(s), RoundUp4(|s| + 1);
    PaddedText(s, m);
    Utf8.NulFree(s);
    if k != "name" {
      assert forall c :: c in s ==> (c as int) < 0x80;
      Utf8.AsciiEncode(s);
      assert IsProbablyString(Pad(e, m));
    }
  }

  /** Where the three fields of an encoded property lie. */
  lemma HeadFields(name: seq<byte>, len: nat, val: seq<byte>, rest: seq<byte>)
    requires |name| == 32 && len < TWO32
    ensures var dt := name + Le(len, 4) + val + rest;
      && Slice(dt, 0, 32) == name && FromLe(dt[32..36]) == len
      && forall l: nat :: Slice(dt, 36, 36 + l) == Slice(val + rest, 0, l)
  {
    var dt := name + Le(len, 4) + val + rest;
    assert dt[32..36] == Le(len, 4);
    LeRoundTrip(len, 4);
    assert dt == (name + Le(len, 4)) + (val + rest);
  }

  lemma EncodePropIs(k: string, v: Value)
    requires CanonicalKey(k) && EncodeValue(v).Ok?
    requires EncodeValue(v).value.0 < TWO32 && |EncodeValue(v).value.1| % 4 == 0
    ensures var (len, val) := EncodeValue(v).value;
      EncodeProp(k, v) == Ok(Pad(Utf8.Encode(k), 32) + Le(len, 4) + val)
  {
    hide EncodeValue;
    Utf8.NulFree(k);
  }

  lemma DecodeHeadIs(dt: seq<byte>, k: string, v: Value, l: nat)
    requires |dt| >= 36 && DecodeCString(Slice(dt, 0, 32)) == Ok(k)
    requires l == RoundUp4(FromLe(dt[32..36]) % TWO31) && DecodeProp(k, Slice(dt, 36, 36 + l)) == Ok(v)
    ensures DecodeHead(dt) == Ok((k, v, 36 + l))
  {
  }

  lemma HeadForward(k: string, v: Value, rest: seq<byte>)
    requires CanonicalKey(k) && CanonicalValue(k, v)
    ensures var r := EncodeProp(k, v);
      r.Ok? && |r.value| % 4 == 0 && |r.value| >= 36 && DecodeHead(r.value + rest) == Ok((k, v, |r.value|))
  {
    hide EncodeProp, DecodeHead, DecodeProp, EncodeValue, CanonicalValue, DecodeCString, Utf8.Encode, Utf8.Decode,
         Until, FromLe, Le;
    ValueForward(k, v);
    EncodePropIs(k, v);
    PaddedText(k, 32);
    var name := Pad(Utf8.Encode(k), 32);
    var (len, val) := EncodeValue(v).value;
    HeadFields(name, len, val, rest);
    assert Slice(val + rest, 0, |val|) == val;
    DecodeHeadIs(name + Le(len, 4) + val + rest, k, v, |val|);
  }

  lemma SliceOfSum(val: seq<byte>, rest: seq<byte>, l: nat)
    ensures var p := Slice(val + rest, 0, l); |p| <= l && (l <= |val| ==> |p| == l && p == val[..l])
  {
  }

  /** Nothing else survives: a value that comes back was canonical. */
  lemma ValueBackward(k: string, v: Value, rest: seq<byte>)
    requires EncodeValue(v).Ok? && EncodeValue(v).value.0 < TWO32
    requires var (len, val) := EncodeValue(v).value;
      DecodeProp(k, Slice(val + rest, 0, RoundUp4(len % TWO31))) == Ok(v)
    ensures CanonicalValue(k, v)
  {
    var (len, val) := EncodeValue(v).value;
    var l := RoundUp4(len % TWO31);
    var p := Slice(val + rest, 0, l);
    hide DecodeProp, CanonicalValue, PackInt, Utf8.Encode, Slice;
    SliceOfSum(val, rest, l);
    match v
    case Bytes(b) =>
      BytesBackward(k, b, p, l);
    case Str(s) =>
      StrBackward(k, s, val, p, l);
  }

  lemma StrBackward(k: string, s: string, val: seq<byte>, p: seq<byte>, l: nat)
    requires EncodeValue(Str(s)).Ok? && EncodeValue(Str(s)).value.0 < TWO32 && val == EncodeValue(Str(s)).value.1
    requires l == RoundUp4(EncodeValue(Str(s)).value.0 % TWO31)
    requires |p| <= l && (l <= |val| ==> p == val[..l])
    requires DecodeProp(k, p) == Ok(Str(s))
    ensures CanonicalValue(k, Str(s))
  {
    hide CanonicalNumber, CanonicalText, DecodeProp, PackInt;
    DecodedNulFree(k, p);
    if "u32:" <= s {
      assert p == val;
      TagBackward(k, s, "u32:", 4, p);
    } else if "u64:" <= s {
      assert p == val;
      TagBackward(k, s, "u64:", 8, p);
    } else if s == "<NULL>" {
      NullBackward(k);
    } else {
      TextBackward(k, s, p, l);
    }
  }

  lemma NullBackward(k: string)
    requires DecodeProp(k, []) == Ok(Str("<NULL>"))
    ensures k != "name"
  {
  }

  lemma BytesBackward(k: string, b: seq<byte>, p: seq<byte>, l: nat)
    requires |b| < TWO32 && l == RoundUp4(|b| % TWO31) && |p| <= l
    requires |b| < TWO31 ==> |p| == l
    requires DecodeProp(k, p) == Ok(Bytes(b))
    ensures CanonicalValue(k, Bytes(b))
  {
    assert p == b;
  }

  lemma TagBackward(k: string, s: string, tag: string, width: nat, p: seq<byte>)
    requires (tag == "u32:" && width == 4) || (tag == "u64:" && width == 8)
    requires tag <= s && PackInt(s[4..], width) == Ok(p) && DecodeProp(k, p) == Ok(Str(s))
    ensures k != "name" && CanonicalNumber(s, tag, width)
  {
    var n := PyInt.ParseInt(s[4..]).value;
    LeRoundTrip(n, width);
    PyInt.ParseIntBound(s[4..]);
    if k == "name" || IsProbablyString(p) {
      // the text has at most width characters, so the literal has at most width - 4 digits
      var u := Utf8.Decode(p).value;
      assert s == Until(u, '\0') && |s| <= width;
      assert tag == "u64:" && |s[4..]| <= 4;
      PyInt.Pow16Mono(|s[4..]|, 4);
      assert PyInt.Pow16(4) == 0x10000 by { assert PyInt.Pow16(2) == 256; }
      assert n < 0x10000;
      SmallIsShort(n, p, u);
      assert false;
    }
  }

  lemma LeUnfold(n: nat, width: nat)
    requires width > 0
    ensures Le(n, width) == [n % 256] + Le(n / 256, width - 1)
  {
  }

  /** The bytes of a number below 2^16 hold at most two characters before a NUL. */
  lemma SmallIsShort(n: nat, p: seq<byte>, u: string)
    requires n < 0x10000 && p == Le(n, 8) && Utf8.Decode(p) == Ok(u)
    ensures |Until(u, '\0')| <= 2
  {
    hide Le, Utf8.Decode;
    LeUnfold(n, 8);
    LeUnfold(n / 256, 7);
    LeUnfold(n / 256 / 256, 6);
    assert n / 256 / 256 == 0;
    ZeroByteEnds(p, u, 2);
  }

  /** A zero byte at offset i becomes a NUL at or before character i. */
  lemma {:induction false} ZeroByteEnds(p: seq<byte>, u: string, i: nat)
    requires i < |p| && p[i] == 0 && Utf8.Decode(p) == Ok(u)
    ensures |Until(u, '\0')| <= i
    decreases i
  {
    if p[0] != 0 {
      var (c, n) := Utf8.DecodeChar(p).value;
      assert n <= i;
      assert u[1..] == Utf8.Decode(p[n..]).value;
      ZeroByteEnds(p[n..], u[1..], i - n);
    }
  }

  lemma TextBackward(k: string, s: string, p: seq<byte>, l: nat)
    requires !("u32:" <= s) && !("u64:" <= s) && s != "<NULL>" && '\0' !in s
    requires EncodeValue(Str(s)).Ok? && EncodeValue(Str(s)).value.0 < TWO32
    requires l == RoundUp4((|s| + 1) % TWO31) && |p| <= l
    requires l <= |EncodeValue(Str(s)).value.1| ==> p == EncodeValue(Str(s)).value.1[..l]
    requires DecodeProp(k, p) == Ok(Str(s))
    ensures CanonicalText(k, s)
  {
    var e := Utf8.Encode(s);
    var m := RoundUp4(|s| + 1);
    Utf8.NulFree(s);
    assert |e| < m;
    assert EncodeValue(Str(s)).value.1 == Pad(e, m);
    DecodedText(k, s, p);
    assert |s| + 1 < TWO31;
  }

  /** Untagged text comes out of the decoder through its string branch only. */
  lemma DecodedText(k: string, s: string, p: seq<byte>)
    requires !("u32:" <= s) && !("u64:" <= s) && s != "<NULL>"
    requires DecodeProp(k, p) == Ok(Str(s))
    ensures |s| <= |p|
    ensures k != "name" ==> |s| >= 3 && forall i :: 0 <= i < |s| ==> Printable(s[i] as int)
  {
    assert k == "name" || IsProbablyString(p) by {
      hide IsProbablyString, DecodeCString, PyInt.Hex;
    }
    if IsProbablyString(p) {
      ProbableText(p);
    }
  }

  lemma HeadBackward(k: string, v: Value, rest: seq<byte>, m: nat)
    requires EncodeProp(k, v).Ok? && DecodeHead(EncodeProp(k, v).value + rest) == Ok((k, v, m))
    ensures CanonicalKey(k) && CanonicalValue(k, v)
  {
    var name := Pad(Utf8.Encode(k), 32);
    var (len, val) := EncodeValue(v).value;
    var dt := EncodeProp(k, v).value + rest;
    assert '\0' !in k;
    Utf8.NulFree(k);
    HeadFields(name, len, val, rest);
    ValueBackward(k, v, rest);
  }

  // ---- property lists ----

  lemma {:induction false} PutAppends(ps: Props, k: string, v: Value)
    ensures |Put(ps, k, v)| == |ps| + 1 <==> forall i :: 0 <= i < |ps| ==> ps[i].0 != k
    ensures |Put(ps, k, v)| == |ps| + 1 ==> Put(ps, k, v) == ps + [(k, v)]
  {
    if ps != [] {
      PutAppends(ps[1..], k, v);
      assert ps == [ps[0]] + ps[1..];
      assert forall i :: 1 <= i < |ps| ==> ps[i] == ps[1..][i - 1];
    }
  }

  /** A dict that grew at every step kept what it had. */
  lemma {:induction false} DecodePropsGrows(dt: seq<byte>, n: nat, ps: Props)
    requires DecodeProps(dt, n, ps).Ok?
    ensures var out := DecodeProps(dt, n, ps).value.0; |out| <= |ps| + n && (|out| == |ps| + n ==> ps <= out)
    decreases n
  {
    hide DecodeHead;
    if n > 0 {
      var (k, v, size) := DecodeHead(dt).value;
      PutAppends(ps, k, v);
      DecodePropsGrows(From(dt, size), n - 1, Put(ps, k, v));
    }
  }

  lemma FromAppend(a: seq<byte>, b: seq<byte>)
    ensures From(a + b, |a|) == b
  {
  }

  lemma NoProps(dt: seq<byte>, ps: Props)
    ensures DecodeProps(dt, 0, ps) == Ok((ps, 0))
  {
  }

  lemma PropsStep(e: seq<byte>, tail: seq<byte>, k: string, v: Value, n: nat, ps: Props)
    requires n > 0 && DecodeHead(e + tail) == Ok((k, v, |e|))
    ensures var r := DecodeProps(tail, n - 1, Put(ps, k, v));
      r.Ok? ==> DecodeProps(e + tail, n, ps) == Ok((r.value.0, |e| + r.value.1))
  {
    hide DecodeHead;
    FromAppend(e, tail);
  }

  lemma {:induction false} PropsForward(ps: Props, acc: Props, rest: seq<byte>)
    requires CanonicalProps(ps) && DistinctKeys(acc + ps)
    ensures var r := EncodeProps(ps);
      r.Ok? && |r.value| % 4 == 0 && DecodeProps(r.value + rest, |ps|, acc) == Ok((acc + ps, |r.value|))
    decreases |ps|
  {
    hide DecodeHead, EncodeProp, CanonicalKey, CanonicalValue, DecodeProps, Put;
    if ps == [] {
      assert acc + ps == acc;
      assert [] + rest == rest;
      NoProps(rest, acc);
    } else {
      var (k, v) := ps[0];
      var acc' := acc + [ps[0]];
      assert acc' + ps[1..] == acc + ps;
      PropsForward(ps[1..], acc', rest);
      var es := EncodeProps(ps[1..]).value;
      HeadForward(k, v, es + rest);
      var e := EncodeProp(k, v).value;
      assert e + es + rest == e + (es + rest);
      assert forall i :: 0 <= i < |acc| ==> acc[i].0 == (acc + ps)[i].0 != (acc + ps)[|acc|].0;
      PutAppends(acc, k, v);
      PropsStep(e, es + rest, k, v, |ps|, acc);
    }
  }

  lemma {:induction false} PropsBackward(ps: Props, acc: Props, rest: seq<byte>)
    requires DistinctKeys(acc + ps) && EncodeProps(ps).Ok?
    requires var r := DecodeProps(EncodeProps(ps).value + rest, |ps|, acc); r.Ok? && r.value.0 == acc + ps
    ensures CanonicalProps(ps)
    decreases |ps|
  {
    hide DecodeHead, EncodeProp, CanonicalKey, CanonicalValue, Put, From;
    if ps != [] {
      var (k, v) := ps[0];
      var e, es := EncodeProp(k, v).value, EncodeProps(ps[1..]).value;
      var dt := e + (es + rest);
      assert e + es + rest == dt;
      var (k', v', size) := DecodeHead(dt).value;
      var acc' := Put(acc, k', v');
      DecodePropsGrows(From(dt, size), |ps| - 1, acc');
      PutAppends(acc, k', v');
      assert acc' == acc + [(k', v')] && acc' <= acc + ps;
      assert (acc + ps)[|acc|] == acc'[|acc|];
      HeadBackward(k, v, es + rest, size);
      HeadForward(k, v, es + rest);
      FromAppend(e, es + rest);
      assert acc' + ps[1..] == acc + ps;
      PropsBackward(ps[1..], acc', rest);
      assert forall i :: 1 <= i < |ps| ==> ps[i] == ps[1..][i - 1];
    }
  }

  // ---- trees ----

  /** Header and body of an encoded node. */
  lemma NodeFields(np: nat, nc: nat, ps: seq<byte>, tail: seq<byte>)
    requires np < TWO32 && nc < TWO32
    ensures var dt := Le(np, 4) + Le(nc, 4) + ps + tail;
      FromLe(dt[..4]) == np && FromLe(dt[4..8]) == nc && dt[8..] == ps + tail && From(dt, 8 + |ps|) == tail
  {
    var dt := Le(np, 4) + Le(nc, 4) + ps + tail;
    assert dt[..4] == Le(np, 4) && dt[4..8] == Le(nc, 4);
    LeRoundTrip(np, 4);
    LeRoundTrip(nc, 4);
  }

  /** Decoding a node that starts with the given header and decodable parts. */
  lemma NodeStep(t: Tree, ps: seq<byte>, cs: seq<byte>, rest: seq<byte>)
    requires |t.props| < TWO32 && |t.children| < TWO32
    requires DecodeProps(ps + (cs + rest), |t.props|, []) == Ok((t.props, |ps|))
    requires DecodeChildren(cs + rest, |t.children|) == Ok((t.children, |cs|))
    ensures var e := Le(|t.props|, 4) + Le(|t.children|, 4) + ps + cs;
      DecodeNode(e + rest) == Ok((t, |e|))
  {
    hide DecodeProps, DecodeChildren, Le, FromLe, From;
    var h := Le(|t.props|, 4) + Le(|t.children|, 4);
    assert h + ps + cs + rest == h + ps + (cs + rest);
    NodeFields(|t.props|, |t.children|, ps, cs + rest);
  }

  lemma {:induction false} NodeForward(t: Tree, rest: seq<byte>)
    requires Canonical(t) && IsDictTree(t)
    ensures var r := EncodeNode(t);
      r.Ok? && |r.value| % 4 == 0 && DecodeNode(r.value + rest) == Ok((t, |r.value|))
    decreases t, 0
  {
    hide CanonicalProps, EncodeProps, DecodeProps, EncodeChildren, DecodeChildren, DecodeNode, DistinctKeys, Le;
    ChildrenForward(t.children, rest);
    var cs := EncodeChildren(t.children).value;
    assert [] + t.props == t.props;
    PropsForward(t.props, [], cs + rest);
    NodeStep(t, EncodeProps(t.props).value, cs, rest);
  }

  /** One child and the rest. */
  lemma ChildrenUnfold(dt: seq<byte>, c: Tree, size: nat, n: nat)
    requires DecodeNode(dt) == Ok((c, size)) && DecodeChildren(From(dt, size), n).Ok?
    ensures var (cs, size') := DecodeChildren(From(dt, size), n).value;
      DecodeChildren(dt, n + 1) == Ok(([c] + cs, size + size'))
  {
    hide DecodeNode, From;
  }

  lemma ChildrenStep(c: Tree, cs: seq<Tree>, e: seq<byte>, es: seq<byte>, rest: seq<byte>)
    requires DecodeNode(e + (es + rest)) == Ok((c, |e|)) && DecodeChildren(es + rest, |cs|) == Ok((cs, |es|))
    ensures DecodeChildren(e + es + rest, 1 + |cs|) == Ok(([c] + cs, |e + es|))
  {
    hide DecodeNode, DecodeChildren, From;
    assert e + es + rest == e + (es + rest);
    FromAppend(e, es + rest);
    ChildrenUnfold(e + es + rest, c, |e|, |cs|);
  }

  lemma {:induction false} ChildrenForward(cs: seq<Tree>, rest: seq<byte>)
    requires forall c :: c in cs ==> Canonical(c) && IsDictTree(c)
    ensures var r := EncodeChildren(cs);
      r.Ok? && |r.value| % 4 == 0 && DecodeChildren(r.value + rest, |cs|) == Ok((cs, |r.value|))
    decreases cs, 0
  {
    hide EncodeNode, DecodeNode, Canonical, IsDictTree, DecodeChildren;
    if cs == [] {
      assert [] + rest == rest;
      NoChildren(rest);
    } else {
      ChildrenForward(cs[1..], rest);
      var es := EncodeChildren(cs[1..]).value;
      NodeForward(cs[0], es + rest);
      ChildrenStep(cs[0], cs[1..], EncodeNode(cs[0]).value, es, rest);
      assert cs == [cs[0]] + cs[1..];
    }
  }

  lemma NoChildren(dt: seq<byte>)
    ensures DecodeChildren(dt, 0) == Ok(([], 0))
  {
  }

  lemma {:induction false} NodeBackward(t: Tree, rest: seq<byte>)
    requires IsDictTree(t) && EncodeNode(t).Ok?
    requires var r := DecodeNode(EncodeNode(t).value + rest); r.Ok? && r.value.0 == t
    ensures Canonical(t)
    decreases t, 0
  {
    hide CanonicalProps, EncodeProps, DecodeProps;
    var ps, cs := EncodeProps(t.props).value, EncodeChildren(t.children).value;
    NodeFields(|t.props|, |t.children|, ps, cs + rest);
    var h := Le(|t.props|, 4) + Le(|t.children|, 4);
    assert h + ps + cs + rest == h + ps + (cs + rest);
    assert [] + t.props == t.props;
    PropsBackward(t.props, [], cs + rest);
    PropsForward(t.props, [], cs + rest);
    ChildrenBackward(t.children, rest);
  }

  lemma {:induction false} ChildrenBackward(cs: seq<Tree>, rest: seq<byte>)
    requires (forall c :: c in cs ==> IsDictTree(c)) && EncodeChildren(cs).Ok?
    requires var r := DecodeChildren(EncodeChildren(cs).value + rest, |cs|); r.Ok? && r.value.0 == cs
    ensures forall c :: c in cs ==> Canonical(c)
    decreases cs, 0
  {
    hide EncodeNode, DecodeNode, Canonical, IsDictTree;
    if cs != [] {
      var e, es := EncodeNode(cs[0]).value, EncodeChildren(cs[1..]).value;
      assert e + es + rest == e + (es + rest);
      NodeBackward(cs[0], es + rest);
      NodeForward(cs[0], es + rest);
      FromAppend(e, es + rest);
      assert cs == [cs[0]] + cs[1..];
      ChildrenBackward(cs[1..], rest);
    }
  }

  /** The round trip holds, with any trailing bytes, on the canonical trees and on no others. */
  lemma RoundTrip(t: Tree, rest: seq<byte>)
    requires IsDictTree(t)
    ensures Canonical(t) <==>
      var r := EncodeNode(t);
      r.Ok? && DecodeNode(r.value + rest) == Ok((t, |r.value|))
    ensures Canonical(t) ==> |EncodeNode(t).value| % 4 == 0
  {
    hide *;
    if Canonical(t) {
      NodeForward(t, rest);
    }
    var r := EncodeNode(t);
    if r.Ok? && DecodeNode(r.value + rest) == Ok((t, |r.value|)) {
      NodeBackward(t, rest);
    }
  }
}
