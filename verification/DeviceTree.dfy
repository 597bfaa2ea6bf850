/** The device tree codec of scripts/dt_fixup.py on values: what the decoder and the encoder compute. */
module DeviceTree {
  import opened Wrappers
  import opened Words
  import opened Sequences
  import Utf8
  import PyInt

  /** A property value is a Python str or a Python bytes; numbers are strings with a tag. */
  datatype Value = Str(s: string) | Bytes(b: seq<byte>)

  /** A dict in insertion order. */
  type Props = seq<(string, Value)>

  datatype Tree = Tree(props: Props, children: seq<Tree>)

  function RoundUp4(i: nat): (r: nat)
    ensures r % 4 == 0 && i <= r < i + 4
  {
    (i + 3) / 4 * 4
  }

  function Min(a: nat, b: nat): nat { if a < b then a else b }

  /** b[lo:hi], which never fails. */
  function Slice(b: seq<byte>, lo: nat, hi: nat): seq<byte>
    requires lo <= hi
  {
    b[Min(lo, |b|)..Min(hi, |b|)]
  }

  /** b[lo:] */
  function From(b: seq<byte>, lo: nat): seq<byte> { b[Min(lo, |b|)..] }

  function Zeros(n: nat): seq<byte> { seq(n, _ => 0) }

  /** b.ljust(n, b'\x00') */
  function Pad(b: seq<byte>, n: nat): seq<byte> {
    if |b| >= n then b else b + Zeros(n - |b|)
  }

  // ---- decoding ----

  function DecodeCString(b: seq<byte>): Result<string> {
    var s :- Utf8.Decode(b);
    Ok(Until(s, '\0'))
  }

  predicate Printable(x: int) { 0x20 <= x <= 0x7E }

  predicate IsProbablyString(b: seq<byte>) {
    var d := Until(b, 0);
    && |d| >= 3
    && (forall i :: 0 <= i < |d| ==> Printable(d[i]))
    && (forall i :: |d| <= i < |b| ==> b[i] == 0)
  }

  function DecodeProp(name: string, prop: seq<byte>): Result<Value> {
    if name == "name" || IsProbablyString(prop) then
      var s :- DecodeCString(prop);
      Ok(Str(s))
    else if |prop| == 0 then Ok(Str("<NULL>"))
    else if |prop| == 4 then Ok(Str("u32:" + PyInt.Hex(FromLe(prop))))
    else if |prop| == 8 then Ok(Str("u64:" + PyInt.Hex(FromLe(prop))))
    else Ok(Bytes(prop))
  }

  /** props[k] = v: a known key keeps its place. */
  function Put(ps: Props, k: string, v: Value): (r: Props)
    ensures |ps| <= |r| <= |ps| + 1
  {
    if ps == [] then [(k, v)]
    else if ps[0].0 == k then [(k, v)] + ps[1..]
    else [ps[0]] + Put(ps[1..], k, v)
  }

  /** One property: its name, its value, and the size it claims. */
  function DecodeHead(dt: seq<byte>): (r: Result<(string, Value, nat)>)
    ensures r.Ok? ==> r.value.2 >= 36 && |dt| >= 36
  {
    var name :- DecodeCString(Slice(dt, 0, 32));
    if |dt| < 36 then Err(StructError)
    else
      var len := RoundUp4(FromLe(dt[32..36]) % TWO31);
      var v :- DecodeProp(name, Slice(dt, 36, 36 + len));
      Ok((name, v, 36 + len))
  }

  function DecodeProps(dt: seq<byte>, n: nat, ps: Props): Result<(Props, nat)>
    decreases n
  {
    if n == 0 then Ok((ps, 0))
    else
      var (k, v, size) :- DecodeHead(dt);
      var (ps', size') :- DecodeProps(From(dt, size), n - 1, Put(ps, k, v));
      Ok((ps', size + size'))
  }

  function DecodeNode(dt: seq<byte>): (r: Result<(Tree, nat)>)
    ensures r.Ok? ==> r.value.1 >= 8
    decreases |dt|, 0, 0
  {
    if |dt| < 8 then Err(ValueError)
    else
      var (ps, psize) :- DecodeProps(dt[8..], FromLe(dt[..4]), []);
      var (cs, csize) :- DecodeChildren(From(dt, 8 + psize), FromLe(dt[4..8]));
      Ok((Tree(ps, cs), 8 + psize + csize))
  }

  function DecodeChildren(dt: seq<byte>, n: nat): (r: Result<(seq<Tree>, nat)>)
    ensures r.Ok? ==> |r.value.0| == n
    decreases |dt|, 1, n
  {
    if n == 0 then Ok(([], 0))
    else
      var (c, size) :- DecodeNode(dt);
      var (cs, size') :- DecodeChildren(From(dt, size), n - 1);
      Ok(([c] + cs, size + size'))
  }

  // ---- encoding ----

  /** int(text, 0) packed into the given number of bytes. */
  function PackInt(text: string, width: nat): (r: Result<seq<byte>>)
    ensures r.Ok? ==> |r.value| == width
  {
    match PyInt.ParseInt(text)
    case None => Err(ValueError)
    case Some(n) => if 0 <= n < Pow256(width) then Ok(Le(n, width)) else Err(StructError)
  }

  /** The length word and the padded bytes of a value. */
  function EncodeValue(v: Value): Result<(nat, seq<byte>)> {
    match v
    case Bytes(b) => Ok((|b|, Pad(b, RoundUp4(|b|))))
    case Str(s) =>
      if "u32:" <= s then
        var p :- PackInt(s[4..], 4);
        Ok((4, p))
      else if "u64:" <= s then
        var p :- PackInt(s[4..], 8);
        Ok((8, p))
      else if s == "<NULL>" then Ok((0, []))
      else
        var b := Pad(Utf8.Encode(s), RoundUp4(|s| + 1));
        if b[|b| - 1] != 0 then Err(ValueError) else Ok((|s| + 1, b))
  }

  function EncodeProp(k: string, v: Value): Result<seq<byte>> {
    if |k| >= 32 then Err(ValueError)
    else
      var name := Pad(Utf8.Encode(k), 32);
      if name[|name| - 1] != 0 then Err(ValueError)
      else
        var (len, val) :- EncodeValue(v);
        if |val| % 4 != 0 then Err(ValueError)
        else if len >= TWO32 then Err(StructError)
        else
          var e := name + Le(len, 4) + val;
          if |e| % 4 != 0 then Err(ValueError) else Ok(e)
  }

  function EncodeProps(ps: Props): Result<seq<byte>> {
    if ps == [] then Ok([])
    else
      var e :- EncodeProp(ps[0].0, ps[0].1);
      var es :- EncodeProps(ps[1..]);
      Ok(e + es)
  }

  function EncodeNode(t: Tree): Result<seq<byte>>
    decreases t, 0
  {
    if |t.props| >= TWO32 || |t.children| >= TWO32 then Err(StructError)
    else
      var ps :- EncodeProps(t.props);
      var cs :- EncodeChildren(t.children);
      Ok(Le(|t.props|, 4) + Le(|t.children|, 4) + ps + cs)
  }

  function EncodeChildren(cs: seq<Tree>): Result<seq<byte>>
    decreases cs, 0
  {
    if cs == [] then Ok([])
    else
      var e :- EncodeNode(cs[0]);
      var es :- EncodeChildren(cs[1..]);
      Ok(e + es)
  }
}
