/** The packed words of the RTKit management endpoint (scripts/apple_rtkit.c). */
module RtkitProtocol {
  import opened Words

  const P16: nat := 0x1_0000
  const P44: nat := 0x1000_0000_0000
  const P48: nat := 0x1_0000_0000_0000
  const P51: nat := 0x8_0000_0000_0000
  const P52: nat := 0x10_0000_0000_0000

  const MGMT_HELLO := 1
  const MGMT_HELLO_REPLY := 2
  const MGMT_STARTEP := 5
  const MGMT_IOP_PWR := 6
  const MGMT_IOP_PWR_ACK := 7
  const MGMT_EPMAP := 8
  const MGMT_AP_PWR := 0xb

  const RTKIT_VER_MIN := 11
  const RTKIT_VER_MAX := 12

  /** The type field, bits 59..52. */
  function MgmtType(msg: nat): nat { msg / P52 % 256 }

  function MgmtWord(mtype: nat, payload: nat): nat { Or(mtype * P52, payload) }

  function HelloWord(): nat { MgmtWord(MGMT_HELLO, Or(RTKIT_VER_MAX * P16, RTKIT_VER_MIN)) }

  lemma PowerConstants()
    ensures Pow2(16) == P16 && Pow2(32) == TWO32 && Pow2(44) == P44 && Pow2(48) == P48 && Pow2(51) == P51
    ensures Pow2(52) == P52
  {
    assert Pow2(8) == 256 && Pow2(4) == 16 && Pow2(3) == 8;
    Pow2Add(8, 8);
    Pow2Add(16, 16);
    Pow2Add(8, 4);
    Pow2Add(32, 12);
    Pow2Add(32, 16);
    Pow2Add(48, 3);
    Pow2Add(48, 4);
  }

  /** A management word keeps its two fields apart. */
  lemma MgmtFields(mtype: nat, payload: nat)
    requires mtype < 256 && payload < P52
    ensures MgmtWord(mtype, payload) == mtype * P52 + payload
    ensures MgmtType(MgmtWord(mtype, payload)) == mtype && MgmtWord(mtype, payload) % P52 == payload
  {
    hide Or, Pow2;
    PowerConstants();
    OrDisjoint(mtype, payload, 52);
  }

  // ---- bits ----

  predicate Bit(x: nat, k: nat) {
    if k == 0 then x % 2 == 1 else Bit(x / 2, k - 1)
  }

  lemma {:induction false} BitOfOr(a: nat, b: nat, k: nat)
    ensures Bit(Or(a, b), k) <==> Bit(a, k) || Bit(b, k)
    decreases k
  {
    if a == 0 || b == 0 {
      NoBits(k);
    } else {
      assert Or(a, b) / 2 == Or(a / 2, b / 2);
      if k > 0 {
        BitOfOr(a / 2, b / 2, k - 1);
      }
    }
  }

  lemma {:induction false} NoBits(k: nat)
    ensures !Bit(0, k)
  {
    if k > 0 {
      NoBits(k - 1);
    }
  }

  lemma {:induction false} BitOfPow2(j: nat, k: nat)
    ensures Bit(Pow2(j), k) <==> j == k
    decreases k
  {
    if j == 0 {
      if k > 0 {
        NoBits(k - 1);
      }
    } else if k > 0 {
      assert Pow2(j) / 2 == Pow2(j - 1);
      BitOfPow2(j - 1, k - 1);
    }
  }

  lemma {:induction false} OrBound(a: nat, b: nat, k: nat)
    requires a < Pow2(k) && b < Pow2(k)
    ensures Or(a, b) < Pow2(k)
    decreases k
  {
    if a > 0 && b > 0 {
      OrBound(a / 2, b / 2, k - 1);
    }
  }

  // ---- the endpoint map ----

  /** The bitmap of the chunk `base`, built from its lowest bits up. */
  function BitmapUpTo(present: seq<bool>, base: nat, bits: nat): nat {
    if bits == 0 then 0
    else
      var b := BitmapUpTo(present, base, bits - 1);
      var ep := base * 32 + (bits - 1);
      if ep < |present| && present[ep] then Or(b, Pow2(bits - 1)) else b
  }

  function Bitmap(present: seq<bool>, base: nat): nat { BitmapUpTo(present, base, 32) }

  /** The chunk of the highest present endpoint, 0 when there is none. */
  function LastBase(present: seq<bool>): nat {
    if present == [] then 0
    else if present[|present| - 1] then (|present| - 1) / 32
    else LastBase(present[..|present| - 1])
  }

  function EpmapPayload(base: nat, bitmap: nat, last: bool): nat {
    var p := Or(base * TWO32, bitmap % TWO32);
    if last then Or(p, P51) else p
  }

  function EpmapWord(present: seq<bool>, base: nat): nat {
    MgmtWord(MGMT_EPMAP, EpmapPayload(base, Bitmap(present, base), base == LastBase(present)))
  }

  function EpmapWords(present: seq<bool>): seq<nat> {
    seq(LastBase(present) + 1, base requires base >= 0 => EpmapWord(present, base))
  }

  // the guest's reading of one word
  function EpmapBase(word: nat): nat { word / TWO32 % 8 }
  function EpmapBitmap(word: nat): nat { word % TWO32 }
  predicate EpmapLast(word: nat) { word / P51 % 2 == 1 }

  ghost predicate Advertises(words: seq<nat>, ep: nat) {
    exists i :: 0 <= i < |words| && EpmapBase(words[i]) == ep / 32 && Bit(EpmapBitmap(words[i]), ep % 32)
  }

  lemma {:induction false} Pow2Mono(a: nat, b: nat)
    requires a <= b
    ensures Pow2(a) <= Pow2(b)
  {
    if a < b {
      Pow2Mono(a, b - 1);
    }
  }

  lemma {:induction false} BitmapBits(present: seq<bool>, base: nat, bits: nat)
    ensures BitmapUpTo(present, base, bits) < Pow2(bits)
    ensures forall k: nat :: Bit(BitmapUpTo(present, base, bits), k) <==>
      k < bits && base * 32 + k < |present| && present[base * 32 + k]
  {
    hide Or, Bit;
    if bits == 0 {
      forall k: nat ensures !Bit(0, k) { NoBits(k); }
    } else {
      BitmapBits(present, base, bits - 1);
      var b := BitmapUpTo(present, base, bits - 1);
      OrBound(b, Pow2(bits - 1), bits);
      forall k: nat
        ensures Bit(BitmapUpTo(present, base, bits), k) <==>
          k < bits && base * 32 + k < |present| && present[base * 32 + k]
      {
        BitOfOr(b, Pow2(bits - 1), k);
        BitOfPow2(bits - 1, k);
        assert Bit(b, k) <==> k < bits - 1 && base * 32 + k < |present| && present[base * 32 + k];
      }
    }
  }

  lemma {:induction false} LastBaseBound(present: seq<bool>)
    ensures forall ep :: 0 <= ep < |present| && present[ep] ==> ep / 32 <= LastBase(present)
    ensures LastBase(present) > 0 ==> LastBase(present) * 32 < |present|
  {
    if present != [] && !present[|present| - 1] {
      var init := present[..|present| - 1];
      LastBaseBound(init);
      assert forall ep :: 0 <= ep < |present| && present[ep] ==> init[ep];
    }
  }

  lemma EpmapSum(base: nat, bitmap: nat, last: bool)
    requires base < 8 && bitmap < TWO32
    ensures EpmapPayload(base, bitmap, last) == base * TWO32 + bitmap + (if last then P51 else 0) < P52
  {
    hide Or, Pow2;
    PowerConstants();
    OrDisjoint(base, bitmap, 32);
    OrDisjoint(1, base * TWO32 + bitmap, 51);
  }

  /** No field of an EPMAP word spills into another. */
  lemma EpmapFields(base: nat, bitmap: nat, last: bool)
    requires base < 8 && bitmap < TWO32
    ensures var w := MgmtWord(MGMT_EPMAP, EpmapPayload(base, bitmap, last));
      MgmtType(w) == MGMT_EPMAP && EpmapBase(w) == base && EpmapBitmap(w) == bitmap && (EpmapLast(w) <==> last)
  {
    hide MgmtWord, EpmapPayload, MgmtType;
    EpmapSum(base, bitmap, last);
    MgmtFields(MGMT_EPMAP, EpmapPayload(base, bitmap, last));
  }

  lemma EpmapWordFields(present: seq<bool>, base: nat)
    requires |present| <= 256 && base <= LastBase(present)
    ensures var w := EpmapWord(present, base);
      && MgmtType(w) == MGMT_EPMAP && EpmapBase(w) == base && EpmapBitmap(w) == Bitmap(present, base)
      && (EpmapLast(w) <==> base == LastBase(present))
  {
    hide EpmapPayload, MgmtWord, Bit, BitmapUpTo, MgmtType, EpmapBase, EpmapBitmap, EpmapLast, LastBase, Pow2;
    LastBaseBound(present);
    PowerConstants();
    BitmapBits(present, base, 32);
    EpmapFields(base, Bitmap(present, base), base == LastBase(present));
  }

  /** Chunks come in order from 0, only the final one says LAST, and
      together they name exactly the present endpoints. */
  lemma EpmapRoundTrip(present: seq<bool>)
    requires |present| <= 256
    ensures var words := EpmapWords(present);
      && |words| > 0
      && (forall i :: 0 <= i < |words| ==>
            MgmtType(words[i]) == MGMT_EPMAP && EpmapBase(words[i]) == i && (EpmapLast(words[i]) <==> i == |words| - 1))
      && (forall ep: nat :: Advertises(words, ep) <==> ep < |present| && present[ep])
  {
    hide EpmapWord, Bit, BitmapUpTo, MgmtType, EpmapBase, EpmapBitmap, EpmapLast, LastBase;
    var words := EpmapWords(present);
    LastBaseBound(present);
    forall i | 0 <= i < |words|
      ensures MgmtType(words[i]) == MGMT_EPMAP && EpmapBase(words[i]) == i
      ensures (EpmapLast(words[i]) <==> i == |words| - 1)
      ensures EpmapBitmap(words[i]) == Bitmap(present, i)
    {
      EpmapWordFields(present, i);
    }
    forall ep: nat
      ensures Advertises(words, ep) <==> ep < |present| && present[ep]
    {
      BitmapBits(present, ep / 32, 32);
      assert ep / 32 * 32 + ep % 32 == ep;
      if ep / 32 < |words| {
        assert EpmapBase(words[ep / 32]) == ep / 32;
      }
    }
  }
}
