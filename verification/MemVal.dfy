/** The byte-order macros of lib_mem.h, as compiled for a little-endian CPU with 32-bit words. A
    memory address is an array of octets and an index; masks and shifts of whole octets are written
    as products, quotients and remainders. */
module MemVal {
  import opened Word
  import opened Positional

  // ---------------------------------------------------------------------------------------------
  // Values in memory
  // ---------------------------------------------------------------------------------------------

  /** The value of octets whose least significant one comes first. */
  function Little(bs: seq<U8>): nat {
    if bs == [] then 0 else bs[0] + 0x100 * Little(bs[1..])
  }

  /** The value of octets whose most significant one comes first. */
  function Big(bs: seq<U8>): nat {
    Value(bs, 0x100)
  }

  function Reverse(bs: seq<U8>): seq<U8> {
    seq(|bs|, i requires 0 <= i < |bs| => bs[|bs| - 1 - i])
  }

  lemma IsReverse(bs: seq<U8>, r: seq<U8>)
    requires |r| == |bs| && forall k :: 0 <= k < |r| ==> r[k] == bs[|bs| - 1 - k]
    ensures r == Reverse(bs)
  {
  }

  /** Reading octets in one order is reading them reversed in the other. */
  lemma {:induction false} LittleOfReverse(bs: seq<U8>)
    ensures Little(Reverse(bs)) == Big(bs)
  {
    if bs != [] {
      LittleOfReverse(bs[..|bs| - 1]);
      assert Reverse(bs)[1..] == Reverse(bs[..|bs| - 1]);
    }
  }

  lemma ReverseTwice(bs: seq<U8>)
    ensures Reverse(Reverse(bs)) == bs
  {
  }

  lemma BigOfReverse(bs: seq<U8>)
    ensures Big(Reverse(bs)) == Little(bs)
  {
    LittleOfReverse(Reverse(bs));
    ReverseTwice(bs);
  }

  // ---------------------------------------------------------------------------------------------
  // MEM_VAL_GET_xxx(), MEM_VAL_SET_xxx() and MEM_VAL_BIG_TO_LITTLE_xx()
  // ---------------------------------------------------------------------------------------------

  function GetInt16UBig(bs: seq<U8>): U16
    requires |bs| >= 2
  {
    (bs[0] as int) * 0x100 + bs[1]
  }

  function GetInt32UBig(bs: seq<U8>): U32
    requires |bs| >= 4
  {
    (bs[0] as int) * 0x100_0000 + (bs[1] as int) * 0x1_0000 + (bs[2] as int) * 0x100 + bs[3]
  }

  function GetInt16ULittle(bs: seq<U8>): U16
    requires |bs| >= 2
  {
    bs[0] + (bs[1] as int) * 0x100
  }

  function GetInt32ULittle(bs: seq<U8>): U32
    requires |bs| >= 4
  {
    bs[0] + (bs[1] as int) * 0x100 + (bs[2] as int) * 0x1_0000 + (bs[3] as int) * 0x100_0000
  }

  /** The octet of `val` that counts `unit`s: masked out and shifted down. */
  function Octet(val: int, unit: nat): U8
    requires unit >= 1
  {
    val / unit % 0x100
  }

  /** The octets of a value, in either order. */
  function BigOctets16(val: U16): seq<U8> {
    [Octet(val, 0x100), Octet(val, 1)]
  }

  function BigOctets32(val: U32): seq<U8> {
    [Octet(val, 0x100_0000), Octet(val, 0x1_0000), Octet(val, 0x100), Octet(val, 1)]
  }

  function LittleOctets16(val: U16): seq<U8> {
    [Octet(val, 1), Octet(val, 0x100)]
  }

  function LittleOctets32(val: U32): seq<U8> {
    [Octet(val, 1), Octet(val, 0x100), Octet(val, 0x1_0000), Octet(val, 0x100_0000)]
  }

  function BigToLittle16(val: U16): U16 {
    Octet(val, 0x100) + (Octet(val, 1) as int) * 0x100
  }

  function BigToLittle32(val: U32): U32 {
    Octet(val, 0x100_0000) + (Octet(val, 0x1_0000) as int) * 0x100 +
    (Octet(val, 0x100) as int) * 0x1_0000 + (Octet(val, 1) as int) * 0x100_0000
  }

  /** The unrolled macros read the general values. */
  lemma GetsAreValues(bs: seq<U8>)
    ensures |bs| == 2 ==> GetInt16UBig(bs) == Big(bs) && GetInt16ULittle(bs) == Little(bs)
    ensures |bs| == 4 ==> GetInt32UBig(bs) == Big(bs) && GetInt32ULittle(bs) == Little(bs)
  {
    if |bs| == 2 {
      ValueOfTwo(bs);
    } else if |bs| == 4 {
      ValueOfTwo(bs[..2]);
      ValueOfTwo(bs[2..]);
      BigOfTwoMore(bs);
      assert bs[1..][1..] == bs[2..];
    }
  }

  lemma ValueOfTwo(bs: seq<U8>)
    requires |bs| == 2
    ensures Big(bs) == (bs[0] as int) * 0x100 + bs[1]
    ensures Little(bs) == bs[0] + (bs[1] as int) * 0x100
  {
    assert bs[..1][..0] == [] && bs[1..][1..] == [];
    assert Value(bs[..1][..0], 0x100) == 0 && Value(bs[..1], 0x100) == bs[0] && Little(bs[1..]) == bs[1];
  }

  lemma BigOfTwoMore(bs: seq<U8>)
    requires |bs| == 4
    ensures Big(bs) == Big(bs[..2]) * 0x1_0000 + (bs[2] as int) * 0x100 + bs[3]
  {
    assert bs[..3][..2] == bs[..2];
    assert Big(bs[..3]) == Big(bs[..2]) * 0x100 + bs[2];
  }

  lemma Octets(val: U32)
    ensures val == Octet(val, 1) + 0x100 * Octet(val, 0x100) +
                   0x1_0000 * Octet(val, 0x1_0000) + 0x100_0000 * Octet(val, 0x100_0000)
    ensures val < MOD_16 ==> Octet(val, 0x1_0000) == 0 && Octet(val, 0x100_0000) == 0
  {
    var a := val / 0x100;
    var b := a / 0x100;
    var c := b / 0x100;
    assert val / 0x1_0000 == b && val / 0x100_0000 == c;
    assert val == 0x100 * a + val % 0x100 && a == 0x100 * b + a % 0x100 && b == 0x100 * c + b % 0x100;
  }

  /** Setting and getting in one order is the identity; in opposite orders it is the byte swap. */
  lemma SetThenGet(val: U32)
    ensures GetInt32UBig(BigOctets32(val)) == val == GetInt32ULittle(LittleOctets32(val))
    ensures GetInt32ULittle(BigOctets32(val)) == BigToLittle32(val) == GetInt32UBig(LittleOctets32(val))
    ensures val < MOD_16 ==> GetInt16UBig(BigOctets16(val)) == val == GetInt16ULittle(LittleOctets16(val))
    ensures val < MOD_16 ==>
      GetInt16ULittle(BigOctets16(val)) == BigToLittle16(val) == GetInt16UBig(LittleOctets16(val))
  {
    Octets(val);
    hide Octet;
  }

  /** MEM_VAL_SET_INT16U_BIG(). */
  method SetInt16UBig(addr: array<U8>, a: nat, val: U16)
    requires a + 2 <= addr.Length
    modifies addr
    ensures GetInt16UBig(addr[a..a + 2]) == val
    ensures GetInt16ULittle(addr[a..a + 2]) == BigToLittle16(val)
    ensures addr[..a] == old(addr[..a]) && addr[a + 2..] == old(addr[a + 2..])
  {
    hide Octet;
    addr[a] := Octet(val, 0x100);
    addr[a + 1] := Octet(val, 1);
    assert addr[a..a + 2] == BigOctets16(val);
    SetThenGet(val);
  }

  /** MEM_VAL_SET_INT32U_BIG(). */
  method SetInt32UBig(addr: array<U8>, a: nat, val: U32)
    requires a + 4 <= addr.Length
    modifies addr
    ensures GetInt32UBig(addr[a..a + 4]) == val
    ensures GetInt32ULittle(addr[a..a + 4]) == BigToLittle32(val)
    ensures addr[..a] == old(addr[..a]) && addr[a + 4..] == old(addr[a + 4..])
  {
    hide Octet;
    addr[a] := Octet(val, 0x100_0000);
    addr[a + 1] := Octet(val, 0x1_0000);
    addr[a + 2] := Octet(val, 0x100);
    addr[a + 3] := Octet(val, 1);
    assert addr[a..a + 4] == BigOctets32(val);
    SetThenGet(val);
  }

  /** MEM_VAL_SET_INT16U_LITTLE(). */
  method SetInt16ULittle(addr: array<U8>, a: nat, val: U16)
    requires a + 2 <= addr.Length
    modifies addr
    ensures GetInt16ULittle(addr[a..a + 2]) == val
    ensures GetInt16UBig(addr[a..a + 2]) == BigToLittle16(val)
    ensures addr[..a] == old(addr[..a]) && addr[a + 2..] == old(addr[a + 2..])
  {
    hide Octet;
    addr[a] := Octet(val, 1);
    addr[a + 1] := Octet(val, 0x100);
    assert addr[a..a + 2] == LittleOctets16(val);
    SetThenGet(val);
  }

  /** MEM_VAL_SET_INT32U_LITTLE(). */
  method SetInt32ULittle(addr: array<U8>, a: nat, val: U32)
    requires a + 4 <= addr.Length
    modifies addr
    ensures GetInt32ULittle(addr[a..a + 4]) == val
    ensures GetInt32UBig(addr[a..a + 4]) == BigToLittle32(val)
    ensures addr[..a] == old(addr[..a]) && addr[a + 4..] == old(addr[a + 4..])
  {
    hide Octet;
    addr[a] := Octet(val, 1);
    addr[a + 1] := Octet(val, 0x100);
    addr[a + 2] := Octet(val, 0x1_0000);
    addr[a + 3] := Octet(val, 0x100_0000);
    assert addr[a..a + 4] == LittleOctets32(val);
    SetThenGet(val);
  }

  lemma OctetsOf(a: U8, b: U8, c: U8, d: U8)
    ensures var val := a + 0x100 * b + 0x1_0000 * c + 0x100_0000 * d;
      && Octet(val, 1) == a && Octet(val, 0x100) == b && Octet(val, 0x1_0000) == c && Octet(val, 0x100_0000) == d
  {
    var val := a + 0x100 * b + 0x1_0000 * c + 0x100_0000 * d;
    assert val / 0x100 == b + 0x100 * c + 0x1_0000 * d;
    assert val / 0x1_0000 == c + 0x100 * d;
    assert val / 0x100_0000 == d;
  }

  /** Swapping the order of a value read one way gives it read the other way. */
  lemma SwapIsOtherOrder(bs: seq<U8>)
    ensures |bs| == 4 ==> BigToLittle32(GetInt32ULittle(bs)) == GetInt32UBig(bs)
    ensures |bs| == 4 ==> BigToLittle32(GetInt32UBig(bs)) == GetInt32ULittle(bs)
    ensures |bs| == 2 ==> BigToLittle16(GetInt16ULittle(bs)) == GetInt16UBig(bs)
    ensures |bs| == 2 ==> BigToLittle16(GetInt16UBig(bs)) == GetInt16ULittle(bs)
  {
    if |bs| == 4 {
      SwapFour(bs[0], bs[1], bs[2], bs[3]);
      SwapFour(bs[3], bs[2], bs[1], bs[0]);
    } else if |bs| == 2 {
      SwapTwo(bs[0], bs[1]);
      SwapTwo(bs[1], bs[0]);
    }
    hide BigToLittle32, BigToLittle16;
  }

  lemma SwapFour(a: U8, b: U8, c: U8, d: U8)
    ensures BigToLittle32(a + 0x100 * b + 0x1_0000 * c + 0x100_0000 * d)
         == d + 0x100 * c + 0x1_0000 * b + 0x100_0000 * a
  {
    OctetsOf(a, b, c, d);
    hide Octet;
  }

  lemma SwapTwo(a: U8, b: U8)
    ensures BigToLittle16(a + 0x100 * b) == b + 0x100 * a
  {
    OctetsOf(a, b, 0, 0);
    hide Octet;
  }

  /** The swap undoes itself. */
  lemma SwapTwice(val: U32)
    ensures BigToLittle32(BigToLittle32(val)) == val
    ensures val < MOD_16 ==> BigToLittle16(BigToLittle16(val)) == val
  {
    hide *;
    SetThenGet(val);
    SwapOfSet(val);
  }

  lemma SwapOfSet(val: U32)
    requires GetInt32UBig(BigOctets32(val)) == val
    requires GetInt32ULittle(BigOctets32(val)) == BigToLittle32(val)
    requires val < MOD_16 ==> GetInt16UBig(BigOctets16(val)) == val
    requires val < MOD_16 ==> GetInt16ULittle(BigOctets16(val)) == BigToLittle16(val)
    ensures BigToLittle32(BigToLittle32(val)) == val
    ensures val < MOD_16 ==> BigToLittle16(BigToLittle16(val)) == val
  {
    hide Octet, BigToLittle32, BigToLittle16, GetInt32UBig, GetInt32ULittle, GetInt16UBig, GetInt16ULittle;
    SwapIsOtherOrder(BigOctets32(val));
    if val < MOD_16 {
      SwapIsOtherOrder(BigOctets16(val));
    }
  }

  // ---------------------------------------------------------------------------------------------
  // MEM_VAL_COPY_GET_xxx()
  // ---------------------------------------------------------------------------------------------

  /** The two stretches of memory have nothing in common. */
  ghost predicate Apart(dest: array<U8>, d: nat, src: array<U8>, s: nat, n: nat) {
    dest != src || d + n <= s || s + n <= d
  }

  /** MEM_VAL_COPY_GET_INT32U_BIG(). */
  method CopyGetInt32UBig(dest: array<U8>, d: nat, src: array<U8>, s: nat)
    requires d + 4 <= dest.Length && s + 4 <= src.Length && Apart(dest, d, src, s, 4)
    modifies dest
    ensures dest[d..d + 4] == Reverse(old(src[s..s + 4]))
    ensures dest[..d] == old(dest[..d]) && dest[d + 4..] == old(dest[d + 4..])
  {
    dest[d] := src[s + 3];
    dest[d + 1] := src[s + 2];
    dest[d + 2] := src[s + 1];
    dest[d + 3] := src[s];
  }

  /** MEM_VAL_COPY_GET_INT16U_BIG(). */
  method CopyGetInt16UBig(dest: array<U8>, d: nat, src: array<U8>, s: nat)
    requires d + 2 <= dest.Length && s + 2 <= src.Length && Apart(dest, d, src, s, 2)
    modifies dest
    ensures dest[d..d + 2] == Reverse(old(src[s..s + 2]))
    ensures dest[..d] == old(dest[..d]) && dest[d + 2..] == old(dest[d + 2..])
  {
    dest[d] := src[s + 1];
    dest[d + 1] := src[s];
  }

  /** MEM_VAL_COPY_GET_INTU_BIG(): any number of octets, the source index running down and past 0. */
  method CopyGetIntUBig(dest: array<U8>, d: nat, src: array<U8>, s: nat, size: U32)
    requires d + size <= dest.Length && s + size <= src.Length && Apart(dest, d, src, s, size)
    modifies dest
    ensures dest[d..d + size] == Reverse(old(src[s..s + size]))
    ensures Little(dest[d..d + size]) == Big(old(src[s..s + size]))
    ensures Big(dest[d..d + size]) == Little(old(src[s..s + size]))
    ensures dest[..d] == old(dest[..d]) && dest[d + size..] == old(dest[d + size..])
  {
    hide Little, Big, Reverse;
    ghost var was := src[s..s + size];
    var j: U32 := (size - 1) % MOD_32;
    for i := 0 to size
      invariant j == (size - 1 - i) % MOD_32
      invariant forall k :: s <= k < s + size ==> src[k] == was[k - s]
      invariant forall k :: d <= k < d + i ==> dest[k] == was[size - 1 - (k - d)]
      invariant forall k :: 0 <= k < dest.Length && !(d <= k < d + size) ==> dest[k] == old(dest[k])
    {
      dest[d + i] := src[s + j];
      j := (j - 1) % MOD_32;
    }
    IsReverse(was, dest[d..d + size]);
    LittleOfReverse(was);
    BigOfReverse(was);
  }

  /** MEM_VAL_COPY_GET_INTU_LITTLE(). */
  method CopyGetIntULittle(dest: array<U8>, d: nat, src: array<U8>, s: nat, size: U32)
    requires d + size <= dest.Length && s + size <= src.Length && Apart(dest, d, src, s, size)
    modifies dest
    ensures dest[d..d + size] == old(src[s..s + size])
    ensures dest[..d] == old(dest[..d]) && dest[d + size..] == old(dest[d + size..])
  {
    ghost var was := src[s..s + size];
    for i := 0 to size
      invariant forall k :: s <= k < s + size ==> src[k] == was[k - s]
      invariant forall k :: d <= k < d + i ==> dest[k] == was[k - d]
      invariant forall k :: 0 <= k < dest.Length && !(d <= k < d + size) ==> dest[k] == old(dest[k])
    {
      dest[d + i] := src[s + i];
    }
  }

  /** Copying a big-endian value and getting the copy in the CPU's own order is getting it BIG. */
  lemma CopyThenGet(bs: seq<U8>)
    ensures |bs| == 2 ==> GetInt16ULittle(Reverse(bs)) == GetInt16UBig(bs)
    ensures |bs| == 4 ==> GetInt32ULittle(Reverse(bs)) == GetInt32UBig(bs)
  {
  }
}
