/** The address capability the range engine borrows from the `ip` and `ip-address`
    packages: validity of IPv4/IPv6 text, conversion between text and numbers, and
    the bounds of a CIDR block. The packages themselves are not part of this model;
    they are a parameter, `AddressLib`. The engine assumes two kinds of fact of them:
    `Sound` (a rendered number reads back as itself), and the ranges carried by the
    field types (`U32` and `U128` for read-back numbers, `Prefix4` and `Prefix6` for
    prefix lengths). The two CIDR policies (`ip.subnet`'s host range for IPv4 and
    `Address6`'s start/end address for IPv6) are written out here, since the
    asymmetry between them is part of the engine's observable behaviour. */
module Address {

  /** 2^n. */
  function Pow2(n: nat): (r: nat)
    ensures r >= 1
  {
    if n == 0 then 1 else 2 * Pow2(n - 1)
  }

  lemma {:induction false} Pow2Add(a: nat, b: nat)
    ensures Pow2(a + b) == Pow2(a) * Pow2(b)
    decreases a
  {
    if a > 0 {
      Pow2Add(a - 1, b);
      assert Pow2(a + b) == 2 * Pow2(a - 1 + b);
    }
  }

  /** Bit widths of the two families' numeric forms. */
  const V4Width: nat := 32
  const V6Width: nat := 128

  /** How many addresses each family has: 2^32 and 2^128. */
  const V4Count: nat := 0x1_0000_0000
  const V6Count: nat := 0x1_0000_0000_0000_0000_0000_0000_0000_0000

  lemma {:induction false} FamilyCounts()
    ensures Pow2(V4Width) == V4Count && Pow2(V6Width) == V6Count
  {
    assert Pow2(8) == 0x100;
    Pow2Add(8, 8);
    Pow2Add(16, 16);
    assert Pow2(32) == 0x1_0000_0000;
    Pow2Add(32, 32);
    Pow2Add(64, 64);
  }

  /** An IPv4 address as a number (`ip.toLong`). */
  type U32 = n: nat | n < V4Count
  /** An IPv6 address as a number (`Address6.bigInteger()`). */
  type U128 = n: nat | n < V6Count
  /** Prefix lengths a valid IPv4 / IPv6 CIDR text can carry. */
  type Prefix4 = p: nat | p <= V4Width
  type Prefix6 = p: nat | p <= V6Width

  /** The functions of the two address packages that the engine calls. */
  datatype AddressLib = AddressLib(
    validV4: string -> bool,      // new Address4(s).valid
    validV6: string -> bool,      // new Address6(s).valid
    v4ToNum: string -> U32,       // ip.toLong(s)
    v4FromNum: nat -> string,     // ip.fromLong(n)
    v4PrefixLen: string -> Prefix4, // the prefix length ip.cidrSubnet reads after the '/'
    v6ToNum: string -> U128,      // new Address6(s).bigInteger()
    v6FromNum: nat -> string,     // Address6.fromBigInteger(n).correctForm()
    v6PrefixLen: string -> Prefix6  // new Address6(s).subnetMask (128 without a '/')
  )

  /** What the engine relies on: rendering a number and reading it back is the
      identity within each family's width. */
  ghost predicate Sound(lib: AddressLib)
  {
    && (forall n: nat :: n < V4Count ==> lib.v4ToNum(lib.v4FromNum(n)) == n)
    && (forall n: nat :: n < V6Count ==> lib.v6ToNum(lib.v6FromNum(n)) == n)
  }

  /** `a` with its `h` lowest bits cleared. */
  function ClearLow(a: nat, h: nat): (c: nat)
    ensures c <= a < c + Pow2(h)
  {
    if h == 0 then a else 2 * ClearLow(a / 2, h - 1)
  }

  /** `a` shifted right by `h` bits (`a >>> h`): the number of whole blocks of 2^h below `a`. */
  function ShiftRight(a: nat, h: nat): nat
  {
    if h == 0 then a else ShiftRight(a / 2, h - 1)
  }

  /** `q` shifted left by `h` bits (`q << h`). */
  function ShiftLeft(q: nat, h: nat): nat
  {
    q * Pow2(h)
  }

  /** Clearing the `h` low bits is masking them off: shifting right, then left, by
      `h` bits. The result is a multiple of 2^h. */
  lemma {:induction false} ClearLowIsMask(a: nat, h: nat)
    ensures ClearLow(a, h) == ShiftLeft(ShiftRight(a, h), h)
    decreases h
  {
    if h > 0 {
      ClearLowIsMask(a / 2, h - 1);
      var q := ShiftRight(a / 2, h - 1);
      calc {
        ClearLow(a, h);
        2 * ClearLow(a / 2, h - 1);
        2 * (q * Pow2(h - 1));
        q * (2 * Pow2(h - 1));
        q * Pow2(h);
      }
    }
  }

  /** Clearing the `h` low bits of a number of `h + k` bits leaves room for a whole
      block of 2^h above the result within those `h + k` bits. */
  lemma {:induction false} ClearLowFits(a: nat, h: nat, k: nat)
    requires a < Pow2(h + k)
    ensures ClearLow(a, h) + Pow2(h) <= Pow2(h + k)
    decreases h
  {
    if h > 0 {
      assert Pow2(h + k) == 2 * Pow2(h - 1 + k);
      ClearLowFits(a / 2, h - 1, k);
    }
  }

  /** First address of the block of 2^(width - prefix) addresses holding `addr`:
      the address with its host bits cleared. The block lies within the width. */
  function BlockStart(addr: nat, width: nat, prefix: nat): (start: nat)
    requires addr < Pow2(width) && prefix <= width
    ensures start == ShiftLeft(ShiftRight(addr, width - prefix), width - prefix)
    ensures start <= addr < start + Pow2(width - prefix) <= Pow2(width)
  {
    ClearLowIsMask(addr, width - prefix);
    ClearLowFits(addr, width - prefix, prefix);
    ClearLow(addr, width - prefix)
  }

  /** The network (first) address of the IPv4 block of the given prefix holding `addr`. */
  function V4Network(addr: U32, prefix: Prefix4): (start: nat)
    ensures start == ShiftLeft(ShiftRight(addr, V4Width - prefix), V4Width - prefix)
    ensures start <= addr < start + Pow2(V4Width - prefix) <= V4Count
  {
    FamilyCounts();
    BlockStart(addr, V4Width, prefix)
  }

  /** The first address of the IPv6 block of the given prefix holding `addr`. */
  function V6Network(addr: U128, prefix: Prefix6): (start: nat)
    ensures start == ShiftLeft(ShiftRight(addr, V6Width - prefix), V6Width - prefix)
    ensures start <= addr < start + Pow2(V6Width - prefix) <= V6Count
  {
    FamilyCounts();
    BlockStart(addr, V6Width, prefix)
  }

  /** `ip.subnet`'s usable host range of the IPv4 block holding `addr`: a block of
      more than two addresses loses its network and broadcast addresses; a /31 or
      /32 block keeps all of its addresses. */
  function V4HostBounds(addr: U32, prefix: Prefix4): (b: (U32, U32))
    ensures var start := V4Network(addr, prefix);
            var size := Pow2(V4Width - prefix);
            && start <= b.0 <= b.1 < start + size
            && (prefix < 31 ==> b.0 == start + 1 && b.1 == start + size - 2)
            && (prefix >= 31 ==> b.0 == start && b.1 == start + size - 1)
  {
    var start := V4Network(addr, prefix);
    var size := Pow2(V4Width - prefix);
    Pow2Small(V4Width - prefix);
    if size <= 2 then (start, start + size - 1) else (start + 1, start + size - 2)
  }

  /** 2^n exceeds two exactly when n exceeds one. */
  lemma {:induction false} Pow2Small(n: nat)
    ensures Pow2(n) <= 2 <==> n <= 1
  {
    if n >= 2 {
      assert Pow2(n) == 4 * Pow2(n - 2);
    }
  }

  /** `Address6`'s startAddress/endAddress: the whole IPv6 block, both ends included. */
  function V6BlockBounds(addr: U128, prefix: Prefix6): (b: (U128, U128))
    ensures b.0 == V6Network(addr, prefix)
    ensures b.1 - b.0 + 1 == Pow2(V6Width - prefix)
    ensures b.0 <= addr <= b.1
  {
    var start := V6Network(addr, prefix);
    (start, start + Pow2(V6Width - prefix) - 1)
  }
}
