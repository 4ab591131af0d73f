/** What the range engine promises: flattening is in-order concatenation that stops
    at the first error, a comma string is the list of its trimmed pieces, a hyphen
    string is `ipsBetween` of its two sides, and CIDR blocks enumerate the IPv4 host
    range but the whole IPv6 block. */
module RangeProperties {
  import opened Address
  import opened Text
  import opened IpRange

  // ---------------------------------------------------------------------------
  // Outcomes of lists

  /** A list fails exactly when one of its outcomes fails. */
  lemma {:induction false} CombineFailsIff(rs: seq<Result<seq<string>>>)
    ensures Combine(rs).Failure? <==> exists i :: 0 <= i < |rs| && rs[i].Failure?
    decreases |rs|
  {
    if rs != [] {
      var init := rs[..|rs| - 1];
      CombineFailsIff(init);
      if exists i :: 0 <= i < |init| && init[i].Failure? {
        var i :| 0 <= i < |init| && init[i].Failure?;
        assert rs[i].Failure?;
      }
    }
  }

  /** The error of a list is the error of its first failing outcome, unchanged. */
  lemma {:induction false} CombineFirstError(rs: seq<Result<seq<string>>>, k: nat)
    requires k < |rs| && rs[k].Failure?
    requires forall j :: 0 <= j < k ==> rs[j].Success?
    ensures Combine(rs) == Failure(rs[k].error)
    decreases |rs|
  {
    var init := rs[..|rs| - 1];
    if k < |rs| - 1 {
      CombineFirstError(init, k);
    } else {
      CombineFailsIff(init);
    }
  }

  /** A list of lists expands to the expansion of the first part followed by that
      of the second; the first failure in order decides the error. */
  lemma {:induction false} ManyIsConcatenation(lib: AddressLib, xs: seq<IpRange>, ys: seq<IpRange>)
    ensures Expand(lib, Many(xs + ys)) == Then(Expand(lib, Many(xs)), Expand(lib, Many(ys)))
  {
    ExpandMany(lib, xs + ys);
    ExpandMany(lib, xs);
    ExpandMany(lib, ys);
    ExpandEachAppend(lib, xs, ys);
    CombineAppend(ExpandEach(lib, xs), ExpandEach(lib, ys));
  }

  /** Wrapping a range in a one-element list changes nothing; the empty list
      (truthy in JavaScript) expands to no addresses. */
  lemma {:induction false} SingletonList(lib: AddressLib, x: IpRange)
    ensures Expand(lib, Many([x])) == Expand(lib, x)
    ensures Expand(lib, Many([])) == Success([])
  {
    ExpandMany(lib, [x]);
    assert ExpandEach(lib, [x]) == [] + [Expand(lib, x)];
    CombineSnoc([], Expand(lib, x));
    if Expand(lib, x).Success? {
      assert [] + Expand(lib, x).value == Expand(lib, x).value;
    }
  }

  /** Nesting depth does not matter: a list inside a list expands as if its
      elements stood in the outer list. */
  lemma {:induction false} NestingIsFlattened(lib: AddressLib, xs: seq<IpRange>, ys: seq<IpRange>, zs: seq<IpRange>)
    ensures Expand(lib, Many(xs + [Many(ys)] + zs)) == Expand(lib, Many(xs + ys + zs))
  {
    ManyIsConcatenation(lib, xs + [Many(ys)], zs);
    ManyIsConcatenation(lib, xs, [Many(ys)]);
    SingletonList(lib, Many(ys));
    ManyIsConcatenation(lib, xs + ys, zs);
    ManyIsConcatenation(lib, xs, ys);
  }

  /** `parseRange([X, [Y, Z]])` is `parseRange(X)`, then `parseRange(Y)`, then
      `parseRange(Z)`, concatenated; it fails if any of them fails. */
  lemma {:induction false} NestedListScenario(lib: AddressLib, x: IpRange, y: IpRange, z: IpRange)
    ensures Expand(lib, Many([x, Many([y, z])]))
            == Then(Then(Expand(lib, x), Expand(lib, y)), Expand(lib, z))
    ensures Expand(lib, x).Success? && Expand(lib, y).Success? && Expand(lib, z).Success? ==>
              Expand(lib, Many([x, Many([y, z])]))
              == Success(Expand(lib, x).value + Expand(lib, y).value + Expand(lib, z).value)
  {
    NestingIsFlattened(lib, [x], [y, z], []);
    assert [x] + [Many([y, z])] + [] == [x, Many([y, z])];
    assert [x] + [y, z] + [] == [x] + [y] + [z];
    ManyIsConcatenation(lib, [x] + [y], [z]);
    ManyIsConcatenation(lib, [x], [y]);
    SingletonList(lib, x);
    SingletonList(lib, y);
    SingletonList(lib, z);
  }

  /** A list fails exactly when some element fails, at whatever depth. */
  lemma {:induction false} ListFailsIff(lib: AddressLib, items: seq<IpRange>)
    ensures Expand(lib, Many(items)).Failure?
            <==> exists i :: 0 <= i < |items| && Expand(lib, items[i]).Failure?
  {
    ExpandMany(lib, items);
    CombineFailsIff(ExpandEach(lib, items));
    if exists i :: 0 <= i < |items| && Expand(lib, items[i]).Failure? {
      var i :| 0 <= i < |items| && Expand(lib, items[i]).Failure?;
      assert ExpandEach(lib, items)[i].Failure?;
    }
  }

  /** The error of a list is that of its first failing element: the addresses of
      the elements before it are dropped. */
  lemma {:induction false} ListFirstError(lib: AddressLib, items: seq<IpRange>, k: nat)
    requires k < |items| && Expand(lib, items[k]).Failure?
    requires forall j :: 0 <= j < k ==> Expand(lib, items[j]).Success?
    ensures Expand(lib, Many(items)) == Failure(Expand(lib, items[k]).error)
  {
    ExpandMany(lib, items);
    CombineFirstError(ExpandEach(lib, items), k);
  }

  // ---------------------------------------------------------------------------
  // Comma strings

  /** A string with a comma expands as the list of its comma-separated pieces,
      each trimmed. */
  lemma {:induction false} CommaStringIsList(lib: AddressLib, s: string)
    requires ',' in s
    ensures var pieces := CommaPieces(s);
            && |pieces| == |Split(s, ',')| >= 2
            && (forall i :: 0 <= i < |pieces| ==> pieces[i] == Trim(Split(s, ',')[i]))
            && Expand(lib, Leaf(s)) == Expand(lib, Many(Leaves(pieces)))
  {
    ExpandCommaString(lib, s);
  }

  /** An empty piece (`"a,,b"`, `"a, "`) makes the whole string fail, with
      InvalidRange when the pieces before it succeed. */
  lemma {:induction false} EmptyCommaPieceFails(lib: AddressLib, s: string, k: nat)
    requires ',' in s && k < |CommaPieces(s)| && CommaPieces(s)[k] == ""
    ensures Expand(lib, Leaf(s)).Failure?
    ensures (forall j :: 0 <= j < k ==> Expand(lib, Leaf(CommaPieces(s)[j])).Success?) ==>
              Expand(lib, Leaf(s)) == Failure(InvalidRange)
  {
    var pieces := CommaPieces(s);
    var items := Leaves(pieces);
    var whole := Expand(lib, Many(items));
    assert Expand(lib, Leaf(s)) == whole by {
      ExpandCommaString(lib, s);
    }
    assert Expand(lib, items[k]) == Failure(InvalidRange) by {
      assert items[k] == Leaf("");
    }
    assert whole.Failure? by {
      ListFailsIff(lib, items);
    }
    if forall j :: 0 <= j < k ==> Expand(lib, Leaf(pieces[j])).Success? {
      assert forall j :: 0 <= j < k ==> Expand(lib, items[j]).Success?;
      ListFirstError(lib, items, k);
    }
  }

  // ---------------------------------------------------------------------------
  // Hyphen strings and ipsBetween

  /** With both sides free of '-' and ',', the hyphen string `a-b` expands exactly
      as `ipsBetween(a, b)`: when `a-b` is not itself address text it reaches the
      hyphen branch, which splits it back into `a` and `b`. */
  lemma {:induction false} HyphenMatchesIpsBetween(lib: AddressLib, a: string, b: string)
    requires !lib.validV4(a + "-" + b) && !lib.validV6(a + "-" + b)
    requires a != "" && b != ""
    requires '-' !in a && '-' !in b && ',' !in a && ',' !in b
    ensures Expand(lib, Leaf(a + "-" + b)) == IpsBetween(lib, a, b)
  {
    var s := a + "-" + b;
    assert s[|a|] == '-';
    SplitCons(a, '-', b);
    assert Endpoints(s, None) == Some((a, b));
    HyphenLeaf(lib, s);
  }

  /** `a-b-c` behaves like `a-b`: only the first two pieces of the split are used. */
  lemma {:induction false} ExtraHyphenPiecesIgnored(lib: AddressLib, a: string, b: string, c: string)
    requires !lib.validV4(a + "-" + b + "-" + c) && !lib.validV6(a + "-" + b + "-" + c)
    requires !lib.validV4(a + "-" + b) && !lib.validV6(a + "-" + b)
    requires '-' !in a && '-' !in b && ',' !in a && ',' !in b && ',' !in c
    ensures Expand(lib, Leaf(a + "-" + b + "-" + c)) == Expand(lib, Leaf(a + "-" + b))
  {
    var long, short := a + "-" + b + "-" + c, a + "-" + b;
    HyphenEndpoints(a, b, c);
    assert FromRange(lib, long, None) == FromRange(lib, short, None);
    HyphenLeaf(lib, long);
    HyphenLeaf(lib, short);
  }

  lemma {:induction false} HyphenEndpoints(a: string, b: string, c: string)
    requires '-' !in a && '-' !in b
    ensures Endpoints(a + "-" + b + "-" + c, None) == Some((a, b))
    ensures Endpoints(a + "-" + b, None) == Some((a, b))
  {
    SplitThree(a, b, c);
    SplitCons(a, '-', b);
  }

  lemma {:induction false} SplitThree(a: string, b: string, c: string)
    requires '-' !in a && '-' !in b
    ensures Split(a + "-" + b + "-" + c, '-') == [a, b] + Split(c, '-')
  {
    var tail := b + ['-'] + c;
    var long := a + ['-'] + tail;
    assert a + "-" + b + "-" + c == long;
    SplitCons(a, '-', tail);
    SplitCons(b, '-', c);
    var st := Split(tail, '-');
    assert st == [b] + Split(c, '-');
    assert Split(long, '-') == [a] + st;
  }

  /** A comma-free string with a '-' that is neither IPv4 nor IPv6 text goes to `fromRange`. */
  lemma {:induction false} HyphenLeaf(lib: AddressLib, s: string)
    requires '-' in s && ',' !in s && !lib.validV4(s) && !lib.validV6(s)
    ensures Expand(lib, Leaf(s)) == FromRange(lib, s, None)
  {
  }

  /** An empty `lastIP` is falsy: the first argument is split on '-' instead, and
      without a '-' there is no second endpoint. */
  lemma {:induction false} EmptyLastIsSplit(lib: AddressLib, a: string)
    ensures IpsBetween(lib, a, "") == FromRange(lib, a, None)
    ensures '-' !in a ==> IpsBetween(lib, a, "") == Failure(InvalidRange)
    ensures '-' in a && ',' !in a && !lib.validV4(a) && !lib.validV6(a) ==>
              IpsBetween(lib, a, "") == Expand(lib, Leaf(a))
  {
  }

  /** A reversed pair is not an error: it enumerates nothing, in either family. */
  lemma {:induction false} ReversedPairIsEmpty(lib: AddressLib, a: string, b: string)
    requires a != "" && b != "" && '/' !in a && '/' !in b
    ensures lib.validV4(a) && lib.validV4(b) && lib.v4ToNum(a) > lib.v4ToNum(b) ==>
              IpsBetween(lib, a, b) == Success([])
    ensures !(lib.validV4(a) && lib.validV4(b)) && lib.validV6(a) && lib.validV6(b)
            && lib.v6ToNum(a) > lib.v6ToNum(b) ==>
              IpsBetween(lib, a, b) == Success([])
  {
  }

  // ---------------------------------------------------------------------------
  // Single tokens

  /** The enumeration of `ip.subnet`'s host range: its length, and its addresses in
      ascending order, which for a block of more than two stay strictly between the
      network and the broadcast address. */
  lemma {:induction false} V4HostList(addr: U32, prefix: Prefix4, render: nat -> string)
    ensures var start := V4Network(addr, prefix);
            var size := Pow2(V4Width - prefix);
            var first := if prefix < 31 then start + 1 else start;
            var b := V4HostBounds(addr, prefix);
            var r := Enumerate(b.0, b.1, render);
            && |r| == (if prefix < 31 then size - 2 else size)
            && (forall i :: 0 <= i < |r| ==> r[i] == render(first + i))
            && (prefix < 31 ==> start < first && first + |r| - 1 < start + size - 1)
  {
  }

  /** Every address of an IPv4 enumeration reads back as its own number. */
  lemma {:induction false} V4RoundTrips(lib: AddressLib, lo: U32, hi: U32)
    requires Sound(lib)
    ensures var r := Enumerate(lo, hi, lib.v4FromNum);
            forall i :: 0 <= i < |r| ==> lib.v4ToNum(r[i]) == lo + i
  {
    var r := Enumerate(lo, hi, lib.v4FromNum);
    forall i | 0 <= i < |r|
      ensures lib.v4ToNum(r[i]) == lo + i
    {
      assert lib.v4ToNum(lib.v4FromNum(lo + i)) == lo + i;
    }
  }

  /** An IPv4 CIDR string enumerates, in order, the addresses of `ip.subnet`'s host
      range of its block (what that range holds is `V4HostList`). */
  lemma {:induction false} V4CidrHostRange(lib: AddressLib, s: string)
    requires Sound(lib) && lib.validV4(s) && ',' !in s && |Split(s, '/')| == 2
    ensures var parts := Split(s, '/');
            var b := V4HostBounds(lib.v4ToNum(parts[0]), lib.v4PrefixLen(parts[1]));
            Expand(lib, Leaf(s)) == Success(Enumerate(b.0, b.1, lib.v4FromNum))
  {
    var parts := Split(s, '/');
    var b := V4HostBounds(lib.v4ToNum(parts[0]), lib.v4PrefixLen(parts[1]));
    assert Expand(lib, Leaf(s)) == ExpandToken(lib, s);
    assert V4Subnet(lib, s) == Success((lib.v4FromNum(b.0), lib.v4FromNum(b.1)));
    assert lib.v4ToNum(lib.v4FromNum(b.0)) == b.0;
    assert lib.v4ToNum(lib.v4FromNum(b.1)) == b.1;
  }

  /** IPv4 text without a prefix is not a CIDR subnet: "invalid CIDR subnet". */
  lemma {:induction false} V4BareAddressFails(lib: AddressLib, s: string)
    requires lib.validV4(s) && s != "" && ',' !in s && '/' !in s
    ensures Expand(lib, Leaf(s)) == Failure(InvalidCidrSubnet)
  {
  }

  /** An IPv6 string enumerates its whole block, both ends included: 2^(128-p)
      addresses from the block's first address, the given address among them. */
  lemma {:induction false} V6CidrWholeBlock(lib: AddressLib, s: string)
    requires Sound(lib) && lib.validV6(s) && !lib.validV4(s) && s != "" && ',' !in s
    ensures var addr := lib.v6ToNum(s);
            var prefix := lib.v6PrefixLen(s);
            var start := V6Network(addr, prefix);
            var r := Expand(lib, Leaf(s));
            && r.Success?
            && |r.value| == Pow2(V6Width - prefix)
            && start <= addr < start + |r.value|
            && (forall i :: 0 <= i < |r.value| ==> r.value[i] == lib.v6FromNum(start + i))
  {
    var b := V6BlockBounds(lib.v6ToNum(s), lib.v6PrefixLen(s));
    assert lib.v6ToNum(lib.v6FromNum(b.0)) == b.0;
    assert lib.v6ToNum(lib.v6FromNum(b.1)) == b.1;
    assert Expand(lib, Leaf(s)) == Success(Enumerate(b.0, b.1, lib.v6FromNum));
  }

  /** A string that is neither IPv4, nor IPv6, nor hyphenated is rejected, and so
      is the empty string and any value that is not a string or a list. */
  lemma {:induction false} UnrecognisedLeafFails(lib: AddressLib, s: string)
    requires ',' !in s && !lib.validV4(s) && !lib.validV6(s) && '-' !in s
    ensures Expand(lib, Leaf(s)) == Failure(InvalidRange)
    ensures Expand(lib, Leaf("")) == Failure(InvalidRange)
    ensures Expand(lib, Other) == Failure(InvalidRange)
  {
  }
}
