/** The range engine: expands a range specification (a CIDR block, an `a-b` pair,
    a comma-separated string or a nested list of these) into the ordered list of
    every address it denotes, or reports why it cannot. */
module IpRange {
  import opened Address
  import opened Text

  /** The two kinds of error the engine throws: its own "InvalidRange: ..." and the
      "invalid CIDR subnet: ..." that `ip.cidrSubnet` throws through it. */
  datatype Error = InvalidRange | InvalidCidrSubnet

  datatype Result<T> = Success(value: T) | Failure(error: Error) {
    predicate IsFailure() { Failure? }

    function PropagateFailure<U>(): Result<U>
      requires Failure?
    {
      Failure(error)
    }

    function Extract(): T
      requires Success?
    {
      value
    }
  }

  datatype Option<T> = None | Some(value: T)

  /** A range specification, `iprange = string | iprange[]`. `Other` stands for
      any other JavaScript value that reaches `parseRange` (a number, null,
      undefined): every one of them is rejected. */
  datatype IpRange = Leaf(s: string) | Many(items: seq<IpRange>) | Other

  /** Hyphen notation: exactly the strings that `split('-')` cuts in two or more. */
  predicate IsRange(s: string): (r: bool)
    ensures r <==> |Split(s, '-')| >= 2
  {
    '-' in s
  }

  /** CIDR notation: exactly the strings that `split('/')` cuts in two or more. */
  predicate IsCidr(s: string): (r: bool)
    ensures r <==> |Split(s, '/')| >= 2
  {
    '/' in s
  }

  // ---------------------------------------------------------------------------
  // Enumeration

  /** Every number from `start` to `end` inclusive, in ascending order, each
      rendered as text; nothing at all when `start > end`. */
  function Enumerate(start: nat, end: nat, render: nat -> string): (r: seq<string>)
    ensures |r| == if start <= end then end - start + 1 else 0
    ensures forall i :: 0 <= i < |r| ==> r[i] == render(start + i)
    decreases end + 1 - start
  {
    if start > end then [] else [render(start)] + Enumerate(start + 1, end, render)
  }

  /** The counting loop shared by `v4Range` and `v6Range`: step from `start` while
      the counter does not pass `end`, pushing each rendered number. */
  method Walk(start: nat, end: nat, render: nat -> string) returns (ips: seq<string>)
    ensures ips == Enumerate(start, end, render)
  {
    ips := [];
    var current := start;
    while current <= end
      invariant start <= current
      invariant current <= end + 1 || current == start
      invariant |ips| == current - start
      invariant forall k :: 0 <= k < |ips| ==> ips[k] == render(start + k)
      decreases end + 1 - current
    {
      ips := ips + [render(current)];
      current := current + 1;
    }
  }

  /** Every IPv4 address from `first` to `last` inclusive: read back as numbers
      they are `first`, `first + 1`, ... in order. */
  method V4Range(lib: AddressLib, first: string, last: string) returns (ips: seq<string>)
    ensures ips == Enumerate(lib.v4ToNum(first), lib.v4ToNum(last), lib.v4FromNum)
    ensures |ips| == if lib.v4ToNum(first) <= lib.v4ToNum(last)
                     then lib.v4ToNum(last) - lib.v4ToNum(first) + 1 else 0
    ensures Sound(lib) ==>
              forall i :: 0 <= i < |ips| ==> lib.v4ToNum(ips[i]) == lib.v4ToNum(first) + i
  {
    ips := Walk(lib.v4ToNum(first), lib.v4ToNum(last), lib.v4FromNum);
  }

  /** Every IPv6 address from `first` to `last` inclusive, counted exactly in
      128-bit arithmetic. */
  method V6Range(lib: AddressLib, first: string, last: string) returns (ips: seq<string>)
    ensures ips == Enumerate(lib.v6ToNum(first), lib.v6ToNum(last), lib.v6FromNum)
    ensures |ips| == if lib.v6ToNum(first) <= lib.v6ToNum(last)
                     then lib.v6ToNum(last) - lib.v6ToNum(first) + 1 else 0
    ensures Sound(lib) ==>
              forall i :: 0 <= i < |ips| ==> lib.v6ToNum(ips[i]) == lib.v6ToNum(first) + i
  {
    ips := Walk(lib.v6ToNum(first), lib.v6ToNum(last), lib.v6FromNum);
  }

  // ---------------------------------------------------------------------------
  // Hyphen pairs

  /** The two endpoints of `fromRange`: the two arguments when a non-empty last
      address is given, otherwise the first two pieces of the first argument split
      on '-' (None when there is only one piece, i.e. `last` is undefined): the text
      before the first '-', and the text from there up to the next '-' or the end. */
  function Endpoints(rangeOrFirstIP: string, lastIP: Option<string>): (e: Option<(string, string)>)
    ensures lastIP.Some? && lastIP.value != "" ==> e == Some((rangeOrFirstIP, lastIP.value))
    ensures (lastIP.None? || lastIP.value == "") ==> (e.Some? <==> '-' in rangeOrFirstIP)
    ensures (lastIP.None? || lastIP.value == "") && e.Some? ==> '-' !in e.value.0 && '-' !in e.value.1
    ensures (lastIP.None? || lastIP.value == "") && e.Some? ==>
              var s, n0, n1 := rangeOrFirstIP, |e.value.0|, |e.value.1|;
              && n0 + 1 + n1 <= |s|
              && s[..n0] == e.value.0 && s[n0] == '-'
              && s[n0 + 1..n0 + 1 + n1] == e.value.1
              && (n0 + 1 + n1 == |s| || s[n0 + 1 + n1] == '-')
  {
    if lastIP.Some? && lastIP.value != "" then Some((rangeOrFirstIP, lastIP.value))
    else
      var parts := Split(rangeOrFirstIP, '-');
      if |parts| >= 2 then
        SplitFirstTwo(rangeOrFirstIP, '-');
        Some((parts[0], parts[1]))
      else None
  }

  /** Both endpoints are valid addresses of one family. */
  predicate SameFamily(lib: AddressLib, first: string, last: string)
  {
    (lib.validV4(first) && lib.validV4(last)) || (lib.validV6(first) && lib.validV6(last))
  }

  /** `fromRange`: the inclusive enumeration between two endpoints of one family.
      It rejects an empty first argument, a missing second endpoint, CIDR
      endpoints and endpoints that are not both IPv4 or both IPv6, always with
      InvalidRange. */
  function FromRange(lib: AddressLib, rangeOrFirstIP: string, lastIP: Option<string>): (r: Result<seq<string>>)
    ensures r.Failure? ==> r.error == InvalidRange
    ensures r.Success? ==> rangeOrFirstIP != "" && Endpoints(rangeOrFirstIP, lastIP).Some?
    ensures r.Success? ==>
              var (first, last) := Endpoints(rangeOrFirstIP, lastIP).value;
              '/' !in first && '/' !in last && SameFamily(lib, first, last)
  {
    if rangeOrFirstIP == "" then Failure(InvalidRange)
    else match Endpoints(rangeOrFirstIP, lastIP)
      case None => Failure(InvalidRange)
      case Some((first, last)) =>
        if IsCidr(first) || IsCidr(last) then Failure(InvalidRange)
        else if lib.validV4(first) && lib.validV4(last) then
          Success(Enumerate(lib.v4ToNum(first), lib.v4ToNum(last), lib.v4FromNum))
        else if lib.validV6(first) && lib.validV6(last) then
          Success(Enumerate(lib.v6ToNum(first), lib.v6ToNum(last), lib.v6FromNum))
        else Failure(InvalidRange)
  }

  /** `ipsBetween`: every address from `firstIP` to `lastIP` inclusive. With a
      non-empty `lastIP` it fails exactly when `firstIP` is empty, either address is
      in CIDR notation, or the two are not valid addresses of one family; an IPv4
      pair takes precedence over an IPv6 reading. */
  function IpsBetween(lib: AddressLib, firstIP: string, lastIP: string): (r: Result<seq<string>>)
    ensures r.Failure? ==> r.error == InvalidRange
    ensures lastIP != "" ==>
              (r.Failure? <==> firstIP == "" || '/' in firstIP || '/' in lastIP
                               || !SameFamily(lib, firstIP, lastIP))
    ensures lastIP != "" && r.Success? && lib.validV4(firstIP) && lib.validV4(lastIP) ==>
              r.value == Enumerate(lib.v4ToNum(firstIP), lib.v4ToNum(lastIP), lib.v4FromNum)
    ensures lastIP != "" && r.Success? && !(lib.validV4(firstIP) && lib.validV4(lastIP)) ==>
              r.value == Enumerate(lib.v6ToNum(firstIP), lib.v6ToNum(lastIP), lib.v6FromNum)
  {
    FromRange(lib, firstIP, Some(lastIP))
  }

  // ---------------------------------------------------------------------------
  // CIDR blocks

  /** `ip.cidrSubnet(cidr)`'s first and last usable host address: the text must
      split on '/' into exactly two pieces, else "invalid CIDR subnet". */
  function V4Subnet(lib: AddressLib, cidr: string): (r: Result<(string, string)>)
    ensures r.Failure? <==> |Split(cidr, '/')| != 2
    ensures r.Failure? ==> r.error == InvalidCidrSubnet
  {
    var parts := Split(cidr, '/');
    if |parts| != 2 then Failure(InvalidCidrSubnet)
    else
      var b := V4HostBounds(lib.v4ToNum(parts[0]), lib.v4PrefixLen(parts[1]));
      Success((lib.v4FromNum(b.0), lib.v4FromNum(b.1)))
  }

  /** The canonical text of an IPv6 block's start and end address. */
  function V6Block(lib: AddressLib, cidr: string): (string, string)
  {
    var b := V6BlockBounds(lib.v6ToNum(cidr), lib.v6PrefixLen(cidr));
    (lib.v6FromNum(b.0), lib.v6FromNum(b.1))
  }

  // ---------------------------------------------------------------------------
  // Flattening

  /** A single string token that holds no comma: IPv4 text is resolved as a CIDR
      host range, IPv6 text as its whole block, hyphenated text as an endpoint
      pair; anything else is rejected. */
  function ExpandToken(lib: AddressLib, s: string): Result<seq<string>>
  {
    if lib.validV4(s) then
      var bounds :- V4Subnet(lib, s);
      Success(Enumerate(lib.v4ToNum(bounds.0), lib.v4ToNum(bounds.1), lib.v4FromNum))
    else if lib.validV6(s) then
      var bounds := V6Block(lib, s);
      Success(Enumerate(lib.v6ToNum(bounds.0), lib.v6ToNum(bounds.1), lib.v6FromNum))
    else if IsRange(s) then FromRange(lib, s, None)
    else Failure(InvalidRange)
  }

  /** A string that is not split on commas: the empty string is falsy and rejected. */
  function ExpandString(lib: AddressLib, s: string): Result<seq<string>>
  {
    if s == "" then Failure(InvalidRange) else ExpandToken(lib, s)
  }

  /** The pieces a comma string is rewritten into: `s.split(',').map(r => r.trim())`. */
  function CommaPieces(s: string): (pieces: seq<string>)
    ensures |pieces| == |Split(s, ',')|
    ensures ',' in s <==> |pieces| >= 2
    ensures forall i :: 0 <= i < |pieces| ==> pieces[i] == Trim(Split(s, ',')[i]) && ',' !in pieces[i]
  {
    var parts := Split(s, ',');
    seq(|parts|, i requires 0 <= i < |parts| => Trim(parts[i]))
  }

  /** Two outcomes in left-to-right order: the first failure wins unchanged,
      otherwise the address lists are concatenated. */
  function Then(a: Result<seq<string>>, b: Result<seq<string>>): Result<seq<string>>
  {
    if a.Failure? then a else if b.Failure? then b else Success(a.value + b.value)
  }

  /** The `for ... of` loop over a list: outcomes combined left to right. */
  function Combine(results: seq<Result<seq<string>>>): Result<seq<string>>
  {
    if results == [] then Success([])
    else Then(Combine(results[..|results| - 1]), results[|results| - 1])
  }

  /** `parseRange` as a function: what a range specification expands to. */
  function Expand(lib: AddressLib, range: IpRange): Result<seq<string>>
    decreases range
  {
    match range
    case Other => Failure(InvalidRange)
    case Many(items) =>
      Combine(seq(|items|, i requires 0 <= i < |items| => Expand(lib, items[i])))
    case Leaf(s) =>
      if ',' in s then
        var pieces := CommaPieces(s);
        Combine(seq(|pieces|, i requires 0 <= i < |pieces| => ExpandString(lib, pieces[i])))
      else ExpandString(lib, s)
  }

  /** The outcome of each element of a list, in order. */
  function ExpandEach(lib: AddressLib, items: seq<IpRange>): seq<Result<seq<string>>>
  {
    seq(|items|, i requires 0 <= i < |items| => Expand(lib, items[i]))
  }

  /** Strings as list elements. */
  function Leaves(pieces: seq<string>): seq<IpRange>
  {
    seq(|pieces|, i requires 0 <= i < |pieces| => Leaf(pieces[i]))
  }

  lemma {:induction false} ExpandMany(lib: AddressLib, items: seq<IpRange>)
    ensures Expand(lib, Many(items)) == Combine(ExpandEach(lib, items))
  {
    assert ExpandEach(lib, items) == seq(|items|, i requires 0 <= i < |items| => Expand(lib, items[i]));
  }

  /** A comma string expands as the list of its trimmed pieces would. */
  lemma {:induction false} ExpandCommaString(lib: AddressLib, s: string)
    requires ',' in s
    ensures Expand(lib, Leaf(s)) == Expand(lib, Many(Leaves(CommaPieces(s))))
  {
    var pieces := CommaPieces(s);
    var items := Leaves(pieces);
    var direct := seq(|pieces|, i requires 0 <= i < |pieces| => ExpandString(lib, pieces[i]));
    forall i | 0 <= i < |pieces|
      ensures direct[i] == ExpandEach(lib, items)[i]
    {
      assert Expand(lib, Leaf(pieces[i])) == ExpandString(lib, pieces[i]);
    }
    assert direct == ExpandEach(lib, items);
    ExpandMany(lib, items);
  }

  lemma {:induction false} CombineSnoc(rs: seq<Result<seq<string>>>, x: Result<seq<string>>)
    ensures Combine(rs + [x]) == Then(Combine(rs), x)
  {
    assert (rs + [x])[..|rs|] == rs;
  }

  lemma {:induction false} ThenAssoc(a: Result<seq<string>>, b: Result<seq<string>>, c: Result<seq<string>>)
    ensures Then(Then(a, b), c) == Then(a, Then(b, c))
  {
    if a.Success? && b.Success? && c.Success? {
      assert (a.value + b.value) + c.value == a.value + (b.value + c.value);
    }
  }

  /** Combining a concatenation is combining the two halves in order. */
  lemma {:induction false} CombineAppend(xs: seq<Result<seq<string>>>, ys: seq<Result<seq<string>>>)
    ensures Combine(xs + ys) == Then(Combine(xs), Combine(ys))
    decreases |ys|
  {
    if ys == [] {
      assert xs + ys == xs;
      if Combine(xs).Success? {
        assert Combine(xs).value + [] == Combine(xs).value;
      }
    } else {
      var init, last := ys[..|ys| - 1], ys[|ys| - 1];
      assert ys == init + [last];
      assert xs + ys == (xs + init) + [last];
      CombineSnoc(xs + init, last);
      CombineAppend(xs, init);
      CombineSnoc(init, last);
      ThenAssoc(Combine(xs), Combine(init), last);
    }
  }

  /** One more element of a list: its outcome joins the outcome so far. */
  lemma {:induction false} PrefixStep(lib: AddressLib, items: seq<IpRange>, i: nat)
    requires i < |items|
    ensures Combine(ExpandEach(lib, items[..i + 1]))
            == Then(Combine(ExpandEach(lib, items[..i])), Expand(lib, items[i]))
  {
    assert ExpandEach(lib, items[..i + 1]) == ExpandEach(lib, items[..i]) + [Expand(lib, items[i])];
    CombineSnoc(ExpandEach(lib, items[..i]), Expand(lib, items[i]));
  }

  /** A failure among the first elements of a list is the failure of the whole list. */
  lemma {:induction false} PrefixFailure(lib: AddressLib, items: seq<IpRange>, i: nat)
    requires i < |items|
    requires Combine(ExpandEach(lib, items[..i + 1])).Failure?
    ensures Combine(ExpandEach(lib, items)) == Combine(ExpandEach(lib, items[..i + 1]))
  {
    var front, back := items[..i + 1], items[i + 1..];
    assert items == front + back;
    ExpandEachAppend(lib, front, back);
    CombineAppend(ExpandEach(lib, front), ExpandEach(lib, back));
  }

  lemma {:induction false} ExpandEachAppend(lib: AddressLib, xs: seq<IpRange>, ys: seq<IpRange>)
    ensures ExpandEach(lib, xs + ys) == ExpandEach(lib, xs) + ExpandEach(lib, ys)
  {
    var l, a, b := ExpandEach(lib, xs + ys), ExpandEach(lib, xs), ExpandEach(lib, ys);
    forall k | 0 <= k < |l|
      ensures l[k] == (a + b)[k]
    {
      if k < |xs| {
        assert (xs + ys)[k] == xs[k];
        assert l[k] == a[k];
      } else {
        assert (xs + ys)[k] == ys[k - |xs|];
        assert l[k] == b[k - |xs|];
      }
    }
    assert l == a + b;
  }

  /** A measure for `ParseRange`: rewriting a comma string into a list of
      comma-free strings lowers it, and so does descending into a list element. */
  ghost function Rank(range: IpRange): nat
  {
    match range
    case Other => 0
    case Leaf(s) => if ',' in s then 1 else 0
    case Many(items) => 1 + Sum(seq(|items|, i requires 0 <= i < |items| => Rank(items[i])))
  }

  /** The elements `ParseRange` recurses into rank below the range itself. */
  lemma {:induction false} RankBelow(range: IpRange, items: seq<IpRange>, i: nat)
    requires i < |items|
    requires range == Many(items) || (range.Leaf? && ',' in range.s && items == Leaves(CommaPieces(range.s)))
    ensures Rank(items[i]) < Rank(range)
  {
    if range.Many? {
      SumBound(seq(|items|, j requires 0 <= j < |items| => Rank(items[j])), i);
    }
  }

  ghost function Sum(ns: seq<nat>): nat
  {
    if ns == [] then 0 else ns[0] + Sum(ns[1..])
  }

  lemma {:induction false} SumBound(ns: seq<nat>, i: nat)
    requires i < |ns|
    ensures ns[i] <= Sum(ns)
    decreases i
  {
    if i > 0 {
      SumBound(ns[1..], i - 1);
    }
  }

  /** The end of `parseRange` for a comma-free string token: IPv4 text goes through
      `ip.cidrSubnet` and `v4Range`, IPv6 text through its block's start and end
      address and `v6Range`, hyphenated text through `fromRange`. */
  method ParseToken(lib: AddressLib, s: string) returns (res: Result<seq<string>>)
    ensures res == ExpandToken(lib, s)
  {
    if lib.validV4(s) {
      var bounds := V4Subnet(lib, s);
      if bounds.Failure? {
        return Failure(bounds.error);
      }
      var ips := V4Range(lib, bounds.value.0, bounds.value.1);
      return Success(ips);
    }
    if lib.validV6(s) {
      var bounds := V6Block(lib, s);
      var ips := V6Range(lib, bounds.0, bounds.1);
      return Success(ips);
    }
    if IsRange(s) {
      return FromRange(lib, s, None);
    }
    return Failure(InvalidRange);
  }

  /** `parseRange`: rejects a falsy range, rewrites a comma string into the list of
      its trimmed pieces, walks a list with a `for ... of` loop that pushes every
      element's addresses and stops at the first error, and resolves a single
      string token by family and notation. */
  method ParseRange(lib: AddressLib, range: IpRange) returns (res: Result<seq<string>>)
    ensures res == Expand(lib, range)
    decreases Rank(range), 1
  {
    match range {
      case Other =>
        return Failure(InvalidRange);
      case Many(xs) =>
        ExpandMany(lib, xs);
        res := ParseList(lib, range, xs);
      case Leaf(s) =>
        if s == "" {
          return Failure(InvalidRange);
        }
        if ',' in s {
          var items := Leaves(CommaPieces(s));
          ExpandCommaString(lib, s);
          ExpandMany(lib, items);
          res := ParseList(lib, range, items);
        } else {
          res := ParseToken(lib, s);
        }
    }
  }

  /** The `for ... of` loop of `parseRange` over the elements of `range` (a list, or
      a comma string rewritten as the list of its pieces): push every element's
      addresses, and return the first error as it is. */
  method ParseList(lib: AddressLib, ghost range: IpRange, items: seq<IpRange>) returns (res: Result<seq<string>>)
    requires range == Many(items) || (range.Leaf? && ',' in range.s && items == Leaves(CommaPieces(range.s)))
    ensures res == Combine(ExpandEach(lib, items))
    decreases Rank(range), 0
  {
    var ips: seq<string> := [];
    for i := 0 to |items|
      invariant Combine(ExpandEach(lib, items[..i])) == Success(ips)
    {
      RankBelow(range, items, i);
      var r := ParseRange(lib, items[i]);
      PrefixStep(lib, items, i);
      if r.Failure? {
        PrefixFailure(lib, items, i);
        return r;
      }
      ips := ips + r.value;
    }
    assert items[..|items|] == items;
    return Success(ips);
  }
}
