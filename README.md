# ip-range in Dafny

A model of the range engine of `ip-range` (`src/index.ts`). It expands a range
specification into the ordered list of every IP address it denotes:

- an IPv4 CIDR block resolves to the usable hosts of its subnet;
- IPv6 text resolves to its whole block;
- an `a-b` pair resolves to every address between its two ends;
- a comma-separated string resolves to the list of its trimmed pieces;
- a nested list resolves to the in-order concatenation of its elements.

The first error aborts the whole call.

Files:

- `Text.dfy` (module `Text`) holds JavaScript's `split` with a one-character
  separator and `trim`, with the round trips between `split` and `join`.
- `Address.dfy` (module `Address`) holds what the engine borrows from the `ip` and
  `ip-address` packages. That is the record `AddressLib` of their functions, passed
  as a parameter. Two kinds of fact are assumed of them. `Sound` says that reading a
  rendered number back gives that number, within 32 and 128 bits. The field types say
  that a read-back number fits its family (`U32`, `U128`) and that a prefix length is
  within its family's width (`Prefix4`, `Prefix6`). Where a lemma needs a string not
  to be address text, it says so in its own precondition.

  The file also writes out the two CIDR policies: `ip.subnet`'s IPv4 host range and
  `Address6`'s whole IPv6 block.
- `IpRange.dfy` (module `IpRange`) holds the engine:
  - the notation predicates;
  - the counting loop of `v4Range`/`v6Range` (`Walk`) and the function it computes
    (`Enumerate`);
  - `fromRange`/`ipsBetween`;
  - `parseRange` twice: once as the pure function `Expand`, and once as the
    recursive method `ParseRange` with its `for ... of` loop in `ParseList`, proved
    equal to `Expand`.
- `Properties.dfy` (module `RangeProperties`) holds the lemmas about `Expand`,
  `FromRange` and `IpsBetween` that state what the engine promises.

Errors are values: `Failure(InvalidRange)` stands for the engine's own
"InvalidRange: ..." throws. `Failure(InvalidCidrSubnet)` stands for the
"invalid CIDR subnet" that `ip.cidrSubnet` throws through `parseRange`.

Two readings of the code worth noting:

- The IPv6 branch of `parseRange` (`src/index.ts:148-152`) takes any valid IPv6
  text, not only CIDR notation. A bare IPv6 address expands to the one-address block
  of its own prefix (`/128`).
- `v6Range` steps a `BigInteger` cast to `number` (`src/index.ts:68-75`). The model
  counts exactly in unbounded integers; the 128-bit range is carried by the type `U128`.

## Model

| member | source | states |
|---|---|---|
| Text.Split | src/index.ts:88 | `s.split(sep)`: at least one piece, no piece contains the separator, and exactly one piece when the separator does not occur |
| Text.JoinSplit | src/index.ts:88 | joining the pieces of a split with the separator gives back the original string |
| Text.SplitJoin | src/index.ts:126 | splitting a join of separator-free pieces gives back those pieces |
| Text.SplitFirst | src/index.ts:88 | the first piece of a split is the text up to the first separator or the end, and the remaining pieces split the text after it |
| Text.SplitFirstTwo | src/index.ts:88 | with two or more pieces, the first two are the text before the first separator and the text from there to the next separator or the end |
| Text.SplitCons | src/index.ts:88 | splitting `a + sep + rest` with `a` separator-free gives `a` followed by the pieces of `rest` |
| Text.Trim | src/index.ts:126 | `r.trim()` is no longer than its input, keeps only characters of it, and neither starts nor ends with white space |
| Text.TrimIsSlice | src/index.ts:126 | `r.trim()` is a contiguous slice of its input, preceded and followed only by white space |
| Text.TrimIdempotent | src/index.ts:126 | trimming an already trimmed piece changes nothing |
| Address.V4HostBounds | src/index.ts:143 | `ip.cidrSubnet`'s first/last host lies in the block; for prefixes below 31 it is network + 1 .. broadcast - 1, for /31 and /32 the whole block |
| Address.V6BlockBounds | src/index.ts:149-151 | `Address6`'s start/end address is the whole block of 2^(128-p) addresses around the given address, both ends included |
| Address.V4Network | src/index.ts:143 | the IPv4 network address is the address with its 32-p host bits cleared (`addr >> (32-p) << (32-p)`), at or below the address, and its block of 2^(32-p) fits in 32 bits |
| Address.V6Network | src/index.ts:149-151 | the IPv6 block start is the address with its 128-p host bits cleared (`addr >> (128-p) << (128-p)`), at or below the address, and its block of 2^(128-p) fits in 128 bits |
| Address.ClearLowIsMask | src/index.ts:143 | clearing the low h bits one at a time equals shifting right then left by h bits |
| IpRange.IsRange | src/index.ts:9-12 | hyphen notation holds exactly when `split('-')` yields two or more pieces |
| IpRange.IsCidr | src/index.ts:17-20 | CIDR notation holds exactly when `split('/')` yields two or more pieces |
| IpRange.Enumerate | src/index.ts:44-56 | inclusive ascending enumeration: length `last - first + 1` (0 when first > last), element i is `render(first + i)` |
| IpRange.Walk | src/index.ts:52-53 | the counting loop pushes exactly `Enumerate(start, end, render)` |
| IpRange.V4Range | src/index.ts:44-56 | `v4Range` returns the enumeration between the two numbers; its length is exact; read back, element i is `first + i` |
| IpRange.V6Range | src/index.ts:64-78 | `v6Range` returns the enumeration between the two 128-bit numbers; its length is exact; read back, element i is `first + i` |
| IpRange.Endpoints | src/index.ts:88 | with a non-empty `lastIP` the two arguments; otherwise the first two `-` pieces, present exactly when the string has a `-`, neither containing `-`: the text before the first `-`, and the text after it up to the next `-` or the end |
| IpRange.FromRange | src/index.ts:85-101 | every failure is InvalidRange; success implies a non-empty first argument, two endpoints, neither in CIDR notation, and both of one family |
| IpRange.IpsBetween | src/index.ts:109-111 | with non-empty `lastIP`: fails iff first is empty, either has `/`, or they are not one family; else the v4 enumeration (v4 pair first) or the v6 one |
| IpRange.V4Subnet | src/index.ts:143 | `ip.cidrSubnet` fails with "invalid CIDR subnet" exactly when the text does not split on `/` into two pieces |
| IpRange.CommaPieces | src/index.ts:123-127 | one trimmed, comma-free piece per `split(',')` piece; two or more exactly when there is a comma |
| IpRange.ExpandCommaString | src/index.ts:123-138 | a comma string expands as the list of its trimmed pieces |
| IpRange.ThenAssoc | src/index.ts:132-135 | joining outcomes is associative, so grouping of list elements does not matter |
| IpRange.CombineAppend | src/index.ts:132-135 | the outcome of two lists back to back is the first list's outcome joined with the second's |
| IpRange.PrefixStep | src/index.ts:132-135 | the outcome of the first i + 1 elements is that of the first i joined with element i |
| IpRange.PrefixFailure | src/index.ts:133 | once a prefix of the list fails, the whole list has that outcome |
| IpRange.ExpandEachAppend | src/index.ts:132-135 | the outcomes of two lists back to back are the two sequences of outcomes concatenated |
| IpRange.RankBelow | src/index.ts:126-133 | each element the loop recurses into is smaller than the range being parsed, so `parseRange` terminates |
| IpRange.ParseToken | src/index.ts:140-156 | a comma-free string resolves by family and notation exactly as `ExpandToken` says |
| IpRange.ParseRange | src/index.ts:118-157 | `parseRange` returns exactly `Expand(range)`: the addresses, or the first error |
| IpRange.ParseList | src/index.ts:129-138 | the `for ... of` loop returns the in-order combination of its elements' outcomes, stopping at the first error |
| RangeProperties.CombineFailsIff | src/index.ts:132-135 | a combination fails exactly when one of its outcomes fails |
| RangeProperties.CombineFirstError | src/index.ts:133 | the error of a combination is that of its first failing outcome |
| RangeProperties.ManyIsConcatenation | src/index.ts:129-138 | a list of two parts expands to the first part's addresses followed by the second's |
| RangeProperties.SingletonList | src/index.ts:119 | a one-element list expands as its element; the empty list is truthy and gives no addresses |
| RangeProperties.NestingIsFlattened | src/index.ts:129-138 | a nested list expands as if its elements stood in the outer list |
| RangeProperties.NestedListScenario | __test__/index.test.ts:234-243 | `[X, [Y, Z]]` expands to X's, Y's and Z's addresses in order, and fails as soon as one of them fails |
| RangeProperties.ListFailsIff | src/index.ts:132-135 | a list fails exactly when some element fails |
| RangeProperties.ListFirstError | src/index.ts:133 | a list's error is its first failing element's error; earlier addresses are dropped |
| RangeProperties.CommaStringIsList | src/index.ts:123-127 | a comma string expands as the list of its trimmed `split(',')` pieces |
| RangeProperties.EmptyCommaPieceFails | src/index.ts:119 | an empty piece (`a,,b`) makes the whole string fail, with InvalidRange when the pieces before it succeed |
| RangeProperties.HyphenMatchesIpsBetween | __test__/index.test.ts:97-102 | `parseRange("a-b")` equals `ipsBetween(a, b)` when both sides are non-empty, neither contains `-` or `,`, and `a-b` is not itself address text |
| RangeProperties.ExtraHyphenPiecesIgnored | src/index.ts:88 | `a-b-c` expands exactly as `a-b` when `a` and `b` contain no `-`, none of `a`, `b`, `c` contains `,`, and neither joined string is address text |
| RangeProperties.HyphenEndpoints | src/index.ts:88 | both `a-b-c` and `a-b` have the endpoints `(a, b)` |
| RangeProperties.SplitThree | src/index.ts:88 | `a-b-c` splits into `a`, `b` and the pieces of `c` |
| RangeProperties.HyphenLeaf | src/index.ts:142-154 | a comma-free string with a `-` that is neither IPv4 nor IPv6 text goes to `fromRange` |
| RangeProperties.EmptyLastIsSplit | src/index.ts:86-90 | `ipsBetween(a, "")` splits `a` on `-`; with no `-` it fails with InvalidRange |
| RangeProperties.ReversedPairIsEmpty | src/index.ts:52 | an IPv4 pair, or else an IPv6 pair, whose first address is above its last gives no addresses, not an error |
| RangeProperties.V4HostList | src/index.ts:143-145 | the host list has 2^(32-p) - 2 addresses strictly between network and broadcast for p < 31, else 2^(32-p); element i is `first + i` |
| RangeProperties.V4RoundTrips | src/index.ts:48-53 | each rendered IPv4 address reads back as its own number, so the list is ascending by one |
| RangeProperties.V4CidrHostRange | __test__/index.test.ts:46-48 | IPv4 CIDR text expands to the enumeration of `ip.subnet`'s host range of its block |
| RangeProperties.V4BareAddressFails | __test__/index.test.ts:82-84 | IPv4 text without a `/` fails with "invalid CIDR subnet" |
| RangeProperties.V6CidrWholeBlock | __test__/index.test.ts:50-52 | IPv6 text expands to its whole block: 2^(128-p) addresses from the block start, the given address among them |
| RangeProperties.UnrecognisedLeafFails | __test__/index.test.ts:67-76 | comma-free text that is neither IPv4, IPv6 nor hyphenated, the empty string, and any non-string non-list value fail with InvalidRange |

## Left out

- Address validation, text rendering and prefix parsing of `ip`/`ip-address` are a parameter (`AddressLib`); their source is not part of this model. Only the facts in `Sound`, and the ranges carried by the field types `U32`, `U128`, `Prefix4` and `Prefix6`, are assumed of them.
- The `typeof` guards of `isRange`, `isCIDR`, `isV4`, `isV6` and `parseRange` are not modelled per value type: every value that is neither a string nor an array (number, null, undefined) is the single case `Other`, which fails with InvalidRange.
- Error message texts are not modelled: only the kind of error (InvalidRange or "invalid CIDR subnet") is kept.
- `ipsBetween` with a non-string argument is not modelled; its arguments are strings. An undefined `lastIP` in `fromRange` is `None`.
- IpRange.V6Range: does not model the `BigInteger`-to-`number` cast in `v6Range`. The counter is an exact integer, which is the behaviour the loop is meant to have.
- The memory and time of very large enumerations (a wide IPv6 block) are not modelled. Nor is the argument-count limit of `ips.push(...r)` (`src/index.ts:134`): spreading a very large sub-result into one call throws a `RangeError` in JavaScript, where the model concatenates the lists.
- Address text that contains `-` or `,` (an IPv6 zone suffix such as `%eth-0`) is not ruled out: `Sound` says nothing about it, and the hyphen lemmas require that the joined text is not address text.
- Address.V4HostBounds: the /31 and /32 policy (keep the whole block) follows the `ip` package's `subnet`, whose source is not part of this model.
- A prefix above the family's width (`192.168.1.12/33`) is rejected by the validity check of `ip-address` before any CIDR resolution; the model leaves that decision to `AddressLib.validV4`/`validV6`, and the prefix lengths it reads are 0..32 and 0..128 by type.
