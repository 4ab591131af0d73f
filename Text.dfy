/** String utilities the range parser relies on: JavaScript's `String.prototype.split`
    with a one-character separator, and `String.prototype.trim`. */
module Text {

  /** Position of the first occurrence of `c` in `s`. */
  function IndexOf(s: string, c: char): (k: nat)
    requires c in s
    ensures k < |s| && s[k] == c && c !in s[..k]
  {
    if s[0] == c then 0
    else
      assert s == [s[0]] + s[1..];
      var k := IndexOf(s[1..], c);
      assert s[..k + 1] == [s[0]] + s[1..][..k];
      k + 1
  }

  /** The pieces of `s` between occurrences of `sep` (`s.split(sep)`): an input
      without `sep` gives one piece, the empty string included. */
  function Split(s: string, sep: char): (parts: seq<string>)
    ensures |parts| >= 1
    ensures forall i :: 0 <= i < |parts| ==> sep !in parts[i]
    ensures |parts| == 1 <==> sep !in s
    decreases |s|
  {
    if sep !in s then [s]
    else
      var k := IndexOf(s, sep);
      [s[..k]] + Split(s[k + 1..], sep)
  }

  /** Glues the pieces back together with `sep` between them (`parts.join(sep)`). */
  function Join(parts: seq<string>, sep: char): string
    requires |parts| >= 1
  {
    if |parts| == 1 then parts[0] else parts[0] + [sep] + Join(parts[1..], sep)
  }

  /** Splitting `a + sep + rest` peels off `a` when `a` holds no separator. */
  lemma {:induction false} SplitCons(a: string, sep: char, rest: string)
    requires sep !in a
    ensures Split(a + [sep] + rest, sep) == [a] + Split(rest, sep)
  {
    var s := a + [sep] + rest;
    assert s[|a|] == sep;
    assert s[..|a|] == a;
    var k := IndexOf(s, sep);
    assert k == |a|;
    assert s[k + 1..] == rest;
  }

  /** The first piece of a split is the text up to the first separator (or all of
      `s`), and the remaining pieces are the split of what follows that separator. */
  lemma {:induction false} SplitFirst(s: string, sep: char)
    ensures var p := Split(s, sep)[0];
            && |p| <= |s| && s[..|p|] == p
            && (|p| == |s| || s[|p|] == sep)
            && (|p| < |s| <==> |Split(s, sep)| >= 2)
            && (|p| < |s| ==> Split(s[|p| + 1..], sep) == Split(s, sep)[1..])
  {
    if sep in s {
      var k := IndexOf(s, sep);
      assert Split(s, sep) == [s[..k]] + Split(s[k + 1..], sep);
    }
  }

  /** Where the first two pieces of a split sit in `s`: the first piece, a
      separator, the second piece, then the end of `s` or another separator. */
  lemma {:induction false} SplitFirstTwo(s: string, sep: char)
    requires |Split(s, sep)| >= 2
    ensures var p0, p1 := Split(s, sep)[0], Split(s, sep)[1];
            && |p0| + 1 + |p1| <= |s|
            && s[..|p0|] == p0 && s[|p0|] == sep
            && s[|p0| + 1..|p0| + 1 + |p1|] == p1
            && (|p0| + 1 + |p1| == |s| || s[|p0| + 1 + |p1|] == sep)
  {
    var parts := Split(s, sep);
    var k := |parts[0]|;
    SplitFirst(s, sep);
    var rest := s[k + 1..];
    assert parts[1] == Split(rest, sep)[0];
    SplitFirst(rest, sep);
    TwoPieceLayout(s, sep, parts[0], parts[1]);
  }

  /** Where `p0`, a separator and `p1` sit in `s` when `p1` heads what follows the
      separator. */
  lemma {:induction false} TwoPieceLayout(s: string, sep: char, p0: string, p1: string)
    requires |p0| < |s| && s[..|p0|] == p0 && s[|p0|] == sep
    requires var rest := s[|p0| + 1..];
             |p1| <= |rest| && rest[..|p1|] == p1 && (|p1| == |rest| || rest[|p1|] == sep)
    ensures var n0, n1 := |p0|, |p1|;
            && n0 + 1 + n1 <= |s| && s[n0 + 1..n0 + 1 + n1] == p1
            && (n0 + 1 + n1 == |s| || s[n0 + 1 + n1] == sep)
  {
    var m := |p0| + 1;
    assert s[m..][..|p1|] == s[m..m + |p1|];
  }

  /** Joining the pieces of a split gives back the original string. */
  lemma {:induction false} JoinSplit(s: string, sep: char)
    ensures Join(Split(s, sep), sep) == s
    decreases |s|
  {
    if sep in s {
      var k := IndexOf(s, sep);
      var head, rest := s[..k], s[k + 1..];
      SplitAt(s, k);
      SplitCons(head, sep, rest);
      JoinSplit(rest, sep);
      JoinCons(head, Split(rest, sep), sep);
    }
  }

  /** `s` is the text before position `k`, the character at `k`, and the text after it. */
  lemma {:induction false} SplitAt(s: string, k: nat)
    requires k < |s|
    ensures s == s[..k] + [s[k]] + s[k + 1..]
  {
    assert s[k..] == [s[k]] + s[k + 1..];
    assert s == s[..k] + s[k..];
  }

  lemma {:induction false} JoinCons(head: string, tail: seq<string>, sep: char)
    requires |tail| >= 1
    ensures Join([head] + tail, sep) == head + [sep] + Join(tail, sep)
  {
    assert ([head] + tail)[1..] == tail;
  }

  /** Split is the inverse of Join on separator-free pieces. */
  lemma {:induction false} SplitJoin(parts: seq<string>, sep: char)
    requires |parts| >= 1
    requires forall i :: 0 <= i < |parts| ==> sep !in parts[i]
    ensures Split(Join(parts, sep), sep) == parts
    decreases |parts|
  {
    if |parts| == 1 {
      assert Join(parts, sep) == parts[0];
    } else {
      var head, tail := parts[0], parts[1..];
      assert parts == [head] + tail;
      JoinCons(head, tail, sep);
      SplitCons(head, sep, Join(tail, sep));
      SplitJoin(tail, sep);
    }
  }

  /** The characters `String.prototype.trim` removes: ECMAScript WhiteSpace (tab,
      vertical tab, form feed, the Zs space separators and the byte order mark)
      and LineTerminator (line feed, carriage return, U+2028, U+2029). */
  predicate IsWhiteSpace(c: char)
  {
    || c == '\t' || c == '\n' || c == '\U{000B}' || c == '\U{000C}' || c == '\r'
    || c == ' ' || c == '\U{00A0}' || c == '\U{1680}'
    || ('\U{2000}' <= c <= '\U{200A}')
    || c == '\U{2028}' || c == '\U{2029}' || c == '\U{202F}' || c == '\U{205F}'
    || c == '\U{3000}' || c == '\U{FEFF}'
  }

  /** `s` with its leading white space removed. */
  function TrimStart(s: string): (r: string)
    ensures |r| <= |s| && r == s[|s| - |r|..]
    ensures forall k :: 0 <= k < |s| - |r| ==> IsWhiteSpace(s[k])
    ensures r == [] || !IsWhiteSpace(r[0])
  {
    if |s| > 0 && IsWhiteSpace(s[0]) then TrimStart(s[1..]) else s
  }

  /** `s` with its trailing white space removed. */
  function TrimEnd(s: string): (r: string)
    ensures |r| <= |s| && r == s[..|r|]
    ensures forall k :: |r| <= k < |s| ==> IsWhiteSpace(s[k])
    ensures r == [] || !IsWhiteSpace(r[|r| - 1])
  {
    if |s| > 0 && IsWhiteSpace(s[|s| - 1]) then TrimEnd(s[..|s| - 1]) else s
  }

  /** `s.trim()`: the slice of `s` left once white space is removed from both ends
      (see `TrimIsSlice`); it neither starts nor ends with white space. */
  function Trim(s: string): (r: string)
    ensures |r| <= |s|
    ensures r == [] || (!IsWhiteSpace(r[0]) && !IsWhiteSpace(r[|r| - 1]))
    ensures forall c :: c in r ==> c in s
  {
    var i, j := |s| - |TrimStart(s)|, |TrimEnd(s)|;
    TrimBetween(s, i, j);
    if j <= i then [] else s[i..j]
  }

  /** The text between leading white space that ends at `i` and trailing white
      space that starts at `j` is a slice of `s` with no white space at its ends. */
  lemma {:induction false} TrimBetween(s: string, i: nat, j: nat)
    requires i <= |s| && j <= |s|
    requires forall k :: 0 <= k < i ==> IsWhiteSpace(s[k])
    requires forall k :: j <= k < |s| ==> IsWhiteSpace(s[k])
    requires i < |s| ==> !IsWhiteSpace(s[i])
    requires 0 < j ==> !IsWhiteSpace(s[j - 1])
    ensures var r := if j <= i then [] else s[i..j];
            && |r| <= |s|
            && (r == [] || (!IsWhiteSpace(r[0]) && !IsWhiteSpace(r[|r| - 1])))
            && (forall c :: c in r ==> c in s)
            && 0 <= i <= |s| - |r| && r <= s[i..]
            && (forall k :: i + |r| <= k < |s| ==> IsWhiteSpace(s[k]))
  {
  }

  /** What `trim` removes is white space: its result sits in `s` after a run of
      white space and is followed by nothing but white space. */
  lemma {:induction false} TrimIsSlice(s: string)
    ensures var r := Trim(s);
            exists i :: 0 <= i <= |s| - |r| && r <= s[i..]
                        && (forall k :: 0 <= k < i ==> IsWhiteSpace(s[k]))
                        && (forall k :: i + |r| <= k < |s| ==> IsWhiteSpace(s[k]))
  {
    var i, j := |s| - |TrimStart(s)|, |TrimEnd(s)|;
    TrimBetween(s, i, j);
  }

  /** Trimming twice is trimming once. */
  lemma {:induction false} TrimIdempotent(s: string)
    ensures Trim(Trim(s)) == Trim(s)
  {
    var r := Trim(s);
    assert TrimStart(r) == r;
    assert TrimEnd(r) == r;
  }
}
