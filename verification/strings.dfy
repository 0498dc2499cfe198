/** The parts of Go's `strings` package the image code relies on, for a
    one-byte prefix or separator: `TrimPrefix` and `Split`. */
module Strings {
  import opened Bytes

  /** strings.TrimPrefix(s, string(p)): removes one leading p, if there is one. */
  function TrimPrefix(s: GoString, p: uint8): (t: GoString)
    ensures s == t || s == [p] + t
    ensures s == t <==> |s| == 0 || s[0] != p
  {
    if |s| > 0 && s[0] == p then s[1..] else s
  }

  /** Position of the first occurrence of c in s. */
  function IndexOf(s: GoString, c: uint8): (i: nat)
    requires c in s
    ensures i < |s| && s[i] == c && c !in s[..i]
  {
    if s[0] == c then 0
    else
      var i := 1 + IndexOf(s[1..], c);
      assert s[..i] == [s[0]] + s[1..][..i - 1];
      i
  }

  /** strings.Join(parts, string(sep)). */
  function Join(parts: seq<GoString>, sep: uint8): GoString
  {
    if |parts| == 0 then []
    else if |parts| == 1 then parts[0]
    else parts[0] + [sep] + Join(parts[1..], sep)
  }

  /** strings.Split(s, string(sep)): the pieces of s between occurrences of
      sep; one more piece than there are separators, and an empty s gives
      one empty piece. */
  function Split(s: GoString, sep: uint8): (parts: seq<GoString>)
    ensures |parts| == multiset(s)[sep] + 1
    ensures forall i :: 0 <= i < |parts| ==> sep !in parts[i]
    ensures Join(parts, sep) == s
    decreases |s|
  {
    if sep !in s then
      assert multiset(s)[sep] == 0;
      [s]
    else
      var i := IndexOf(s, sep);
      var rest := Split(s[i + 1..], sep);
      assert s == s[..i] + [sep] + s[i + 1..];
      assert multiset(s) == multiset(s[..i]) + multiset{sep} + multiset(s[i + 1..]);
      assert ([s[..i]] + rest)[1..] == rest;
      [s[..i]] + rest
  }

  /** Split inverts Join whenever no piece contains the separator. */
  lemma {:induction false} SplitJoin(parts: seq<GoString>, sep: uint8)
    requires 0 < |parts|
    requires forall i :: 0 <= i < |parts| ==> sep !in parts[i]
    ensures Split(Join(parts, sep), sep) == parts
    decreases |parts|
  {
    var s := Join(parts, sep);
    if |parts| == 1 {
      assert s == parts[0];
    } else {
      var tail := Join(parts[1..], sep);
      assert s == parts[0] + [sep] + tail;
      var i := |parts[0]|;
      IndexOfFirst(parts[0], sep, tail);
      assert s[..i] == parts[0];
      assert s[i + 1..] == tail;
      assert Split(s, sep) == [parts[0]] + Split(tail, sep);
      SplitJoin(parts[1..], sep);
      assert parts == [parts[0]] + parts[1..];
    }
  }

  lemma {:induction false} IndexOfFirst(a: GoString, c: uint8, b: GoString)
    requires c !in a
    ensures c in a + [c] + b
    ensures IndexOf(a + [c] + b, c) == |a|
    decreases |a|
  {
    var s := a + [c] + b;
    assert s[|a|] == c;
    if |a| > 0 {
      assert s[1..] == a[1..] + [c] + b;
      IndexOfFirst(a[1..], c, b);
    }
  }

  /** Split yields exactly two pieces exactly when s holds one separator,
      and then they are what stands before and after it. */
  lemma SplitTwo(a: GoString, sep: uint8, b: GoString)
    requires sep !in a && sep !in b
    ensures Split(a + [sep] + b, sep) == [a, b]
  {
    SplitJoin([a, b], sep);
    assert Join([a, b], sep) == a + [sep] + b by {
      assert [a, b][1..] == [b];
    }
  }
}
