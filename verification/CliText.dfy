/** Joining and splitting text, as `Array.join` and `String.split` do, and a few things about sequences. */
module CliText {

  datatype Option<+T> = None | Some(value: T)

  lemma Regroup<T>(a: seq<T>, b: seq<T>, c: seq<T>)
    ensures a + (b + c) == a + b + c
  {
  }

  function Join(parts: seq<string>, separator: string): string {
    if parts == [] then ""
    else if |parts| == 1 then parts[0]
    else parts[0] + separator + Join(parts[1..], separator)
  }

  /** The first index of `c` in `s`, or `|s|` when there is none. */
  function IndexOf(s: string, c: char): (i: nat)
    ensures i <= |s|
    ensures c !in s[..i]
    ensures i < |s| ==> s[i] == c
  {
    if s == [] || s[0] == c then 0 else 1 + IndexOf(s[1..], c)
  }

  /** `s.split(c)`: one more part than there are separators. */
  function Split(s: string, c: char): (parts: seq<string>)
    ensures parts != []
    decreases |s|
  {
    var i := IndexOf(s, c);
    if i == |s| then [s] else [s[..i]] + Split(s[i + 1..], c)
  }

  lemma {:induction false} IndexInFront(a: string, c: char, b: string)
    requires c !in a
    ensures IndexOf(a, c) == |a|
    ensures IndexOf(a + [c] + b, c) == |a|
  {
    if a != [] {
      assert a[0] in a && (a + [c] + b)[1..] == a[1..] + [c] + b;
      IndexInFront(a[1..], c, b);
    }
  }

  /** The first part ends at the first separator. */
  lemma SplitFirst(front: string, c: char, rest: string)
    requires c !in front
    ensures Split(front + [c] + rest, c) == [front] + Split(rest, c)
  {
    var s := front + [c] + rest;
    IndexInFront(front, c, rest);
    assert s[..|front|] == front && s[|front| + 1..] == rest;
  }

  lemma SplitWithout(s: string, c: char)
    requires c !in s
    ensures Split(s, c) == [s]
  {
    assert IndexOf(s, c) == |s| by {
      IndexInFront(s, c, "");
    }
  }

  lemma CutAtFirst(s: string, c: char) returns (front: string, rest: string)
    requires c in s
    ensures s == front + [c] + rest && c !in front
  {
    var i := IndexOf(s, c);
    assert s[..|s|] == s;
    front, rest := s[..i], s[i + 1..];
  }

  lemma RegroupAround(front: string, c: char, rest: string, tail: string)
    ensures front + [c] + rest + [c] + tail == front + [c] + (rest + [c] + tail)
  {
  }

  /** Splitting at a separator splits each side on its own. */
  lemma {:induction false} SplitConcat(a: string, c: char, b: string)
    ensures Split(a + [c] + b, c) == Split(a, c) + Split(b, c)
    decreases |a|
  {
    if c !in a {
      SplitFirst(a, c, b);
      SplitWithout(a, c);
    } else {
      var front, rest := CutAtFirst(a, c);
      SplitConcat(rest, c, b);
      SplitFirst(front, c, rest);
      SplitFirst(front, c, rest + [c] + b);
      RegroupAround(front, c, rest, b);
      Regroup([front], Split(rest, c), Split(b, c));
    }
  }

  /** The first `n` elements, or all of them if there are fewer. */
  function UpTo<T>(s: seq<T>, n: nat): seq<T> {
    if |s| <= n then s else s[..n]
  }
}
