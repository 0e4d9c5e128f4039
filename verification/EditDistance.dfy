/** Levenshtein distance: the two-row table against the meaning it is used for.

`Edits(script, a, b)` says that a script of single-character inserts, deletes and substitutions turns
`a` into `b`. The table's recurrence gives the length of a shortest such script, and so a metric.
 */
module EditDistance {

  datatype Edit =
    | Insert(at: nat, c: char)
    | Delete(at: nat)
    | Substitute(at: nat, c: char)

  predicate Applicable(e: Edit, s: string) {
    if e.Insert? then e.at <= |s| else e.at < |s|
  }

  function Apply(e: Edit, s: string): string
    requires Applicable(e, s)
  {
    match e
    case Insert(at, c) => s[..at] + [c] + s[at..]
    case Delete(at) => s[..at] + s[at + 1..]
    case Substitute(at, c) => s[at := c]
  }

  predicate Edits(script: seq<Edit>, a: string, b: string) {
    if script == [] then a == b
    else Applicable(script[0], a) && Edits(script[1..], Apply(script[0], a), b)
  }

  function Min(x: nat, y: nat): nat {
    if x <= y then x else y
  }

  /** `Math.min` of the three cells the table looks at. */
  function Cell(above: nat, left: nat, diagonal: nat, x: char, y: char): nat {
    Min(Min(above + 1, left + 1), diagonal + if x == y then 0 else 1)
  }

  /** The table's recurrence on the last characters. */
  function Distance(a: string, b: string): nat
    decreases |a| + |b|
  {
    if a == [] then |b|
    else if b == [] then |a|
    else
      var a', b' := a[..|a| - 1], b[..|b| - 1];
      Cell(Distance(a', b), Distance(a, b'), Distance(a', b'), a[|a| - 1], b[|b| - 1])
  }

  // ----- no script is shorter -----

  function Last(s: string): char
    requires s != []
  {
    s[|s| - 1]
  }

  function Front(s: string): (r: string)
    requires s != []
    ensures r + [Last(s)] == s && |r| < |s|
  {
    s[..|s| - 1]
  }

  lemma {:induction false} DropAtEnd(u: string, y: char, b: string)
    ensures Distance(u, b) <= Distance(u + [y], b) + 1
    decreases |b|
  {
    if b != [] {
      DropAtEnd(u, y, Front(b));
    }
  }

  lemma {:induction false} SwapAtEnd(u: string, x: char, y: char, b: string)
    ensures Distance(u + [x], b) <= Distance(u + [y], b) + 1
    decreases |b|
  {
    if b != [] {
      SwapAtEnd(u, x, y, Front(b));
    }
  }

  /** Changing at most one character, `p` to `q`, at the end of `a` moves the distance by at most one. */
  lemma {:induction false} ChangeAtEnd(u: string, p: string, q: string, b: string)
    requires |p| <= 1 && |q| <= 1
    ensures Distance(u + p, b) <= Distance(u + q, b) + 1
  {
    assert p == [] || p == [p[0]];
    assert q == [] || q == [q[0]];
    assert u + [] == u;
    if p == [] && q != [] {
      DropAtEnd(u, q[0], b);
    } else if p != [] && q == [] {
    } else if p != [] && q != [] {
      SwapAtEnd(u, p[0], q[0], b);
    }
  }

  /** Changing one character anywhere moves the distance by at most one. */
  lemma {:induction false} ChangeInside(u: string, p: string, q: string, w: string, b: string)
    requires |p| <= 1 && |q| <= 1
    ensures Distance(u + p + w, b) <= Distance(u + q + w, b) + 1
    decreases |w| + |b|
  {
    if w == [] {
      assert u + p + w == u + p && u + q + w == u + q;
      ChangeAtEnd(u, p, q, b);
    } else if b != [] {
      var w', x, b', y := Front(w), Last(w), Front(b), Last(b);
      assert u + p + w == (u + p + w') + [x] && u + q + w == (u + q + w') + [x];
      ChangeInside(u, p, q, w', b);
      ChangeInside(u, p, q, w, b');
      ChangeInside(u, p, q, w', b');
    }
  }

  /** Every edit replaces at most one character, `p`, by at most one, `q`. */
  lemma EditShape(e: Edit, a: string) returns (u: string, p: string, q: string, w: string)
    requires Applicable(e, a)
    ensures |p| <= 1 && |q| <= 1 && a == u + p + w && Apply(e, a) == u + q + w
  {
    u := a[..e.at];
    match e {
      case Insert(at, c) => p, q, w := "", [c], a[at..];
      case Delete(at) => p, q, w := [a[at]], "", a[at + 1..];
      case Substitute(at, c) => p, q, w := [a[at]], [c], a[at + 1..];
    }
  }

  lemma OneEdit(e: Edit, a: string, b: string)
    requires Applicable(e, a)
    ensures Distance(a, b) <= Distance(Apply(e, a), b) + 1
  {
    var u, p, q, w := EditShape(e, a);
    ChangeInside(u, p, q, w, b);
  }

  lemma {:induction false} DistanceToSelf(a: string)
    ensures Distance(a, a) == 0
  {
    if a != [] {
      DistanceToSelf(Front(a));
    }
  }

  lemma {:induction false} NoShorterScript(script: seq<Edit>, a: string, b: string)
    requires Edits(script, a, b)
    ensures Distance(a, b) <= |script|
  {
    if script == [] {
      DistanceToSelf(a);
    } else {
      NoShorterScript(script[1..], Apply(script[0], a), b);
      OneEdit(script[0], a, b);
    }
  }

  // ----- some script is that short -----

  lemma ConsConcat<T>(s: seq<T>, t: seq<T>)
    requires s != []
    ensures s + t == [s[0]] + (s[1..] + t)
  {
  }

  lemma {:induction false} EditsThen(s: seq<Edit>, t: seq<Edit>, a: string, b: string, c: string)
    requires Edits(s, a, b) && Edits(t, b, c)
    ensures Edits(s + t, a, c)
  {
    if s == [] {
      assert s + t == t;
    } else {
      EditsThen(s[1..], t, Apply(s[0], a), b, c);
      ConsConcat(s, t);
    }
  }

  /** A script for the front of a string leaves the rest alone. */
  lemma {:induction false} EditsInFront(s: seq<Edit>, a: string, b: string, tail: string)
    requires Edits(s, a, b)
    ensures Edits(s, a + tail, b + tail)
  {
    if s != [] {
      var e := s[0];
      assert Apply(e, a + tail) == Apply(e, a) + tail;
      EditsInFront(s[1..], Apply(e, a), b, tail);
    }
  }

  lemma ThenInsert(s: seq<Edit>, a: string, b: string)
    requires b != [] && Edits(s, a, Front(b))
    ensures Edits(s + [Insert(|Front(b)|, Last(b))], a, b)
  {
    var e := Insert(|Front(b)|, Last(b));
    EditsThen(s, [e], a, Front(b), b);
  }

  lemma DeleteThen(s: seq<Edit>, a: string, b: string)
    requires a != [] && Edits(s, Front(a), b)
    ensures Edits([Delete(|Front(a)|)] + s, a, b)
  {
    var e := Delete(|Front(a)|);
    EditsThen([e], s, a, Front(a), b);
  }

  lemma SubstituteThen(s: seq<Edit>, a: string, b: string)
    requires a != [] && b != [] && Edits(s, Front(a), Front(b))
    ensures Edits(if Last(a) == Last(b) then s else [Substitute(|Front(a)|, Last(b))] + s, a, b)
  {
    var a', b', x, y := Front(a), Front(b), Last(a), Last(b);
    EditsInFront(s, a', b', [y]);
    assert a == a' + [x] && b == b' + [y];
    if x != y {
      var e := Substitute(|a'|, y);
      EditsThen([e], s, a, a' + [y], b);
    }
  }

  lemma {:induction false} ShortScript(a: string, b: string) returns (script: seq<Edit>)
    ensures Edits(script, a, b) && |script| == Distance(a, b)
    decreases |a| + |b|
  {
    if a == [] && b == [] {
      script := [];
    } else if b != [] && (a == [] || Distance(a, b) == Distance(a, Front(b)) + 1) {
      var s := ShortScript(a, Front(b));
      ThenInsert(s, a, b);
      script := s + [Insert(|Front(b)|, Last(b))];
    } else if b == [] || Distance(a, b) == Distance(Front(a), b) + 1 {
      var s := ShortScript(Front(a), b);
      DeleteThen(s, a, b);
      script := [Delete(|Front(a)|)] + s;
    } else {
      var s := ShortScript(Front(a), Front(b));
      SubstituteThen(s, a, b);
      script := if Last(a) == Last(b) then s else [Substitute(|Front(a)|, Last(b))] + s;
    }
  }

  /** The distance is the least number of single-character edits that turn `a` into `b`. */
  lemma DistanceIsLeast(a: string, b: string)
    ensures exists script :: Edits(script, a, b) && |script| == Distance(a, b)
    ensures forall script :: Edits(script, a, b) ==> Distance(a, b) <= |script|
  {
    var script := ShortScript(a, b);
    forall other | Edits(other, a, b) ensures Distance(a, b) <= |other| {
      NoShorterScript(other, a, b);
    }
  }

  // ----- the distance is a metric -----

  function Undo(e: Edit, s: string): Edit
    requires Applicable(e, s)
  {
    match e
    case Insert(at, _) => Delete(at)
    case Delete(at) => Insert(at, s[at])
    case Substitute(at, _) => Substitute(at, s[at])
  }

  lemma UndoOnce(e: Edit, s: string)
    requires Applicable(e, s)
    ensures Applicable(Undo(e, s), Apply(e, s)) && Apply(Undo(e, s), Apply(e, s)) == s
  {
  }

  lemma {:induction false} UndoScript(script: seq<Edit>, a: string, b: string) returns (back: seq<Edit>)
    requires Edits(script, a, b)
    ensures Edits(back, b, a) && |back| == |script|
  {
    if script == [] {
      back := [];
    } else {
      var e := script[0];
      var mid := Apply(e, a);
      var rest := UndoScript(script[1..], mid, b);
      UndoOnce(e, a);
      back := rest + [Undo(e, a)];
      EditsThen(rest, [Undo(e, a)], b, mid, a);
    }
  }

  lemma {:induction false} Symmetric(a: string, b: string)
    ensures Distance(a, b) == Distance(b, a)
  {
    var s := ShortScript(a, b);
    var t := ShortScript(b, a);
    var s' := UndoScript(s, a, b);
    var t' := UndoScript(t, b, a);
    NoShorterScript(s', b, a);
    NoShorterScript(t', a, b);
  }

  lemma {:induction false} TriangleInequality(a: string, b: string, c: string)
    ensures Distance(a, c) <= Distance(a, b) + Distance(b, c)
  {
    var s := ShortScript(a, b);
    var t := ShortScript(b, c);
    EditsThen(s, t, a, b, c);
    NoShorterScript(s + t, a, c);
  }

  lemma {:induction false} ZeroOnlyOnEqual(a: string, b: string)
    ensures Distance(a, b) == 0 <==> a == b
  {
    var script := ShortScript(a, b);
    DistanceToSelf(a);
  }

  // ----- the two-row table -----

  ghost function TableEntry(a: string, b: string, i: int, j: int): nat
    requires 0 <= i <= |a| && 0 <= j <= |b|
  {
    Distance(a[..i], b[..j])
  }

  lemma TableStep(a: string, b: string, i: nat, j: nat)
    requires 1 <= i <= |a| && 1 <= j <= |b|
    ensures TableEntry(a, b, i, j)
         == Cell(TableEntry(a, b, i - 1, j), TableEntry(a, b, i, j - 1), TableEntry(a, b, i - 1, j - 1),
                 a[i - 1], b[j - 1])
  {
    assert a[..i] == a[..i - 1] + [a[i - 1]];
    assert b[..j] == b[..j - 1] + [b[j - 1]];
  }

  /** Rows are swapped, not copied, so beyond the cells already written `curr` holds stale values. */
  method Levenshtein(a: string, b: string) returns (d: nat)
    ensures d == Distance(a, b)
  {
    var m, n := |a|, |b|;
    if m == 0 {
      return n;
    }
    if n == 0 {
      return m;
    }
    var prev := new nat[n + 1](index => index);
    var curr := new nat[n + 1](_ => 0);
    for i := 1 to m + 1
      invariant prev != curr && prev.Length == curr.Length == n + 1
      invariant fresh(prev) && fresh(curr)
      invariant forall k | 0 <= k <= n :: prev[k] == TableEntry(a, b, i - 1, k)
    {
      curr[0] := i;
      for j := 1 to n + 1
        invariant forall k | 0 <= k <= n :: prev[k] == TableEntry(a, b, i - 1, k)
        invariant forall k | 0 <= k < j :: curr[k] == TableEntry(a, b, i, k)
      {
        TableStep(a, b, i, j);
        curr[j] := Cell(prev[j], curr[j - 1], prev[j - 1], a[i - 1], b[j - 1]);
      }
      prev, curr := curr, prev;
    }
    assert a[..m] == a && b[..n] == b;
    return prev[n];
  }
}
