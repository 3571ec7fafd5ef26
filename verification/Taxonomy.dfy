/** Typo detection between taxonomy slugs: the two-row edit-distance table and the
    search for similar pairs. A slug is the sequence of its runes. */
module Taxonomy {
  import opened Common

  // ----- edit scripts, the meaning of the distance -----

  datatype Edit = Keep | Replace(c: char) | Insert(c: char) | Delete

  function Cost(script: seq<Edit>): nat {
    if script == [] then 0
    else Cost(script[..|script|-1]) + if script[|script|-1].Keep? then 0 else 1
  }

  /** The text a script makes of `a`, reading both from left to right; None when the
      script runs past `a` or leaves part of it unread. */
  function Apply(script: seq<Edit>, a: string): Option<string> {
    if script == [] then if a == [] then Some([]) else None
    else
      var rest := script[..|script|-1];
      match script[|script|-1]
      case Insert(c) => Append(Apply(rest, a), [c])
      case Delete => if a == [] then None else Apply(rest, a[..|a|-1])
      case Replace(c) => if a == [] then None else Append(Apply(rest, a[..|a|-1]), [c])
      case Keep => if a == [] then None else Append(Apply(rest, a[..|a|-1]), [a[|a|-1]])
  }

  function Append(t: Option<string>, s: string): Option<string> {
    if t.Some? then Some(t.value + s) else None
  }

  // ----- the distance -----

  function Min3(a: int, b: int, c: int): (r: int)
    ensures r <= a && r <= b && r <= c && r in {a, b, c}
  {
    if a < b then if a < c then a else c
    else if b < c then b else c
  }

  function Distance(a: string, b: string): int
    decreases |a| + |b|
  {
    if a == [] then |b|
    else if b == [] then |a|
    else
      var a', b' := a[..|a|-1], b[..|b|-1];
      Min3(Distance(a', b) + 1, Distance(a, b') + 1,
           Distance(a', b') + if a[|a|-1] == b[|b|-1] then 0 else 1)
  }

  /** No script is cheaper than the distance. */
  lemma {:induction false} NoCheaperScript(script: seq<Edit>, a: string, b: string)
    requires Apply(script, a) == Some(b)
    ensures Cost(script) >= Distance(a, b)
    decreases |script|
  {
    if script != [] {
      var rest, last := script[..|script|-1], script[|script|-1];
      var a' := if a == [] then [] else a[..|a|-1];
      match last
      case Delete =>
        NoCheaperScript(rest, a', b);
        DistanceSteps(a, b);
      case Insert(c) =>
        var b' := Apply(rest, a).value;
        assert b[..|b|-1] == b';
        NoCheaperScript(rest, a, b');
        DistanceSteps(a, b);
      case Replace(c) =>
        var b' := Apply(rest, a').value;
        assert b[..|b|-1] == b';
        NoCheaperScript(rest, a', b');
        DistanceSteps(a, b);
      case Keep =>
        var b' := Apply(rest, a').value;
        assert b[..|b|-1] == b';
        NoCheaperScript(rest, a', b');
        DistanceSteps(a, b);
    }
  }

  /** Each of the three last steps bounds the distance, at the borders too. */
  lemma {:induction false} DistanceSteps(a: string, b: string)
    ensures Distance(a, b) >= 0
    ensures a != [] ==> Distance(a, b) <= Distance(a[..|a|-1], b) + 1
    ensures b != [] ==> Distance(a, b) <= Distance(a, b[..|b|-1]) + 1
    ensures a != [] && b != [] ==> Distance(a, b) <= Distance(a[..|a|-1], b[..|b|-1]) + if a[|a|-1] == b[|b|-1] then 0 else 1
    decreases |a| + |b|
  {
    if a != [] && b != [] {
      DistanceSteps(a[..|a|-1], b);
      DistanceSteps(a, b[..|b|-1]);
      DistanceSteps(a[..|a|-1], b[..|b|-1]);
    }
  }

  /** Some script has exactly that cost. */
  lemma {:induction false} CheapestScript(a: string, b: string) returns (script: seq<Edit>)
    ensures Apply(script, a) == Some(b) && Cost(script) == Distance(a, b)
    decreases |a| + |b|
  {
    var rest;
    if a == [] && b == [] {
      script := [];
    } else if b == [] || (a != [] && Distance(a, b) == Distance(a[..|a|-1], b) + 1) {
      rest := CheapestScript(a[..|a|-1], b);
      script := rest + [Delete];
      assert script[..|script|-1] == rest;
    } else if a == [] || Distance(a, b) == Distance(a, b[..|b|-1]) + 1 {
      rest := CheapestScript(a, b[..|b|-1]);
      script := rest + [Insert(b[|b|-1])];
      assert script[..|script|-1] == rest;
      assert b[..|b|-1] + [b[|b|-1]] == b;
    } else {
      rest := CheapestScript(a[..|a|-1], b[..|b|-1]);
      script := rest + [if a[|a|-1] == b[|b|-1] then Keep else Replace(b[|b|-1])];
      assert script[..|script|-1] == rest;
      assert b[..|b|-1] + [b[|b|-1]] == b;
    }
  }

  // ----- the distance is a metric -----

  lemma {:induction false} ZeroIffEqual(a: string, b: string)
    ensures Distance(a, b) == 0 <==> a == b
    decreases |a| + |b|
  {
    if a != [] && b != [] {
      var a', b' := a[..|a|-1], b[..|b|-1];
      var x, y, z := Distance(a', b), Distance(a, b'), Distance(a', b');
      var cost := if a[|a|-1] == b[|b|-1] then 0 else 1;
      assert x >= 0 && y >= 0 && z >= 0 by {
        LengthBounds(a', b);
        LengthBounds(a, b');
        LengthBounds(a', b');
        LengthBounds(b, a');
        LengthBounds(b', a);
        LengthBounds(b', a');
      }
      assert Distance(a, b) == Min3(x + 1, y + 1, z + cost);
      ZeroIffEqual(a', b');
      assert a == a' + [a[|a|-1]] && b == b' + [b[|b|-1]];
    }
  }

  lemma {:induction false} Symmetric(a: string, b: string)
    ensures Distance(a, b) == Distance(b, a)
    decreases |a| + |b|
  {
    if a != [] && b != [] {
      Symmetric(a[..|a|-1], b);
      Symmetric(a, b[..|b|-1]);
      Symmetric(a[..|a|-1], b[..|b|-1]);
    }
  }

  /** Lengths bound the distance from both sides. */
  lemma {:induction false} LengthBounds(a: string, b: string)
    ensures |a| - |b| <= Distance(a, b) && |b| - |a| <= Distance(a, b)
    ensures Distance(a, b) <= |a| + |b|
    decreases |a| + |b|
  {
    if a != [] && b != [] {
      LengthBounds(a[..|a|-1], b);
      LengthBounds(a, b[..|b|-1]);
      LengthBounds(a[..|a|-1], b[..|b|-1]);
    }
  }

  lemma {:induction false} Triangle(a: string, b: string, c: string)
    ensures Distance(a, c) <= Distance(a, b) + Distance(b, c)
    decreases |a| + |b| + |c|
  {
    LengthBounds(a, b);
    LengthBounds(b, c);
    LengthBounds(a, c);
    if a != [] && b != [] && c != [] {
      var a', b', c' := a[..|a|-1], b[..|b|-1], c[..|c|-1];
      Triangle(a', b, c);
      Triangle(a, b, c');
      Triangle(a, b', c);
      Triangle(a, b', c');
      Triangle(a', b', c);
      Triangle(a', b', c');
      DistanceSteps(a, c);
    }
  }

  // ----- the table -----

  /** `row` holds the distances from the first `i` runes of `ra` to every prefix of
      `rb`, up to length `upto`. */
  ghost predicate IsRow(row: seq<int>, ra: string, rb: string, i: nat, upto: nat)
    requires i <= |ra| && upto <= |rb| && |row| == |rb| + 1
  {
    forall k :: 0 <= k <= upto ==> row[k] == Distance(ra[..i], rb[..k])
  }

  lemma CellRecurrence(ra: string, rb: string, i: nat, j: nat)
    requires 1 <= i <= |ra| && 1 <= j <= |rb|
    ensures Distance(ra[..i], rb[..j])
      == Min3(Distance(ra[..i-1], rb[..j]) + 1, Distance(ra[..i], rb[..j-1]) + 1,
              Distance(ra[..i-1], rb[..j-1]) + if ra[i-1] == rb[j-1] then 0 else 1)
  {
    assert ra[..i][..i-1] == ra[..i-1] && rb[..j][..j-1] == rb[..j-1];
  }

  predicate Follows(prev: seq<int>, curr: seq<int>, ra: string, rb: string, i: nat, j: nat)
    requires 1 <= i <= |ra| && 1 <= j <= |rb| && |prev| == |curr| == |rb| + 1
  {
    curr[j] == Min3(prev[j] + 1, curr[j-1] + 1, prev[j-1] + if ra[i-1] == rb[j-1] then 0 else 1)
  }

  lemma {:induction false} NextRow(prev: seq<int>, curr: seq<int>, ra: string, rb: string, i: nat, upto: nat)
    requires 1 <= i <= |ra| && upto <= |rb| && |prev| == |curr| == |rb| + 1
    requires IsRow(prev, ra, rb, i - 1, |rb|)
    requires curr[0] == i
    requires forall j :: 1 <= j <= |rb| ==> Follows(prev, curr, ra, rb, i, j)
    ensures IsRow(curr, ra, rb, i, upto)
  {
    if upto > 0 {
      NextRow(prev, curr, ra, rb, i, upto - 1);
      assert Follows(prev, curr, ra, rb, i, upto);
      assert curr[upto-1] == Distance(ra[..i], rb[..upto-1]);
      assert prev[upto] == Distance(ra[..i-1], rb[..upto]) && prev[upto-1] == Distance(ra[..i-1], rb[..upto-1]);
      assert curr[upto] == Distance(ra[..i], rb[..upto]) by {
        CellRecurrence(ra, rb, i, upto);
      }
    }
  }

  /** The inner loop: the next row from the one before it. */
  method FillRow(ra: string, rb: string, i: nat, prev: array<int>, curr: array<int>)
    requires 1 <= i <= |ra| && prev.Length == curr.Length == |rb| + 1 && prev != curr
    requires IsRow(prev[..], ra, rb, i - 1, |rb|)
    modifies curr
    ensures IsRow(curr[..], ra, rb, i, |rb|)
  {
    curr[0] := i;
    for j := 1 to |rb| + 1
      invariant curr[0] == i
      invariant forall k :: 1 <= k < j ==> Follows(prev[..], curr[..], ra, rb, i, k)
      invariant prev[..] == old(prev[..])
    {
      var cost := 1;
      if ra[i-1] == rb[j-1] {
        cost := 0;
      }
      var del := prev[j] + 1;
      var ins := curr[j-1] + 1;
      var sub := prev[j-1] + cost;
      ghost var was := curr[..];
      curr[j] := Min3(del, ins, sub);
      assert forall k :: 0 <= k < j ==> curr[..][k] == was[k];
      assert Follows(prev[..], curr[..], ra, rb, i, j);
      forall k | 1 <= k < j ensures Follows(prev[..], curr[..], ra, rb, i, k) {
        assert Follows(prev[..], was, ra, rb, i, k);
      }
    }
    NextRow(prev[..], curr[..], ra, rb, i, |rb|);
  }

  /** Two rows of the table, swapped after each row. */
  method Levenshtein(ra: string, rb: string) returns (d: int)
    ensures d == Distance(ra, rb)
  {
    var m, n := |ra|, |rb|;
    if m == 0 {
      return n;
    }
    if n == 0 {
      return m;
    }
    var prev, curr := new int[n+1], new int[n+1];
    for j := 0 to n + 1
      invariant forall k :: 0 <= k < j ==> prev[k] == k
    {
      prev[j] := j;
    }
    for i := 1 to m + 1
      invariant prev != curr && prev.Length == curr.Length == n + 1 && fresh(prev) && fresh(curr)
      invariant IsRow(prev[..], ra, rb, i - 1, n)
    {
      FillRow(ra, rb, i, prev, curr);
      prev, curr := curr, prev;
    }
    assert ra[..m] == ra && rb[..n] == rb;
    return prev[n];
  }

  /** The value returned is the least cost of all scripts that turn one text into the
      other. */
  lemma LevenshteinIsLeastCost(ra: string, rb: string, d: int)
    ensures d == Distance(ra, rb) <==>
      (forall s: seq<Edit> :: Apply(s, ra) == Some(rb) ==> d <= Cost(s))
      && (exists s: seq<Edit> :: Apply(s, ra) == Some(rb) && Cost(s) == d)
  {
    var best := CheapestScript(ra, rb);
    forall s: seq<Edit> | Apply(s, ra) == Some(rb) ensures Distance(ra, rb) <= Cost(s) {
      NoCheaperScript(s, ra, rb);
    }
  }

  // ----- similar pairs -----

  function ResolveAlias(slug: string, aliases: map<string, string>): string {
    if slug in aliases then aliases[slug] else slug
  }

  /** Two different positions whose slugs are long enough, not linked by an alias, and
      within the distance band. */
  ghost predicate Similar(slugs: seq<string>, maxDist: int, minLen: int, aliases: map<string, string>, p: (nat, nat)) {
    && p.0 < p.1 < |slugs|
    && |slugs[p.0]| >= minLen && |slugs[p.1]| >= minLen
    && ResolveAlias(slugs[p.0], aliases) != slugs[p.1]
    && ResolveAlias(slugs[p.1], aliases) != slugs[p.0]
    && 1 <= Distance(slugs[p.0], slugs[p.1]) <= maxDist
  }

  predicate Earlier(p: (nat, nat), q: (nat, nat)) {
    p.0 < q.0 || (p.0 == q.0 && p.1 < q.1)
  }

  function Sorted2(a: string, b: string): (string, string) {
    if Less(b, a) then (b, a) else (a, b)
  }

  type Pair = (string, string)

  /** `out` answers for the positions `at`: exactly the similar ones that come before
      `bound`, each once, in order. */
  ghost predicate Answers(slugs: seq<string>, maxDist: int, minLen: int, aliases: map<string, string>,
                          out: seq<Pair>, at: seq<(nat, nat)>, bound: (nat, nat)) {
    && |out| == |at|
    && (forall k :: 0 <= k < |at| ==>
          && Similar(slugs, maxDist, minLen, aliases, at[k])
          && Earlier(at[k], bound)
          && out[k] == Sorted2(slugs[at[k].0], slugs[at[k].1]))
    && (forall k, l :: 0 <= k < l < |at| ==> Earlier(at[k], at[l]))
    && (forall p: (nat, nat) :: Similar(slugs, maxDist, minLen, aliases, p) && Earlier(p, bound) ==> p in at)
  }

  /** `out` answers for some such positions. */
  ghost predicate Answered(slugs: seq<string>, maxDist: int, minLen: int, aliases: map<string, string>,
                           out: seq<Pair>, bound: (nat, nat)) {
    exists at: seq<(nat, nat)> :: Answers(slugs, maxDist, minLen, aliases, out, at, bound)
  }

  lemma AnswersMove(slugs: seq<string>, maxDist: int, minLen: int, aliases: map<string, string>,
                    out: seq<Pair>, at: seq<(nat, nat)>, bound: (nat, nat), next: (nat, nat))
    requires Answers(slugs, maxDist, minLen, aliases, out, at, bound)
    requires forall p: (nat, nat) :: Earlier(p, bound) ==> Earlier(p, next)
    requires forall p: (nat, nat) :: Similar(slugs, maxDist, minLen, aliases, p) && Earlier(p, next) ==> Earlier(p, bound)
    ensures Answers(slugs, maxDist, minLen, aliases, out, at, next)
  {
  }

  lemma AnswersAppend(slugs: seq<string>, maxDist: int, minLen: int, aliases: map<string, string>,
                      out: seq<Pair>, at: seq<(nat, nat)>, i: nat, j: nat)
    requires Answers(slugs, maxDist, minLen, aliases, out, at, (i, j))
    requires Similar(slugs, maxDist, minLen, aliases, (i, j))
    ensures Answers(slugs, maxDist, minLen, aliases, out + [Sorted2(slugs[i], slugs[j])], at + [(i, j)], (i, j + 1))
  {
    var at' := at + [(i, j)];
    forall p: (nat, nat) | Similar(slugs, maxDist, minLen, aliases, p) && Earlier(p, (i, j + 1)) ensures p in at' {
      if p == (i, j) {
        assert at'[|at|] == p;
      } else {
        assert Earlier(p, (i, j));
        assert p in at;
      }
    }
  }

  lemma AnsweredMove(slugs: seq<string>, maxDist: int, minLen: int, aliases: map<string, string>,
                     out: seq<Pair>, bound: (nat, nat), next: (nat, nat))
    requires Answered(slugs, maxDist, minLen, aliases, out, bound)
    requires forall p: (nat, nat) :: Earlier(p, bound) ==> Earlier(p, next)
    requires forall p: (nat, nat) :: Similar(slugs, maxDist, minLen, aliases, p) && Earlier(p, next) ==> Earlier(p, bound)
    ensures Answered(slugs, maxDist, minLen, aliases, out, next)
  {
    var at: seq<(nat, nat)> :| Answers(slugs, maxDist, minLen, aliases, out, at, bound);
    AnswersMove(slugs, maxDist, minLen, aliases, out, at, bound, next);
  }

  lemma EmptyAnswer(slugs: seq<string>, maxDist: int, minLen: int, aliases: map<string, string>, out: seq<Pair>)
    requires Answered(slugs, maxDist, minLen, aliases, out, (|slugs|, 0))
    ensures out == [] <==> forall p: (nat, nat) :: !Similar(slugs, maxDist, minLen, aliases, p)
  {
    var at: seq<(nat, nat)> :| Answers(slugs, maxDist, minLen, aliases, out, at, (|slugs|, 0));
    forall p: (nat, nat) | Similar(slugs, maxDist, minLen, aliases, p) ensures p in at {
      assert Earlier(p, (|slugs|, 0));
    }
    assert at != [] ==> Similar(slugs, maxDist, minLen, aliases, at[0]);
  }

  /** Nothing similar lies between the start of row `i` and the first column after `i`. */
  lemma StartRow(slugs: seq<string>, maxDist: int, minLen: int, aliases: map<string, string>, out: seq<Pair>, i: nat)
    requires Answered(slugs, maxDist, minLen, aliases, out, (i, 0))
    ensures Answered(slugs, maxDist, minLen, aliases, out, (i, i + 1))
  {
    AnsweredMove(slugs, maxDist, minLen, aliases, out, (i, 0), (i, i + 1));
  }

  /** Nor behind the last column, nor anywhere in the row of a short slug. */
  lemma EndRow(slugs: seq<string>, maxDist: int, minLen: int, aliases: map<string, string>, out: seq<Pair>, i: nat, j: nat)
    requires i < |slugs| && Answered(slugs, maxDist, minLen, aliases, out, (i, j))
    requires j == |slugs| || |slugs[i]| < minLen
    ensures Answered(slugs, maxDist, minLen, aliases, out, (i + 1, 0))
  {
    AnsweredMove(slugs, maxDist, minLen, aliases, out, (i, j), (i + 1, 0));
  }

  /** One turn of the inner loop, its tests in the order they are made. */
  method Examine(slugs: seq<string>, maxDist: int, minLen: int, aliases: map<string, string>,
                 out: seq<Pair>, i: nat, j: nat)
    returns (out': seq<Pair>)
    requires i < j < |slugs| && |slugs[i]| >= minLen
    requires Answered(slugs, maxDist, minLen, aliases, out, (i, j))
    ensures Answered(slugs, maxDist, minLen, aliases, out', (i, j + 1))
  {
    ghost var at: seq<(nat, nat)> :| Answers(slugs, maxDist, minLen, aliases, out, at, (i, j));
    out' := out;
    var a, b := slugs[i], slugs[j];
    if |b| < minLen || ResolveAlias(a, aliases) == b || ResolveAlias(b, aliases) == a {
      AnswersMove(slugs, maxDist, minLen, aliases, out, at, (i, j), (i, j + 1));
      return;
    }
    var d := Levenshtein(a, b);
    if d >= 1 && d <= maxDist {
      AnswersAppend(slugs, maxDist, minLen, aliases, out, at, i, j);
      if Less(b, a) {
        a, b := b, a;
      }
      out' := out + [(a, b)];
    } else {
      AnswersMove(slugs, maxDist, minLen, aliases, out, at, (i, j), (i, j + 1));
    }
  }

  /** The answers are, in order, those of exactly the similar pairs of positions. */
  method FindSimilarPairs(slugs: seq<string>, maxDist: int, minLen: int, aliases: map<string, string>)
    returns (out: seq<Pair>)
    ensures Answered(slugs, maxDist, minLen, aliases, out, (|slugs|, 0))
    ensures out == [] <==> forall p: (nat, nat) :: !Similar(slugs, maxDist, minLen, aliases, p)
  {
    out := [];
    assert Answers(slugs, maxDist, minLen, aliases, out, [], (0, 0));
    for i := 0 to |slugs|
      invariant Answered(slugs, maxDist, minLen, aliases, out, (i, 0))
    {
      StartRow(slugs, maxDist, minLen, aliases, out, i);
      if |slugs[i]| >= minLen {
        for j := i + 1 to |slugs|
          invariant Answered(slugs, maxDist, minLen, aliases, out, (i, j))
        {
          out := Examine(slugs, maxDist, minLen, aliases, out, i, j);
        }
        EndRow(slugs, maxDist, minLen, aliases, out, i, |slugs|);
      } else {
        EndRow(slugs, maxDist, minLen, aliases, out, i, i + 1);
      }
    }
    EmptyAnswer(slugs, maxDist, minLen, aliases, out);
  }

  /** Two different slugs at two positions, both long enough, neither an alias of the
      other, and one turned into the other by at most `maxDist` edits. */
  ghost predicate Confusable(slugs: seq<string>, maxDist: int, minLen: int, aliases: map<string, string>, p: (nat, nat)) {
    && p.0 < p.1 < |slugs|
    && var a, b := slugs[p.0], slugs[p.1];
    && a != b && |a| >= minLen && |b| >= minLen
    && (a in aliases ==> aliases[a] != b) && (b in aliases ==> aliases[b] != a)
    && exists script: seq<Edit> :: Apply(script, a) == Some(b) && Cost(script) <= maxDist
  }

  lemma SimilarMeans(slugs: seq<string>, maxDist: int, minLen: int, aliases: map<string, string>, p: (nat, nat))
    ensures Similar(slugs, maxDist, minLen, aliases, p) <==> Confusable(slugs, maxDist, minLen, aliases, p)
  {
    if p.0 < p.1 < |slugs| {
      var a, b := slugs[p.0], slugs[p.1];
      ZeroIffEqual(a, b);
      DistanceSteps(a, b);
      var best := CheapestScript(a, b);
      if script: seq<Edit> :| Apply(script, a) == Some(b) && Cost(script) <= maxDist {
        NoCheaperScript(script, a, b);
      }
    }
  }

  /** What FindSimilarPairs returns: one element for each confusable pair of positions and
      for no other, in the order of the positions, and in each element the two slugs in
      ascending order. */
  lemma FoundPairs(slugs: seq<string>, maxDist: int, minLen: int, aliases: map<string, string>, out: seq<Pair>)
    returns (at: seq<(nat, nat)>)
    requires Answered(slugs, maxDist, minLen, aliases, out, (|slugs|, 0))
    ensures |at| == |out|
    ensures forall p: (nat, nat) :: p in at <==> Confusable(slugs, maxDist, minLen, aliases, p)
    ensures forall k, l :: 0 <= k < l < |at| ==> at[k].0 < at[l].0 || (at[k].0 == at[l].0 && at[k].1 < at[l].1)
    ensures forall k :: 0 <= k < |at| ==>
      && at[k].0 < |slugs| && at[k].1 < |slugs| && Less(out[k].0, out[k].1)
      && (out[k] == (slugs[at[k].0], slugs[at[k].1]) || out[k] == (slugs[at[k].1], slugs[at[k].0]))
  {
    at :| Answers(slugs, maxDist, minLen, aliases, out, at, (|slugs|, 0));
    forall p: (nat, nat) ensures p in at <==> Confusable(slugs, maxDist, minLen, aliases, p) {
      SimilarMeans(slugs, maxDist, minLen, aliases, p);
    }
    forall k | 0 <= k < |at|
      ensures at[k].0 < |slugs| && at[k].1 < |slugs| && Less(out[k].0, out[k].1)
      ensures out[k] == (slugs[at[k].0], slugs[at[k].1]) || out[k] == (slugs[at[k].1], slugs[at[k].0])
    {
      SimilarMeans(slugs, maxDist, minLen, aliases, at[k]);
      LessTotal(slugs[at[k].0], slugs[at[k].1]);
    }
  }
}
