/**
 The model picker's data source, `fetch_available_models`, which exists as two
 identical copies (one per application): the models URL is derived from the
 API endpoint, and the ids the endpoint reports are sorted ascending. The
 HTTP request itself is a parameter.
 */
module ModelList {
  import opened Text

  /** The models URL: `models` is appended after a trailing `/`, `/models` otherwise. */
  function ModelsUrl(endpoint: string): string {
    if EndsWith(endpoint, "/") then endpoint + "models" else endpoint + "/models"
  }

  /** The URL starts with the endpoint, ends with `/models`, and holds exactly one
      slash between the two: the endpoint's own trailing one or an added one. */
  lemma ModelsUrlSpec(endpoint: string)
    ensures var url := ModelsUrl(endpoint);
      && StartsWith(url, endpoint)
      && EndsWith(url, "/models")
      && |url| == |endpoint| + (if EndsWith(endpoint, "/") then 6 else 7)
  {
    var url := ModelsUrl(endpoint);
    if EndsWith(endpoint, "/") {
      assert url == endpoint + "models";
      assert endpoint[|endpoint| - 1..] == "/";
      assert url[|url| - 7..] == endpoint[|endpoint| - 1..] + "models";
    } else {
      assert url == endpoint + "/models";
      assert url[|url| - 7..] == "/models";
    }
    assert url[..|endpoint|] == endpoint;
  }

  /** Python's `<=` on strings: lexicographic order of code points. */
  predicate LessEq(a: string, b: string) {
    if a == [] then true
    else if b == [] then false
    else if a[0] != b[0] then a[0] < b[0]
    else LessEq(a[1..], b[1..])
  }

  lemma {:induction false} LessEqReflexive(a: string)
    ensures LessEq(a, a)
  {
    if a != [] {
      LessEqReflexive(a[1..]);
    }
  }

  lemma {:induction false} LessEqTotal(a: string, b: string)
    ensures LessEq(a, b) || LessEq(b, a)
  {
    if a != [] && b != [] && a[0] == b[0] {
      LessEqTotal(a[1..], b[1..]);
    }
  }

  lemma {:induction false} LessEqTransitive(a: string, b: string, c: string)
    requires LessEq(a, b) && LessEq(b, c)
    ensures LessEq(a, c)
  {
    if a != [] && b != [] && c != [] && a[0] == b[0] && b[0] == c[0] {
      LessEqTransitive(a[1..], b[1..], c[1..]);
    }
  }

  lemma {:induction false} LessEqAntisymmetric(a: string, b: string)
    requires LessEq(a, b) && LessEq(b, a)
    ensures a == b
  {
    if a != [] && b != [] {
      LessEqAntisymmetric(a[1..], b[1..]);
      assert a == [a[0]] + a[1..];
      assert b == [b[0]] + b[1..];
    }
  }

  predicate Sorted(xs: seq<string>) {
    forall i, j :: 0 <= i < j < |xs| ==> LessEq(xs[i], xs[j])
  }

  /** Inserting into a sorted list keeps it sorted and adds exactly the new id. */
  function Insert(x: string, xs: seq<string>): (r: seq<string>)
    requires Sorted(xs)
    ensures Sorted(r)
    ensures multiset(r) == multiset(xs) + multiset{x}
  {
    if xs == [] then [x]
    else if LessEq(x, xs[0]) then
      forall j | 0 < j < |xs| ensures LessEq(x, xs[j]) {
        LessEqTransitive(x, xs[0], xs[j]);
      }
      SortedCons(x, xs);
      [x] + xs
    else
      LessEqTotal(x, xs[0]);
      var rest := Insert(x, xs[1..]);
      MultisetTail(xs);
      HeadBelowRest(x, xs, rest);
      SortedCons(xs[0], rest);
      [xs[0]] + rest
  }

  /** A sorted list stays sorted with a new head no greater than any element. */
  lemma SortedCons(h: string, xs: seq<string>)
    requires Sorted(xs)
    requires forall j :: 0 <= j < |xs| ==> LessEq(h, xs[j])
    ensures Sorted([h] + xs)
  {
    forall i, j | 0 <= i < j < |xs| + 1
      ensures LessEq(([h] + xs)[i], ([h] + xs)[j])
    {
      if i > 0 {
        assert ([h] + xs)[i] == xs[i - 1];
      }
      assert ([h] + xs)[j] == xs[j - 1];
    }
  }

  /** The head of a sorted list bounds the tail with an id above it inserted. */
  lemma HeadBelowRest(x: string, xs: seq<string>, rest: seq<string>)
    requires Sorted(xs) && xs != [] && LessEq(xs[0], x)
    requires multiset(rest) == multiset(xs[1..]) + multiset{x}
    ensures forall j :: 0 <= j < |rest| ==> LessEq(xs[0], rest[j])
  {
    forall j | 0 <= j < |rest| ensures LessEq(xs[0], rest[j]) {
      assert rest[j] in multiset(rest);
      if rest[j] != x {
        assert rest[j] in multiset(xs[1..]);
        var m :| 0 <= m < |xs[1..]| && xs[1..][m] == rest[j];
        assert LessEq(xs[0], xs[m + 1]);
      }
    }
  }

  /** `list.sort()` on the model ids: a sorted permutation of its input. */
  function Sort(xs: seq<string>): (r: seq<string>)
    ensures Sorted(r)
    ensures multiset(r) == multiset(xs)
  {
    if xs == [] then []
    else
      assert xs == [xs[0]] + xs[1..];
      Insert(xs[0], Sort(xs[1..]))
  }

  /** Two sorted orderings of the same ids are the same list, so the sorted
      permutation is the one `list.sort()` returns. */
  lemma {:induction false} SortedUnique(a: seq<string>, b: seq<string>)
    requires Sorted(a) && Sorted(b)
    requires multiset(a) == multiset(b)
    ensures a == b
    decreases |a|
  {
    if a != [] {
      assert |b| == |a| by { assert |multiset(a)| == |multiset(b)|; }
      SortedHeads(a, b);
      MultisetTail(a);
      MultisetTail(b);
      SortedUnique(a[1..], b[1..]);
      assert a == [a[0]] + a[1..];
      assert b == [b[0]] + b[1..];
    }
  }

  /** Sorted lists holding the same ids start with the same id. */
  lemma SortedHeads(a: seq<string>, b: seq<string>)
    requires Sorted(a) && Sorted(b) && a != [] && b != []
    requires multiset(a) == multiset(b)
    ensures a[0] == b[0]
  {
    assert a[0] in multiset(b);
    var j :| 0 <= j < |b| && b[j] == a[0];
    assert b[0] in multiset(a);
    var i :| 0 <= i < |a| && a[i] == b[0];
    if j > 0 { assert LessEq(b[0], b[j]); } else { LessEqReflexive(b[0]); }
    if i > 0 { assert LessEq(a[0], a[i]); } else { LessEqReflexive(a[0]); }
    LessEqAntisymmetric(a[0], b[0]);
  }

  lemma MultisetTail(a: seq<string>)
    requires a != []
    ensures multiset(a[1..]) == multiset(a) - multiset{a[0]}
  {
    assert a == [a[0]] + a[1..];
    assert multiset(a) == multiset{a[0]} + multiset(a[1..]);
  }

  /** What the models request can produce: a response with its status code and
      the ids of its `data` entries, or a failure (connection error, timeout,
      undecodable body or any other exception). */
  datatype ModelsResponse = Response(status: int, ids: seq<string>) | RequestFailed

  /** `fetch_available_models`: the sorted ids on status 200, nothing otherwise. */
  function FetchModels(endpoint: string, get: string -> ModelsResponse): (r: seq<string>)
    ensures Sorted(r)
    ensures get(ModelsUrl(endpoint)).Response? && get(ModelsUrl(endpoint)).status == 200 ==>
      multiset(r) == multiset(get(ModelsUrl(endpoint)).ids)
    ensures !(get(ModelsUrl(endpoint)).Response? && get(ModelsUrl(endpoint)).status == 200) ==> r == []
  {
    match get(ModelsUrl(endpoint))
    case Response(status, ids) => if status == 200 then Sort(ids) else []
    case RequestFailed => []
  }
}
