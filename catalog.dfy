/** The variable catalog and its case-insensitive prefix filter (`filterOp`).
    A candidate matches a search when its lower-case form starts with the
    lower-case search; matches keep catalog order and are cut to `size`. */
module Catalog {

  /** ASCII lower-casing of one character (`String.prototype.toLowerCase`
      restricted to ASCII). */
  function Lower(c: char): (r: char)
    ensures 'A' <= c <= 'Z' ==> 'a' <= r <= 'z' && r as int == c as int + 32
    ensures !('A' <= c <= 'Z') ==> r == c
  {
    if 'A' <= c <= 'Z' then (c as int + 32) as char else c
  }

  function LowerStr(s: string): (r: string)
    ensures |r| == |s|
    ensures forall k :: 0 <= k < |s| ==> r[k] == Lower(s[k])
  {
    if s == [] then [] else [Lower(s[0])] + LowerStr(s[1..])
  }

  predicate StartsWith(s: string, prefix: string) {
    |prefix| <= |s| && s[..|prefix|] == prefix
  }

  /** The test inside `filter`: `opt.toLowerCase().startsWith(search.toLowerCase())`. */
  predicate Matches(opt: string, search: string) {
    StartsWith(LowerStr(opt), LowerStr(search))
  }

  /** `options.filter(...)`: the matching options, in catalog order. */
  function Matching(options: seq<string>, search: string): (r: seq<string>)
    ensures |r| <= |options|
    ensures forall x :: x in r ==> x in options && Matches(x, search)
    ensures forall x :: x in options && Matches(x, search) ==> x in r
  {
    if options == [] then []
    else if Matches(options[0], search) then [options[0]] + Matching(options[1..], search)
    else Matching(options[1..], search)
  }

  /** `filterOp(options, size)(search)`: exactly the first `size` elements of
      the order-preserving list of matches, so every element matches, comes
      from the catalog, and there are at most `size` of them. A negative
      `size` (JavaScript's `slice(0, -k)`) is not part of this model. */
  function Filter(options: seq<string>, size: nat, search: string): (r: seq<string>)
    ensures |r| == Min(|Matching(options, search)|, size)
    ensures r == Matching(options, search)[..|r|]
    ensures forall x :: x in r ==> x in options && Matches(x, search)
  {
    var m := Matching(options, search);
    if |m| <= size then m else m[..size]
  }

  function Min(a: int, b: int): int {
    if a <= b then a else b
  }

  /** Filtering distributes over concatenation of catalogs: the relative order
      of matches is the catalog's order. */
  lemma {:induction false} MatchingAppend(a: seq<string>, b: seq<string>, search: string)
    ensures Matching(a + b, search) == Matching(a, search) + Matching(b, search)
  {
    if a == [] {
      assert a + b == b;
    } else {
      assert (a + b)[0] == a[0];
      assert (a + b)[1..] == a[1..] + b;
      MatchingAppend(a[1..], b, search);
    }
  }

  /** Every string starts with the empty string, so an empty search matches
      every option. */
  lemma {:induction false} MatchingEmptySearch(options: seq<string>)
    ensures Matching(options, "") == options
  {
    if options != [] {
      assert StartsWith(LowerStr(options[0]), LowerStr(""));
      MatchingEmptySearch(options[1..]);
    }
  }

  /** An empty search returns the first `size` options unchanged. */
  lemma {:induction false} FilterEmptySearch(options: seq<string>, size: nat)
    ensures Filter(options, size, "") == if |options| <= size then options else options[..size]
  {
    MatchingEmptySearch(options);
  }

  /** When nothing is cut off, an option is in the result exactly when it matches. */
  lemma {:induction false} FilterComplete(options: seq<string>, size: nat, search: string, x: string)
    requires |Matching(options, search)| <= size
    ensures x in Filter(options, size, search) <==> x in options && Matches(x, search)
  {
  }

  /** `size = 0` always gives the empty list. */
  lemma {:induction false} FilterSizeZero(options: seq<string>, search: string)
    ensures Filter(options, 0, search) == []
  {
  }

  /** Matching ignores ASCII case on both sides. */
  lemma {:induction false} MatchesIgnoresCase(opt: string, search: string)
    ensures Matches(opt, search) <==> Matches(LowerStr(opt), LowerStr(search))
  {
    LowerIdempotent(opt);
    LowerIdempotent(search);
  }

  lemma {:induction false} LowerIdempotent(s: string)
    ensures LowerStr(LowerStr(s)) == LowerStr(s)
  {
    var l := LowerStr(s);
    assert forall k :: 0 <= k < |s| ==> Lower(l[k]) == l[k];
  }

  /** `filter(["var1","var2","var3"], 2)("var") == ["var1","var2"]`. */
  lemma {:induction false} FilterExampleLimit()
    ensures Filter(["var1", "var2", "var3"], 2, "var") == ["var1", "var2"]
  {
    assert Matches("var1", "var") && Matches("var2", "var") && Matches("var3", "var");
    assert Matching(["var1", "var2", "var3"], "var") == ["var1", "var2", "var3"];
  }

  /** `filter(["Alpha","beta"], 10)("al") == ["Alpha"]`: case-insensitive. */
  lemma {:induction false} FilterExampleCase()
    ensures Filter(["Alpha", "beta"], 10, "al") == ["Alpha"]
  {
    assert LowerStr("Alpha") == "alpha";
    assert LowerStr("al") == "al";
    assert Matches("Alpha", "al");
    assert LowerStr("beta")[..2] == "be";
    assert !Matches("beta", "al");
  }
}
