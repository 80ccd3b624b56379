/** Small building blocks shared by every other module: Option and Result,
    an order-preserving filter over sequences, Python's notion of a
    whitespace character, and `str.strip()`. */
module Common {

  datatype Option<+T> = None | Some(value: T)

  datatype Result<+T, +E> = Success(value: T) | Failure(error: E)

  /** Python truthiness of an optional string argument: `None` and `""` are false. */
  predicate Truthy(s: Option<string>) {
    s.Some? && s.value != ""
  }

  // ---------------------------------------------------------------------
  // Filtering (the model of a list comprehension `[x for x in s if keep(x)]`)
  // ---------------------------------------------------------------------

  function Filter<T>(s: seq<T>, keep: T -> bool): (r: seq<T>)
    ensures |r| <= |s|
  {
    if s == [] then [] else (if keep(s[0]) then [s[0]] else []) + Filter(s[1..], keep)
  }

  lemma {:induction false} FilterMembership<T>(s: seq<T>, keep: T -> bool, x: T)
    ensures x in Filter(s, keep) <==> x in s && keep(x)
  {
    if s != [] {
      FilterMembership(s[1..], keep, x);
      assert s == [s[0]] + s[1..];
    }
  }

  /** Every element the filter keeps occurs exactly as often as in the input,
      and every element it drops does not occur at all. */
  lemma {:induction false} FilterMultiplicity<T>(s: seq<T>, keep: T -> bool, x: T)
    ensures multiset(Filter(s, keep))[x] == if keep(x) then multiset(s)[x] else 0
  {
    if s != [] {
      FilterMultiplicity(s[1..], keep, x);
      assert s == [s[0]] + s[1..];
    }
  }

  /** The filter distributes over concatenation: the relative order of the
      kept elements is the order of the input. */
  lemma {:induction false} FilterAppend<T>(a: seq<T>, b: seq<T>, keep: T -> bool)
    ensures Filter(a + b, keep) == Filter(a, keep) + Filter(b, keep)
  {
    if a == [] {
      assert a + b == b;
    } else {
      var ab := a + b;
      assert ab != [] && ab[0] == a[0];
      assert ab[1..] == a[1..] + b;
      FilterAppend(a[1..], b, keep);
      var head := if keep(a[0]) then [a[0]] else [];
      calc {
        Filter(ab, keep);
        head + Filter(ab[1..], keep);
        head + (Filter(a[1..], keep) + Filter(b, keep));
        (head + Filter(a[1..], keep)) + Filter(b, keep);
      }
    }
  }

  lemma {:induction false} FilterDropsAll<T>(s: seq<T>, keep: T -> bool)
    requires forall k :: 0 <= k < |s| ==> !keep(s[k])
    ensures Filter(s, keep) == []
  {
    if s != [] {
      FilterDropsAll(s[1..], keep);
    }
  }

  lemma {:induction false} FilterKeepsAll<T>(s: seq<T>, keep: T -> bool)
    requires forall k :: 0 <= k < |s| ==> keep(s[k])
    ensures Filter(s, keep) == s
  {
    if s != [] {
      FilterKeepsAll(s[1..], keep);
      assert s == [s[0]] + s[1..];
    }
  }

  /** `[f(x, c) for x in s if keep(x)]`, built back to front the way a loop
      appends: the result of `f` (given the extra argument `c`) on each
      element that passes `keep`, in order. */
  function KeepMap<T, C, U>(s: seq<T>, keep: T -> bool, c: C, f: (T, C) -> U): seq<U>
    decreases |s|
  {
    if s == [] then []
    else KeepMap(s[..|s| - 1], keep, c, f) + (if keep(s[|s| - 1]) then [f(s[|s| - 1], c)] else [])
  }

  /** One more element of the input adds at most one result, at the end. */
  lemma KeepMapStep<T, C, U>(s: seq<T>, k: nat, keep: T -> bool, c: C, f: (T, C) -> U)
    requires k < |s|
    ensures KeepMap(s[..k + 1], keep, c, f)
      == KeepMap(s[..k], keep, c, f) + (if keep(s[k]) then [f(s[k], c)] else [])
  {
    assert s[..k + 1][..k] == s[..k];
  }

  /** Exactly the elements passing `keep` contribute, one result each, in order. */
  lemma {:induction false} KeepMapIsMapOfFilter<T, C, U>(s: seq<T>, keep: T -> bool, c: C, f: (T, C) -> U)
    ensures |KeepMap(s, keep, c, f)| == |Filter(s, keep)|
    ensures forall k :: 0 <= k < |Filter(s, keep)| ==> KeepMap(s, keep, c, f)[k] == f(Filter(s, keep)[k], c)
    decreases |s|
  {
    if s != [] {
      var init, last := s[..|s| - 1], s[|s| - 1];
      KeepMapIsMapOfFilter(init, keep, c, f);
      assert s == init + [last];
      FilterAppend(init, [last], keep);
      assert [last][1..] == [];
    }
  }

  /** The first element kept is the first element of the input that
      satisfies the test. */
  lemma {:induction false} FilterHead<T>(s: seq<T>, keep: T -> bool, i: nat)
    requires i < |s| && keep(s[i])
    requires forall j :: 0 <= j < i ==> !keep(s[j])
    ensures Filter(s, keep) != [] && Filter(s, keep)[0] == s[i]
  {
    if i > 0 {
      FilterHead(s[1..], keep, i - 1);
    }
  }

  // ---------------------------------------------------------------------
  // Characters and strip()
  // ---------------------------------------------------------------------

  /** Python's `str.isspace()`, which is also the class `\s` stands for in a
      pattern over `str`. */
  predicate IsSpace(c: char) {
    ('\t' <= c <= '\r') || ('\U{1C}' <= c <= ' ') || c == '\U{85}' || c == '\U{A0}'
    || c == '\U{1680}' || ('\U{2000}' <= c <= '\U{200A}') || c == '\U{2028}' || c == '\U{2029}'
    || c == '\U{202F}' || c == '\U{205F}' || c == '\U{3000}'
  }

  predicate NotSpace(c: char) {
    !IsSpace(c)
  }

  predicate AllSpace(s: string) {
    forall k :: 0 <= k < |s| ==> IsSpace(s[k])
  }

  /** The end of the (possibly empty) whitespace run that starts at `i`:
      what a greedy `\s*` consumes. */
  function SkipSpaces(s: string, i: nat): (m: nat)
    requires i <= |s|
    ensures i <= m <= |s|
    ensures forall k {:trigger IsSpace(s[k])} :: i <= k < m ==> IsSpace(s[k])
    ensures m == |s| || !IsSpace(s[m])
    decreases |s| - i
  {
    if i < |s| && IsSpace(s[i]) then SkipSpaces(s, i + 1) else i
  }

  /** The whitespace run stops at the first character that is not whitespace. */
  lemma SkipSpacesStopsAt(s: string, i: nat, j: nat)
    requires i <= j < |s| && !IsSpace(s[j])
    ensures SkipSpaces(s, i) <= j
  {
  }

  /** The start of the (possibly empty) whitespace run that ends at `n`. */
  function SkipSpacesBack(s: string, n: nat): (m: nat)
    requires n <= |s|
    ensures m <= n
    ensures forall k {:trigger IsSpace(s[k])} :: m <= k < n ==> IsSpace(s[k])
    ensures m == 0 || !IsSpace(s[m - 1])
    decreases n
  {
    if n > 0 && IsSpace(s[n - 1]) then SkipSpacesBack(s, n - 1) else n
  }

  /** `str.lstrip()`: drop the leading whitespace. */
  function TrimStart(s: string): string {
    s[SkipSpaces(s, 0)..]
  }

  /** What lstrip() keeps is a suffix of the input, what it drops is all
      whitespace, and what it keeps does not start with whitespace. */
  lemma TrimStartDropsLeadingSpace(s: string)
    ensures var r := TrimStart(s);
      |r| <= |s| && r == s[|s| - |r|..] && AllSpace(s[..|s| - |r|]) && (r == [] || !IsSpace(r[0]))
  {
    var i := SkipSpaces(s, 0);
    forall k | 0 <= k < i ensures IsSpace(s[..i][k]) {
      assert s[..i][k] == s[k];
    }
  }

  /** `str.rstrip()`: drop the trailing whitespace. */
  function TrimEnd(s: string): string {
    s[..SkipSpacesBack(s, |s|)]
  }

  /** What rstrip() keeps is a prefix of the input, what it drops is all
      whitespace, and what it keeps does not end with whitespace. */
  lemma TrimEndDropsTrailingSpace(s: string)
    ensures var r := TrimEnd(s);
      |r| <= |s| && r == s[..|r|] && AllSpace(s[|r|..]) && (r == [] || !IsSpace(r[|r| - 1]))
  {
    var j := SkipSpacesBack(s, |s|);
    forall k | 0 <= k < |s| - j ensures IsSpace(s[j..][k]) {
      assert s[j..][k] == s[j + k];
    }
  }

  /** Python's `str.strip()` with no argument. */
  function Strip(s: string): string {
    TrimEnd(TrimStart(s))
  }

  /** `not s.strip()`: the string is empty or consists of whitespace only. */
  lemma StripEmptyIffAllSpace(s: string)
    ensures Strip(s) == [] <==> AllSpace(s)
  {
    var i := SkipSpaces(s, 0);
    var t := s[i..];
    var j := SkipSpacesBack(t, |t|);
    assert Strip(s) == t[..j];
    if Strip(s) != [] {
      assert i < |s| && !IsSpace(s[i]);
    }
  }

  /** Strip never lengthens, and its result is a slice of the input. */
  lemma StripIsSlice(s: string)
    ensures exists i, j :: 0 <= i <= j <= |s| && Strip(s) == s[i..j]
  {
    var i := SkipSpaces(s, 0);
    var j := SkipSpacesBack(s[i..], |s| - i);
    assert Strip(s) == s[i..][..j] == s[i..i + j];
  }
}
