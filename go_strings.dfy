/** The parts of Go's `strings` package the handlers use: `Index`, `Contains` and `Split`
    with a non-empty separator. */
module GoStrings {
  import opened Wrappers

  /** `sep` occurs in `s` starting at position `i`. */
  predicate OccursAt(s: string, sep: string, i: int) {
    0 <= i && i + |sep| <= |s| && s[i..i + |sep|] == sep
  }

  lemma OccursShift(s: string, sep: string)
    requires |s| > 0
    ensures forall k :: 1 <= k ==> (OccursAt(s, sep, k) <==> OccursAt(s[1..], sep, k - 1))
  {
    forall k | 1 <= k
      ensures OccursAt(s, sep, k) <==> OccursAt(s[1..], sep, k - 1)
    {
      if k + |sep| <= |s| {
        var here, there := s[k..k + |sep|], s[1..][k - 1..k - 1 + |sep|];
        assert forall t :: 0 <= t < |sep| ==> here[t] == there[t];
        assert here == there;
      }
    }
  }

  /** `strings.Index`: the first position where `sep` occurs, if any. */
  function Index(s: string, sep: string): (r: Option<nat>)
    ensures r.Some? ==> OccursAt(s, sep, r.value)
    ensures r.Some? ==> forall j :: 0 <= j < r.value ==> !OccursAt(s, sep, j)
    ensures r.None? ==> forall j :: !OccursAt(s, sep, j)
    decreases |s|
  {
    if |s| < |sep| then None
    else if s[..|sep|] == sep then Some(0)
    else
      OccursShift(s, sep);
      match Index(s[1..], sep)
      case None => None
      case Some(i) => Some(i + 1)
  }

  /** `strings.Contains`, which Go defines as `Index(s, sub) >= 0`. */
  predicate Contains(s: string, sub: string) {
    Index(s, sub).Some?
  }

  lemma ContainsIffOccurs(s: string, sub: string)
    ensures Contains(s, sub) <==> exists i :: OccursAt(s, sub, i)
  {
  }

  /** The inverse of `Split`: the parts glued back together with `sep`. */
  function Join(parts: seq<string>, sep: string): string
    requires |parts| > 0
  {
    if |parts| == 1 then parts[0] else parts[0] + sep + Join(parts[1..], sep)
  }

  /** An occurrence in a prefix of `s` is an occurrence in `s`. */
  lemma OccursInExtension(t: string, s: string, sep: string, j: int)
    requires t <= s
    requires OccursAt(t, sep, j)
    ensures OccursAt(s, sep, j)
  {
    var here, there := s[j..j + |sep|], t[j..j + |sep|];
    assert forall k :: 0 <= k < |sep| ==> here[k] == there[k];
    assert here == there;
  }

  /** `strings.Split` with a non-empty separator: the pieces between successive occurrences. */
  function Split(s: string, sep: string): (r: seq<string>)
    requires |sep| > 0
    ensures |r| > 0
    ensures Join(r, sep) == s
    ensures forall k :: 0 <= k < |r| ==> !Contains(r[k], sep)
    decreases |s|
  {
    match Index(s, sep)
    case None => [s]
    case Some(i) =>
      var head := s[..i];
      assert !Contains(head, sep) by {
        if Index(head, sep).Some? {
          OccursInExtension(head, s, sep, Index(head, sep).value);
        }
      }
      var rest := Split(s[i + |sep|..], sep);
      assert s == head + sep + s[i + |sep|..];
      [head] + rest
  }

  /** When `sep` first occurs at `i`, Split yields `s[..i]` followed by the split of the rest. */
  lemma {:induction false} SplitAtFirst(s: string, sep: string, i: int)
    requires |sep| > 0
    requires OccursAt(s, sep, i)
    requires forall j :: 0 <= j < i ==> !OccursAt(s, sep, j)
    ensures Split(s, sep) == [s[..i]] + Split(s[i + |sep|..], sep)
  {
    assert Index(s, sep) == Some(i);
  }

  /** A string with exactly one occurrence of the separator splits into the two sides of it. */
  lemma SplitInTwo(s: string, sep: string, i: int)
    requires |sep| > 0
    requires OccursAt(s, sep, i)
    requires forall j :: 0 <= j < i ==> !OccursAt(s, sep, j)
    requires !Contains(s[i + |sep|..], sep)
    ensures Split(s, sep) == [s[..i], s[i + |sep|..]]
  {
    SplitAtFirst(s, sep, i);
    SplitWithoutSeparator(s[i + |sep|..], sep);
  }

  /** `a + sep + b` splits into `a` and `b` when the separator starts nowhere inside `a` and
      does not occur in `b`. */
  lemma SplitJoined(a: string, sep: string, b: string)
    requires |sep| > 0
    requires forall j :: 0 <= j < |a| ==> !OccursAt(a + sep + b, sep, j)
    requires !Contains(b, sep)
    ensures Split(a + sep + b, sep) == [a, b]
  {
    var s := a + sep + b;
    assert s[|a|..|a| + |sep|] == sep;
    assert s[..|a|] == a && s[|a| + |sep|..] == b;
    SplitInTwo(s, sep, |a|);
  }

  /** A string without the separator splits into itself alone. */
  lemma SplitWithoutSeparator(s: string, sep: string)
    requires |sep| > 0
    requires !Contains(s, sep)
    ensures Split(s, sep) == [s]
  {
  }

  /** An occurrence inside a prefix of `s` is an occurrence in that prefix. */
  lemma OccursInPrefix(s: string, t: string, sep: string, j: int)
    requires t <= s
    requires OccursAt(s, sep, j) && j + |sep| <= |t|
    ensures OccursAt(t, sep, j)
  {
    assert t[j..j + |sep|] == s[j..j + |sep|];
  }

  /** Every occurrence is followed by the separator's second character. */
  lemma OccursAtSecondChar(s: string, sep: string, j: int)
    requires |sep| > 1 && OccursAt(s, sep, j)
    ensures s[j + 1] == sep[1]
  {
    assert s[j..j + |sep|][1] == s[j + 1];
  }

  /** A string that has the separator's second character at no place where a window of the
      separator's length could put it does not contain the separator. */
  lemma NoSecondCharNoContains(s: string, sep: string)
    requires |sep| > 1
    requires forall i :: 1 <= i && i + |sep| <= |s| + 1 ==> s[i] != sep[1]
    ensures !Contains(s, sep)
  {
    if Index(s, sep).Some? {
      OccursAtSecondChar(s, sep, Index(s, sep).value);
    }
  }
}
