/** Small helpers shared by the ledger model: an optional value, the
    first-occurrence de-duplication a JavaScript `Set` performs, and
    `Array.prototype.join` together with the split that undoes it. */
module Common {

  datatype Option<T> = None | Some(value: T)

  /** No element occurs twice. */
  predicate NoRepeats<T(==)>(s: seq<T>)
  {
    forall i, j :: 0 <= i < j < |s| ==> s[i] != s[j]
  }

  /** Position of the first occurrence of `x` in `s`. */
  function FirstIndex<T(==)>(s: seq<T>, x: T): (r: nat)
    requires x in s
    ensures r < |s| && s[r] == x && x !in s[..r]
  {
    if s[0] == x then 0
    else
      var k := FirstIndex(s[1..], x);
      assert s[..k + 1] == [s[0]] + s[1..][..k];
      k + 1
  }

  /** The elements of `s` in first-occurrence order, each once: what
      iterating a JavaScript `Set` filled from `s` yields. */
  function Distinct<T(==)>(s: seq<T>): seq<T>
  {
    if s == [] then []
    else
      var init := s[..|s| - 1];
      if s[|s| - 1] in init then Distinct(init) else Distinct(init) + [s[|s| - 1]]
  }

  lemma {:induction false} DistinctElements<T>(s: seq<T>)
    ensures forall x :: x in Distinct(s) <==> x in s
  {
    if s != [] {
      var init := s[..|s| - 1];
      DistinctElements(init);
      assert s == init + [s[|s| - 1]];
    }
  }

  /** One more element: kept at the end if new, dropped if already seen. */
  lemma DistinctAppend<T>(s: seq<T>, x: T)
    ensures Distinct(s + [x]) == if x in Distinct(s) then Distinct(s) else Distinct(s) + [x]
  {
    assert (s + [x])[..|s|] == s;
    DistinctElements(s);
  }

  lemma DistinctMember<T>(s: seq<T>, i: nat)
    requires i < |Distinct(s)|
    ensures Distinct(s)[i] in s
  {
    DistinctElements(s);
    assert Distinct(s)[i] in Distinct(s);
  }

  lemma {:induction false} DistinctNoRepeats<T>(s: seq<T>)
    ensures NoRepeats(Distinct(s))
  {
    if s != [] {
      var init := s[..|s| - 1];
      DistinctNoRepeats(init);
      DistinctElements(init);
    }
  }

  /** De-duplicating a sequence that has no repeats changes nothing. */
  lemma {:induction false} DistinctOfNoRepeats<T>(s: seq<T>)
    requires NoRepeats(s)
    ensures Distinct(s) == s
  {
    if s != [] {
      var init := s[..|s| - 1];
      assert NoRepeats(init);
      DistinctOfNoRepeats(init);
      assert s == init + [s[|s| - 1]];
    }
  }

  lemma FirstIndexOfPrefix<T>(s: seq<T>, x: T, y: T)
    requires y in s
    ensures FirstIndex(s + [x], y) == FirstIndex(s, y)
  {
    var a, b := FirstIndex(s + [x], y), FirstIndex(s, y);
    assert (s + [x])[..b] == s[..b];
    assert (s + [x])[b] == y;
    assert a < |s| ==> (s + [x])[a] == s[a];
  }

  /** The kept elements appear in the order of their first occurrences. */
  lemma {:induction false} DistinctOrder<T>(s: seq<T>, i: nat, j: nat)
    requires i < j < |Distinct(s)|
    ensures Distinct(s)[i] in s && Distinct(s)[j] in s
    ensures FirstIndex(s, Distinct(s)[i]) < FirstIndex(s, Distinct(s)[j])
  {
    DistinctMember(s, i);
    DistinctMember(s, j);
    var init, x := s[..|s| - 1], s[|s| - 1];
    assert s == init + [x];
    var d := Distinct(init);
    if j < |d| {
      DistinctOrder(init, i, j);
      FirstIndexOfPrefix(init, x, d[i]);
      FirstIndexOfPrefix(init, x, d[j]);
    } else {
      DistinctOrderLast(s, i);
    }
  }

  lemma DistinctOrderLast<T>(s: seq<T>, i: nat)
    requires s != [] && s[|s| - 1] !in s[..|s| - 1]
    requires i < |Distinct(s[..|s| - 1])|
    ensures Distinct(s)[i] in s
    ensures FirstIndex(s, Distinct(s)[i]) < FirstIndex(s, s[|s| - 1])
  {
    var init, x := s[..|s| - 1], s[|s| - 1];
    assert s == init + [x];
    var d := Distinct(init);
    DistinctMember(init, i);
    FirstIndexOfPrefix(init, x, d[i]);
    var k := FirstIndex(s, x);
  }

  /** `Array.prototype.join(sep)` on strings. */
  function Join(parts: seq<string>, sep: string): string
  {
    if |parts| == 0 then ""
    else if |parts| == 1 then parts[0]
    else parts[0] + sep + Join(parts[1..], sep)
  }

  /** Index of the first occurrence of `sep` in `s`, or `|s|` when none. */
  function Find(s: string, sep: string): (i: nat)
    requires |sep| > 0
    ensures i <= |s|
    ensures i < |s| ==> i + |sep| <= |s| && s[i..i + |sep|] == sep
  {
    if |s| < |sep| then |s|
    else if s[..|sep|] == sep then 0
    else
      var k := Find(s[1..], sep);
      assert k < |s| - 1 ==> s[k + 1..k + 1 + |sep|] == s[1..][k..k + |sep|];
      k + 1
  }

  /** Splits `s` at every occurrence of `sep`, left to right. */
  function Split(s: string, sep: string): (r: seq<string>)
    requires |sep| > 0
    ensures |r| > 0
    decreases |s|
  {
    var i := Find(s, sep);
    if i == |s| then [s] else [s[..i]] + Split(s[i + |sep|..], sep)
  }

  lemma {:induction false} FindAbsent(s: string, sep: string)
    requires |sep| > 0 && sep[0] !in s
    ensures Find(s, sep) == |s|
  {
    if |s| >= |sep| {
      assert s[..|sep|][0] == s[0];
      FindAbsent(s[1..], sep);
    }
  }

  lemma {:induction false} FindAfter(p: string, sep: string, t: string)
    requires |sep| > 0 && sep[0] !in p
    ensures Find(p + sep + t, sep) == |p|
  {
    var s := p + sep + t;
    if p == [] {
      assert s[..|sep|] == sep;
    } else {
      assert s[..|sep|][0] == p[0];
      assert s[1..] == p[1..] + sep + t;
      FindAfter(p[1..], sep, t);
    }
  }

  /** Splitting a string that starts with a separator-free part followed
      by the separator yields that part, then the split of the remainder. */
  lemma SplitFirst(p: string, sep: string, t: string)
    requires |sep| > 0 && sep[0] !in p
    ensures Split(p + sep + t, sep) == [p] + Split(t, sep)
  {
    var s := p + sep + t;
    FindAfter(p, sep, t);
    assert s[..|p|] == p;
    assert s[|p| + |sep|..] == t;
  }

  /** Joining non-empty lists of parts that do not contain the separator's
      first character can be undone by splitting. */
  lemma {:induction false} SplitJoin(parts: seq<string>, sep: string)
    requires |sep| > 0 && |parts| > 0
    requires forall k :: 0 <= k < |parts| ==> sep[0] !in parts[k]
    ensures Split(Join(parts, sep), sep) == parts
  {
    if |parts| == 1 {
      FindAbsent(parts[0], sep);
    } else {
      SplitFirst(parts[0], sep, Join(parts[1..], sep));
      SplitJoin(parts[1..], sep);
      assert parts == [parts[0]] + parts[1..];
    }
  }
}
