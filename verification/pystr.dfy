/**
  The pieces of Python's `str` behaviour the slide generator relies on:
  `strip()`, `sep in s`, `s.split(sep)`, `s.split(sep, 1)[1]`, `sep.join(parts)`,
  `s[:n]`, `s.replace(a, b)` for single characters, and `s.endswith(suffix)`.
  Strings are sequences of Unicode scalar values. A Python `str` is a sequence of code
  points and may also hold lone surrogates, which a Dafny `char` cannot; such strings are
  outside this model.
*/
module PyStr {
  import opened Wrappers

  /** CPython's `str.isspace()` for one character: the characters `strip()` removes. */
  predicate IsSpace(c: char) {
    || ('\t' <= c <= '\r')
    || ('\U{1C}' <= c <= '\U{1F}')
    || c == ' '
    || c == '\U{85}'
    || c == '\U{A0}'
    || c == '\U{1680}'
    || ('\U{2000}' <= c <= '\U{200A}')
    || c == '\U{2028}'
    || c == '\U{2029}'
    || c == '\U{202F}'
    || c == '\U{205F}'
    || c == '\U{3000}'
  }

  /** Every character of `s` is whitespace (vacuously true of ""). */
  predicate AllSpace(s: string) {
    forall i :: 0 <= i < |s| ==> IsSpace(s[i])
  }

  /** `s.lstrip()`: the suffix left after dropping leading whitespace. */
  function StripStart(s: string): (r: string)
    ensures |r| <= |s| && r == s[|s| - |r|..]
    ensures AllSpace(s[..|s| - |r|])
    ensures r == [] || !IsSpace(r[0])
    decreases |s|
  {
    if |s| > 0 && IsSpace(s[0]) then
      var r := StripStart(s[1..]);
      StripStartStep(s, r);
      r
    else s
  }

  lemma StripStartStep(s: string, r: string)
    requires |s| > 0 && IsSpace(s[0])
    requires |r| <= |s| - 1 && r == s[1..][|s| - 1 - |r|..] && AllSpace(s[1..][..|s| - 1 - |r|])
    ensures r == s[|s| - |r|..] && AllSpace(s[..|s| - |r|])
  {
    var k := |s| - |r|;
    assert s[1..][k - 1..] == s[k..];
    forall i | 0 <= i < k ensures IsSpace(s[..k][i]) {
      if i > 0 {
        assert s[..k][i] == s[1..][..k - 1][i - 1];
      }
    }
  }

  /** `s.rstrip()`: the prefix left after dropping trailing whitespace. */
  function StripEnd(s: string): (r: string)
    ensures |r| <= |s| && r == s[..|r|]
    ensures AllSpace(s[|r|..])
    ensures r == [] || !IsSpace(r[|r| - 1])
    decreases |s|
  {
    if |s| > 0 && IsSpace(s[|s| - 1]) then StripEnd(s[..|s| - 1]) else s
  }

  /** `s.strip()`: `s` without whitespace at either end. It is the middle of `s` left
      after cutting a whitespace prefix and a whitespace suffix, it neither starts nor
      ends with whitespace, and it is empty exactly when `s` is all whitespace. */
  function Strip(s: string): (r: string)
    ensures |r| <= |s|
    ensures exists a: nat :: MiddleAt(s, a, r)
    ensures r == [] || (!IsSpace(r[0]) && !IsSpace(r[|r| - 1]))
    ensures r == [] <==> AllSpace(s)
  {
    StripEmptyIff(s);
    StripIsMiddle(s);
    StripEnd(StripStart(s))
  }

  lemma StripIsMiddle(s: string)
    ensures exists a: nat :: MiddleAt(s, a, StripEnd(StripStart(s)))
  {
    MiddleOf(s, StripStart(s), StripEnd(StripStart(s)));
  }

  /** Cutting a whitespace prefix off `s`, then a whitespace suffix off what is left,
      leaves a middle piece of `s` between a whitespace prefix and suffix. */
  lemma MiddleOf(s: string, t: string, r: string)
    requires |t| <= |s| && t == s[|s| - |t|..] && AllSpace(s[..|s| - |t|])
    requires |r| <= |t| && r == t[..|r|] && AllSpace(t[|r|..])
    ensures MiddleAt(s, |s| - |t|, r)
  {
    var a := |s| - |t|;
    assert t[..|r|] == s[a..a + |r|];
    assert t[|r|..] == s[a + |r|..];
  }

  /** `r` is the piece of `s` starting at `a`, with only whitespace before and after it. */
  predicate MiddleAt(s: string, a: nat, r: string) {
    && a + |r| <= |s| && r == s[a..a + |r|]
    && AllSpace(s[..a]) && AllSpace(s[a + |r|..])
  }

  lemma StripEmptyIff(s: string)
    ensures StripEnd(StripStart(s)) == [] <==> AllSpace(s)
    ensures StripEnd(StripStart(s)) == [] || !IsSpace(StripEnd(StripStart(s))[0])
  {
    var t := StripStart(s);
    StripStartEmpty(s);
    if t != [] {
      StripEndKeepsHead(t);
    }
  }

  /** `rstrip()` keeps a first character that is not whitespace. */
  lemma StripEndKeepsHead(t: string)
    requires t != [] && !IsSpace(t[0])
    ensures StripEnd(t) != [] && StripEnd(t)[0] == t[0]
  {
    NotAllSpace(t, 0);
    assert t[0..] == t;
  }

  lemma {:induction false} StripStartEmpty(s: string)
    ensures StripStart(s) == [] <==> AllSpace(s)
    decreases |s|
  {
    if |s| > 0 && IsSpace(s[0]) {
      StripStartEmpty(s[1..]);
      AllSpaceCons(s);
    } else if |s| > 0 {
      NotAllSpace(s, 0);
    }
  }

  lemma AllSpaceCons(s: string)
    requires |s| > 0 && IsSpace(s[0])
    ensures AllSpace(s) <==> AllSpace(s[1..])
  {
    if AllSpace(s[1..]) {
      forall k | 0 < k < |s| ensures IsSpace(s[k]) {
        assert s[k] == s[1..][k - 1];
      }
    }
  }

  lemma NotAllSpace(s: string, i: nat)
    requires i < |s| && !IsSpace(s[i])
    ensures !AllSpace(s)
  {
  }

  /** A string that neither starts nor ends with whitespace is its own `strip()`. */
  lemma StripOfTrimmed(s: string)
    requires s == [] || (!IsSpace(s[0]) && !IsSpace(s[|s| - 1]))
    ensures Strip(s) == s
  {
    var t := StripStart(s);
    assert t == s;
  }

  /** `strip()` is idempotent. */
  lemma StripIdempotent(s: string)
    ensures Strip(Strip(s)) == Strip(s)
  {
    StripOfTrimmed(Strip(s));
  }

  /** `sep` occurs in `s` starting at index `j`. */
  predicate OccursAt(s: string, sep: string, j: int) {
    0 <= j && j + |sep| <= |s| && s[j..j + |sep|] == sep
  }

  /** The first occurrence of `sep` in `s` at or after index `i`, or None. */
  function FindFrom(s: string, sep: string, i: nat): (r: Option<nat>)
    ensures r.Some? ==> i <= r.value && OccursAt(s, sep, r.value)
    ensures r.Some? ==> forall j :: i <= j < r.value ==> !OccursAt(s, sep, j)
    ensures r.None? ==> forall j :: i <= j ==> !OccursAt(s, sep, j)
    decreases |s| - i
  {
    if i + |sep| > |s| then None
    else if s[i..i + |sep|] == sep then Some(i)
    else FindFrom(s, sep, i + 1)
  }

  /** `s.find(sep)`: the index of the first occurrence of `sep`, or None for -1. */
  function Find(s: string, sep: string): (r: Option<nat>)
    ensures r.Some? ==> OccursAt(s, sep, r.value)
    ensures r.Some? ==> forall j :: 0 <= j < r.value ==> !OccursAt(s, sep, j)
    ensures r.None? ==> forall j :: !OccursAt(s, sep, j)
  {
    FindFrom(s, sep, 0)
  }

  /** `sep in s`. */
  predicate Contains(s: string, sep: string) {
    Find(s, sep).Some?
  }

  /** A one-character separator occurs exactly when that character does. */
  lemma ContainsChar(s: string, c: char)
    ensures Contains(s, [c]) <==> c in s
  {
    if c in s {
      var j :| 0 <= j < |s| && s[j] == c;
      assert OccursAt(s, [c], j);
    }
    if Contains(s, [c]) {
      var k := Find(s, [c]).value;
      assert s[k..k + 1][0] == c;
    }
  }

  /** `s.split(sep, 1)[1]` guarded by `sep in s`: the text after the first occurrence
      of `sep`, or None where Python would raise IndexError. */
  function AfterFirst(s: string, sep: string): (r: Option<string>)
    requires |sep| > 0
    ensures r.Some? <==> Contains(s, sep)
    ensures r.Some? ==>
      var k := |s| - |r.value| - |sep|;
      && 0 <= k
      && s == s[..k] + sep + r.value
      && forall j :: 0 <= j < k ==> !OccursAt(s, sep, j)
  {
    match Find(s, sep)
    case None => None
    case Some(k) =>
      assert s == s[..k] + s[k..k + |sep|] + s[k + |sep|..];
      Some(s[k + |sep|..])
  }

  lemma PrefixBeforeFirst(s: string, sep: string, k: nat)
    requires |sep| > 0 && k <= |s|
    requires forall j :: 0 <= j < k ==> !OccursAt(s, sep, j)
    ensures !Contains(s[..k], sep)
  {
    var head := s[..k];
    forall j | 0 <= j && j + |sep| <= |head| ensures !OccursAt(head, sep, j) {
      assert s[j..j + |sep|] == head[j..j + |sep|];
      assert j < k && !OccursAt(s, sep, j);
    }
  }

  /** `s.split(sep)` for a non-empty `sep`: the pieces between non-overlapping
      occurrences, found left to right. Never empty: `"".split(sep) == [""]`. */
  function Split(s: string, sep: string): (r: seq<string>)
    requires |sep| > 0
    ensures |r| >= 1
    decreases |s|
  {
    match Find(s, sep)
    case None => [s]
    case Some(k) => [s[..k]] + Split(s[k + |sep|..], sep)
  }

  /** How `str.split` cuts, stated without `Find`, part one: the result is `[s]`
      exactly when `sep` does not occur in `s`. */
  lemma SplitNoCut(s: string, sep: string)
    requires |sep| > 0
    ensures |Split(s, sep)| == 1 <==> forall j :: !OccursAt(s, sep, j)
    ensures |Split(s, sep)| == 1 ==> Split(s, sep) == [s]
  {
    match Find(s, sep)
    case None =>
      assert Split(s, sep) == [s];
    case Some(k) =>
      assert Split(s, sep) == [s[..k]] + Split(s[k + |sep|..], sep);
      assert OccursAt(s, sep, k);
  }

  /** Part two: when the leftmost occurrence of `sep` is at `k`, the first piece is
      the text before it and the others are the split of what follows it. With
      `SplitNoCut`, induction on `|s|` fixes every cut. */
  lemma SplitFirstCut(s: string, sep: string, k: nat)
    requires |sep| > 0
    requires LeftmostAt(s, sep, k)
    ensures Split(s, sep) == [s[..k]] + Split(s[k + |sep|..], sep)
  {
    FindIs(s, sep, k);
  }

  /** `sep` occurs at `k` and nowhere before. */
  predicate LeftmostAt(s: string, sep: string, k: nat) {
    OccursAt(s, sep, k) && forall j :: 0 <= j < k ==> !OccursAt(s, sep, j)
  }

  /** The separator `"\n\n"` overlaps itself; the leftmost cut wins, as in Python:
      `"\n\n\n".split("\n\n") == ["", "\n"]` and
      `"a\n\n\n\nb".split("\n\n") == ["a", "", "b"]`. */
  lemma SplitOverlapping()
    ensures Split("\n\n\n", "\n\n") == ["", "\n"]
    ensures Split("a\n\n\n\nb", "\n\n") == ["a", "", "b"]
  {
    var s1, s2 := "\n\n\n", "a\n\n\n\nb";
    FindIs(s1, "\n\n", 0);
    assert s1[2..] == "\n";
    assert Split("\n", "\n\n") == ["\n"];
    assert s2[0..2][0] == 'a';
    FindIs(s2, "\n\n", 1);
    assert s2[..1] == "a" && s2[3..] == "\n\nb";
    FindIs("\n\nb", "\n\n", 0);
    assert "\n\nb"[2..] == "b";
    assert Split("b", "\n\n") == ["b"];
  }

  /** No piece of a split holds the separator. */
  lemma {:induction false} SplitPiecesFree(s: string, sep: string)
    requires |sep| > 0
    ensures forall i :: 0 <= i < |Split(s, sep)| ==> !Contains(Split(s, sep)[i], sep)
    decreases |s|
  {
    match Find(s, sep)
    case None =>
    case Some(k) =>
      PrefixBeforeFirst(s, sep, k);
      SplitPiecesFree(s[k + |sep|..], sep);
  }

  /** `sep.join(parts)`. */
  function Join(sep: string, parts: seq<string>): string
    decreases |parts|
  {
    if |parts| == 0 then ""
    else if |parts| == 1 then parts[0]
    else parts[0] + sep + Join(sep, parts[1..])
  }

  lemma JoinCons(sep: string, head: string, rest: seq<string>)
    requires |rest| >= 1
    ensures Join(sep, [head] + rest) == head + sep + Join(sep, rest)
  {
    assert ([head] + rest)[1..] == rest;
  }

  /** Joining the pieces of a split with the same separator gives back the string. */
  lemma {:induction false} JoinSplit(s: string, sep: string)
    requires |sep| > 0
    ensures Join(sep, Split(s, sep)) == s
    decreases |s|
  {
    match Find(s, sep)
    case None =>
      assert Split(s, sep) == [s];
    case Some(k) =>
      var tail := s[k + |sep|..];
      var rest := Split(tail, sep);
      assert Split(s, sep) == [s[..k]] + rest;
      JoinSplit(tail, sep);
      JoinCons(sep, s[..k], rest);
      CutAround(s, sep, k);
  }

  /** A string is the part before an occurrence, the separator, and the part after. */
  lemma CutAround(s: string, sep: string, k: nat)
    requires OccursAt(s, sep, k)
    ensures s == s[..k] + sep + s[k + |sep|..]
  {
    assert s == s[..k] + s[k..k + |sep|] + s[k + |sep|..];
  }

  /** Splitting a join on a one-character separator gives back the parts, when no
      part holds that character and there is at least one part. */
  lemma {:induction false} SplitJoin(parts: seq<string>, c: char)
    requires |parts| >= 1
    requires forall i :: 0 <= i < |parts| ==> c !in parts[i]
    ensures Split(Join([c], parts), [c]) == parts
    decreases |parts|
  {
    if |parts| == 1 {
      ContainsChar(parts[0], c);
      assert Split(parts[0], [c]) == [parts[0]];
    } else {
      var rest := Join([c], parts[1..]);
      var s := parts[0] + [c] + rest;
      var k := |parts[0]|;
      assert Join([c], parts) == s;
      FirstCharOccurrence(parts[0], c, rest);
      assert s[k + 1..] == rest;
      assert Split(s, [c]) == [s[..k]] + Split(rest, [c]);
      assert s[..k] == parts[0];
      SplitJoin(parts[1..], c);
      assert parts == [parts[0]] + parts[1..];
    }
  }

  lemma FirstCharOccurrence(head: string, c: char, rest: string)
    requires c !in head
    ensures Find(head + [c] + rest, [c]) == Some(|head|)
  {
    var s := head + [c] + rest;
    var k := |head|;
    assert s[k..k + 1] == [c];
    forall j | 0 <= j < k ensures !OccursAt(s, [c], j) {
      assert s[j..j + 1] == [head[j]];
    }
    FindIs(s, [c], k);
  }

  /** The first occurrence is the one with no occurrence before it. */
  lemma FindIs(s: string, sep: string, k: nat)
    requires OccursAt(s, sep, k)
    requires forall j :: 0 <= j < k ==> !OccursAt(s, sep, j)
    ensures Find(s, sep) == Some(k)
  {
    match Find(s, sep)
    case None =>
    case Some(k') =>
      if k' > k {
        assert false;
      }
  }

  /** No occurrence of `sep` starts inside `a` and runs past its end in `a + sep + b`. */
  predicate NoStraddle(a: string, sep: string, b: string) {
    forall j :: 0 <= j < |a| && OccursAt(a + sep + b, sep, j) ==> j + |sep| <= |a|
  }

  /** Without a straddling occurrence, the occurrences in `a + sep + b` that start
      before `j <= |a|` are those of `a`. */
  lemma NoEarlierOccurrence(a: string, sep: string, b: string, k: nat)
    requires |sep| > 0 && k <= |a| && NoStraddle(a, sep, b)
    requires forall j :: 0 <= j < k ==> !OccursAt(a, sep, j)
    ensures forall j :: 0 <= j < k ==> !OccursAt(a + sep + b, sep, j)
  {
    var s := a + sep + b;
    forall j | 0 <= j < k ensures !OccursAt(s, sep, j) {
      if OccursAt(s, sep, j) {
        assert j + |sep| <= |a|;
        assert s[j..j + |sep|] == a[j..j + |sep|];
        assert OccursAt(a, sep, j);
      }
    }
  }

  lemma FindConcatNone(a: string, sep: string, b: string)
    requires |sep| > 0 && NoStraddle(a, sep, b) && Find(a, sep).None?
    ensures Find(a + sep + b, sep) == Some(|a|)
  {
    var s := a + sep + b;
    assert OccursAt(s, sep, |a|) by { assert s[|a|..|a| + |sep|] == sep; }
    NoEarlierOccurrence(a, sep, b, |a|);
    FindIs(s, sep, |a|);
  }

  lemma FindConcatSome(a: string, sep: string, b: string, k: nat)
    requires |sep| > 0 && NoStraddle(a, sep, b) && Find(a, sep) == Some(k)
    ensures Find(a + sep + b, sep) == Some(k)
    ensures NoStraddle(a[k + |sep|..], sep, b)
  {
    var s := a + sep + b;
    assert OccursAt(s, sep, k) by { assert s[k..k + |sep|] == a[k..k + |sep|]; }
    NoEarlierOccurrence(a, sep, b, k);
    FindIs(s, sep, k);
    var a' := a[k + |sep|..];
    var t := a' + sep + b;
    assert t == s[k + |sep|..];
    forall j | 0 <= j < |a'| && OccursAt(t, sep, j) ensures j + |sep| <= |a'| {
      assert s[j + k + |sep|..j + k + 2 * |sep|] == t[j..j + |sep|];
      assert OccursAt(s, sep, j + k + |sep|);
    }
  }

  /** Splitting `a + sep + b` splits `a` and `b` separately, provided no occurrence of
      `sep` starts inside `a` and runs past its end. */
  lemma {:induction false} SplitConcat(a: string, sep: string, b: string)
    requires |sep| > 0 && NoStraddle(a, sep, b)
    ensures Split(a + sep + b, sep) == Split(a, sep) + Split(b, sep)
    decreases |a|
  {
    match Find(a, sep)
    case None =>
      SplitConcatLast(a, sep, b);
    case Some(k) =>
      var a' := a[k + |sep|..];
      SplitConcatStep(a, sep, b, k);
      SplitConcat(a', sep, b);
      Regroup(a[..k], Split(a', sep), Split(b, sep));
  }

  lemma Regroup(head: string, left: seq<string>, right: seq<string>)
    ensures [head] + (left + right) == ([head] + left) + right
  {
  }

  lemma SplitConcatLast(a: string, sep: string, b: string)
    requires |sep| > 0 && NoStraddle(a, sep, b) && Find(a, sep).None?
    ensures Split(a + sep + b, sep) == Split(a, sep) + Split(b, sep)
  {
    var s := a + sep + b;
    FindConcatNone(a, sep, b);
    assert s[..|a|] == a;
    assert s[|a| + |sep|..] == b;
    assert Split(s, sep) == [a] + Split(b, sep);
  }

  lemma SplitConcatStep(a: string, sep: string, b: string, k: nat)
    requires |sep| > 0 && NoStraddle(a, sep, b) && Find(a, sep) == Some(k)
    ensures NoStraddle(a[k + |sep|..], sep, b)
    ensures Split(a + sep + b, sep) == [a[..k]] + Split(a[k + |sep|..] + sep + b, sep)
    ensures Split(a, sep) == [a[..k]] + Split(a[k + |sep|..], sep)
  {
    FindConcatSome(a, sep, b, k);
    SplitAt(a, sep, k);
    SplitConcatHead(a, sep, b, k);
  }

  lemma SplitConcatHead(a: string, sep: string, b: string, k: nat)
    requires |sep| > 0 && k + |sep| <= |a| && Find(a + sep + b, sep) == Some(k)
    ensures Split(a + sep + b, sep) == [a[..k]] + Split(a[k + |sep|..] + sep + b, sep)
  {
    var s := a + sep + b;
    SplitAt(s, sep, k);
    DropConcat3(a, sep, b, k + |sep|);
    assert s[..k] == a[..k];
  }

  lemma DropConcat3(a: string, sep: string, b: string, n: nat)
    requires n <= |a|
    ensures (a + sep + b)[n..] == a[n..] + sep + b
  {
  }

  /** Unfolding a split at its first occurrence. */
  lemma SplitAt(s: string, sep: string, k: nat)
    requires |sep| > 0 && Find(s, sep) == Some(k)
    ensures Split(s, sep) == [s[..k]] + Split(s[k + |sep|..], sep)
  {
  }

  /** When the first character of `sep` does not occur before `k`, an occurrence at
      `k` is the first one. */
  lemma FindFirstByChar(s: string, sep: string, k: nat)
    requires |sep| > 0 && OccursAt(s, sep, k) && sep[0] !in s[..k]
    ensures Find(s, sep) == Some(k)
  {
    forall j | 0 <= j < k ensures !OccursAt(s, sep, j) {
      assert s[..k][j] == s[j];
    }
    FindIs(s, sep, k);
  }

  /** A string without the first character of `sep` holds no occurrence of it. */
  lemma NoOccurrenceByChar(s: string, sep: string)
    requires |sep| > 0 && sep[0] !in s
    ensures Find(s, sep).None?
  {
  }

  /** Parts without `c`, none of them empty, joined with `c` never hold `c` twice in a
      row. */
  lemma {:induction false} JoinNoDoubled(parts: seq<string>, c: char)
    requires |parts| >= 1
    requires forall i :: 0 <= i < |parts| ==> |parts[i]| > 0 && c !in parts[i]
    ensures Find(Join([c], parts), [c, c]).None?
    decreases |parts|
  {
    var s := Join([c], parts);
    if |parts| == 1 {
      NoOccurrenceByChar(s, [c, c]);
    } else {
      var p := parts[0];
      var rest := Join([c], parts[1..]);
      JoinNoDoubled(parts[1..], c);
      JoinStartsWith(parts[1..], c);
      assert s == p + [c] + rest;
      forall j | 0 <= j && j + 2 <= |s| ensures !OccursAt(s, [c, c], j) {
        if j < |p| {
          assert s[j] == p[j] && p[j] in p;
          assert s[j..j + 2][0] == s[j];
        } else if j == |p| {
          assert s[j + 1] == rest[0] == parts[1][0] && parts[1][0] in parts[1];
          assert s[j..j + 2][1] == s[j + 1];
        } else {
          assert rest[j - |p| - 1..j - |p| + 1] == s[j..j + 2];
          assert !OccursAt(rest, [c, c], j - |p| - 1);
        }
      }
    }
  }

  lemma JoinStartsWith(parts: seq<string>, c: char)
    requires |parts| >= 1 && |parts[0]| > 0
    ensures |Join([c], parts)| > 0 && Join([c], parts)[0] == parts[0][0]
  {
  }

  /** A character that is neither the separator nor in any part is not in the join. */
  lemma {:induction false} JoinAvoids(parts: seq<string>, c: char, d: char)
    requires c != d
    requires forall i :: 0 <= i < |parts| ==> d !in parts[i]
    ensures d !in Join([c], parts)
    decreases |parts|
  {
    if |parts| > 1 {
      JoinAvoids(parts[1..], c, d);
    }
  }

  /** A two-character separator cannot straddle the end of `a` when `a` does not end
      with its first character. */
  lemma NoStraddlePair(a: string, sep: string, b: string)
    requires |sep| == 2 && (|a| == 0 || a[|a| - 1] != sep[0])
    ensures NoStraddle(a, sep, b)
  {
    var s := a + sep + b;
    forall j | 0 <= j < |a| && OccursAt(s, sep, j) ensures j + |sep| <= |a| {
    }
  }

  /** `s[:n]` for a non-negative `n`. */
  function Take(s: string, n: nat): (r: string)
    ensures |r| == if n < |s| then n else |s|
    ensures r == s[..|r|]
  {
    if n < |s| then s[..n] else s
  }

  /** `s.replace(a, b)` for single characters `a` and `b`. */
  function ReplaceChar(s: string, a: char, b: char): (r: string)
    ensures |r| == |s|
    ensures forall i :: 0 <= i < |s| ==> r[i] == (if s[i] == a then b else s[i])
  {
    seq(|s|, i requires 0 <= i < |s| => if s[i] == a then b else s[i])
  }

  /** `s.startswith(prefix)`. */
  predicate StartsWith(s: string, prefix: string) {
    |prefix| <= |s| && s[..|prefix|] == prefix
  }

  /** `s.endswith(suffix)`. */
  predicate EndsWith(s: string, suffix: string) {
    |suffix| <= |s| && s[|s| - |suffix|..] == suffix
  }
}
