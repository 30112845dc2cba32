/** Small shared vocabulary: optional values, bytes, ASCII character classes
    (the "C" locale of <ctype.h>), bounded copies and field splitting. */
module Common {

  datatype Option<T> = None | Some(value: T)

  /** An unsigned char, as produced by the random byte source. */
  newtype byte = x: int | 0 <= x < 256

  /** `isspace` in the C locale: space, \t, \n, \v, \f, \r. */
  predicate IsSpace(c: char) {
    c == ' ' || 9 <= c as int <= 13
  }

  predicate IsUpper(c: char) {
    'A' <= c <= 'Z'
  }

  predicate IsLower(c: char) {
    'a' <= c <= 'z'
  }

  /** `tolower` in the C locale: only A-Z change. */
  function ToLower(c: char): (r: char)
    ensures !IsUpper(r)
    ensures IsUpper(c) ==> r as int == c as int + 32
    ensures !IsUpper(c) ==> r == c
  {
    if IsUpper(c) then (c as int + 32) as char else c
  }

  /** `toupper` in the C locale: only a-z change. */
  function ToUpper(c: char): (r: char)
    ensures !IsLower(r)
    ensures IsLower(c) ==> r as int == c as int - 32
    ensures !IsLower(c) ==> r == c
  {
    if IsLower(c) then (c as int - 32) as char else c
  }

  function LowerAll(s: string): (r: string)
    ensures |r| == |s|
    ensures forall i :: 0 <= i < |s| ==> r[i] == ToLower(s[i])
  {
    if s == [] then [] else [ToLower(s[0])] + LowerAll(s[1..])
  }

  function UpperAll(s: string): (r: string)
    ensures |r| == |s|
    ensures forall i :: 0 <= i < |s| ==> r[i] == ToUpper(s[i])
  {
    if s == [] then [] else [ToUpper(s[0])] + UpperAll(s[1..])
  }

  lemma UpperAllAppend(a: string, b: string)
    ensures UpperAll(a + b) == UpperAll(a) + UpperAll(b)
  {
    var l, r := UpperAll(a + b), UpperAll(a) + UpperAll(b);
    forall i | 0 <= i < |l| ensures l[i] == r[i] {
      if i < |a| {
        assert (a + b)[i] == a[i];
      } else {
        assert (a + b)[i] == b[i - |a|];
      }
    }
  }

  lemma SameCase(x: char, y: char)
    ensures ToUpper(x) == ToUpper(y) <==> ToLower(x) == ToLower(y)
  {
  }

  /** Comparing upper-cased strings is ASCII case-insensitive comparison. */
  lemma UpperAllCaseEqual(a: string, b: string)
    requires |a| == |b|
    ensures UpperAll(a) == UpperAll(b) <==> CaseEqual(a, b)
  {
    var ua, ub := UpperAll(a), UpperAll(b);
    forall i | 0 <= i < |a| ensures ua[i] == ub[i] <==> ToLower(a[i]) == ToLower(b[i]) {
      SameCase(a[i], b[i]);
    }
    if CaseEqual(a, b) {
      assert forall i :: 0 <= i < |a| ==> ua[i] == ub[i];
    }
  }

  /** Upper-casing after lower-casing is upper-casing. */
  lemma UpperOfLower(s: string)
    ensures UpperAll(LowerAll(s)) == UpperAll(s)
  {
  }

  /** A C string holds no NUL before its terminator. */
  predicate NulFree(s: string) {
    forall i :: 0 <= i < |s| ==> s[i] != '\0'
  }

  /** What a bounded copy (`strncpy` into a buffer of n + 1 bytes) keeps. */
  function Truncate(s: string, n: nat): (r: string)
    ensures |r| == if |s| <= n then |s| else n
    ensures r == s[..|r|]
  {
    if |s| <= n then s else s[..n]
  }

  /** Splits `s` at every `sep`, keeping empty fields: "a||b" gives ["a", "", "b"]. */
  function Split(s: string, sep: char): (r: seq<string>)
    ensures |r| >= 1
    decreases |s|
  {
    if s == [] then [[]]
    else if s[0] == sep then [[]] + Split(s[1..], sep)
    else
      var t := Split(s[1..], sep);
      [[s[0]] + t[0]] + t[1..]
  }

  function Join(parts: seq<string>, sep: char): string
    requires |parts| >= 1
  {
    if |parts| == 1 then parts[0] else parts[0] + [sep] + Join(parts[1..], sep)
  }

  /** Joining the fields back with the separator gives the original string. */
  lemma {:induction false} JoinSplit(s: string, sep: char)
    ensures Join(Split(s, sep), sep) == s
    decreases |s|
  {
    if s == [] {
    } else if s[0] == sep {
      JoinSplit(s[1..], sep);
      assert s == [sep] + s[1..];
    } else {
      var t := Split(s[1..], sep);
      JoinSplit(s[1..], sep);
      assert s == [s[0]] + s[1..];
      if |t| == 1 {
      } else {
        assert t == [t[0]] + t[1..];
        assert Join(t, sep) == t[0] + [sep] + Join(t[1..], sep);
        calc {
          Join(Split(s, sep), sep);
          Join([[s[0]] + t[0]] + t[1..], sep);
          ([s[0]] + t[0]) + [sep] + Join(t[1..], sep);
          [s[0]] + Join(t, sep);
        }
      }
    }
  }

  /** No field contains the separator. */
  lemma {:induction false} SplitFieldsFree(s: string, sep: char)
    ensures forall i :: 0 <= i < |Split(s, sep)| ==> sep !in Split(s, sep)[i]
    decreases |s|
  {
    if s != [] {
      SplitFieldsFree(s[1..], sep);
    }
  }

  /** One unfolding of `Split` on a string of the form `[c] + s`. */
  lemma SplitCons(c: char, s: string, sep: char)
    ensures Split([c] + s, sep) ==
      if c == sep then [[]] + Split(s, sep) else [[c] + Split(s, sep)[0]] + Split(s, sep)[1..]
  {
    assert ([c] + s)[0] == c;
    assert ([c] + s)[1..] == s;
  }

  /** A separator splits the string into the fields of either side. */
  lemma {:induction false} SplitAppend(a: string, b: string, sep: char)
    ensures Split(a + [sep] + b, sep) == Split(a, sep) + Split(b, sep)
    decreases |a|
  {
    if a == [] {
      assert a + [sep] + b == [sep] + b;
      SplitCons(sep, b, sep);
    } else {
      var c, a' := a[0], a[1..];
      var x := a' + [sep] + b;
      assert a + [sep] + b == [c] + x && a == [c] + a' by {
        assert a == [c] + a';
      }
      SplitAppend(a', b, sep);
      SplitCons(c, x, sep);
      SplitCons(c, a', sep);
      FieldsConsAppend(c, sep, Split(a', sep), Split(b, sep));
    }
  }

  /** The sequence step of `SplitAppend`: extending the first field commutes
      with appending more fields. */
  lemma FieldsConsAppend(c: char, sep: char, u: seq<string>, v: seq<string>)
    requires |u| >= 1
    ensures c != sep ==> [[c] + (u + v)[0]] + (u + v)[1..] == ([[c] + u[0]] + u[1..]) + v
    ensures c == sep ==> [[]] + (u + v) == ([[]] + u) + v
  {
    assert (u + v)[0] == u[0];
    assert (u + v)[1..] == u[1..] + v;
  }

  /** Without a separator the whole string is the one field. */
  lemma {:induction false} SplitNoSep(s: string, sep: char)
    requires sep !in s
    ensures Split(s, sep) == [s]
    decreases |s|
  {
    if s != [] {
      assert sep !in s[1..] by {
        assert forall k :: 0 <= k < |s| - 1 ==> s[1..][k] == s[k + 1];
      }
      SplitNoSep(s[1..], sep);
      assert [s[0]] + s[1..] == s;
    }
  }

  /** `strchr(s + from, c)`: the first position at or after `from` holding `c`. */
  function Find(s: string, c: char, from: nat): (r: Option<nat>)
    requires from <= |s|
    ensures r.Some? ==> from <= r.value < |s| && s[r.value] == c && c !in s[from..r.value]
    ensures r.None? ==> c !in s[from..]
    decreases |s| - from
  {
    if from == |s| then None
    else if s[from] == c then Some(from)
    else
      var r := Find(s, c, from + 1);
      assert s[from..] == [s[from]] + s[from + 1..];
      assert r.Some? ==> s[from..r.value] == [s[from]] + s[from + 1..r.value];
      r
  }

  /** The separator `strchr` finds from p ends the field that starts at p. */
  lemma {:induction false} FindSplit(s: string, c: char, p: nat, n: nat)
    requires p <= |s| && Find(s, c, p) == Some(n)
    ensures Split(s[p..], c) == [s[p..n]] + Split(s[n + 1..], c)
    decreases |s| - p
  {
    var r := s[p..];
    if s[p] == c {
      assert r[0] == c && r[1..] == s[p + 1..] && s[p..p] == [];
    } else {
      assert r[0] == s[p] && r[1..] == s[p + 1..];
      FindSplit(s, c, p + 1, n);
      var t := Split(s[p + 1..], c);
      assert Split(r, c) == [[s[p]] + t[0]] + t[1..];
      assert [s[p]] + s[p + 1..n] == s[p..n];
    }
  }

  /** Without a separator from p on, the rest is one field. */
  lemma {:induction false} FindNoneSplit(s: string, c: char, p: nat)
    requires p <= |s| && Find(s, c, p).None?
    ensures Split(s[p..], c) == [s[p..]]
    decreases |s| - p
  {
    var r := s[p..];
    if p < |s| {
      assert r[0] == s[p] && r[1..] == s[p + 1..];
      FindNoneSplit(s, c, p + 1);
      assert Split(r, c) == [[s[p]] + s[p + 1..]];
      assert [s[p]] + s[p + 1..] == r;
    }
  }

  /** The fields that are not empty, in order (what `strtok` yields). */
  function NonEmpty(parts: seq<string>): (r: seq<string>)
    ensures |r| <= |parts|
    ensures forall i :: 0 <= i < |r| ==> r[i] != []
  {
    if parts == [] then []
    else if parts[0] == [] then NonEmpty(parts[1..])
    else [parts[0]] + NonEmpty(parts[1..])
  }

  lemma {:induction false} NonEmptyAppend(a: seq<string>, b: seq<string>)
    ensures NonEmpty(a + b) == NonEmpty(a) + NonEmpty(b)
  {
    if a == [] {
      assert a + b == b;
    } else {
      assert (a + b)[0] == a[0];
      assert (a + b)[1..] == a[1..] + b;
      NonEmptyAppend(a[1..], b);
      if a[0] != [] {
        var x, y := NonEmpty(a[1..]), NonEmpty(b);
        assert [a[0]] + (x + y) == ([a[0]] + x) + y;
      }
    }
  }

  /** Every non-empty field survives the filter. */
  lemma {:induction false} NonEmptyKeeps(parts: seq<string>, f: string)
    requires f in parts && f != []
    ensures f in NonEmpty(parts)
  {
    if parts[0] != f {
      NonEmptyKeeps(parts[1..], f);
    }
  }

  /** The elements that satisfy `keep`, in order (a `DELETE ... WHERE` keeps
      the others). */
  function Filter<T(!new)>(s: seq<T>, keep: T -> bool): (r: seq<T>)
    ensures |r| <= |s|
    ensures forall x :: x in r <==> x in s && keep(x)
  {
    if s == [] then []
    else if keep(s[0]) then [s[0]] + Filter(s[1..], keep)
    else Filter(s[1..], keep)
  }

  /** Every element is related to each one after it. */
  ghost predicate Pairwise<T(!new)>(s: seq<T>, R: (T, T) -> bool) {
    forall i, j :: 0 <= i < j < |s| ==> R(s[i], s[j])
  }

  lemma PairwiseTail<T(!new)>(s: seq<T>, R: (T, T) -> bool)
    requires s != [] && Pairwise(s, R)
    ensures Pairwise(s[1..], R) && forall x :: x in s[1..] ==> R(s[0], x)
  {
    var t := s[1..];
    forall i, j | 0 <= i < j < |t| ensures R(t[i], t[j]) {
      assert t[i] == s[i + 1] && t[j] == s[j + 1];
    }
    forall x | x in t ensures R(s[0], x) {
      var k :| 0 <= k < |t| && t[k] == x;
      assert t[k] == s[k + 1];
    }
  }

  lemma PairwiseCons<T(!new)>(x: T, t: seq<T>, R: (T, T) -> bool)
    requires Pairwise(t, R) && forall y :: y in t ==> R(x, y)
    ensures Pairwise([x] + t, R)
  {
    var r := [x] + t;
    forall i, j | 0 <= i < j < |r| ensures R(r[i], r[j]) {
      assert r[j] == t[j - 1] && r[j] in t;
      if i > 0 {
        assert r[i] == t[i - 1];
      }
    }
  }

  /** Appending a row related to every earlier one keeps the constraint. */
  lemma PairwiseSnoc<T(!new)>(s: seq<T>, x: T, R: (T, T) -> bool)
    requires Pairwise(s, R) && forall y :: y in s ==> R(y, x)
    ensures Pairwise(s + [x], R)
  {
    var r := s + [x];
    forall i, j | 0 <= i < j < |r| ensures R(r[i], r[j]) {
      assert r[i] == s[i] && r[i] in s;
      if j < |s| {
        assert r[j] == s[j];
      }
    }
  }

  /** Deleting rows keeps an ordering or uniqueness constraint. */
  lemma {:induction false} FilterPairwise<T(!new)>(s: seq<T>, keep: T -> bool, R: (T, T) -> bool)
    requires Pairwise(s, R)
    ensures Pairwise(Filter(s, keep), R)
  {
    if s != [] {
      PairwiseTail(s, R);
      FilterPairwise(s[1..], keep, R);
      if keep(s[0]) {
        PairwiseCons(s[0], Filter(s[1..], keep), R);
      }
    }
  }

  lemma {:induction false} FilterSnoc<T(!new)>(s: seq<T>, x: T, keep: T -> bool)
    ensures Filter(s + [x], keep) == Filter(s, keep) + (if keep(x) then [x] else [])
  {
    if s == [] {
      assert s + [x] == [x];
      assert [x][1..] == [];
    } else {
      assert (s + [x])[0] == s[0];
      assert (s + [x])[1..] == s[1..] + [x];
      FilterSnoc(s[1..], x, keep);
    }
  }

  lemma {:induction false} FilterNone<T(!new)>(s: seq<T>, keep: T -> bool)
    requires forall x :: x in s ==> !keep(x)
    ensures Filter(s, keep) == []
  {
    if s != [] {
      assert s[0] in s;
      FilterNone(s[1..], keep);
    }
  }

  /** A `DELETE ... WHERE` that matches no row changes nothing. */
  lemma {:induction false} FilterAll<T(!new)>(s: seq<T>, keep: T -> bool)
    requires forall x :: x in s ==> keep(x)
    ensures Filter(s, keep) == s
  {
    if s != [] {
      assert s[0] in s;
      FilterAll(s[1..], keep);
    }
  }

  /** The first n elements (all of them when there are fewer). */
  function Take<T>(s: seq<T>, n: int): (r: seq<T>)
    ensures |r| == if n <= 0 then 0 else if |s| <= n then |s| else n
    ensures r == s[..|r|]
  {
    if n <= 0 then [] else if |s| <= n then s else s[..n]
  }

  lemma TakeAppend<T>(a: seq<T>, b: seq<T>, n: int)
    requires |a| <= n
    ensures Take(a + b, n) == a + Take(b, n - |a|)
  {
  }

  /** Leading and trailing ' ' removed (not other whitespace). */
  function TrimLeft(s: string): (r: string)
    ensures r == [] || r[0] != ' '
  {
    if s != [] && s[0] == ' ' then TrimLeft(s[1..]) else s
  }

  function TrimRight(s: string): (r: string)
    ensures |r| <= |s| && r == s[..|r|]
    ensures r == [] || r[|r| - 1] != ' '
  {
    if s != [] && s[|s| - 1] == ' ' then TrimRight(s[..|s| - 1]) else s
  }

  /** One step of trimming the slice s[i..j] from its end. */
  lemma TrimRightSlice(s: string, i: nat, j: nat)
    requires i <= j <= |s|
    ensures i < j && s[j - 1] == ' ' ==> TrimRight(s[i..j]) == TrimRight(s[i..j - 1])
    ensures (i == j || s[j - 1] != ' ') ==> TrimRight(s[i..j]) == s[i..j]
  {
    if i < j {
      assert s[i..j][..j - i - 1] == s[i..j - 1];
    }
  }

  /** `while (*p == ' ') p++`. */
  method SkipSpaces(s: string, p0: nat) returns (p: nat)
    requires p0 <= |s|
    ensures p0 <= p <= |s| && (p == |s| || s[p] != ' ')
    ensures forall i :: p0 <= i < p ==> s[i] == ' '
  {
    p := p0;
    while p < |s| && s[p] == ' '
      invariant p0 <= p <= |s| && forall i :: p0 <= i < p ==> s[i] == ' '
    {
      p := p + 1;
    }
  }

  /** `while (len > 0 && p[len - 1] == ' ') len--` over the segment s[p..stop],
      with the segment's end e standing for p + len. */
  method TrimEnd(s: string, p: nat, stop: nat) returns (len: nat)
    requires p <= stop <= |s|
    ensures p + len <= stop && s[p..p + len] == TrimRight(s[p..stop])
  {
    var e := stop;
    while e > p && s[e - 1] == ' '
      invariant p <= e <= stop
      invariant TrimRight(s[p..e]) == TrimRight(s[p..stop])
    {
      TrimRightSlice(s, p, e);
      e := e - 1;
    }
    TrimRightSlice(s, p, e);
    len := e - p;
  }

  /** Skipping the spaces s[p..q] is trimming the slice s[p..stop] from the left. */
  lemma {:induction false} TrimLeftSkipped(s: string, p: nat, q: nat, stop: nat)
    requires p <= q <= stop <= |s|
    requires forall i :: p <= i < q ==> s[i] == ' '
    requires q == stop || s[q] != ' '
    ensures TrimLeft(s[p..stop]) == s[q..stop]
    decreases q - p
  {
    if p < q {
      assert s[p..stop][0] == ' ' && s[p..stop][1..] == s[p + 1..stop];
      TrimLeftSkipped(s, p + 1, q, stop);
    }
  }

  function Strip(s: string): string {
    TrimRight(TrimLeft(s))
  }

  /** ASCII case-insensitive equality, as `strcasecmp(a, b) == 0`. */
  predicate CaseEqual(a: string, b: string) {
    |a| == |b| && forall i :: 0 <= i < |a| ==> ToLower(a[i]) == ToLower(b[i])
  }
}
