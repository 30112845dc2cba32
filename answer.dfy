/** Answer matching: `puzzle_normalize_answer` rewrites a C string in place
    (skip leading whitespace, lowercase, turn each run of whitespace and of the
    separators `,` `-` `>` into one space, drop one trailing space), and
    `check_answer` compares a normalized guess with every normalized
    `|`-separated alternative of the stored answer. */
module PuzzleAnswer {
  import opened Common

  /** Separators that count as spaces when answers are compared. */
  predicate IsSeparator(c: char) {
    c == ',' || c == '-' || c == '>'
  }

  /** The leading-whitespace skip of the read position. */
  function SkipSpace(s: string): (r: string)
    ensures |r| <= |s| && r == s[|s| - |r|..]
    ensures r == [] || !IsSpace(r[0])
  {
    if s != [] && IsSpace(s[0]) then SkipSpace(s[1..]) else s
  }

  /** What the main loop writes for `s`, given whether the last character
      written was a space. */
  function Collapse(s: string, lastSpace: bool): string {
    if s == [] then []
    else if IsSpace(s[0]) || IsSeparator(s[0]) then
      (if lastSpace then Collapse(s[1..], true) else " " + Collapse(s[1..], true))
    else [ToLower(s[0])] + Collapse(s[1..], false)
  }

  function DropTrailingSpace(s: string): string {
    if s != [] && s[|s| - 1] == ' ' then s[..|s| - 1] else s
  }

  /** The normalized form of an answer, which never outgrows the buffer the
      input occupied (its shape is `NormalizeShape`). */
  function Normalize(s: string): (r: string)
    ensures |r| <= |s|
  {
    CollapseShape(SkipSpace(s), false);
    DropTrailingSpace(Collapse(SkipSpace(s), false))
  }

  /** No uppercase, no separators, no whitespace but ' ', no two spaces in a row. */
  predicate Canonical(r: string) {
    (forall i :: 0 <= i < |r| ==> !IsUpper(r[i]) && !IsSeparator(r[i]) && (IsSpace(r[i]) ==> r[i] == ' ')) &&
    (forall i :: 1 <= i < |r| ==> r[i - 1] != ' ' || r[i] != ' ')
  }

  lemma {:induction false} CollapseShape(s: string, lastSpace: bool)
    ensures Canonical(Collapse(s, lastSpace))
    ensures |Collapse(s, lastSpace)| <= |s|
    ensures lastSpace && Collapse(s, lastSpace) != [] ==> Collapse(s, lastSpace)[0] != ' '
    ensures Collapse(s, lastSpace) != [] && Collapse(s, lastSpace)[0] == ' ' ==> IsSpace(s[0]) || IsSeparator(s[0])
    decreases |s|
  {
    if s != [] {
      CollapseShape(s[1..], true);
      CollapseShape(s[1..], false);
      if IsSpace(s[0]) || IsSeparator(s[0]) {
        if !lastSpace {
          var t := Collapse(s[1..], true);
          assert Collapse(s, lastSpace) == " " + t;
          assert forall i :: 1 <= i < |t| + 1 ==> (" " + t)[i] == t[i - 1];
        }
      } else {
        var t := Collapse(s[1..], false);
        assert Collapse(s, lastSpace) == [ToLower(s[0])] + t;
        assert forall i :: 1 <= i < |t| + 1 ==> ([ToLower(s[0])] + t)[i] == t[i - 1];
        assert !IsSpace(ToLower(s[0]));
      }
    }
  }

  lemma CanonicalPrefix(r: string, k: nat)
    requires Canonical(r) && k <= |r|
    ensures Canonical(r[..k])
  {
  }

  /** The normalized form is canonical, never longer than the input and has no
      trailing space. A leading space survives only when the first character
      after the skipped whitespace is a separator. */
  lemma NormalizeShape(s: string)
    ensures Canonical(Normalize(s))
    ensures |Normalize(s)| <= |s|
    ensures Normalize(s) == [] || Normalize(s)[|Normalize(s)| - 1] != ' '
    ensures Normalize(s) != [] && Normalize(s)[0] == ' ' ==> IsSeparator(SkipSpace(s)[0])
  {
    var c := Collapse(SkipSpace(s), false);
    CollapseShape(SkipSpace(s), false);
    if c != [] && c[|c| - 1] == ' ' {
      CanonicalPrefix(c, |c| - 1);
      if |c| >= 2 {
        assert c[|c| - 2] != ' ';
      }
    }
  }

  /** A canonical string is its own collapse. */
  lemma {:induction false} CollapseCanonical(x: string, lastSpace: bool)
    requires Canonical(x)
    requires lastSpace ==> x == [] || x[0] != ' '
    ensures Collapse(x, lastSpace) == x
    decreases |x|
  {
    if x != [] {
      CanonicalPrefix(x, |x|);
      assert Canonical(x[1..]) by {
        assert forall i :: 0 <= i < |x| - 1 ==> x[1..][i] == x[i + 1];
      }
      if x[0] == ' ' {
        assert |x| >= 2 ==> x[1] != ' ';
        CollapseCanonical(x[1..], true);
      } else {
        assert !IsSpace(x[0]);
        CollapseCanonical(x[1..], false);
      }
      assert x == [x[0]] + x[1..];
    }
  }

  /** Normalizing a canonical string without spaces at its ends changes nothing. */
  lemma NormalizeFixedPoint(x: string)
    requires Canonical(x)
    requires x == [] || (x[0] != ' ' && x[|x| - 1] != ' ')
    ensures Normalize(x) == x
  {
    assert SkipSpace(x) == x by {
      assert x == [] || !IsSpace(x[0]);
    }
    CollapseCanonical(x, false);
    assert DropTrailingSpace(x) == x;
  }

  /** Normalizing is idempotent unless the result starts with a space. */
  lemma NormalizeIdempotentWithoutLeadingSpace(s: string)
    requires Normalize(s) == [] || Normalize(s)[0] != ' '
    ensures Normalize(Normalize(s)) == Normalize(s)
  {
    NormalizeShape(s);
    NormalizeFixedPoint(Normalize(s));
  }

  /** Dropping the leading space of a canonical string leaves a canonical
      string that starts with something else and ends where it did. */
  lemma CanonicalDropSpace(r: string)
    requires Canonical(r) && r != [] && r[0] == ' '
    ensures Canonical(r[1..]) && (r[1..] == [] || (r[1..][0] != ' ' && r[1..][|r| - 2] == r[|r| - 1]))
  {
    assert forall i :: 0 <= i < |r| - 1 ==> r[1..][i] == r[i + 1];
    assert |r| >= 2 ==> r[1] != ' ';
  }

  /** On a canonical string without a trailing space, normalizing removes at
      most a leading space. */
  lemma NormalizeCanonical(r: string)
    requires Canonical(r) && (r == [] || r[|r| - 1] != ' ')
    ensures Normalize(r) == if r != [] && r[0] == ' ' then r[1..] else r
  {
    if r != [] && r[0] == ' ' {
      var t := r[1..];
      CanonicalDropSpace(r);
      assert SkipSpace(r) == t by {
        assert SkipSpace(r) == SkipSpace(t);
        assert t == [] || !IsSpace(t[0]);
      }
      CollapseCanonical(t, false);
      assert t == [] || t[|t| - 1] == r[|r| - 1];
    } else {
      NormalizeFixedPoint(r);
    }
  }

  /** A second pass removes at most a leading space, so from the second pass on
      nothing changes. */
  lemma NormalizeTwiceIsStable(s: string)
    ensures Normalize(Normalize(Normalize(s))) == Normalize(Normalize(s))
  {
    var r := Normalize(s);
    NormalizeShape(s);
    NormalizeCanonical(r);
    var r2 := Normalize(r);
    if r != [] && r[0] == ' ' {
      CanonicalDropSpace(r);
      assert r2 == r[1..];
      NormalizeFixedPoint(r2);
    } else {
      assert r2 == r;
      NormalizeFixedPoint(r);
    }
  }

  /** Whether the last character of `a` (or `lastSpace` for an empty `a`)
      leaves the main loop's space flag set. */
  function EndsInGap(a: string, lastSpace: bool): bool {
    if a == [] then lastSpace else IsSpace(a[|a| - 1]) || IsSeparator(a[|a| - 1])
  }

  lemma {:induction false} CollapseAppend(a: string, b: string, lastSpace: bool)
    ensures Collapse(a + b, lastSpace) == Collapse(a, lastSpace) + Collapse(b, EndsInGap(a, lastSpace))
    decreases |a|
  {
    if a == [] {
      assert a + b == b;
    } else {
      var ab := a + b;
      assert ab[0] == a[0] && ab[1..] == a[1..] + b;
      assert ab[0..] == ab && a[0..] == a;
      var l := IsSpace(a[0]) || IsSeparator(a[0]);
      CollapseStep(ab, 0, lastSpace);
      CollapseStep(a, 0, lastSpace);
      CollapseAppend(a[1..], b, l);
      assert EndsInGap(a[1..], l) == EndsInGap(a, lastSpace) by {
        assert a[1..] == [] || a[1..][|a[1..]| - 1] == a[|a| - 1];
      }
      SeqAssoc(Emit(a[0], lastSpace), Collapse(a[1..], l), Collapse(b, EndsInGap(a, lastSpace)));
    }
  }

  /** A run of characters that are neither whitespace nor separators. */
  predicate IsWord(w: string) {
    w != [] && forall i :: 0 <= i < |w| ==> !IsSpace(w[i]) && !IsSeparator(w[i])
  }

  /** A run of whitespace and separators. */
  predicate IsGap(g: string) {
    forall i :: 0 <= i < |g| ==> IsSpace(g[i]) || IsSeparator(g[i])
  }

  predicate AllSpace(s: string) {
    forall i :: 0 <= i < |s| ==> IsSpace(s[i])
  }

  lemma {:induction false} CollapseWord(w: string, lastSpace: bool)
    requires forall i :: 0 <= i < |w| ==> !IsSpace(w[i]) && !IsSeparator(w[i])
    ensures Collapse(w, lastSpace) == LowerAll(w)
    decreases |w|
  {
    if w != [] {
      assert !IsSpace(w[0]) && !IsSeparator(w[0]);
      CollapseWord(w[1..], false);
    }
  }

  lemma {:induction false} CollapseGap(g: string, lastSpace: bool)
    requires g != [] && IsGap(g)
    ensures Collapse(g, lastSpace) == if lastSpace then [] else " "
    decreases |g|
  {
    assert IsSpace(g[0]) || IsSeparator(g[0]);
    if |g| > 1 {
      CollapseGap(g[1..], true);
    }
  }

  lemma {:induction false} SkipSpacePrefix(sp: string, x: string)
    requires AllSpace(sp)
    requires x == [] || !IsSpace(x[0])
    ensures SkipSpace(sp + x) == x
    decreases |sp|
  {
    if sp == [] {
      assert sp + x == x;
    } else {
      assert (sp + x)[1..] == sp[1..] + x;
      SkipSpacePrefix(sp[1..], x);
    }
  }

  lemma SkipSpaceBeforeWord(sp: string, w: string, rest: string)
    requires AllSpace(sp) && IsWord(w)
    ensures SkipSpace(sp + w + rest) == w + rest
  {
    var x := w + rest;
    assert sp + w + rest == sp + x;
    assert x[0] == w[0];
    SkipSpacePrefix(sp, x);
  }

  lemma Regroup(a: string, b: string, c: string, d: string, e: string)
    ensures a + b + (c + d + e) == a + b + c + d + e
    ensures b + (c + d + e) == b + c + d + e
  {
  }

  /** Only whitespace normalizes to the empty string. */
  lemma NormalizeBlank(sp: string)
    requires AllSpace(sp)
    ensures Normalize(sp) == ""
  {
    SkipSpacePrefix(sp, []);
    assert sp + [] == sp;
  }

  /** One word with whitespace or separators after it and whitespace before it
      normalizes to the lowercased word. */
  lemma NormalizeOneWord(sp: string, w: string, t: string)
    requires AllSpace(sp) && IsWord(w) && IsGap(t)
    ensures Normalize(sp + w + t) == LowerAll(w)
  {
    var l := LowerAll(w);
    SkipSpaceBeforeWord(sp, w, t);
    assert Collapse(w + t, false) == l + (if t == [] then "" else " ") by {
      CollapseWord(w, false);
      CollapseAppend(w, t, false);
      assert (w + t)[|w| - 1] == w[|w| - 1];
      assert !EndsInGap(w, false);
      if t != [] {
        CollapseGap(t, false);
      }
    }
    assert l[|l| - 1] == ToLower(w[|w| - 1]);
    NormalizeVia(sp + w + t, w + t, l, if t == [] then "" else " ");
  }

  lemma CollapseTwoWords(w1: string, g: string, w2: string, t: string)
    requires IsWord(w1) && IsWord(w2) && IsGap(g) && g != [] && IsGap(t)
    ensures Collapse(w1 + g + w2 + t, false) == LowerAll(w1) + " " + LowerAll(w2) + (if t == [] then "" else " ")
  {
    var l1, l2 := LowerAll(w1), LowerAll(w2);
    assert Collapse(w1 + g, false) == l1 + " " && EndsInGap(w1 + g, false) by {
      CollapseWord(w1, false);
      CollapseGap(g, false);
      CollapseAppend(w1, g, false);
      assert (w1 + g)[|w1 + g| - 1] == g[|g| - 1];
    }
    assert Collapse(w1 + g + w2, false) == l1 + " " + l2 && !EndsInGap(w1 + g + w2, false) by {
      CollapseWord(w2, true);
      CollapseAppend(w1 + g, w2, false);
      assert (w1 + g + w2)[|w1 + g + w2| - 1] == w2[|w2| - 1];
    }
    CollapseAppend(w1 + g + w2, t, false);
    if t != [] {
      CollapseGap(t, false);
    }
  }

  /** Normalizing ends with the collapsed text, minus one trailing space. */
  lemma NormalizeVia(s: string, x: string, c: string, tail: string)
    requires SkipSpace(s) == x && Collapse(x, false) == c + tail
    requires tail == "" || tail == " "
    requires c == [] || c[|c| - 1] != ' '
    ensures Normalize(s) == c
  {
    assert (c + " ")[..|c|] == c;
    assert c + "" == c;
  }

  /** The last character of two lowercased words joined by a space is not a space. */
  lemma JoinedWordsEnd(w1: string, w2: string)
    requires IsWord(w2)
    ensures var c := LowerAll(w1) + " " + LowerAll(w2); c[|c| - 1] != ' '
  {
    var c := LowerAll(w1) + " " + LowerAll(w2);
    assert c[|c| - 1] == ToLower(w2[|w2| - 1]);
  }

  /** Two words separated by any run of whitespace and separators normalize to
      the lowercased words joined by one space. */
  lemma NormalizeTwoWords(sp: string, w1: string, g: string, w2: string, t: string)
    requires AllSpace(sp) && IsWord(w1) && IsWord(w2) && IsGap(g) && g != [] && IsGap(t)
    ensures Normalize(sp + w1 + g + w2 + t) == LowerAll(w1) + " " + LowerAll(w2)
  {
    var x := w1 + g + w2 + t;
    SkipSpaceBeforeWord(sp, w1, g + w2 + t);
    Regroup(sp, w1, g, w2, t);
    CollapseTwoWords(w1, g, w2, t);
    JoinedWordsEnd(w1, w2);
    NormalizeVia(sp + w1 + g + w2 + t, x, LowerAll(w1) + " " + LowerAll(w2), if t == [] then "" else " ");
  }

  lemma LowerWord(w: string)
    requires IsWord(w)
    ensures IsWord(LowerAll(w))
  {
  }

  lemma NormalizeSeparatorWord(c: char, w: string)
    requires IsSeparator(c) && IsWord(w)
    ensures Normalize([c] + w) == " " + LowerAll(w)
  {
    var l := " " + LowerAll(w);
    assert SkipSpace([c] + w) == [c] + w by {
      assert ([c] + w)[0] == c;
    }
    assert Collapse([c] + w, false) == l by {
      CollapseAppend([c], w, false);
      assert Collapse([c], false) == " " by {
        assert [c][1..] == [];
      }
      CollapseWord(w, true);
    }
    assert l[|l| - 1] == ToLower(w[|w| - 1]);
  }

  lemma NormalizeSpaceWord(w: string)
    requires IsWord(w)
    ensures Normalize(" " + w) == LowerAll(w)
  {
    assert " " + w == " " + w + [];
    NormalizeOneWord(" ", w, []);
  }

  /** Normalizing is not idempotent: a separator in front of a word (as in
      ",abc") becomes a space that the next pass skips. */
  lemma NormalizeNotIdempotent(c: char, w: string)
    requires IsSeparator(c) && IsWord(w)
    ensures Normalize([c] + w) == " " + LowerAll(w)
    ensures Normalize(Normalize([c] + w)) == LowerAll(w)
  {
    NormalizeSeparatorWord(c, w);
    LowerWord(w);
    NormalizeSpaceWord(LowerAll(w));
    assert LowerAll(LowerAll(w)) == LowerAll(w);
  }

  lemma {:induction false} SkipSpaceCase(a: string, b: string)
    requires CaseEqual(a, b)
    ensures CaseEqual(SkipSpace(a), SkipSpace(b))
    decreases |a|
  {
    if a != [] {
      assert ToLower(a[0]) == ToLower(b[0]);
      assert IsSpace(a[0]) <==> IsSpace(b[0]);
      if IsSpace(a[0]) {
        assert CaseEqual(a[1..], b[1..]) by {
          assert forall i :: 0 <= i < |a| - 1 ==> a[1..][i] == a[i + 1] && b[1..][i] == b[i + 1];
        }
        SkipSpaceCase(a[1..], b[1..]);
      }
    }
  }

  lemma {:induction false} CollapseCase(a: string, b: string, lastSpace: bool)
    requires CaseEqual(a, b)
    ensures Collapse(a, lastSpace) == Collapse(b, lastSpace)
    decreases |a|
  {
    if a != [] {
      assert ToLower(a[0]) == ToLower(b[0]);
      assert CaseEqual(a[1..], b[1..]) by {
        assert forall i :: 0 <= i < |a| - 1 ==> a[1..][i] == a[i + 1] && b[1..][i] == b[i + 1];
      }
      CollapseCase(a[1..], b[1..], true);
      CollapseCase(a[1..], b[1..], false);
    }
  }

  /** Comparison ignores ASCII case. */
  lemma NormalizeIgnoresCase(a: string, b: string)
    requires CaseEqual(a, b)
    ensures Normalize(a) == Normalize(b)
  {
    SkipSpaceCase(a, b);
    CollapseCase(SkipSpace(a), SkipSpace(b), false);
  }

  /** What the main loop writes for one character. */
  function Emit(c: char, lastSpace: bool): string {
    if IsSpace(c) || IsSeparator(c) then (if lastSpace then [] else " ") else [ToLower(c)]
  }

  lemma CollapseStep(s: string, r: nat, lastSpace: bool)
    requires r < |s|
    ensures Collapse(s[r..], lastSpace) == Emit(s[r], lastSpace) + Collapse(s[r + 1..], IsSpace(s[r]) || IsSeparator(s[r]))
  {
    assert s[r..][0] == s[r];
    assert s[r..][1..] == s[r + 1..];
  }

  lemma SeqAssoc(x: string, y: string, z: string)
    ensures (x + y) + z == x + (y + z)
  {
  }

  /** The first loop of `puzzle_normalize_answer`: the read position skips
      leading whitespace. */
  method SkipLeadingSpace(a: array<char>, n: nat) returns (r: nat)
    requires n < a.Length && a[n] == '\0' && NulFree(a[..n])
    ensures r <= n && SkipSpace(a[..n]) == a[r..n]
  {
    ghost var s := a[..n];
    r := 0;
    while a[r] != '\0' && IsSpace(a[r])
      invariant 0 <= r <= n
      invariant AllSpace(s[..r])
      decreases n - r
    {
      assert a[r] == s[r];
      assert s[..r + 1] == s[..r] + [s[r]];
      r := r + 1;
    }
    assert r < n ==> a[r] == s[r];
    assert s == s[..r] + s[r..];
    SkipSpacePrefix(s[..r], s[r..]);
  }

  /** The loop's invariant survives one more character. */
  lemma CollapseAdvance(s: string, out: string, k: nat, last: bool)
    requires k < |s| && out + Collapse(s[k..], last) == Collapse(s, false)
    ensures (out + Emit(s[k], last)) + Collapse(s[k + 1..], IsSpace(s[k]) || IsSeparator(s[k])) == Collapse(s, false)
  {
    CollapseStep(s, k, last);
    SeqAssoc(out, Emit(s[k], last), Collapse(s[k + 1..], IsSpace(s[k]) || IsSeparator(s[k])));
  }

  /** One step of the main loop: a space or separator starts a gap unless one
      is open, and anything else is written lower-cased. */
  method CollapseChar(a: array<char>, w: nat, c: char, last: bool, ghost out: string)
    returns (w': nat, last': bool, ghost out': string)
    requires w < a.Length && w == |out| && forall i :: 0 <= i < w ==> a[i] == out[i]
    modifies a
    ensures out' == out + Emit(c, last) && w' == |out'| && w' <= w + 1 && last' == (IsSpace(c) || IsSeparator(c))
    ensures forall i :: 0 <= i < w' ==> a[i] == out'[i]
    ensures forall i :: w' <= i < a.Length ==> a[i] == old(a[i])
  {
    w', last', out' := w, last, out + Emit(c, last);
    if IsSpace(c) || IsSeparator(c) {
      if !last {
        a[w] := ' ';
        w' := w + 1;
        last' := true;
      }
    } else {
      a[w] := ToLower(c);
      w' := w + 1;
      last' := false;
    }
  }

  /** The main loop's invariant: what is written so far, followed by what the
      rest of the input collapses to, is the collapse of the whole input. */
  ghost predicate OnTrack(s: string, out: string, k: nat, last: bool)
    requires k <= |s|
  {
    out + Collapse(s[k..], last) == Collapse(s, false)
  }

  /** One turn of the main loop: the character at the read position `r` is
      collapsed onto the text written so far, and the loop's invariant moves
      on to `r + 1`. */
  method CollapseRead(a: array<char>, r0: nat, n: nat, r: nat, w: nat, last: bool, ghost s: string, ghost out: string)
    returns (w': nat, last': bool, ghost out': string)
    requires r0 <= r < n < a.Length && |s| == n - r0
    requires w == |out| <= r - r0 && forall i :: 0 <= i < w ==> a[i] == out[i]
    requires forall i :: r <= i < n ==> a[i] == s[i - r0]
    requires OnTrack(s, out, r - r0, last)
    modifies a
    ensures w' == |out'| <= r + 1 - r0 && forall i :: 0 <= i < w' ==> a[i] == out'[i]
    ensures forall i :: r + 1 <= i < n ==> a[i] == s[i - r0]
    ensures forall i :: n <= i < a.Length ==> a[i] == old(a[i])
    ensures OnTrack(s, out', r + 1 - r0, last')
  {
    var c := a[r];
    assert c == s[r - r0];
    CollapseAdvance(s, out, r - r0, last);
    w', last', out' := CollapseChar(a, w, c, last, out);
  }

  /** The main loop of `puzzle_normalize_answer`: reading from `r0` up to the
      NUL at `n`, it writes the collapsed text from the start of the buffer
      and returns the write position. */
  method CollapseInPlace(a: array<char>, r0: nat, n: nat) returns (w: nat)
    requires r0 <= n < a.Length && a[n] == '\0' && NulFree(a[r0..n])
    modifies a
    ensures w <= n - r0 && a[..w] == Collapse(old(a[r0..n]), false)
    ensures forall i :: n <= i < a.Length ==> a[i] == old(a[i])
  {
    ghost var s := a[r0..n];
    assert forall i :: r0 <= i < n ==> a[i] == s[i - r0];
    ghost var out: string := [];
    var r := r0;
    w := 0;
    var last := false;
    assert out + Collapse(s[r - r0..], last) == Collapse(s, false) by {
      assert [] + Collapse(s, false) == Collapse(s, false);
    }
    while a[r] != '\0'
      invariant r0 <= r <= n
      invariant w == |out| <= r - r0
      invariant forall i :: 0 <= i < w ==> a[i] == out[i]
      invariant forall i :: r <= i < n ==> a[i] == s[i - r0]
      invariant a[n] == '\0' && forall i :: n <= i < a.Length ==> a[i] == old(a[i])
      invariant OnTrack(s, out, r - r0, last)
      decreases n - r
    {
      w, last, out := CollapseRead(a, r0, n, r, w, last, s, out);
      r := r + 1;
    }
    assert out == Collapse(s, false) by {
      assert r == n && s[r - r0..] == [];
      assert out + [] == out;
    }
  }

  /** The tail of `puzzle_normalize_answer`: drop one trailing space from the
      `w` characters written and put the NUL after what is left. */
  method TrimAndTerminate(a: array<char>, w: nat) returns (m: nat)
    requires w < a.Length
    modifies a
    ensures m <= w && a[..m] == DropTrailingSpace(old(a[..w])) && a[m] == '\0'
    ensures forall i :: 0 <= i < a.Length && i != m ==> a[i] == old(a[i])
  {
    m := w;
    if w > 0 && a[w - 1] == ' ' {
      m := w - 1;
    }
    a[m] := '\0';
    assert a[..m] == old(a[..w])[..m];
  }

  /** `puzzle_normalize_answer` on the C string held in `a[..n]`: it returns the
      new length `m` and leaves `Normalize` of the old contents, NUL-terminated,
      at the front of the buffer. */
  method NormalizeInPlace(a: array<char>, n: nat) returns (m: nat)
    requires n < a.Length && a[n] == '\0' && NulFree(a[..n])
    modifies a
    ensures m <= n && a[..m] == Normalize(old(a[..n])) && a[m] == '\0'
    ensures forall i :: n < i < a.Length ==> a[i] == old(a[i])
  {
    var r := SkipLeadingSpace(a, n);
    assert NulFree(a[r..n]) by {
      assert forall i :: 0 <= i < n - r ==> a[r..n][i] == a[..n][r + i];
    }
    var w := CollapseInPlace(a, r, n);
    m := TrimAndTerminate(a, w);
  }

  /** The non-empty `|`-separated alternatives of the stored answer, after the
      copy into a 1024-byte buffer. */
  function Alternatives(answer: string): seq<string> {
    NonEmpty(Split(Truncate(answer, 1023), '|'))
  }

  /** The normalized form of a string copied into a 256-byte buffer. */
  function NormalizedKey(s: string): string {
    Normalize(Truncate(s, 255))
  }

  /** The `strtok_r` loop: does any alternative match? */
  predicate AnyMatches(key: string, alts: seq<string>) {
    if alts == [] then false
    else NormalizedKey(alts[0]) == key || AnyMatches(key, alts[1..])
  }

  /** `check_answer`: an empty stored answer accepts nothing, and an accepted
      guess normalizes like one of the stored alternatives. */
  predicate CheckAnswer(guess: string, answer: string)
    ensures answer == [] ==> !CheckAnswer(guess, answer)
    ensures CheckAnswer(guess, answer) ==>
      exists alt :: alt in Alternatives(answer) && NormalizedKey(alt) == NormalizedKey(guess)
  {
    AnyMatchesIff(NormalizedKey(guess), Alternatives(answer));
    AnyMatches(NormalizedKey(guess), Alternatives(answer))
  }

  lemma {:induction false} AnyMatchesIff(key: string, alts: seq<string>)
    ensures AnyMatches(key, alts) <==> exists i :: 0 <= i < |alts| && NormalizedKey(alts[i]) == key
  {
    if alts != [] {
      AnyMatchesIff(key, alts[1..]);
      if AnyMatches(key, alts[1..]) {
        var i :| 0 <= i < |alts| - 1 && NormalizedKey(alts[1..][i]) == key;
        assert NormalizedKey(alts[i + 1]) == key;
      }
      if exists i :: 0 <= i < |alts| && NormalizedKey(alts[i]) == key {
        var i :| 0 <= i < |alts| && NormalizedKey(alts[i]) == key;
        if i > 0 {
          assert alts[1..][i - 1] == alts[i];
        }
      }
    }
  }

  lemma {:induction false} AnyMatchesAppend(key: string, a: seq<string>, b: seq<string>)
    ensures AnyMatches(key, a + b) <==> AnyMatches(key, a) || AnyMatches(key, b)
  {
    if a != [] {
      assert (a + b)[1..] == a[1..] + b;
      AnyMatchesAppend(key, a[1..], b);
    } else {
      assert a + b == b;
    }
  }

  /** A guess is accepted iff its normalized form equals the normalized form of
      some non-empty alternative. */
  lemma CheckAnswerIff(guess: string, answer: string)
    ensures CheckAnswer(guess, answer) <==>
      exists alt :: alt in Alternatives(answer) && NormalizedKey(alt) == NormalizedKey(guess)
  {
    AnyMatchesIff(NormalizedKey(guess), Alternatives(answer));
  }

  /** An answer without `|` is the only alternative. */
  lemma CheckAnswerSingle(guess: string, answer: string)
    requires '|' !in answer && answer != [] && |answer| <= 1023
    ensures CheckAnswer(guess, answer) <==> NormalizedKey(answer) == NormalizedKey(guess)
  {
    SplitNoSep(answer, '|');
    assert Alternatives(answer) == [answer] by {
      assert NonEmpty([answer]) == [answer] + NonEmpty([answer][1..]);
      assert [answer][1..] == [];
    }
    var key := NormalizedKey(guess);
    assert AnyMatches(key, [answer]) <==> NormalizedKey(answer) == key || AnyMatches(key, [answer][1..]);
    assert [answer][1..] == [];
  }

  /** `a|b` accepts exactly what `a` or `b` accepts; with `a` empty this says
      that empty fields are skipped. */
  lemma CheckAnswerAlternatives(guess: string, a: string, b: string)
    requires |a| + 1 + |b| <= 1023
    ensures CheckAnswer(guess, a + "|" + b) <==> CheckAnswer(guess, a) || CheckAnswer(guess, b)
  {
    SplitAppend(a, b, '|');
    NonEmptyAppend(Split(a, '|'), Split(b, '|'));
    AnyMatchesAppend(NormalizedKey(guess), Alternatives(a), Alternatives(b));
  }

  /** As in the submit test: surrounding whitespace and case do not matter, so
      "  TESTANSWER  " is accepted for "testanswer". */
  lemma CheckAnswerIgnoresPaddingAndCase(sp: string, w: string, t: string, answer: string)
    requires AllSpace(sp) && IsWord(w) && AllSpace(t) && |sp| + |w| + |t| <= 255
    requires IsWord(answer) && '|' !in answer && |answer| <= 255 && LowerAll(answer) == LowerAll(w)
    ensures CheckAnswer(sp + w + t, answer)
  {
    assert NormalizedKey(sp + w + t) == LowerAll(w) by {
      assert IsGap(t) by {
        assert forall i :: 0 <= i < |t| ==> IsSpace(t[i]);
      }
      NormalizeOneWord(sp, w, t);
    }
    assert NormalizedKey(answer) == LowerAll(answer) by {
      assert [] + answer + [] == answer;
      NormalizeOneWord([], answer, []);
    }
    CheckAnswerSingle(sp + w + t, answer);
  }
}
