/** `get_session_cookie` of main.c: finds `session=<value>` among the
    `;`-separated fields of a `Cookie` header and copies the value, cut to the
    buffer, into the caller's buffer. */
module Cookie {
  import opened Common

  /** The name of the session cookie with its `=`. */
  const Prefix: string := "session="

  /** What the scanner needs of the prefix: it starts with no space and holds
      no `;`. */
  predicate GoodPrefix(pre: string) {
    pre != [] && pre[0] != ' ' && ';' !in pre
  }

  lemma PrefixIsGood()
    ensures GoodPrefix(Prefix)
  {
  }

  /** A text starting with `pre`. */
  predicate StartsWith(f: string, pre: string) {
    |f| >= |pre| && f[..|pre|] == pre
  }

  /** A cookie value ends at the first space. */
  function UntilSpace(s: string): (r: string)
    ensures |r| <= |s| && r == s[..|r|] && ' ' !in r && (|r| == |s| || s[|r|] == ' ')
  {
    if s == [] || s[0] == ' ' then []
    else
      var t := UntilSpace(s[1..]);
      assert |t| < |s[1..]| ==> s[1 + |t|] == s[1..][|t|];
      [s[0]] + t
  }

  /** The value of the first field that starts, after its leading spaces,
      with `pre`. */
  function SessionIn(fields: seq<string>, pre: string): (r: Option<string>)
    ensures r.Some? ==> ' ' !in r.value
  {
    if fields == [] then None
    else
      var f := TrimLeft(fields[0]);
      if StartsWith(f, pre) then Some(UntilSpace(f[|pre|..])) else SessionIn(fields[1..], pre)
  }

  /** The session cookie a header carries, if any. */
  function SessionCookie(h: string): (r: Option<string>)
    ensures r.Some? ==> ' ' !in r.value && ';' !in r.value
  {
    var fs := Split(h, ';');
    var r := SessionIn(fs, Prefix);
    assert r.Some? ==> ';' !in r.value by {
      if r.Some? {
        SplitFieldsFree(h, ';');
        SessionInFrom(fs, Prefix);
      }
    }
    r
  }

  lemma {:induction false} SessionInFrom(fs: seq<string>, pre: string)
    requires forall i :: 0 <= i < |fs| ==> ';' !in fs[i]
    ensures SessionIn(fs, pre).Some? ==> ';' !in SessionIn(fs, pre).value
  {
    if fs != [] {
      var f := TrimLeft(fs[0]);
      if !StartsWith(f, pre) {
        SessionInFrom(fs[1..], pre);
      } else {
        TrimLeftKeepsOut(fs[0], ';');
        var u := UntilSpace(f[|pre|..]);
        assert forall k :: 0 <= k < |u| ==> u[k] == f[|pre|..][k];
      }
    }
  }

  lemma {:induction false} TrimLeftKeepsOut(s: string, c: char)
    requires c !in s
    ensures c !in TrimLeft(s)
  {
    if s != [] && s[0] == ' ' {
      assert forall k :: 0 <= k < |s[1..]| ==> s[1..][k] == s[k + 1];
      TrimLeftKeepsOut(s[1..], c);
    }
  }

  /** The cookie a response set with `session=<v>` reads back, alone or after
      other fields that hold no session cookie. */
  lemma SessionCookieRoundTrip(others: string, v: string)
    requires SessionCookie(others).None? && ' ' !in v && ';' !in v
    ensures SessionCookie(Prefix + v) == Some(v)
    ensures SessionCookie(others + "; " + Prefix + v) == Some(v)
  {
    PrefixIsGood();
    RoundTrip(others, Prefix, v);
    assert others + "; " + Prefix + v == others + [';'] + ([' '] + (Prefix + v));
  }

  lemma RoundTrip(others: string, pre: string, v: string)
    requires GoodPrefix(pre) && SessionIn(Split(others, ';'), pre).None? && ' ' !in v && ';' !in v
    ensures SessionIn(Split(pre + v, ';'), pre) == Some(v)
    ensures SessionIn(Split(others + [';'] + ([' '] + (pre + v)), ';'), pre) == Some(v)
  {
    var f := pre + v;
    var b := [' '] + f;
    assert ';' !in f;
    assert ';' !in b;
    SplitNoSep(f, ';');
    SplitNoSep(b, ';');
    UntilSpaceAll(v);
    assert f[..|pre|] == pre && f[|pre|..] == v;
    assert TrimLeft(f) == f;
    assert TrimLeft(b) == f by {
      assert b[0] == ' ' && b[1..] == f;
    }
    SplitAppend(others, b, ';');
    SessionInAppend(Split(others, ';'), [b], pre);
  }

  lemma {:induction false} UntilSpaceAll(s: string)
    requires ' ' !in s
    ensures UntilSpace(s) == s
  {
    if s != [] {
      UntilSpaceAll(s[1..]);
    }
  }

  lemma {:induction false} SessionInAppend(a: seq<string>, b: seq<string>, pre: string)
    requires SessionIn(a, pre).None?
    ensures SessionIn(a + b, pre) == SessionIn(b, pre)
  {
    if a == [] {
      assert a + b == b;
    } else {
      assert (a + b)[0] == a[0] && (a + b)[1..] == a[1..] + b;
      SessionInAppend(a[1..], b, pre);
    }
  }

  // ---------------------------------------------------------------------------
  // The scanner

  /** A leading space or `;` changes nothing about the first session field. */
  lemma SkipSeparatorKeeps(h: string, p: nat, pre: string)
    requires p < |h| && (h[p] == ' ' || h[p] == ';') && GoodPrefix(pre)
    ensures SessionIn(Split(h[p + 1..], ';'), pre) == SessionIn(Split(h[p..], ';'), pre)
  {
    assert h[p..] == [h[p]] + h[p + 1..];
    SplitCons(h[p], h[p + 1..], ';');
    var t := Split(h[p + 1..], ';');
    if h[p] == ' ' {
      assert TrimLeft([' '] + t[0]) == TrimLeft(t[0]) by {
        assert ([' '] + t[0])[1..] == t[0];
      }
      assert ([[' '] + t[0]] + t[1..])[1..] == t[1..];
      assert t == [t[0]] + t[1..];
    } else {
      assert ([[]] + t)[1..] == t;
    }
  }

  /** `while (p < end && (*p == ' ' || *p == ';')) p++;` */
  method SkipSeparators(h: string, p0: nat, ghost pre: string) returns (p: nat)
    requires p0 <= |h| && GoodPrefix(pre)
    ensures p0 <= p <= |h| && (p == |h| || (h[p] != ' ' && h[p] != ';'))
    ensures SessionIn(Split(h[p..], ';'), pre) == SessionIn(Split(h[p0..], ';'), pre)
  {
    p := p0;
    while p < |h| && (h[p] == ' ' || h[p] == ';')
      invariant p0 <= p <= |h|
      invariant SessionIn(Split(h[p..], ';'), pre) == SessionIn(Split(h[p0..], ';'), pre)
    {
      SkipSeparatorKeeps(h, p, pre);
      p := p + 1;
    }
  }

  /** `while (p < end && *p != ';') p++;` past a field that does not start
      with the prefix. */
  method SkipField(h: string, p: nat, ghost pre: string) returns (q: nat)
    requires p <= |h| && (p == |h| || h[p] != ' ') && GoodPrefix(pre)
    requires !(p + |pre| <= |h| && h[p..p + |pre|] == pre)
    ensures p <= q <= |h| && (q == |h| || h[q] == ';')
    ensures p < |h| && h[p] != ';' ==> q > p
    ensures SessionIn(Split(h[q..], ';'), pre) == SessionIn(Split(h[p..], ';'), pre)
  {
    q := p;
    while q < |h| && h[q] != ';'
      invariant p <= q <= |h| && ';' !in h[p..q]
    {
      q := q + 1;
    }
    FieldNotSession(h, p, q, pre);
  }

  lemma FieldNotSession(h: string, p: nat, q: nat, pre: string)
    requires p <= q <= |h| && (p == |h| || h[p] != ' ') && GoodPrefix(pre)
    requires !(p + |pre| <= |h| && h[p..p + |pre|] == pre)
    requires ';' !in h[p..q] && (q == |h| || h[q] == ';')
    ensures SessionIn(Split(h[q..], ';'), pre) == SessionIn(Split(h[p..], ';'), pre)
  {
    TheFieldEnd(h, p, q);
    FirstField(h, p);
    NotPrefix(h, p, q, pre);
    if q < |h| {
      SkipNonSession(h[p..q], Split(h[q + 1..], ';'), pre);
      SeparatorSkipped(h, q, pre);
    } else {
      assert h[p..] == h[p..q] && [h[p..q]] == [h[p..q]] + [];
      SkipNonSession(h[p..q], [], pre);
      assert h[q..] == [];
      EmptyFieldSkipped([], pre);
    }
  }

  lemma SkipNonSession(f: string, rest: seq<string>, pre: string)
    requires !StartsWith(TrimLeft(f), pre)
    ensures SessionIn([f] + rest, pre) == SessionIn(rest, pre)
  {
    assert ([f] + rest)[0] == f && ([f] + rest)[1..] == rest;
  }

  /** A stop with no `;` before it that is the end or a `;` is the field end. */
  lemma TheFieldEnd(h: string, p: nat, q: nat)
    requires p <= q <= |h| && ';' !in h[p..q] && (q == |h| || h[q] == ';')
    ensures FieldEnd(h, p) == q
  {
  }

  lemma NotPrefix(h: string, p: nat, q: nat, pre: string)
    requires p <= q <= |h| && (p == |h| || h[p] != ' ')
    requires !(p + |pre| <= |h| && h[p..p + |pre|] == pre)
    ensures !StartsWith(TrimLeft(h[p..q]), pre)
  {
    var f := h[p..q];
    assert TrimLeft(f) == f;
  }

  lemma SeparatorSkipped(h: string, q: nat, pre: string)
    requires q < |h| && h[q] == ';' && pre != []
    ensures SessionIn(Split(h[q..], ';'), pre) == SessionIn(Split(h[q + 1..], ';'), pre)
  {
    assert h[q..] == [';'] + h[q + 1..];
    SplitCons(';', h[q + 1..], ';');
    EmptyFieldSkipped(Split(h[q + 1..], ';'), pre);
  }

  lemma EmptyFieldSkipped(rest: seq<string>, pre: string)
    requires pre != []
    ensures SessionIn([[]] + rest, pre) == SessionIn(rest, pre)
  {
    assert ([[]] + rest)[1..] == rest;
  }

  /** Where the field starting at `p` ends: the next `;` or the end. */
  function FieldEnd(h: string, p: nat): (e: nat)
    requires p <= |h|
    ensures p <= e <= |h| && ';' !in h[p..e] && (e == |h| || h[e] == ';')
  {
    var n := Find(h, ';', p);
    if n.Some? then n.value else
      assert h[p..|h|] == h[p..];
      |h|
  }

  /** Splitting from `p` yields the field up to `FieldEnd` first and, after a
      `;`, the fields of the rest. */
  lemma FirstField(h: string, p: nat)
    requires p <= |h|
    ensures Split(h[p..], ';')[0] == h[p..FieldEnd(h, p)]
    ensures FieldEnd(h, p) == |h| ==> Split(h[p..], ';') == [h[p..]]
    ensures FieldEnd(h, p) < |h| ==>
      Split(h[p..], ';') == [h[p..FieldEnd(h, p)]] + Split(h[FieldEnd(h, p) + 1..], ';')
  {
    if Find(h, ';', p).Some? {
      FindSplit(h, ';', p, Find(h, ';', p).value);
    } else {
      FindNoneSplit(h, ';', p);
    }
  }

  /** The value of a field starting at `p` with the prefix, up to `q`. */
  lemma ValueAt(h: string, p: nat, q: nat, pre: string)
    requires GoodPrefix(pre) && p + |pre| <= q <= |h| && h[p..p + |pre|] == pre
    requires forall i :: p + |pre| <= i < q ==> h[i] != ' ' && h[i] != ';'
    requires q == |h| || h[q] == ' ' || h[q] == ';'
    ensures SessionIn(Split(h[p..], ';'), pre) == Some(h[p + |pre|..q])
  {
    var n := p + |pre|;
    var e := FieldEnd(h, p);
    assert q <= e;
    assert q == e || h[q] == ' ' by {
      if q < e {
        assert h[p..e][q - p] == h[q];
      }
    }
    FirstField(h, p);
    var f := h[p..e];
    assert f[..|pre|] == pre && f[0] == pre[0];
    assert TrimLeft(f) == f;
    assert f[|pre|..] == h[n..e];
    UntilSpaceUpTo(h, n, q, e);
  }

  lemma {:induction false} UntilSpaceUpTo(h: string, a: nat, q: nat, e: nat)
    requires a <= q <= e <= |h|
    requires forall i :: a <= i < q ==> h[i] != ' '
    requires q == e || h[q] == ' '
    ensures UntilSpace(h[a..e]) == h[a..q]
    decreases q - a
  {
    if a < q {
      assert h[a..e][1..] == h[a + 1..e];
      UntilSpaceUpTo(h, a + 1, q, e);
      assert h[a..q] == [h[a]] + h[a + 1..q];
    } else if q < e {
      assert h[a..e][0] == ' ';
    }
  }

  /** The value runs to the next `;` or space. */
  method ValueEnd(h: string, p: nat) returns (q: nat)
    requires p <= |h|
    ensures p <= q <= |h| && (q == |h| || h[q] == ' ' || h[q] == ';')
    ensures forall i :: p <= i < q ==> h[i] != ' ' && h[i] != ';'
  {
    q := p;
    while q < |h| && h[q] != ';' && h[q] != ' '
      invariant p <= q <= |h|
      invariant forall i :: p <= i < q ==> h[i] != ' ' && h[i] != ';'
    {
      q := q + 1;
    }
  }

  /** One pass of the scanner's outer loop from `p`: skips separators, then
      either finds the session value at `start..stop` or skips the field. */
  method ScanField(h: string, p: nat) returns (hit: bool, start: nat, stop: nat, next: nat)
    requires p < |h|
    ensures hit ==> start <= stop <= |h| && SessionIn(Split(h[p..], ';'), Prefix) == Some(h[start..stop])
    ensures !hit ==> p < next <= |h| && SessionIn(Split(h[next..], ';'), Prefix) == SessionIn(Split(h[p..], ';'), Prefix)
  {
    PrefixIsGood();
    var q := SkipSeparators(h, p, Prefix);
    if q + |Prefix| <= |h| && h[q..q + |Prefix|] == Prefix {
      start := q + |Prefix|;
      stop := ValueEnd(h, start);
      ValueAt(h, q, stop, Prefix);
      return true, start, stop, q;
    }
    next := SkipField(h, q, Prefix);
    hit, start, stop := false, 0, 0;
  }

  /** Returns whether the header carries a session cookie and, if so, writes
      its value, cut to `buf.Length - 1` characters, and a terminator into
      `buf`. A missing header finds nothing. */
  method GetSessionCookie(header: Option<string>, buf: array<char>) returns (found: bool)
    requires buf.Length > 0
    modifies buf
    ensures found <==> header.Some? && SessionCookie(header.value).Some?
    ensures !found ==> buf[..] == old(buf[..])
    ensures found ==>
      var v := Truncate(SessionCookie(header.value).value, buf.Length - 1);
      buf[..|v|] == v && buf[|v|] == '\0' && buf[|v| + 1..] == old(buf[|v| + 1..])
  {
    if header.None? {
      return false;
    }
    var h := header.value;
    var p := 0;
    assert h[0..] == h;
    while p < |h|
      invariant p <= |h|
      invariant SessionIn(Split(h[p..], ';'), Prefix) == SessionCookie(h)
      invariant buf[..] == old(buf[..])
      decreases |h| - p
    {
      var hit, start, stop, next := ScanField(h, p);
      if hit {
        CopyValue(h, start, stop, buf);
        return true;
      }
      p := next;
    }
    assert h[p..] == [];
    found := false;
  }

  /** Cuts the value to the buffer and copies it with its terminator:
      `memcpy(buf, value_start, value_len); buf[value_len] = '\0';` */
  method CopyValue(h: string, start: nat, stop: nat, buf: array<char>)
    requires start <= stop <= |h| && buf.Length > 0
    modifies buf
    ensures var v := Truncate(h[start..stop], buf.Length - 1);
      buf[..|v|] == v && buf[|v|] == '\0' && buf[|v| + 1..] == old(buf[|v| + 1..])
  {
    var len := stop - start;
    if len >= buf.Length {
      len := buf.Length - 1;
    }
    ghost var v := Truncate(h[start..stop], buf.Length - 1);
    assert v == h[start..start + len];
    for k := 0 to len
      invariant buf[..k] == h[start..start + k]
      invariant forall j :: k <= j < buf.Length ==> buf[j] == old(buf[j])
    {
      buf[k] := h[start + k];
      assert buf[..k + 1] == buf[..k] + [buf[k]];
    }
    buf[len] := '\0';
    assert buf[len + 1..] == old(buf[len + 1..]);
  }
}
