/** The credential helpers of auth.c: the short-code generator, the
    case-insensitive short-code comparison, and the admin-list matcher.
    AUTH_CODE_LEN is the parameter `codeLen`; the random bytes and the value of
    the ADMIN_EMAILS environment variable are inputs. */
module AuthCodes {
  import opened Common

  /** `charset[n]` for the 32-symbol alphabet "ABCDEFGHJKLMNPQRSTUVWXYZ23456789":
      A-H, J-N, P-Z, then 2-9. */
  function CodeChar(n: int): (c: char)
    requires 0 <= n < 32
    ensures IsUpper(c) || '2' <= c <= '9'
    ensures c != 'I' && c != 'O' && c != '0' && c != '1'
  {
    if n < 8 then ('A' as int + n) as char
    else if n < 13 then ('J' as int + n - 8) as char
    else if n < 24 then ('P' as int + n - 13) as char
    else ('2' as int + n - 24) as char
  }

  /** The symbols are those of the source's table, in its order. */
  lemma CodeCharTable(n: int)
    requires 0 <= n < 32
    ensures CodeChar(n) == "ABCDEFGHJKLMNPQRSTUVWXYZ23456789"[n]
  {
  }

  /** Different residues give different symbols. */
  lemma CodeCharInjective(m: int, n: int)
    requires 0 <= m < 32 && 0 <= n < 32
    ensures CodeChar(m) == CodeChar(n) ==> m == n
  {
  }

  /** `charset[bytes[i] % 32]` for every random byte, in order. */
  function ShortCode(bytes: seq<byte>): (r: string)
    ensures |r| == |bytes|
    ensures forall i :: 0 <= i < |r| ==> (IsUpper(r[i]) || '2' <= r[i] <= '9') && r[i] !in "IO01"
  {
    if bytes == [] then [] else [CodeChar(bytes[0] as int % 32)] + ShortCode(bytes[1..])
  }

  /** Character i of the code comes from byte i. */
  lemma {:induction false} ShortCodeAt(bytes: seq<byte>, i: nat)
    requires i < |bytes|
    ensures ShortCode(bytes)[i] == CodeChar(bytes[i] as int % 32)
    decreases i
  {
    if i > 0 {
      ShortCodeAt(bytes[1..], i - 1);
    }
  }

  /** `generate_short_code(out, out.Length)` with `bytes` the random draw of
      `codeLen` bytes: fails, writing nothing, when the buffer cannot hold the
      code and its NUL or when no bytes are asked for; otherwise writes the
      code and a NUL. */
  method GenerateShortCode(out: array<char>, codeLen: nat, bytes: seq<byte>) returns (rc: int)
    requires |bytes| == codeLen
    modifies out
    ensures rc == 0 <==> out.Length >= codeLen + 1 && codeLen > 0
    ensures rc != 0 ==> rc == -1 && out[..] == old(out[..])
    ensures rc == 0 ==> out[..codeLen] == ShortCode(bytes) && out[codeLen] == '\0'
    ensures rc == 0 ==> forall k :: codeLen < k < out.Length ==> out[k] == old(out[k])
  {
    if out.Length < codeLen + 1 {
      return -1;
    }
    if codeLen == 0 {
      return -1;
    }
    for i := 0 to codeLen
      invariant forall k :: 0 <= k < i ==> out[k] == ShortCode(bytes)[k]
      invariant forall k :: i <= k < out.Length ==> out[k] == old(out[k])
    {
      ShortCodeAt(bytes, i);
      out[i] := CodeChar(bytes[i] as int % 32);
    }
    out[codeLen] := '\0';
    rc := 0;
  }

  /** What the comparison accepts: a stored code (as copied into its buffer of
      codeLen + 1 bytes) that is not empty, an input of exactly codeLen
      characters, equal after upper-casing a-z. */
  predicate CodeMatches(code: string, stored: string, codeLen: nat)
    ensures CodeMatches(code, stored, codeLen) ==> codeLen > 0 && |code| == codeLen && |stored| >= codeLen
  {
    var st := Truncate(stored, codeLen);
    st != [] && |code| == codeLen && |st| == codeLen && UpperAll(code) == UpperAll(st)
  }

  /** The early-exit comparison loop of `auth_validate_code`, over the
      NUL-padded stored code. */
  method CodesMatch(code: string, stored: string, codeLen: nat) returns (matched: bool)
    requires NulFree(code) && NulFree(stored)
    ensures matched <==> CodeMatches(code, stored, codeLen)
  {
    var st := Truncate(stored, codeLen);
    matched := st != [] && |code| == codeLen;
    if !matched {
      return;
    }
    var i := 0;
    while i < codeLen
      invariant 0 <= i <= codeLen && i <= |st| && st != [] && |code| == codeLen && matched
      invariant forall k :: 0 <= k < i ==> ToUpper(code[k]) == ToUpper(st[k])
    {
      var a := ToUpper(code[i]);
      var b := if i < |st| then ToUpper(st[i]) else '\0';
      if a != b {
        assert i < |st| ==> UpperAll(code)[i] != UpperAll(st)[i];
        matched := false;
        return;
      }
      i := i + 1;
    }
    assert UpperAll(code) == UpperAll(st);
  }

  /** A generated code is accepted as typed and in lower case, and only codes of
      the right length are accepted. */
  lemma GeneratedCodeMatches(bytes: seq<byte>, code: string)
    requires |bytes| > 0
    ensures CodeMatches(ShortCode(bytes), ShortCode(bytes), |bytes|)
    ensures CodeMatches(LowerAll(ShortCode(bytes)), ShortCode(bytes), |bytes|)
    ensures CodeMatches(code, ShortCode(bytes), |bytes|) ==> |code| == |bytes|
  {
    UpperOfLower(ShortCode(bytes));
  }

  /** Comparing upper-cased a-z is the same as comparing lower-cased A-Z, that
      is, ASCII case-insensitive equality. */
  lemma CodeMatchesIsCaseEqual(code: string, stored: string, codeLen: nat)
    ensures CodeMatches(code, stored, codeLen) <==>
      Truncate(stored, codeLen) != [] && |code| == codeLen && |Truncate(stored, codeLen)| == codeLen &&
      CaseEqual(code, Truncate(stored, codeLen))
  {
    var st := Truncate(stored, codeLen);
    if |code| == |st| {
      UpperAllCaseEqual(code, st);
    }
  }

  // ---------------------------------------------------------------------------
  // The admin list

  /** The entries of the admin list as copied into its 1024-byte buffer: none
      holds a comma, and joined back with commas they are that copy. */
  function AdminFields(list: string): (r: seq<string>)
    ensures |r| >= 1 && Join(r, ',') == Truncate(list, 1023)
    ensures forall k :: 0 <= k < |r| ==> ',' !in r[k]
  {
    SplitFieldsFree(Truncate(list, 1023), ',');
    JoinSplit(Truncate(list, 1023), ',');
    Split(Truncate(list, 1023), ',')
  }

  /** Does some non-empty field, with surrounding spaces trimmed, equal the
      email case-insensitively? */
  predicate AnyListed(email: string, fields: seq<string>) {
    if fields == [] then false
    else (fields[0] != [] && CaseEqual(Strip(fields[0]), email)) || AnyListed(email, fields[1..])
  }

  lemma {:induction false} AnyListedIff(email: string, fields: seq<string>)
    ensures AnyListed(email, fields) <==>
      exists i :: 0 <= i < |fields| && fields[i] != [] && CaseEqual(Strip(fields[i]), email)
  {
    if fields != [] {
      AnyListedIff(email, fields[1..]);
      if AnyListed(email, fields[1..]) {
        var i :| 0 <= i < |fields[1..]| && fields[1..][i] != [] && CaseEqual(Strip(fields[1..][i]), email);
        assert fields[i + 1] == fields[1..][i];
      }
      if exists i :: 0 <= i < |fields| && fields[i] != [] && CaseEqual(Strip(fields[i]), email) {
        var i :| 0 <= i < |fields| && fields[i] != [] && CaseEqual(Strip(fields[i]), email);
        if i > 0 {
          assert fields[1..][i - 1] == fields[i];
        }
      }
    }
  }

  lemma AnyListedCons(email: string, f: string, rest: seq<string>)
    ensures AnyListed(email, [f] + rest) <==> (f != [] && CaseEqual(Strip(f), email)) || AnyListed(email, rest)
  {
    assert ([f] + rest)[0] == f && ([f] + rest)[1..] == rest;
  }

  /** The in-place trim of one `strtok` token: skip leading spaces, then cut
      trailing ones. */
  method TrimToken(buf: string, p: nat, stop: nat) returns (q: nat, len: nat)
    requires p <= stop <= |buf| && (stop == |buf| || buf[stop] == ',')
    ensures q + len <= stop && buf[q..q + len] == Strip(buf[p..stop])
  {
    q := SkipSpaces(buf, p);
    TrimLeftSkipped(buf, p, q, stop);
    len := TrimEnd(buf, q, stop);
  }

  /** Does the field s[p..stop] name the email? */
  method FieldListed(buf: string, p: nat, stop: nat, e: string) returns (found: bool)
    requires p <= stop <= |buf| && (stop == |buf| || buf[stop] == ',')
    ensures found <==> buf[p..stop] != [] && CaseEqual(Strip(buf[p..stop]), e)
  {
    found := false;
    if stop > p {
      var q, len := TrimToken(buf, p, stop);
      found := CaseEqual(buf[q..q + len], e);
    }
  }

  /** One pass of the token loop: the field at p, and whether it is the last. */
  method ScanEntry(buf: string, p: nat, e: string) returns (found: bool, last: bool, next: nat)
    requires p <= |buf|
    ensures found ==> AnyListed(e, Split(buf[p..], ','))
    ensures !found && last ==> !AnyListed(e, Split(buf[p..], ','))
    ensures !found && !last ==>
      p < next <= |buf| && (AnyListed(e, Split(buf[p..], ',')) <==> AnyListed(e, Split(buf[next..], ',')))
  {
    ghost var here := AnyListed(e, Split(buf[p..], ','));
    var end := Find(buf, ',', p);
    if end.Some? {
      var stop := end.value;
      last, next := false, stop + 1;
      found := FieldListed(buf, p, stop, e);
      ghost var rest := Split(buf[next..], ',');
      assert here <==> found || AnyListed(e, rest) by {
        FindSplit(buf, ',', p, stop);
        AnyListedCons(e, buf[p..stop], rest);
      }
    } else {
      last, next := true, 0;
      found := FieldListed(buf, p, |buf|, e);
      assert here <==> found by {
        assert buf[p..|buf|] == buf[p..];
        FindNoneSplit(buf, ',', p);
        AnyListedCons(e, buf[p..], []);
        assert [buf[p..]] + [] == [buf[p..]] && !AnyListed(e, []);
      }
    }
  }

  /** `auth_is_admin(email)` with `list` the value of ADMIN_EMAILS (None when
      unset). */
  method IsAdmin(email: Option<string>, list: Option<string>) returns (r: bool)
    ensures r <==>
      email.Some? && email.value != [] && list.Some? && list.value != [] &&
      AnyListed(email.value, AdminFields(list.value))
  {
    if email.None? || email.value == [] || list.None? || list.value == [] {
      return false;
    }
    var e := email.value;
    var buf := Truncate(list.value, 1023);
    assert buf[0..] == buf;
    var p := 0;
    while true
      invariant p <= |buf|
      invariant AnyListed(e, AdminFields(list.value)) <==> AnyListed(e, Split(buf[p..], ','))
      decreases |buf| - p
    {
      var found, last, next := ScanEntry(buf, p, e);
      if found {
        return true;
      }
      if last {
        return false;
      }
      p := next;
    }
  }
}
