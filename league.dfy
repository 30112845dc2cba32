/** The leagues of league.c: invite codes, the `leagues` and `league_members`
    tables with create, join, leave and delete, and the leaderboard's names and
    competition ranks. Each table is a sequence of rows in insertion order, so
    AUTOINCREMENT ids grow along `leagues` and `league_members` is in
    `joined_at` order. The random bytes behind an invite code are inputs. */
module League {
  import opened Common
  import Encoders

  /** Random bytes behind one invite code. */
  const CodeBytes: nat := 3
  /** Length of an invite code. */
  const CodeLen: nat := 6
  /** Codes drawn before `league_create` gives up. */
  const MaxCodeTries: nat := 10
  /** Characters kept of a name or an email (a 256-byte field). */
  const NameChars: nat := 255
  /** Characters kept of an invite code (an 8-byte field). */
  const CodeChars: nat := 7

  // ---------------------------------------------------------------------------
  // Invite codes

  predicate IsCodeChar(c: char) {
    '0' <= c <= '9' || 'A' <= c <= 'F'
  }

  /** The invite code drawn from these bytes: each byte as two upper-case
      hex digits. */
  function InviteCode(bytes: seq<byte>): (r: string)
    ensures |r| == 2 * |bytes|
  {
    if bytes == [] then [] else UpperAll(Encoders.Hex([bytes[0]])) + InviteCode(bytes[1..])
  }

  /** The code is the upper-cased `%02x` hex of the bytes. */
  lemma {:induction false} InviteCodeIsUpperHex(bytes: seq<byte>)
    ensures InviteCode(bytes) == UpperAll(Encoders.Hex(bytes))
  {
    if bytes != [] {
      InviteCodeIsUpperHex(bytes[1..]);
      Encoders.HexAppend([bytes[0]], bytes[1..]);
      assert [bytes[0]] + bytes[1..] == bytes;
      UpperAllAppend(Encoders.Hex([bytes[0]]), Encoders.Hex(bytes[1..]));
    }
  }

  /** Invite codes are upper-case hex. */
  lemma InviteCodeChars(bytes: seq<byte>)
    ensures forall k :: 0 <= k < |InviteCode(bytes)| ==> IsCodeChar(InviteCode(bytes)[k])
  {
    InviteCodeIsUpperHex(bytes);
    Encoders.HexIsLowercaseHex(bytes);
  }

  /** `generate_invite_code`: six upper-case hex digits and a NUL, or -1 when
      the buffer has room for fewer than 7 characters. */
  method GenerateInviteCode(out: array<char>, bytes: seq<byte>) returns (rc: int)
    requires |bytes| == CodeBytes
    modifies out
    ensures rc == 0 || rc == -1
    ensures rc == 0 <==> out.Length >= CodeLen + 1
    ensures rc == 0 ==> out[..CodeLen] == InviteCode(bytes) && out[CodeLen] == '\0'
    ensures rc == 0 ==> forall k :: CodeLen < k < out.Length ==> out[k] == old(out[k])
    ensures rc != 0 ==> out[..] == old(out[..])
  {
    if out.Length < 7 {
      return -1;
    }
    rc := Encoders.GenerateTokenHex(out, bytes);
    if rc != 0 {
      return -1;
    }
    ghost var h := out[..];
    for i := 0 to 6
      invariant forall k :: 0 <= k < i ==> out[k] == ToUpper(h[k])
      invariant forall k :: i <= k < out.Length ==> out[k] == h[k]
    {
      out[i] := ToUpper(out[i]);
    }
    assert out[..CodeLen] == UpperAll(h[..CodeLen]);
    InviteCodeIsUpperHex(bytes);
  }

  /** The key `league_get_by_code` looks up: at most the first six characters
      of the typed code, upper-cased. */
  function CodeKey(code: string): (r: string)
    ensures |r| <= CodeLen && (|code| >= CodeLen ==> |r| == CodeLen)
    ensures forall k :: 0 <= k < |r| ==> !IsLower(r[k])
  {
    UpperAll(Truncate(code, CodeLen))
  }

  /** The normalising loop of `league_get_by_code`. */
  method NormalizeCode(code: string) returns (key: string)
    requires NulFree(code)
    ensures key == CodeKey(code)
  {
    key := [];
    var i := 0;
    while i < |code| && i < 6
      invariant 0 <= i <= |code| && i <= CodeLen
      invariant key == UpperAll(code[..i])
    {
      assert code[..i + 1] == code[..i] + [code[i]];
      key := key + [ToUpper(code[i])];
      i := i + 1;
    }
    assert Truncate(code, CodeLen) == code[..i];
  }

  /** A generated code is its own key, whatever case it is typed in and
      whatever follows its six characters. */
  lemma CodeKeyOfGenerated(bytes: seq<byte>, typed: string, rest: string)
    requires |bytes| == CodeBytes
    requires typed == InviteCode(bytes) || typed == LowerAll(InviteCode(bytes))
    ensures CodeKey(typed + rest) == InviteCode(bytes)
  {
    var c := InviteCode(bytes);
    assert Truncate(typed + rest, CodeLen) == typed;
    UpperOfLower(c);
    UpperOfCode(bytes);
  }

  /** Upper-casing leaves an invite code as it is. */
  lemma UpperOfCode(bytes: seq<byte>)
    ensures UpperAll(InviteCode(bytes)) == InviteCode(bytes)
  {
    var c := InviteCode(bytes);
    InviteCodeChars(bytes);
    forall k | 0 <= k < |c| ensures UpperAll(c)[k] == c[k] {
      assert IsCodeChar(c[k]);
    }
  }

  /** Two typed codes with the same first six characters up to case have the
      same key, so they find the same league. */
  lemma CodeKeyIgnoresCase(a: string, b: string)
    requires CaseEqual(Truncate(a, CodeLen), Truncate(b, CodeLen))
    ensures CodeKey(a) == CodeKey(b)
  {
    UpperAllCaseEqual(Truncate(a, CodeLen), Truncate(b, CodeLen));
  }

  // ---------------------------------------------------------------------------
  // Leaderboards

  /** A `LeaderboardEntry`. */
  datatype Entry = Entry(userId: int, displayName: string, email: string, score: int, rank: int)

  /** `populate_leaderboard_entry` on a zeroed entry: the shown name is the
      display name when it is non-empty and the email otherwise; the rank is
      left at 0 for `assign_ranks`. */
  function NewEntry(userId: int, displayName: Option<string>, email: Option<string>, score: int): (e: Entry)
    ensures e.userId == userId && e.score == score && e.rank == 0
    ensures |e.displayName| <= NameChars && |e.email| <= NameChars
    ensures displayName.Some? && displayName.value != [] ==>
      e.displayName == Truncate(displayName.value, NameChars)
    ensures (displayName.None? || displayName.value == []) && email.Some? ==>
      e.displayName == Truncate(email.value, NameChars)
    ensures e.email == if email.Some? then Truncate(email.value, NameChars) else []
  {
    var shown :=
      if displayName.Some? && displayName.value != [] then Truncate(displayName.value, NameChars)
      else if email.Some? then Truncate(email.value, NameChars)
      else [];
    Entry(userId, shown, if email.Some? then Truncate(email.value, NameChars) else [], score, 0)
  }

  /** A member with a non-empty email is never shown with a blank name, and
      the shown name is always the start of the display name or of the email. */
  lemma ShownNameNeverBlank(userId: int, displayName: Option<string>, email: string, score: int)
    requires email != []
    ensures NewEntry(userId, displayName, Some(email), score).displayName != []
    ensures var n := NewEntry(userId, displayName, Some(email), score).displayName;
      n <= email || (displayName.Some? && n <= displayName.value)
  {
  }

  function Scores(es: seq<Entry>): (r: seq<int>)
    ensures |r| == |es| && forall i :: 0 <= i < |es| ==> r[i] == es[i].score
  {
    seq(|es|, i requires 0 <= i < |es| => es[i].score)
  }

  /** Where the run of equal scores that holds position `i` starts: every score
      from there to `i` equals `s[i]`, and the score before it differs. */
  function RunStart(s: seq<int>, i: nat): (r: nat)
    requires i < |s|
    ensures r <= i
  {
    if i == 0 then 0 else if s[i] == s[i - 1] then RunStart(s, i - 1) else i
  }

  lemma {:induction false} RunStartIsRunStart(s: seq<int>, i: nat)
    requires i < |s|
    ensures forall j :: RunStart(s, i) <= j <= i ==> s[j] == s[i]
    ensures RunStart(s, i) > 0 ==> s[RunStart(s, i) - 1] != s[RunStart(s, i)]
  {
    if i > 0 && s[i] == s[i - 1] {
      RunStartIsRunStart(s, i - 1);
    }
  }

  /** The rank `assign_ranks` gives position `i`: one more than the place its
      run of tied scores starts at. */
  function Rank(s: seq<int>, i: nat): (r: int)
    requires i < |s|
    ensures 1 <= r <= i + 1
    ensures forall j :: r - 1 <= j <= i ==> s[j] == s[i]
    ensures r > 1 ==> s[r - 2] != s[i]
  {
    RunStartIsRunStart(s, i);
    RunStart(s, i) + 1
  }

  /** `assign_ranks`: numbers the first `count` entries in place. */
  method AssignRanks(entries: array<Entry>, count: nat)
    requires count <= entries.Length
    modifies entries
    ensures forall i :: 0 <= i < count ==>
      entries[i] == old(entries[i]).(rank := Rank(Scores(old(entries[..count])), i))
    ensures forall i :: count <= i < entries.Length ==> entries[i] == old(entries[i])
  {
    if count == 0 {
      return;
    }
    ghost var s := Scores(entries[..count]);
    assert forall k :: 0 <= k < count ==> s[k] == entries[k].score;
    var rank := 1;
    entries[0] := entries[0].(rank := rank);
    for i := 1 to count
      invariant rank == Rank(s, i - 1)
      invariant forall k :: 0 <= k < i ==> entries[k] == old(entries[k]).(rank := Rank(s, k))
      invariant forall k :: i <= k < entries.Length ==> entries[k] == old(entries[k])
    {
      rank := RankNext(entries, i, rank, s);
    }
  }

  /** One step of `assign_ranks`: entry `i` keeps the rank of entry `i - 1`
      when their scores tie and otherwise gets its position plus one. */
  method RankNext(entries: array<Entry>, i: nat, rank: int, ghost s: seq<int>) returns (rank': int)
    requires 0 < i < |s| <= entries.Length && rank == Rank(s, i - 1)
    requires entries[i - 1].score == s[i - 1] && entries[i].score == s[i]
    modifies entries
    ensures rank' == Rank(s, i) && entries[i] == old(entries[i]).(rank := rank')
    ensures forall k :: 0 <= k < entries.Length && k != i ==> entries[k] == old(entries[k])
  {
    rank' := rank;
    if entries[i].score != entries[i - 1].score {
      rank' := i + 1;
    }
    entries[i] := entries[i].(rank := rank');
  }

  /** Ranks start at 1, never exceed the position plus one and never go down. */
  lemma {:induction false} RanksNonDecreasing(s: seq<int>, i: nat, j: nat)
    requires i <= j < |s|
    ensures 1 <= Rank(s, i) <= Rank(s, j) <= j + 1
    decreases j
  {
    if i < j {
      RanksNonDecreasing(s, i, j - 1);
      var r := RunStart(s, j);
      if r < j {
        assert RunStart(s, j) == RunStart(s, j - 1);
      }
    }
  }

  /** The number of scores above `x`. */
  function Above(s: seq<int>, x: int): (r: nat)
    ensures r <= |s|
  {
    if s == [] then 0 else (if s[0] > x then 1 else 0) + Above(s[1..], x)
  }

  lemma {:induction false} AboveSplit(s: seq<int>, x: int, k: nat)
    requires k <= |s|
    requires forall j :: 0 <= j < k ==> s[j] > x
    requires forall j :: k <= j < |s| ==> s[j] <= x
    ensures Above(s, x) == k
  {
    if s != [] {
      AboveSplit(s[1..], x, if k == 0 then 0 else k - 1);
    }
  }

  predicate Descending(s: seq<int>) {
    forall a, b :: 0 <= a < b < |s| ==> s[a] >= s[b]
  }

  /** On scores in descending order, as both leaderboards sort them, the rank
      is standard competition ranking: one more than the number of strictly
      higher scores. */
  lemma CompetitionRanking(s: seq<int>, i: nat)
    requires i < |s| && Descending(s)
    ensures Rank(s, i) == Above(s, s[i]) + 1
  {
    var r := RunStart(s, i);
    RunStartIsRunStart(s, i);
    forall j | 0 <= j < r ensures s[j] > s[i] {
      assert s[j] >= s[r - 1] && s[r - 1] >= s[r];
    }
    forall j | r <= j < |s| ensures s[j] <= s[i] {
      if j > i {
        assert s[i] >= s[j];
      }
    }
    AboveSplit(s, s[i], r);
  }

  /** The tie case: 100, 100, 80 rank 1, 1, 3. */
  lemma TiedScoresShareRank()
    ensures Rank([100, 100, 80], 0) == 1
    ensures Rank([100, 100, 80], 1) == 1
    ensures Rank([100, 100, 80], 2) == 3
  {
  }

  // ---------------------------------------------------------------------------
  // The tables

  /** A `leagues` row. */
  datatype LeagueRow = LeagueRow(id: int, name: string, inviteCode: string, creatorId: int)

  /** A `league_members` row: the UNIQUE pair (league, user). */
  datatype MemberRow = MemberRow(leagueId: int, userId: int)

  /** The `League` struct that `league_get` and `league_get_by_code` fill. */
  datatype LeagueInfo = LeagueInfo(id: int, name: string, inviteCode: string, creatorId: int, memberCount: int)

  /** The zeroed struct a failed lookup leaves. */
  const NoLeague := LeagueInfo(0, [], [], 0, 0)

  function FindLeague(leagues: seq<LeagueRow>, id: int): (r: Option<nat>)
    ensures r.Some? ==> r.value < |leagues| && leagues[r.value].id == id
    ensures r.None? ==> forall l :: l in leagues ==> l.id != id
  {
    if leagues == [] then None
    else if leagues[0].id == id then Some(0)
    else
      var r := FindLeague(leagues[1..], id);
      if r.Some? then Some(r.value + 1) else None
  }

  function FindCode(leagues: seq<LeagueRow>, code: string): (r: Option<nat>)
    ensures r.Some? ==> r.value < |leagues| && leagues[r.value].inviteCode == code
    ensures r.None? ==> forall l :: l in leagues ==> l.inviteCode != code
  {
    if leagues == [] then None
    else if leagues[0].inviteCode == code then Some(0)
    else
      var r := FindCode(leagues[1..], code);
      if r.Some? then Some(r.value + 1) else None
  }

  /** The league's row as `populate_league` copies it, with the member count
      of the `LEAGUE_SELECT` subquery. */
  function InfoOf(l: LeagueRow, members: seq<MemberRow>): (r: LeagueInfo)
    ensures r.id == l.id && r.creatorId == l.creatorId
    ensures |r.name| <= NameChars && (|l.name| <= NameChars ==> r.name == l.name)
    ensures |r.inviteCode| <= CodeChars && (|l.inviteCode| <= CodeChars ==> r.inviteCode == l.inviteCode)
    ensures r.memberCount == 0 <==> forall m :: m in members ==> m.leagueId != l.id
  {
    var ms := MembersOf(members, l.id);
    assert ms != [] ==> ms[0] in ms;
    LeagueInfo(l.id, Truncate(l.name, NameChars), Truncate(l.inviteCode, CodeChars), l.creatorId,
      MemberCount(members, l.id))
  }

  function MembersOf(members: seq<MemberRow>, leagueId: int): (r: seq<MemberRow>)
    ensures forall m :: m in r <==> m in members && m.leagueId == leagueId
  {
    Filter(members, (m: MemberRow) => m.leagueId == leagueId)
  }

  function MemberCount(members: seq<MemberRow>, leagueId: int): nat {
    |MembersOf(members, leagueId)|
  }

  /** `DELETE FROM league_members WHERE league_id = ? AND user_id = ?` */
  function WithoutMember(members: seq<MemberRow>, leagueId: int, userId: int): (r: seq<MemberRow>)
    ensures forall m :: m in r <==> m in members && m != MemberRow(leagueId, userId)
  {
    Filter(members, (m: MemberRow) => m != MemberRow(leagueId, userId))
  }

  /** `DELETE FROM league_members WHERE league_id = ?` */
  function WithoutMembersOf(members: seq<MemberRow>, leagueId: int): (r: seq<MemberRow>)
    ensures forall m :: m in r <==> m in members && m.leagueId != leagueId
  {
    Filter(members, (m: MemberRow) => m.leagueId != leagueId)
  }

  /** `DELETE FROM leagues WHERE id = ?` */
  function WithoutLeague(leagues: seq<LeagueRow>, leagueId: int): (r: seq<LeagueRow>)
    ensures forall l :: l in r <==> l in leagues && l.id != leagueId
  {
    Filter(leagues, (l: LeagueRow) => l.id != leagueId)
  }

  /** `UPDATE leagues SET creator_id = ? WHERE id = ?` */
  function Reassign(leagues: seq<LeagueRow>, leagueId: int, creatorId: int): seq<LeagueRow> {
    seq(|leagues|, i requires 0 <= i < |leagues| =>
      if leagues[i].id == leagueId then leagues[i].(creatorId := creatorId) else leagues[i])
  }

  /** The membership the ownership query picks: the earliest-joined member of
      the league other than `userId`. */
  function FirstOther(members: seq<MemberRow>, leagueId: int, userId: int): (r: Option<nat>)
    ensures r.Some? ==> r.value < |members| && members[r.value].leagueId == leagueId && members[r.value].userId != userId
    ensures r.Some? ==> forall j :: 0 <= j < r.value ==> members[j].leagueId != leagueId || members[j].userId == userId
    ensures r.None? ==> forall m :: m in members && m.leagueId == leagueId ==> m.userId == userId
  {
    if members == [] then None
    else if members[0].leagueId == leagueId && members[0].userId != userId then Some(0)
    else
      var r := FirstOther(members[1..], leagueId, userId);
      if r.Some? then Some(r.value + 1) else None
  }

  /** The user who takes a league over when `userId` leaves it. */
  function Successor(members: seq<MemberRow>, leagueId: int, userId: int): Option<int> {
    var o := FirstOther(members, leagueId, userId);
    if o.Some? then Some(members[o.value].userId) else None
  }

  predicate IsCreator(leagues: seq<LeagueRow>, leagueId: int, userId: int) {
    var k := FindLeague(leagues, leagueId);
    k.Some? && leagues[k.value].creatorId == userId
  }

  /** The first of the first `n` code draws whose invite code no league has
      yet. */
  function FreeDraw(leagues: seq<LeagueRow>, draws: seq<seq<byte>>, n: nat): (r: Option<nat>)
    requires n <= |draws|
    ensures r.Some? ==> r.value < n && FindCode(leagues, InviteCode(draws[r.value])).None?
    ensures r.Some? ==> forall j :: 0 <= j < r.value ==> FindCode(leagues, InviteCode(draws[j])).Some?
    ensures r.None? ==> forall j :: 0 <= j < n ==> FindCode(leagues, InviteCode(draws[j])).Some?
  {
    if n == 0 then None
    else if FreeDraw(leagues, draws, n - 1).Some? then FreeDraw(leagues, draws, n - 1)
    else if FindCode(leagues, InviteCode(draws[n - 1])).None? then Some(n - 1)
    else None
  }

  /** While every draw so far is taken, the next draw decides. */
  lemma FreeDrawNext(leagues: seq<LeagueRow>, draws: seq<seq<byte>>, n: nat)
    requires n < |draws| && FreeDraw(leagues, draws, n).None?
    ensures FreeDraw(leagues, draws, n + 1) == if FindCode(leagues, InviteCode(draws[n])).None? then Some(n) else None
  {
  }

  /** Once a free draw is found, later draws do not change it. */
  lemma {:induction false} FreeDrawStays(leagues: seq<LeagueRow>, draws: seq<seq<byte>>, m: nat, n: nat)
    requires m <= n <= |draws| && FreeDraw(leagues, draws, m).Some?
    ensures FreeDraw(leagues, draws, n) == FreeDraw(leagues, draws, m)
    decreases n - m
  {
    if m < n {
      FreeDrawStays(leagues, draws, m, n - 1);
    }
  }

  // ---------------------------------------------------------------------------
  // Table invariants

  /** AUTOINCREMENT ids grow along the table and invite codes are UNIQUE. */
  predicate LeagueBefore(a: LeagueRow, b: LeagueRow) {
    a.id < b.id && a.inviteCode != b.inviteCode
  }

  predicate Distinct(a: MemberRow, b: MemberRow) {
    a != b
  }

  ghost predicate LeaguesValid(leagues: seq<LeagueRow>, lastId: int) {
    Pairwise(leagues, LeagueBefore) && forall l :: l in leagues ==> 0 < l.id <= lastId
  }

  /** UNIQUE(league_id, user_id), and every membership's league exists. */
  ghost predicate MembersValid(members: seq<MemberRow>, leagues: seq<LeagueRow>) {
    Pairwise(members, Distinct) && forall m :: m in members ==> FindLeague(leagues, m.leagueId).Some?
  }

  /** Every league's creator is one of its members. */
  ghost predicate CreatorsJoined(leagues: seq<LeagueRow>, members: seq<MemberRow>) {
    forall l :: l in leagues ==> MemberRow(l.id, l.creatorId) in members
  }

  ghost predicate Tables(leagues: seq<LeagueRow>, members: seq<MemberRow>, lastId: int) {
    lastId >= 0 && LeaguesValid(leagues, lastId) && MembersValid(members, leagues) && CreatorsJoined(leagues, members)
  }

  /** The row `FindLeague` returns is the only one with that id. */
  lemma LeagueUnique(leagues: seq<LeagueRow>, lastId: int, l: LeagueRow)
    requires LeaguesValid(leagues, lastId) && l in leagues
    ensures FindLeague(leagues, l.id).Some? && leagues[FindLeague(leagues, l.id).value] == l
  {
    var k := FindLeague(leagues, l.id).value;
    assert forall a, b :: 0 <= a < b < |leagues| ==> leagues[a].id != leagues[b].id by {
      forall a, b | 0 <= a < b < |leagues| ensures leagues[a].id != leagues[b].id {
        assert LeagueBefore(leagues[a], leagues[b]);
      }
    }
  }

  /** No membership refers to an id above the last one given out. */
  lemma MembersBelow(leagues: seq<LeagueRow>, members: seq<MemberRow>, lastId: int)
    requires Tables(leagues, members, lastId)
    ensures forall x :: x in members ==> x.leagueId <= lastId
  {
    forall x | x in members ensures x.leagueId <= lastId {
      var k := FindLeague(leagues, x.leagueId).value;
      assert leagues[k] in leagues;
    }
  }

  /** A new league with the next id and an unused code, joined by its
      creator, keeps the tables valid. */
  lemma CreateKeepsTables(leagues: seq<LeagueRow>, members: seq<MemberRow>, lastId: int, row: LeagueRow)
    requires Tables(leagues, members, lastId)
    requires row.id == lastId + 1 && FindCode(leagues, row.inviteCode).None?
    ensures Tables(leagues + [row], members + [MemberRow(row.id, row.creatorId)], lastId + 1)
  {
    var ls, m := leagues + [row], MemberRow(row.id, row.creatorId);
    PairwiseSnoc(leagues, row, LeagueBefore);
    assert LeaguesValid(ls, lastId + 1);
    MembersBelow(leagues, members, lastId);
    PairwiseSnoc(members, m, Distinct);
    forall x | x in members + [m] ensures FindLeague(ls, x.leagueId).Some? {
      if x == m {
        assert row in ls;
      } else {
        var k := FindLeague(leagues, x.leagueId).value;
        assert leagues[k] in ls;
      }
    }
    assert MembersValid(members + [m], ls);
  }

  /** The creator is a new league's only member. */
  lemma CreatorSoleMember(leagues: seq<LeagueRow>, members: seq<MemberRow>, lastId: int, m: MemberRow)
    requires Tables(leagues, members, lastId) && m.leagueId == lastId + 1
    ensures MembersOf(members + [m], m.leagueId) == [m]
  {
    MembersBelow(leagues, members, lastId);
    FilterSnoc(members, m, (x: MemberRow) => x.leagueId == m.leagueId);
    FilterNone(members, (x: MemberRow) => x.leagueId == m.leagueId);
  }

  /** Deleting the league just inserted restores the table. */
  lemma DropNewLeague(leagues: seq<LeagueRow>, lastId: int, row: LeagueRow)
    requires LeaguesValid(leagues, lastId) && row.id == lastId + 1
    ensures WithoutLeague(leagues + [row], row.id) == leagues
  {
    FilterSnoc(leagues, row, (l: LeagueRow) => l.id != row.id);
    FilterAll(leagues, (l: LeagueRow) => l.id != row.id);
  }

  /** Giving out an id without using it keeps the tables valid. */
  lemma SkipIdKeepsTables(leagues: seq<LeagueRow>, members: seq<MemberRow>, lastId: int)
    requires Tables(leagues, members, lastId)
    ensures Tables(leagues, members, lastId + 1)
  {
  }

  /** A new membership of an existing league keeps the tables valid and adds
      one to that league's count. */
  lemma JoinKeepsTables(leagues: seq<LeagueRow>, members: seq<MemberRow>, lastId: int, m: MemberRow)
    requires Tables(leagues, members, lastId)
    requires FindLeague(leagues, m.leagueId).Some? && m !in members
    ensures Tables(leagues, members + [m], lastId)
    ensures MemberCount(members + [m], m.leagueId) == MemberCount(members, m.leagueId) + 1
  {
    PairwiseSnoc(members, m, Distinct);
    FilterSnoc(members, m, (x: MemberRow) => x.leagueId == m.leagueId);
  }

  /** Removing a league together with all its memberships keeps the tables
      valid. */
  lemma DeleteKeepsTables(leagues: seq<LeagueRow>, members: seq<MemberRow>, lastId: int, leagueId: int)
    requires Tables(leagues, members, lastId)
    ensures Tables(WithoutLeague(leagues, leagueId), WithoutMembersOf(members, leagueId), lastId)
  {
    var ls, ms := WithoutLeague(leagues, leagueId), WithoutMembersOf(members, leagueId);
    FilterPairwise(leagues, (l: LeagueRow) => l.id != leagueId, LeagueBefore);
    FilterPairwise(members, (m: MemberRow) => m.leagueId != leagueId, Distinct);
    forall x | x in ms ensures FindLeague(ls, x.leagueId).Some? {
      var k := FindLeague(leagues, x.leagueId).value;
      assert leagues[k] in ls;
    }
  }

  /** Handing a league to one of its members keeps the tables valid. */
  lemma ReassignKeepsTables(leagues: seq<LeagueRow>, members: seq<MemberRow>, lastId: int, leagueId: int, creatorId: int)
    requires Tables(leagues, members, lastId)
    requires MemberRow(leagueId, creatorId) in members
    ensures Tables(Reassign(leagues, leagueId, creatorId), members, lastId)
  {
    var ls := Reassign(leagues, leagueId, creatorId);
    forall a, b | 0 <= a < b < |ls| ensures LeagueBefore(ls[a], ls[b]) {
      assert LeagueBefore(leagues[a], leagues[b]);
    }
    forall l | l in ls ensures 0 < l.id <= lastId && MemberRow(l.id, l.creatorId) in members {
      var i :| 0 <= i < |ls| && ls[i] == l;
      assert leagues[i] in leagues;
    }
    forall x | x in members ensures FindLeague(ls, x.leagueId).Some? {
      var k := FindLeague(leagues, x.leagueId).value;
      assert ls[k] in ls;
    }
  }

  /** Removing a member who does not own the league keeps the tables valid. */
  lemma RemoveMemberKeepsTables(leagues: seq<LeagueRow>, members: seq<MemberRow>, lastId: int, leagueId: int, userId: int)
    requires Tables(leagues, members, lastId)
    requires !IsCreator(leagues, leagueId, userId)
    ensures Tables(leagues, WithoutMember(members, leagueId, userId), lastId)
  {
    FilterPairwise(members, (m: MemberRow) => m != MemberRow(leagueId, userId), Distinct);
    forall l | l in leagues ensures MemberRow(l.id, l.creatorId) != MemberRow(leagueId, userId) {
      LeagueUnique(leagues, lastId, l);
    }
  }

  /** With one member, that member is the creator. */
  lemma SoleMemberIsCreator(leagues: seq<LeagueRow>, members: seq<MemberRow>, lastId: int, leagueId: int, userId: int)
    requires Tables(leagues, members, lastId)
    requires MemberRow(leagueId, userId) in members && MemberCount(members, leagueId) == 1
    ensures IsCreator(leagues, leagueId, userId)
  {
    var k := FindLeague(leagues, leagueId).value;
    assert leagues[k] in leagues;
    var f := MembersOf(members, leagueId);
    assert MemberRow(leagueId, userId) in f && MemberRow(leagueId, leagues[k].creatorId) in f;
    assert f == [f[0]];
  }

  /** With two or more members, someone other than the leaver remains. */
  lemma OtherMemberExists(members: seq<MemberRow>, leagueId: int, userId: int)
    requires Pairwise(members, Distinct) && MemberCount(members, leagueId) >= 2
    ensures Successor(members, leagueId, userId).Some?
  {
    var f := MembersOf(members, leagueId);
    FilterPairwise(members, (m: MemberRow) => m.leagueId == leagueId, Distinct);
    assert Distinct(f[0], f[1]);
    assert f[0] in f && f[1] in f;
    var m := if f[0].userId != userId then f[0] else f[1];
    assert m in members && m.leagueId == leagueId && m.userId != userId;
  }

  // ---------------------------------------------------------------------------
  // The store

  /** The `leagues` and `league_members` tables. `users` parameters are the
      ids of the `users` table, which the foreign keys refer to. */
  class LeagueStore {
    var leagues: seq<LeagueRow>
    var members: seq<MemberRow>
    var lastLeagueId: int

    ghost predicate Valid()
      reads this
    {
      Tables(leagues, members, lastLeagueId)
    }

    constructor()
      ensures Valid() && leagues == [] && members == [] && lastLeagueId == 0
    {
      leagues := [];
      members := [];
      lastLeagueId := 0;
    }

    /** `league_create`: draws up to ten codes until one is unused, inserts the
        league and its creator's membership, and removes the league again if
        the membership cannot be stored (`memberInsertOk` false). Returns the
        new id, or -1. */
    method Create(creatorId: int, name: Option<string>, draws: seq<seq<byte>>, users: set<int>, memberInsertOk: bool)
      returns (id: int, code: string)
      requires Valid()
      requires |draws| == MaxCodeTries && forall i :: 0 <= i < |draws| ==> |draws[i]| == CodeBytes
      modifies this
      ensures Valid()
      ensures id > 0 || id == -1
      ensures id > 0 <==> name.Some? && FreeDraw(old(leagues), draws, |draws|).Some? && creatorId in users && memberInsertOk
      ensures id == -1 ==> leagues == old(leagues) && members == old(members)
      ensures id == -1 && !(name.Some? && FreeDraw(old(leagues), draws, |draws|).Some? && creatorId in users) ==>
        lastLeagueId == old(lastLeagueId)
      ensures id == -1 && name.Some? && FreeDraw(old(leagues), draws, |draws|).Some? && creatorId in users ==>
        lastLeagueId == old(lastLeagueId) + 1
      ensures id > 0 ==>
        id == old(lastLeagueId) + 1 && lastLeagueId == id &&
        code == InviteCode(draws[FreeDraw(old(leagues), draws, |draws|).value]) &&
        leagues == old(leagues) + [LeagueRow(id, name.value, code, creatorId)] &&
        members == old(members) + [MemberRow(id, creatorId)]
      ensures id > 0 ==> MembersOf(members, id) == [MemberRow(id, creatorId)]
    {
      code := [];
      if name.None? {
        return -1, code;
      }
      var taken, candidate := DrawCode(leagues, draws);
      if taken {
        return -1, code;
      }
      if creatorId !in users {
        return -1, code;
      }
      id := Insert(name.value, candidate, creatorId, memberInsertOk);
      code := if id > 0 then candidate else [];
    }

    /** The two inserts of `league_create`, and the clean-up that deletes the
        league again when its creator's membership cannot be stored. */
    method Insert(name: string, code: string, creatorId: int, memberInsertOk: bool) returns (id: int)
      requires Valid() && FindCode(leagues, code).None?
      modifies this
      ensures Valid() && lastLeagueId == old(lastLeagueId) + 1
      ensures memberInsertOk ==>
        id == lastLeagueId &&
        leagues == old(leagues) + [LeagueRow(id, name, code, creatorId)] &&
        members == old(members) + [MemberRow(id, creatorId)] &&
        MembersOf(members, id) == [MemberRow(id, creatorId)]
      ensures !memberInsertOk ==> id == -1 && leagues == old(leagues) && members == old(members)
    {
      var row := LeagueRow(lastLeagueId + 1, name, code, creatorId);
      ghost var ls, ms, last := leagues, members, lastLeagueId;
      leagues := leagues + [row];
      lastLeagueId := row.id;
      if !memberInsertOk {
        DropNewLeague(ls, last, row);
        SkipIdKeepsTables(ls, ms, last);
        leagues := WithoutLeague(leagues, row.id);
        return -1;
      }
      CreateKeepsTables(ls, ms, last, row);
      CreatorSoleMember(ls, ms, last, MemberRow(row.id, creatorId));
      members := members + [MemberRow(row.id, creatorId)];
      return row.id;
    }

    /** `league_get`. */
    method Get(leagueId: int) returns (rc: int, info: LeagueInfo)
      ensures rc == 0 || rc == -1
      ensures rc == 0 <==> FindLeague(leagues, leagueId).Some?
      ensures rc == 0 ==> info == InfoOf(leagues[FindLeague(leagues, leagueId).value], members)
      ensures rc == -1 ==> info == NoLeague
    {
      var k := FindLeague(leagues, leagueId);
      if k.None? {
        return -1, NoLeague;
      }
      return 0, InfoOf(leagues[k.value], members);
    }

    /** `league_get_by_code`: looks the normalised code up. */
    method GetByCode(code: Option<string>) returns (rc: int, info: LeagueInfo)
      requires code.Some? ==> NulFree(code.value)
      ensures rc == 0 || rc == -1
      ensures rc == 0 <==> code.Some? && FindCode(leagues, CodeKey(code.value)).Some?
      ensures rc == 0 ==> info == InfoOf(leagues[FindCode(leagues, CodeKey(code.value)).value], members)
      ensures rc == -1 ==> info == NoLeague
    {
      if code.None? {
        return -1, NoLeague;
      }
      var key := NormalizeCode(code.value);
      var k := FindCode(leagues, key);
      if k.None? {
        return -1, NoLeague;
      }
      return 0, InfoOf(leagues[k.value], members);
    }

    /** `league_join`: fails for a missing league, for an existing member
        (the UNIQUE pair) and for an unknown user (the foreign key). */
    method Join(leagueId: int, userId: int, users: set<int>) returns (rc: int)
      requires Valid()
      modifies this
      ensures Valid() && leagues == old(leagues) && lastLeagueId == old(lastLeagueId)
      ensures rc == 0 || rc == -1
      ensures rc == 0 <==>
        FindLeague(old(leagues), leagueId).Some? && MemberRow(leagueId, userId) !in old(members) && userId in users
      ensures rc == 0 ==> members == old(members) + [MemberRow(leagueId, userId)]
      ensures rc == 0 ==> MemberCount(members, leagueId) == MemberCount(old(members), leagueId) + 1
      ensures rc == -1 ==> members == old(members)
    {
      if FindLeague(leagues, leagueId).None? {
        return -1;
      }
      var m := MemberRow(leagueId, userId);
      if m in members || userId !in users {
        return -1;
      }
      JoinKeepsTables(leagues, members, lastLeagueId, m);
      members := members + [m];
      return 0;
    }

    /** `league_delete`: only the creator may delete; the memberships go
        first, then the league. */
    method Delete(leagueId: int, userId: int) returns (rc: int)
      requires Valid()
      modifies this
      ensures Valid() && lastLeagueId == old(lastLeagueId)
      ensures rc == 0 || rc == -1
      ensures rc == 0 <==> IsCreator(old(leagues), leagueId, userId)
      ensures rc == 0 ==> leagues == WithoutLeague(old(leagues), leagueId) && members == WithoutMembersOf(old(members), leagueId)
      ensures rc == -1 ==> leagues == old(leagues) && members == old(members)
    {
      var k := FindLeague(leagues, leagueId);
      if k.None? {
        return -1;
      }
      if leagues[k.value].creatorId != userId {
        return -1;
      }
      DeleteKeepsTables(leagues, members, lastLeagueId, leagueId);
      members := WithoutMembersOf(members, leagueId);
      leagues := WithoutLeague(leagues, leagueId);
      return 0;
    }

    /** `league_is_member`: whether the pair is in `league_members`. */
    method IsMember(leagueId: int, userId: int) returns (r: bool)
      ensures r <==> exists i :: 0 <= i < |members| && members[i].leagueId == leagueId && members[i].userId == userId
    {
      r := MemberRow(leagueId, userId) in members;
      if r {
        ghost var i :| 0 <= i < |members| && members[i] == MemberRow(leagueId, userId);
      }
    }

    /** `league_leave`: the last member leaving deletes the league; a creator
        leaving others behind first hands the league to the earliest-joined
        of them; then the membership is removed. */
    method Leave(leagueId: int, userId: int) returns (rc: int)
      requires Valid()
      modifies this
      ensures Valid() && lastLeagueId == old(lastLeagueId)
      ensures rc == 0 || rc == -1
      ensures rc == 0 <==> MemberRow(leagueId, userId) in old(members)
      ensures rc == -1 ==> leagues == old(leagues) && members == old(members)
      ensures rc == 0 ==> MemberRow(leagueId, userId) !in members
      ensures rc == 0 && MemberCount(old(members), leagueId) == 1 ==>
        leagues == WithoutLeague(old(leagues), leagueId) && members == WithoutMembersOf(old(members), leagueId)
      ensures rc == 0 && MemberCount(old(members), leagueId) != 1 ==>
        members == WithoutMember(old(members), leagueId, userId)
      ensures rc == 0 && MemberCount(old(members), leagueId) != 1 && IsCreator(old(leagues), leagueId, userId) ==>
        Successor(old(members), leagueId, userId).Some? &&
        leagues == Reassign(old(leagues), leagueId, Successor(old(members), leagueId, userId).value)
      ensures rc == 0 && MemberCount(old(members), leagueId) != 1 && !IsCreator(old(leagues), leagueId, userId) ==>
        leagues == old(leagues)
    {
      var member := IsMember(leagueId, userId);
      if !member {
        return -1;
      }
      // `league_get` finds the league: every membership's league exists.
      var count := MemberCount(members, leagueId);
      if count == 1 {
        SoleMemberIsCreator(leagues, members, lastLeagueId, leagueId, userId);
        rc := Delete(leagueId, userId);
        return;
      }
      rc := Depart(leagueId, userId);
    }

    /** A member of a league with others in it leaves: a creator first hands
        the league to the earliest-joined other member. */
    method Depart(leagueId: int, userId: int) returns (rc: int)
      requires Valid()
      requires MemberRow(leagueId, userId) in members && MemberCount(members, leagueId) != 1
      modifies this
      ensures Valid() && lastLeagueId == old(lastLeagueId) && rc == 0
      ensures members == WithoutMember(old(members), leagueId, userId)
      ensures IsCreator(old(leagues), leagueId, userId) ==>
        Successor(old(members), leagueId, userId).Some? &&
        leagues == Reassign(old(leagues), leagueId, Successor(old(members), leagueId, userId).value)
      ensures !IsCreator(old(leagues), leagueId, userId) ==> leagues == old(leagues)
    {
      var k := FindLeague(leagues, leagueId);
      if leagues[k.value].creatorId == userId {
        HandOver(leagueId, userId);
      }
      RemoveMemberKeepsTables(leagues, members, lastLeagueId, leagueId, userId);
      members := WithoutMember(members, leagueId, userId);
      return 0;
    }

    /** The ownership transfer of `league_leave`: the league passes to its
        earliest-joined member other than the leaving creator. */
    method HandOver(leagueId: int, userId: int)
      requires Valid() && IsCreator(leagues, leagueId, userId)
      requires MemberRow(leagueId, userId) in members && MemberCount(members, leagueId) != 1
      modifies this
      ensures Valid() && members == old(members) && lastLeagueId == old(lastLeagueId)
      ensures Successor(old(members), leagueId, userId).Some?
      ensures leagues == Reassign(old(leagues), leagueId, Successor(old(members), leagueId, userId).value)
      ensures !IsCreator(leagues, leagueId, userId)
    {
      MemberCountPositive(members, leagueId, userId);
      OtherMemberExists(members, leagueId, userId);
      var o := FirstOther(members, leagueId, userId);
      var next := members[o.value].userId;
      ReassignKeepsTables(leagues, members, lastLeagueId, leagueId, next);
      ReassignedCreator(leagues, lastLeagueId, leagueId, next);
      leagues := Reassign(leagues, leagueId, next);
    }
  }

  /** A member's league has at least one member. */
  lemma MemberCountPositive(members: seq<MemberRow>, leagueId: int, userId: int)
    requires MemberRow(leagueId, userId) in members
    ensures MemberCount(members, leagueId) >= 1
  {
    var f := MembersOf(members, leagueId);
    assert MemberRow(leagueId, userId) in f;
  }

  /** One round of the do-while: a fresh code in the 8-character buffer, and
      whether a league has it. */
  method TryCode(leagues: seq<LeagueRow>, bytes: seq<byte>) returns (taken: bool, candidate: string)
    requires |bytes| == CodeBytes
    ensures candidate == InviteCode(bytes) && taken == FindCode(leagues, candidate).Some?
  {
    var buf := new char[8];
    var rc := GenerateInviteCode(buf, bytes);
    candidate := buf[..CodeLen];
    taken := FindCode(leagues, candidate).Some?;
  }

  /** The do-while of `league_create`: draws codes until one is unused or
      ten have been tried. */
  method DrawCode(leagues: seq<LeagueRow>, draws: seq<seq<byte>>) returns (taken: bool, candidate: string)
    requires |draws| == MaxCodeTries && forall i :: 0 <= i < |draws| ==> |draws[i]| == CodeBytes
    ensures taken <==> FreeDraw(leagues, draws, |draws|).None?
    ensures !taken ==> candidate == InviteCode(draws[FreeDraw(leagues, draws, |draws|).value])
  {
    var attempts := 0;
    taken := true;
    candidate := [];
    while taken && attempts < MaxCodeTries
      invariant 0 <= attempts <= MaxCodeTries
      invariant FreeDraw(leagues, draws, attempts) == if taken then None else Some(attempts - 1)
      invariant !taken ==> 0 < attempts && candidate == InviteCode(draws[attempts - 1])
    {
      FreeDrawNext(leagues, draws, attempts);
      taken, candidate := TryCode(leagues, draws[attempts]);
      attempts := attempts + 1;
    }
    if !taken {
      FreeDrawStays(leagues, draws, attempts, |draws|);
    }
  }

  /** After the hand-over the leaver no longer owns the league. */
  lemma ReassignedCreator(leagues: seq<LeagueRow>, lastId: int, leagueId: int, creatorId: int)
    requires LeaguesValid(leagues, lastId) && FindLeague(leagues, leagueId).Some?
    ensures IsCreator(Reassign(leagues, leagueId, creatorId), leagueId, creatorId)
  {
    var ls := Reassign(leagues, leagueId, creatorId);
    var k := FindLeague(leagues, leagueId).value;
    assert ls[k].id == leagueId && ls[k] in ls;
    var j := FindLeague(ls, leagueId).value;
    assert ls[j].id == leagues[j].id;
  }
}
