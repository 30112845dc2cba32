/** The two structured question formats of puzzle.c. A ladder question is a
    list of words separated by ", " in which "____" marks a blank step; a
    choice question is a prompt and up to five options separated by '|'. */
module PuzzleParse {
  import opened Common

  const MaxLadderSteps: nat := 16
  /** `char word[32]`: a word keeps at most 31 characters. */
  const WordCapacity: nat := 32
  const MaxChoiceOptions: nat := 5
  /** `char prompt[512]` and `char options[5][128]`. */
  const PromptCapacity: nat := 512
  const OptionCapacity: nat := 128

  // ---------------------------------------------------------------------------
  // Ladder

  datatype LadderStep = LadderStep(word: string, isBlank: bool)

  /** A ", " separator starts at position i. */
  predicate SepAt(s: string, i: int) {
    0 <= i && i + 1 < |s| && s[i] == ',' && s[i + 1] == ' '
  }

  /** The fields between ", " separators, found left to right. */
  function SplitComma(s: string): (r: seq<string>)
    ensures |r| >= 1
    decreases |s|
  {
    if |s| < 2 then [s]
    else if s[0] == ',' && s[1] == ' ' then [[]] + SplitComma(s[2..])
    else
      var t := SplitComma(s[1..]);
      [[s[0]] + t[0]] + t[1..]
  }

  /** `strstr(s + from, ", ")`. */
  function FindSep(s: string, from: nat): (r: Option<nat>)
    requires from <= |s|
    ensures r.Some? ==> from <= r.value && SepAt(s, r.value) && forall i :: from <= i < r.value ==> !SepAt(s, i)
    ensures r.None? ==> forall i :: from <= i < |s| ==> !SepAt(s, i)
    decreases |s| - from
  {
    if from + 1 >= |s| then None
    else if s[from] == ',' && s[from + 1] == ' ' then Some(from)
    else FindSep(s, from + 1)
  }

  /** The separator `strstr` finds ends the first field. */
  lemma {:induction false} FindSepSplit(s: string, p: nat, e: nat)
    requires p <= |s| && FindSep(s, p) == Some(e)
    ensures SplitComma(s[p..]) == [s[p..e]] + SplitComma(s[e + 2..])
    decreases |s| - p
  {
    var r := s[p..];
    if s[p] == ',' && s[p + 1] == ' ' {
      assert r[0] == ',' && r[1] == ' ' && r[2..] == s[p + 2..] && s[p..p] == [];
    } else {
      assert r[0] == s[p] && r[1] == s[p + 1] && r[1..] == s[p + 1..];
      FindSepSplit(s, p + 1, e);
      var t := SplitComma(s[p + 1..]);
      assert SplitComma(r) == [[s[p]] + t[0]] + t[1..];
      assert [s[p]] + s[p + 1..e] == s[p..e];
    }
  }

  /** Without a separator after p the rest is the last field. */
  lemma {:induction false} FindSepNone(s: string, p: nat)
    requires p <= |s| && FindSep(s, p).None?
    ensures SplitComma(s[p..]) == [s[p..]]
    decreases |s| - p
  {
    var r := s[p..];
    if p + 1 < |s| {
      assert r[0] == s[p] && r[1] == s[p + 1] && r[1..] == s[p + 1..];
      FindSepNone(s, p + 1);
      assert SplitComma(r) == [[s[p]] + s[p + 1..]];
      assert [s[p]] + s[p + 1..] == r;
    }
  }

  /** Without a separator the whole string is one field. */
  lemma {:induction false} SplitCommaNone(s: string)
    requires forall i :: 0 <= i < |s| ==> !SepAt(s, i)
    ensures SplitComma(s) == [s]
    decreases |s|
  {
    if |s| >= 2 {
      var t := s[1..];
      assert !SepAt(s, 0);
      assert forall i :: 0 <= i < |t| ==> !SepAt(t, i) by {
        forall i | 0 <= i < |t| ensures SepAt(t, i) <==> SepAt(s, i + 1) { }
      }
      SplitCommaNone(t);
      assert [s[0]] + t == s;
    }
  }


  /** The blank marker "____". */
  predicate IsBlankMarker(seg: string) {
    |seg| == 4 && seg[0] == '_' && seg[1] == '_' && seg[2] == '_' && seg[3] == '_'
  }

  /** The step a non-empty trimmed segment becomes. */
  function StepOf(seg: string): (r: LadderStep)
    ensures IsBlankMarker(seg) ==> r == LadderStep([], true)
    ensures !IsBlankMarker(seg) ==> !r.isBlank && r.word == Truncate(seg, WordCapacity - 1)
  {
    if IsBlankMarker(seg) then LadderStep([], true) else LadderStep(Truncate(seg, WordCapacity - 1), false)
  }

  /** The steps a trimmed segment contributes: none when it is empty. */
  function SegmentSteps(seg: string): seq<LadderStep> {
    if seg == [] then [] else [StepOf(seg)]
  }

  /** The steps of one field, trimmed of spaces at both ends. */
  function FieldStep(field: string): seq<LadderStep> {
    SegmentSteps(Strip(field))
  }

  function StepsOf(fields: seq<string>): (r: seq<LadderStep>)
    ensures |r| <= |fields|
    ensures forall k :: 0 <= k < |r| ==> if r[k].isBlank then r[k].word == [] else 0 < |r[k].word| < WordCapacity
  {
    if fields == [] then [] else FieldStep(fields[0]) + StepsOf(fields[1..])
  }

  /** Every step a ladder question describes, before the `max_steps` cap: at
      most one per comma-separated field, a blank with no word, and otherwise
      a non-empty word that fits its 32-byte buffer. */
  function Ladder(q: string): (r: seq<LadderStep>)
    ensures |r| <= |SplitComma(q)|
    ensures forall k :: 0 <= k < |r| ==> if r[k].isBlank then r[k].word == [] else 0 < |r[k].word| < WordCapacity
  {
    StepsOf(SplitComma(q))
  }

  lemma StepsOfCons(f: string, rest: seq<string>)
    ensures StepsOf([f] + rest) == FieldStep(f) + StepsOf(rest)
  {
    assert ([f] + rest)[0] == f;
    assert ([f] + rest)[1..] == rest;
  }

  lemma {:induction false} StepsOfAppend(a: seq<string>, b: seq<string>)
    ensures StepsOf(a + b) == StepsOf(a) + StepsOf(b)
  {
    if a == [] {
      assert a + b == b;
    } else {
      assert (a + b)[0] == a[0];
      assert (a + b)[1..] == a[1..] + b;
      StepsOfAppend(a[1..], b);
      var x, y := StepsOf(a[1..]), StepsOf(b);
      assert FieldStep(a[0]) + (x + y) == (FieldStep(a[0]) + x) + y;
    }
  }

  lemma StepsOfOne(f: string)
    ensures StepsOf([f]) == FieldStep(f)
  {
    StepsOfCons(f, []);
    assert [f] + [] == [f];
  }

  lemma LadderEmpty()
    ensures Ladder([]) == []
  {
    StepsOfOne([]);
  }

  lemma StripLeadingSpace(x: string)
    ensures Strip([' '] + x) == Strip(x)
  {
    assert ([' '] + x)[1..] == x;
  }

  /** A space in front only pads the first field. */
  lemma SplitCommaSpace(x: string)
    ensures SplitComma([' '] + x) == [[' '] + SplitComma(x)[0]] + SplitComma(x)[1..]
  {
    var r := [' '] + x;
    assert r[0] == ' ' && r[1..] == x;
  }

  /** A leading space never changes the ladder. */
  lemma LadderSkipSpace(r: string)
    requires r != [] && r[0] == ' '
    ensures Ladder(r) == Ladder(r[1..])
  {
    var x := r[1..];
    var t := SplitComma(x);
    assert r == [' '] + x;
    assert SplitComma(r) == [[' '] + t[0]] + t[1..] by { SplitCommaSpace(x); }
    assert FieldStep([' '] + t[0]) == FieldStep(t[0]) by { StripLeadingSpace(t[0]); }
    assert StepsOf([[' '] + t[0]] + t[1..]) == FieldStep(t[0]) + StepsOf(t[1..]) by {
      StepsOfCons([' '] + t[0], t[1..]);
    }
    assert StepsOf(t) == FieldStep(t[0]) + StepsOf(t[1..]) by {
      StepsOfCons(t[0], t[1..]);
      assert t == [t[0]] + t[1..];
    }
  }

  lemma LadderLast(r: string)
    requires forall i :: 0 <= i < |r| ==> !SepAt(r, i)
    ensures Ladder(r) == FieldStep(r)
  {
    SplitCommaNone(r);
    StepsOfOne(r);
  }

  /** Without a leading space, stripping a segment is trimming its end. */
  lemma StripNoLeadingSpace(x: string)
    requires x == [] || x[0] != ' '
    ensures Strip(x) == TrimRight(x)
  {
  }

  /** The ladder of the text from p, which does not start with a space, is
      the step of the field up to the next ", " (at e) followed by the ladder
      of what comes after that separator. */
  lemma LadderFromSep(s: string, p: nat, e: nat)
    requires p <= |s| && (p == |s| || s[p] != ' ') && FindSep(s, p) == Some(e)
    ensures Ladder(s[p..]) == SegmentSteps(TrimRight(s[p..e])) + Ladder(s[e + 2..])
  {
    var f := s[p..e];
    assert f == [] || f[0] != ' ';
    FindSepSplit(s, p, e);
    StepsOfCons(f, SplitComma(s[e + 2..]));
    StripNoLeadingSpace(f);
  }

  /** Without a further ", " the rest of the text is the last field. */
  lemma LadderFromLast(s: string, p: nat)
    requires p <= |s| && (p == |s| || s[p] != ' ') && FindSep(s, p).None?
    ensures Ladder(s[p..]) == SegmentSteps(TrimRight(s[p..|s|]))
  {
    assert s[p..|s|] == s[p..];
    FindSepNone(s, p);
    StepsOfOne(s[p..]);
    StripNoLeadingSpace(s[p..]);
  }

  /** Leading spaces never change the ladder. */
  lemma {:induction false} LadderSkipSpaces(s: string, p0: nat, p: nat)
    requires p0 <= p <= |s| && forall i :: p0 <= i < p ==> s[i] == ' '
    ensures Ladder(s[p..]) == Ladder(s[p0..])
    decreases p - p0
  {
    if p0 < p {
      var a, b, c := Ladder(s[p..]), Ladder(s[p0 + 1..]), Ladder(s[p0..]);
      assert a == b by { LadderSkipSpaces(s, p0 + 1, p); }
      assert b == c by {
        LadderSkipSpace(s[p0..]);
        assert s[p0..][1..] == s[p0 + 1..];
      }
    }
  }

  /** One pass of the scanner over the segment at p0: skip leading spaces,
      find the next ", ", trim trailing spaces. Returns the trimmed segment
      and, unless it was the last, where the next segment starts. */
  method ScanSegment(s: string, p0: nat) returns (seg: string, last: bool, next: nat)
    requires p0 < |s|
    ensures !last ==> p0 < next <= |s| && Ladder(s[p0..]) == SegmentSteps(seg) + Ladder(s[next..])
    ensures last ==> Ladder(s[p0..]) == SegmentSteps(seg)
  {
    var p := SkipSpaces(s, p0);
    LadderSkipSpaces(s, p0, p);
    var end := FindSep(s, p);
    var stop: nat;
    if end.Some? {
      stop := end.value;
      last, next := false, stop + 2;
      LadderFromSep(s, p, stop);
    } else {
      stop := |s|;
      last, next := true, 0;
      LadderFromLast(s, p);
    }
    var len := TrimEnd(s, p, stop);
    seg := s[p..p + len];
  }

  /** Moving the next segment's steps from the pending part to the part
      already written keeps the whole the same. */
  lemma Shift<T>(whole: seq<T>, done: seq<T>, pending: seq<T>, seg: seq<T>, rest: seq<T>)
    requires done + pending == whole && pending == seg + rest
    ensures (done + seg) + rest == whole
    ensures seg == [] ==> done + rest == whole
  {
    if seg == [] {
      assert seg + rest == rest;
    }
  }

  /** The last pending part written: what was written is the whole. */
  lemma TakeAll<T>(whole: seq<T>, done: seq<T>, pending: seq<T>, written: seq<T>, cap: int)
    requires done + pending == whole && written == done + pending && |written| <= cap
    ensures written == Take(whole, cap)
  {
  }

  lemma AppendNothing<T>(a: seq<T>, b: seq<T>)
    ensures b == [] ==> a + b == a
  {
  }

  /** A prefix that is either complete or as long as the cap is what the cap keeps. */
  lemma TakePrefix<T>(whole: seq<T>, done: seq<T>, rest: seq<T>, cap: int)
    requires done + rest == whole && |done| <= cap && (|done| == cap || rest == [])
    ensures done == Take(whole, cap)
  {
    if rest == [] {
      assert done == whole;
    } else {
      assert whole[..cap] == done;
    }
  }

  /** Writes the step of a trimmed segment at `count`, when there is one:
      a blank for "____", otherwise the word cut to 31 characters. */
  method StoreStep(steps: array<LadderStep>, count: nat, seg: string) returns (next: nat)
    requires count < steps.Length
    modifies steps
    ensures next == count + |SegmentSteps(seg)|
    ensures steps[..next] == old(steps[..count]) + SegmentSteps(seg)
    ensures forall k :: next <= k < steps.Length ==> steps[k] == old(steps[k])
  {
    if seg == [] {
      return count;
    }
    var step;
    if |seg| == 4 && seg[0] == '_' && seg[1] == '_' && seg[2] == '_' && seg[3] == '_' {
      step := LadderStep([], true);
    } else {
      step := LadderStep(Truncate(seg, WordCapacity - 1), false);
    }
    steps[count] := step;
    next := count + 1;
    assert steps[..next] == old(steps[..count]) + [step];
  }

  /** `puzzle_parse_ladder`: fills `steps` with the first `maxSteps` steps of
      the question and returns how many it wrote. */
  method ParseLadder(question: Option<string>, steps: array<LadderStep>, maxSteps: int) returns (count: int)
    requires maxSteps <= steps.Length
    modifies steps
    ensures question.None? || maxSteps <= 0 ==> count == 0
    ensures question.Some? && maxSteps > 0 ==>
      0 <= count <= maxSteps && steps[..count] == Take(Ladder(question.value), maxSteps)
    ensures 0 <= count <= steps.Length
    ensures forall k :: count <= k < steps.Length ==> steps[k] == old(steps[k])
  {
    if question.None? || maxSteps <= 0 {
      return 0;
    }
    var s := question.value;
    ghost var whole := Ladder(s);
    count := 0;
    var p := 0;
    ghost var finished := false;
    assert s[0..] == s;
    while p < |s| && count < maxSteps
      invariant !finished
      invariant 0 <= p <= |s| && 0 <= count <= maxSteps
      invariant steps[..count] + Ladder(s[p..]) == whole
      invariant forall k :: count <= k < steps.Length ==> steps[k] == old(steps[k])
      decreases |s| - p
    {
      var seg, last, next := ScanSegment(s, p);
      ghost var done := steps[..count];
      ghost var pending := Ladder(s[p..]);
      count := StoreStep(steps, count, seg);
      if last {
        TakeAll(whole, done, pending, steps[..count], maxSteps);
        finished := true;
        break;
      }
      Shift(whole, done, pending, SegmentSteps(seg), Ladder(s[next..]));
      p := next;
    }
    if !finished {
      if p == |s| {
        assert s[p..] == [];
        LadderEmpty();
      }
      TakePrefix(whole, steps[..count], Ladder(s[p..]), maxSteps);
    }
  }

  /** A step's word keeps at most 31 characters, and a blank has none. */
  lemma {:induction false} StepsShape(fields: seq<string>)
    ensures forall k :: 0 <= k < |StepsOf(fields)| ==>
      |StepsOf(fields)[k].word| < WordCapacity && (StepsOf(fields)[k].isBlank ==> StepsOf(fields)[k].word == [])
  {
    if fields != [] {
      StepsShape(fields[1..]);
      var h: seq<LadderStep>, t: seq<LadderStep> := FieldStep(fields[0]), StepsOf(fields[1..]);
      assert StepsOf(fields) == h + t;
      forall k | 0 <= k < |h + t|
        ensures |(h + t)[k].word| < WordCapacity && ((h + t)[k].isBlank ==> (h + t)[k].word == [])
      {
        if k >= |h| {
          assert (h + t)[k] == t[k - |h|];
        }
      }
    }
  }

  /** Every step of a ladder fits the `LadderStep` buffer, and a blank has no word. */
  lemma LadderShape(q: string)
    ensures forall k :: 0 <= k < |Ladder(q)| ==>
      |Ladder(q)[k].word| < WordCapacity && (Ladder(q)[k].isBlank ==> Ladder(q)[k].word == [])
  {
    StepsShape(SplitComma(q));
  }

  /** The splitting step of `SplitCommaAppend` past a character that is not
      the start of a separator. */
  lemma SplitCommaNotSep(x: string)
    requires |x| >= 2 && !(x[0] == ',' && x[1] == ' ')
    ensures SplitComma(x) == [[x[0]] + SplitComma(x[1..])[0]] + SplitComma(x[1..])[1..]
  {
  }

  /** Splitting a joined string gives the fields of both sides. */
  lemma {:induction false} SplitCommaAppend(a: string, b: string)
    ensures SplitComma(a + ", " + b) == SplitComma(a) + SplitComma(b)
    decreases |a|
  {
    var s := a + ", " + b;
    if a == [] {
      assert s == [','] + ([' '] + b) && s[2..] == b;
    } else if |a| == 1 {
      var t := SplitComma(s[1..]);
      assert s[1..] == [','] + ([' '] + b) && s[1..][2..] == b;
      assert t == [[]] + SplitComma(b);
      assert s[0] == a[0] && s[1] == ',';
      assert SplitComma(s) == [[a[0]] + t[0]] + t[1..];
      assert [a[0]] + [] == a;
    } else {
      assert s[0] == a[0] && s[1] == a[1];
      if a[0] == ',' && a[1] == ' ' {
        var u := a[2..];
        assert s[2..] == u + ", " + b;
        assert SplitComma(u + ", " + b) == SplitComma(u) + SplitComma(b) by {
          SplitCommaAppend(u, b);
        }
        assert [[]] + (SplitComma(u) + SplitComma(b)) == ([[]] + SplitComma(u)) + SplitComma(b);
      } else {
        var u := a[1..];
        assert s[1..] == u + ", " + b;
        assert SplitComma(u + ", " + b) == SplitComma(u) + SplitComma(b) by {
          SplitCommaAppend(u, b);
        }
        SplitCommaNotSep(s);
        SplitCommaNotSep(a);
        FieldsConsAppend(a[0], '\0', SplitComma(u), SplitComma(b));
      }
    }
  }

  /** A ladder written as two parts joined by ", " has the steps of both parts. */
  lemma LadderJoin(a: string, b: string)
    ensures Ladder(a + ", " + b) == Ladder(a) + Ladder(b)
  {
    SplitCommaAppend(a, b);
    StepsOfAppend(SplitComma(a), SplitComma(b));
  }

  /** A plain word: no separator, no surrounding spaces, not empty. */
  predicate PlainWord(w: string) {
    w != [] && w[0] != ' ' && w[|w| - 1] != ' ' && forall i :: 0 <= i < |w| ==> w[i] != ','
  }

  lemma LadderWord(w: string)
    requires PlainWord(w)
    ensures Ladder(w) == [StepOf(w)]
  {
    LadderLast(w);
    StripNoLeadingSpace(w);
  }

  /** Words written out as a ladder question, joined by ", ". */
  function JoinLadder(ws: seq<string>): string
    requires |ws| >= 1
  {
    if |ws| == 1 then ws[0] else JoinLadder(ws[..|ws| - 1]) + ", " + ws[|ws| - 1]
  }

  /** One step per word, in order. */
  function WordSteps(ws: seq<string>): (r: seq<LadderStep>)
    ensures |r| == |ws| && forall k :: 0 <= k < |ws| ==> r[k] == StepOf(ws[k])
  {
    if ws == [] then [] else WordSteps(ws[..|ws| - 1]) + [StepOf(ws[|ws| - 1])]
  }

  /** Parsing a question written from plain words gives one step per word,
      in order, each classified (a "____" marker is a blank) and truncated as
      `StepOf` says. */
  lemma {:induction false} LadderOfWords(ws: seq<string>)
    requires |ws| >= 1 && forall k :: 0 <= k < |ws| ==> PlainWord(ws[k])
    ensures Ladder(JoinLadder(ws)) == WordSteps(ws)
    decreases |ws|
  {
    var w := ws[|ws| - 1];
    assert Ladder(w) == [StepOf(w)] by { LadderWord(w); }
    if |ws| > 1 {
      var init := ws[..|ws| - 1];
      var j := JoinLadder(init);
      assert forall k :: 0 <= k < |init| ==> PlainWord(init[k]);
      assert Ladder(j) == WordSteps(init) by { LadderOfWords(init); }
      assert Ladder(j + ", " + w) == Ladder(j) + Ladder(w) by { LadderJoin(j, w); }
      assert JoinLadder(ws) == j + ", " + w;
      assert WordSteps(ws) == WordSteps(init) + [StepOf(w)];
    } else {
      assert WordSteps(ws) == WordSteps([]) + [StepOf(w)];
    }
  }

  /** Only spaces (or nothing) gives no steps. */
  lemma {:induction false} LadderBlank(sp: string)
    requires forall i :: 0 <= i < |sp| ==> sp[i] == ' '
    ensures Ladder(sp) == []
    decreases |sp|
  {
    if sp == [] {
      LadderEmpty();
    } else {
      var t := sp[1..];
      assert Ladder(sp) == Ladder(t) by { LadderSkipSpace(sp); }
      assert forall i :: 0 <= i < |t| ==> t[i] == ' ' by {
        forall i | 0 <= i < |t| ensures t[i] == ' ' { assert t[i] == sp[i + 1]; }
      }
      LadderBlank(t);
    }
  }

  // ---------------------------------------------------------------------------
  // Choice

  /** The `ChoicePuzzle` struct: a prompt, a fixed array of five options and
      the number in use. */
  class ChoicePuzzle {
    var prompt: string
    const options: array<string>
    var numOptions: nat

    /** A zeroed struct. */
    constructor ()
      ensures prompt == [] && numOptions == 0
      ensures options.Length == MaxChoiceOptions && forall k :: 0 <= k < options.Length ==> options[k] == []
      ensures fresh(options)
    {
      prompt := [];
      numOptions := 0;
      options := new string[MaxChoiceOptions](_ => []);
    }
  }

  /** The option one field becomes: none when it is empty, otherwise the field
      cut to 127 characters. */
  function FieldOption(field: string): (r: seq<string>)
    ensures |r| <= 1
  {
    if field == [] then [] else [Truncate(field, OptionCapacity - 1)]
  }

  function OptionsOf(fields: seq<string>): (r: seq<string>)
    ensures |r| <= |fields|
    ensures forall k :: 0 <= k < |r| ==> r[k] != [] && |r[k]| < OptionCapacity
  {
    if fields == [] then [] else FieldOption(fields[0]) + OptionsOf(fields[1..])
  }

  /** The options of the text after the first '|': at most five, each
      non-empty and fitting its 128-byte buffer, never more than there are
      '|'-separated fields. */
  function ChoiceOptions(rest: string): (r: seq<string>)
    ensures |r| <= MaxChoiceOptions && |r| <= |Split(rest, '|')|
    ensures forall k :: 0 <= k < |r| ==> r[k] != [] && |r[k]| < OptionCapacity
  {
    Take(OptionsOf(Split(rest, '|')), MaxChoiceOptions)
  }

  function ChoicePrompt(q: string, d: nat): string
    requires d <= |q|
  {
    Truncate(q[..d], PromptCapacity - 1)
  }

  lemma OptionsOfCons(f: string, rest: seq<string>)
    ensures OptionsOf([f] + rest) == FieldOption(f) + OptionsOf(rest)
  {
    assert ([f] + rest)[0] == f;
    assert ([f] + rest)[1..] == rest;
  }

  lemma OptionsOfOne(f: string)
    ensures OptionsOf([f]) == FieldOption(f)
  {
    OptionsOfCons(f, []);
    assert [f] + [] == [f];
  }

  /** The field at p ends at the '|' that `strchr` finds (at n); the options
      of the text from p are its option followed by those after it. */
  lemma OptionsAtSep(s: string, p: nat, n: nat)
    requires p <= |s| && Find(s, '|', p) == Some(n)
    ensures OptionsOf(Split(s[p..], '|')) == FieldOption(s[p..n]) + OptionsOf(Split(s[n + 1..], '|'))
  {
    FindSplit(s, '|', p, n);
    OptionsOfCons(s[p..n], Split(s[n + 1..], '|'));
  }

  /** Without a further '|' the rest of the text is the last field. */
  lemma OptionsAtEnd(s: string, p: nat)
    requires p <= |s| && Find(s, '|', p).None?
    ensures OptionsOf(Split(s[p..], '|')) == FieldOption(s[p..|s|])
  {
    assert s[p..|s|] == s[p..];
    FindNoneSplit(s, '|', p);
    OptionsOfOne(s[p..]);
  }

  /** The options still to come from position p. */
  function Pending(q: string, p: nat): seq<string>
    requires p <= |q|
  {
    OptionsOf(Split(q[p..], '|'))
  }

  /** `strchr(p, '|')` and the length of the field it ends. */
  method NextField(q: string, p: nat) returns (stop: nat, last: bool)
    requires p <= |q|
    ensures p <= stop <= |q| && (last <==> stop == |q|)
    ensures !last ==> Pending(q, p) == FieldOption(q[p..stop]) + Pending(q, stop + 1)
    ensures last ==> Pending(q, p) == FieldOption(q[p..stop])
  {
    var next := Find(q, '|', p);
    if next.Some? {
      stop, last := next.value, false;
      OptionsAtSep(q, p, stop);
    } else {
      stop, last := |q|, true;
      OptionsAtEnd(q, p);
    }
  }

  /** Writes one more option, cut to fit its buffer. */
  method StoreOption(out: ChoicePuzzle, field: string)
    requires field != [] && out.numOptions < out.options.Length
    modifies out, out.options
    ensures out.prompt == old(out.prompt) && out.numOptions == old(out.numOptions) + 1
    ensures out.options[..out.numOptions] == old(out.options[..out.numOptions]) + FieldOption(field)
    ensures forall k :: out.numOptions <= k < out.options.Length ==> out.options[k] == old(out.options[k])
  {
    ghost var before := out.options[..out.numOptions];
    out.options[out.numOptions] := Truncate(field, OptionCapacity - 1);
    out.numOptions := out.numOptions + 1;
    assert out.options[..out.numOptions] == before + [Truncate(field, OptionCapacity - 1)];
  }

  lemma OptionsOfNothing()
    ensures OptionsOf(Split([], '|')) == []
  {
    OptionsOfOne([]);
  }

  /** One pass of the option loop: the field at p is stored unless it is
      empty; `last` when no '|' follows it. */
  method ScanOption(q: string, p: nat, out: ChoicePuzzle, ghost whole: seq<string>) returns (next: nat, last: bool)
    requires p <= |q| && out.numOptions < out.options.Length
    requires out.options[..out.numOptions] + Pending(q, p) == whole
    modifies out, out.options
    ensures out.prompt == old(out.prompt) && old(out.numOptions) <= out.numOptions <= old(out.numOptions) + 1
    ensures forall k :: out.numOptions <= k < out.options.Length ==> out.options[k] == old(out.options[k])
    ensures last ==> out.options[..out.numOptions] == whole
    ensures !last ==> p < next <= |q| && out.options[..out.numOptions] + Pending(q, next) == whole
  {
    var stop;
    stop, last := NextField(q, p);
    ghost var done := out.options[..out.numOptions];
    ghost var added := FieldOption(q[p..stop]);
    if stop > p {
      StoreOption(out, q[p..stop]);
    }
    if last {
      AppendNothing(done, added);
      next := 0;
    } else {
      Shift(whole, done, Pending(q, p), added, Pending(q, stop + 1));
      next := stop + 1;
    }
  }

  /** The option loop of `puzzle_parse_choice`: scans the '|'-fields of
      q[start..] into the (zeroed) struct, skipping empty fields, until five
      are stored. */
  method FillOptions(q: string, start: nat, out: ChoicePuzzle)
    requires start <= |q| && out.numOptions == 0 && out.options.Length == MaxChoiceOptions
    requires forall k :: 0 <= k < out.options.Length ==> out.options[k] == []
    modifies out, out.options
    ensures out.prompt == old(out.prompt) && out.numOptions <= MaxChoiceOptions
    ensures out.options[..out.numOptions] == ChoiceOptions(q[start..])
    ensures forall k :: out.numOptions <= k < out.options.Length ==> out.options[k] == []
  {
    var p := start;
    ghost var whole := Pending(q, start);
    ghost var finished := false;
    while p < |q| && out.numOptions < MaxChoiceOptions
      invariant !finished
      invariant start <= p <= |q| && out.numOptions <= MaxChoiceOptions
      invariant out.prompt == old(out.prompt)
      invariant out.options[..out.numOptions] + Pending(q, p) == whole
      invariant forall k :: out.numOptions <= k < out.options.Length ==> out.options[k] == []
      decreases |q| - p
    {
      var next, last := ScanOption(q, p, out, whole);
      if last {
        TakeAll(whole, out.options[..out.numOptions], [], out.options[..out.numOptions], MaxChoiceOptions);
        finished := true;
        break;
      }
      p := next;
    }
    if !finished {
      if p == |q| {
        assert q[p..] == [];
        OptionsOfNothing();
      }
      TakePrefix(whole, out.options[..out.numOptions], Pending(q, p), MaxChoiceOptions);
    }
  }

  /** `puzzle_parse_choice`: fails for a missing question or one without '|';
      otherwise the prompt is the text before the first '|' and the options
      its non-empty '|'-fields, at most five; fewer than two fails, with the
      struct filled all the same. */
  method ParseChoice(question: Option<string>, out: ChoicePuzzle) returns (rc: int)
    requires out.options.Length == MaxChoiceOptions
    modifies out, out.options
    ensures rc == 0 || rc == -1
    ensures question.None? ==>
      rc == -1 && out.prompt == old(out.prompt) && out.numOptions == old(out.numOptions) && out.options[..] == old(out.options[..])
    ensures question.Some? && Find(question.value, '|', 0).None? ==>
      rc == -1 && out.prompt == [] && out.numOptions == 0 && forall k :: 0 <= k < out.options.Length ==> out.options[k] == []
    ensures question.Some? && Find(question.value, '|', 0).Some? ==>
      var d := Find(question.value, '|', 0).value;
      out.prompt == ChoicePrompt(question.value, d) &&
      out.numOptions <= MaxChoiceOptions &&
      out.options[..out.numOptions] == ChoiceOptions(question.value[d + 1..]) &&
      (forall k :: out.numOptions <= k < out.options.Length ==> out.options[k] == []) &&
      (rc == 0 <==> out.numOptions >= 2)
  {
    if question.None? {
      return -1;
    }
    var q := question.value;
    out.prompt := [];
    out.numOptions := 0;
    forall k | 0 <= k < out.options.Length {
      out.options[k] := [];
    }
    var delim := Find(q, '|', 0);
    if delim.None? {
      return -1;
    }
    var d := delim.value;
    out.prompt := Truncate(q[..d], PromptCapacity - 1);
    FillOptions(q, d + 1, out);
    if out.numOptions < 2 {
      return -1;
    }
    return 0;
  }

  /** Fields free of '|' split back out of their join. */
  lemma {:induction false} SplitJoin(fields: seq<string>)
    requires |fields| >= 1 && forall k :: 0 <= k < |fields| ==> '|' !in fields[k]
    ensures Split(Join(fields, '|'), '|') == fields
  {
    if |fields| == 1 {
      SplitNoSep(fields[0], '|');
    } else {
      SplitJoin(fields[1..]);
      SplitNoSep(fields[0], '|');
      SplitAppend(fields[0], Join(fields[1..], '|'), '|');
      assert [fields[0]] + fields[1..] == fields;
    }
  }

  /** Non-empty options that fit are kept as they are. */
  lemma {:induction false} OptionsOfPlain(opts: seq<string>)
    requires forall k :: 0 <= k < |opts| ==> opts[k] != [] && |opts[k]| < OptionCapacity
    ensures OptionsOf(opts) == opts
  {
    if opts != [] {
      OptionsOfPlain(opts[1..]);
      assert [opts[0]] + opts[1..] == opts;
    }
  }

  /** Writing a prompt and up to five options as "prompt|o1|o2|..." and
      parsing it gives them back, as in the test "What is 2+2?|3|4|5|6". */
  lemma ChoiceRoundTrip(prompt: string, opts: seq<string>)
    requires '|' !in prompt && |prompt| < PromptCapacity
    requires 1 <= |opts| <= MaxChoiceOptions
    requires forall k :: 0 <= k < |opts| ==> opts[k] != [] && '|' !in opts[k] && |opts[k]| < OptionCapacity
    ensures var q := prompt + "|" + Join(opts, '|');
      Find(q, '|', 0) == Some(|prompt|) &&
      ChoicePrompt(q, |prompt|) == prompt &&
      ChoiceOptions(q[|prompt| + 1..]) == opts
  {
    var q := prompt + "|" + Join(opts, '|');
    assert q[..|prompt|] == prompt;
    assert q[|prompt|] == '|';
    assert q[|prompt| + 1..] == Join(opts, '|');
    SplitJoin(opts);
    OptionsOfPlain(opts);
  }
}
