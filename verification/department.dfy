/** The department classifier of the participants listing: the USN is
    searched for the case-insensitive, unanchored pattern
    `4MW\d+(AD|AI|EC|CS)` and the captured code picks the label; no match
    and the code AI both give the default "AI&ML". */
module Department {
  import opened Wrappers
  import opened Text

  datatype Code = AD | AI | EC | CS

  datatype Dept = AiMl | AiDs | ElecComm | Cse {
    /** The label shown in the roster. */
    function Label(): string
    {
      match this
      case AiMl => "AI&ML"
      case AiDs => "AI&DS"
      case ElecComm => "E&C"
      case Cse => "CSE"
    }
  }

  /** The four labels the roster can show. */
  const Labels: set<string> := {"AI&ML", "AI&DS", "E&C", "CSE"}

  /** The department a captured code selects. */
  function DeptOf(c: Code): Dept
  {
    match c
    case AD => AiDs
    case EC => ElecComm
    case CS => Cse
    case AI => AiMl
  }

  function CodeFirst(c: Code): char
  {
    match c
    case AD => 'A'
    case AI => 'A'
    case EC => 'E'
    case CS => 'C'
  }

  function CodeSecond(c: Code): char
  {
    match c
    case AD => 'D'
    case AI => 'I'
    case EC => 'C'
    case CS => 'S'
  }

  /** `s[i]` exists and is `ch` ignoring ASCII case (`ch` is not a lower-case letter). */
  predicate CharIs(s: string, i: nat, ch: char)
  {
    i < |s| && UpperChar(s[i]) == ch
  }

  /** `s[i..i + 3]` spells "4MW" ignoring case. */
  predicate PrefixAt(s: string, i: nat)
  {
    CharIs(s, i, '4') && CharIs(s, i + 1, 'M') && CharIs(s, i + 2, 'W')
  }

  /** `s[j..j + 2]` spells code `c` ignoring case. */
  predicate CodeSpelledAt(s: string, j: nat, c: Code)
  {
    CharIs(s, j, CodeFirst(c)) && CharIs(s, j + 1, CodeSecond(c))
  }

  // ---------------------------------------------------------------------
  // The regular expression, stated declaratively
  // ---------------------------------------------------------------------

  /** `s[i..j + 2]` is a match of `4MW\d+(AD|AI|EC|CS)` with code `c`
      starting at `i`, the digits occupying `s[i + 3..j]`. */
  ghost predicate PatternAt(s: string, i: nat, j: nat, c: Code)
  {
    && PrefixAt(s, i)
    && i + 3 < j
    && CodeSpelledAt(s, j, c)
    && (forall t :: i + 3 <= t < j ==> IsDigit(s[t]))
  }

  /** Some match of the pattern starts at `i`. */
  ghost predicate MatchStartsAt(s: string, i: nat)
  {
    exists j: nat, c: Code :: PatternAt(s, i, j, c)
  }

  // ---------------------------------------------------------------------
  // The search, as the regular-expression engine performs it
  // ---------------------------------------------------------------------

  /** The code spelled by the two characters at `j`, if any. */
  function CodeAt(s: string, j: nat): (r: Option<Code>)
    ensures r.Some? ==> CodeSpelledAt(s, j, r.value)
    ensures r.None? ==> forall c :: !CodeSpelledAt(s, j, c)
  {
    if j + 2 > |s| then None
    else
      var a := UpperChar(s[j]);
      var b := UpperChar(s[j + 1]);
      if a == 'A' && b == 'D' then Some(AD)
      else if a == 'A' && b == 'I' then Some(AI)
      else if a == 'E' && b == 'C' then Some(EC)
      else if a == 'C' && b == 'S' then Some(CS)
      else None
  }

  /** The attempt at position `i`: the greedy `\d+` takes the whole digit
      run, and backing off cannot help because every code starts with a
      letter. */
  function MatchAt(s: string, i: nat): Option<Code>
  {
    if PrefixAt(s, i) then
      var k := i + 3 + LeadingDigits(s[i + 3..]);
      if k > i + 3 then CodeAt(s, k) else None
    else None
  }

  /** The leftmost match at or after `i`. */
  function FirstMatch(s: string, i: nat): Option<Code>
    requires i <= |s|
    decreases |s| - i
  {
    if i == |s| then None
    else if MatchAt(s, i).Some? then MatchAt(s, i)
    else FirstMatch(s, i + 1)
  }

  /** The department computed from a USN. */
  function Classify(usn: string): Dept
  {
    match FirstMatch(usn, 0)
    case Some(c) => DeptOf(c)
    case None => AiMl
  }

  /** The label column of the participants listing; always one of four. */
  function DepartmentLabel(usn: string): (shown: string)
    ensures shown in Labels
    ensures shown == "AI&ML" <==> FirstMatch(usn, 0) in {None, Some(AI)}
  {
    Classify(usn).Label()
  }

  // ---------------------------------------------------------------------
  // The engine's attempt agrees with the declarative pattern
  // ---------------------------------------------------------------------

  /** The greedy digit run ends exactly where a declarative match places
      the code. */
  lemma DigitRunEnd(s: string, a: nat, j: nat)
    requires a <= j < |s|
    requires forall t :: a <= t < j ==> IsDigit(s[t])
    requires !IsDigit(s[j])
    ensures a + LeadingDigits(s[a..]) == j
  {
    var u := s[a..];
    assert forall t :: 0 <= t < |u| ==> u[t] == s[a + t];
  }

  lemma MatchAtSound(s: string, i: nat)
    requires MatchAt(s, i).Some?
    ensures PatternAt(s, i, i + 3 + LeadingDigits(s[i + 3..]), MatchAt(s, i).value)
    ensures MatchStartsAt(s, i)
  {
    var k := i + 3 + LeadingDigits(s[i + 3..]);
    forall t | i + 3 <= t < k
      ensures IsDigit(s[t])
    {
      assert s[i + 3..][t - (i + 3)] == s[t];
    }
    assert PatternAt(s, i, k, MatchAt(s, i).value);
  }

  lemma MatchAtComplete(s: string, i: nat, j: nat, c: Code)
    requires PatternAt(s, i, j, c)
    ensures MatchAt(s, i) == Some(c)
  {
    assert !IsDigit(s[j]);
    DigitRunEnd(s, i + 3, j);
  }

  /** The attempt at `i` succeeds with code `c` exactly when the pattern
      matches at `i` with that code. */
  lemma MatchAtIff(s: string, i: nat, c: Code)
    ensures MatchAt(s, i) == Some(c) <==> exists j: nat :: PatternAt(s, i, j, c)
  {
    if MatchAt(s, i) == Some(c) {
      MatchAtSound(s, i);
    }
    if exists j: nat :: PatternAt(s, i, j, c) {
      var j: nat :| PatternAt(s, i, j, c);
      MatchAtComplete(s, i, j, c);
    }
  }

  lemma NoMatchStartsAt(s: string, i: nat)
    requires MatchAt(s, i).None?
    ensures !MatchStartsAt(s, i)
  {
    if MatchStartsAt(s, i) {
      var j: nat, c: Code :| PatternAt(s, i, j, c);
      MatchAtComplete(s, i, j, c);
    }
  }

  /** The search finds nothing exactly when no match starts at or after
      `i`; otherwise it returns the code of the leftmost match. */
  lemma FirstMatchIsLeftmost(s: string, i: nat)
    requires i <= |s|
    ensures FirstMatch(s, i).None? <==> forall p: nat :: i <= p ==> !MatchStartsAt(s, p)
    ensures forall p: nat, j: nat, c: Code ::
              i <= p && PatternAt(s, p, j, c) && (forall q: nat :: i <= q < p ==> !MatchStartsAt(s, q))
              ==> FirstMatch(s, i) == Some(c)
  {
    FirstMatchNone(s, i);
    forall p: nat, j: nat, c: Code |
      i <= p && PatternAt(s, p, j, c) && (forall q: nat :: i <= q < p ==> !MatchStartsAt(s, q))
      ensures FirstMatch(s, i) == Some(c)
    {
      LeftmostMatchDecides(s, i, p, j, c);
    }
  }

  lemma {:induction false} FirstMatchNone(s: string, i: nat)
    requires i <= |s|
    ensures FirstMatch(s, i).None? <==> forall p: nat :: i <= p ==> !MatchStartsAt(s, p)
    decreases |s| - i
  {
    if i == |s| {
      forall p: nat | i <= p
        ensures !MatchStartsAt(s, p)
      {
        NoMatchStartsAt(s, p);
      }
    } else if MatchAt(s, i).Some? {
      MatchAtSound(s, i);
    } else {
      NoMatchStartsAt(s, i);
      FirstMatchNone(s, i + 1);
      assert (forall p: nat :: i <= p ==> !MatchStartsAt(s, p))
             <==> (forall p: nat :: i + 1 <= p ==> !MatchStartsAt(s, p));
    }
  }

  /** When the attempts at `i..p` fail and the attempt at `p` succeeds,
      the search returns the attempt at `p`. */
  lemma {:induction false} FirstMatchReaches(s: string, i: nat, p: nat)
    requires i <= p < |s|
    requires MatchAt(s, p).Some?
    requires forall q: nat :: i <= q < p ==> MatchAt(s, q).None?
    ensures FirstMatch(s, i) == MatchAt(s, p)
    decreases p - i
  {
    if i < p {
      FirstMatchReaches(s, i + 1, p);
    }
  }

  lemma LeftmostMatchDecides(usn: string, i: nat, p: nat, j: nat, c: Code)
    requires i <= p && PatternAt(usn, p, j, c)
    requires forall q: nat :: i <= q < p ==> !MatchStartsAt(usn, q)
    ensures FirstMatch(usn, i) == Some(c)
  {
    MatchAtComplete(usn, p, j, c);
    forall q: nat | i <= q < p
      ensures MatchAt(usn, q).None?
    {
      if MatchAt(usn, q).Some? {
        MatchAtSound(usn, q);
      }
    }
    FirstMatchReaches(usn, i, p);
  }

  /** The classification, stated through the regular expression: a USN
      with no match is AI&ML, and otherwise the code of its leftmost match
      decides. */
  lemma ClassifyByLeftmostMatch(usn: string)
    ensures (forall p: nat :: !MatchStartsAt(usn, p)) ==> Classify(usn) == AiMl
    ensures forall p: nat, j: nat, c: Code ::
              PatternAt(usn, p, j, c) && (forall q: nat :: q < p ==> !MatchStartsAt(usn, q))
              ==> Classify(usn) == DeptOf(c)
  {
    FirstMatchIsLeftmost(usn, 0);
    forall p: nat, j: nat, c: Code |
      PatternAt(usn, p, j, c) && (forall q: nat :: q < p ==> !MatchStartsAt(usn, q))
      ensures FirstMatch(usn, 0) == Some(c)
    {
      LeftmostMatchDecides(usn, 0, p, j, c);
    }
  }

  // ---------------------------------------------------------------------
  // Case-insensitivity
  // ---------------------------------------------------------------------

  lemma {:induction false} LeadingDigitsUpper(t: string)
    ensures LeadingDigits(Upper(t)) == LeadingDigits(t)
  {
    if |t| > 0 {
      assert Upper(t)[1..] == Upper(t[1..]);
      LeadingDigitsUpper(t[1..]);
    }
  }

  lemma CodeAtUpper(s: string, j: nat)
    ensures CodeAt(Upper(s), j) == CodeAt(s, j)
  {
    if j + 2 <= |s| {
      var u := Upper(s);
      assert UpperChar(u[j]) == UpperChar(s[j]);
      assert UpperChar(u[j + 1]) == UpperChar(s[j + 1]);
    }
  }

  lemma PrefixAtUpper(s: string, i: nat)
    ensures PrefixAt(Upper(s), i) == PrefixAt(s, i)
  {
    var u := Upper(s);
    assert i < |s| ==> UpperChar(u[i]) == UpperChar(s[i]);
    assert i + 1 < |s| ==> UpperChar(u[i + 1]) == UpperChar(s[i + 1]);
    assert i + 2 < |s| ==> UpperChar(u[i + 2]) == UpperChar(s[i + 2]);
  }

  lemma MatchAtUpper(s: string, i: nat)
    ensures MatchAt(Upper(s), i) == MatchAt(s, i)
  {
    PrefixAtUpper(s, i);
    if PrefixAt(s, i) {
      var u := Upper(s);
      assert u[i + 3..] == Upper(s[i + 3..]);
      LeadingDigitsUpper(s[i + 3..]);
      CodeAtUpper(s, i + 3 + LeadingDigits(s[i + 3..]));
    }
  }

  lemma {:induction false} FirstMatchUpper(s: string, i: nat)
    requires i <= |s|
    ensures FirstMatch(Upper(s), i) == FirstMatch(s, i)
    decreases |s| - i
  {
    if i < |s| {
      MatchAtUpper(s, i);
      FirstMatchUpper(s, i + 1);
    }
  }

  /** Classification ignores ASCII case: a USN and its upper-cased form get
      the same department. */
  lemma ClassifyIgnoresCase(usn: string)
    ensures Classify(Upper(usn)) == Classify(usn)
  {
    FirstMatchUpper(usn, 0);
  }
}

/** Worked examples of the classifier. */
module DepartmentExamples {
  import opened Wrappers
  import opened Text
  import opened Department

  lemma TwoDigitRun(t: string)
    requires |t| > 2 && IsDigit(t[0]) && IsDigit(t[1]) && !IsDigit(t[2])
    ensures LeadingDigits(t) == 2
  {
  }

  lemma PlaceholderIsAiDs()
    ensures Classify("4MW21AD043") == AiDs
  {
    var s := "4MW21AD043";
    assert s[3..] == "21AD043";
    TwoDigitRun(s[3..]);
    assert MatchAt(s, 0) == Some(AD);
  }

  lemma CseExample()
    ensures Classify("4MW21CS099") == Cse
  {
    var s := "4MW21CS099";
    assert s[3..] == "21CS099";
    TwoDigitRun(s[3..]);
    assert MatchAt(s, 0) == Some(CS);
  }

  /** The code AI is captured but keeps the default label. */
  lemma AiCodeIsDefault()
    ensures Classify("4MW21AI001") == AiMl
  {
    var s := "4MW21AI001";
    assert s[3..] == "21AI001";
    TwoDigitRun(s[3..]);
    assert MatchAt(s, 0) == Some(AI);
  }

  /** Matching ignores case. */
  lemma LowerCaseUsn()
    ensures Classify("4mw21cs001") == Cse
  {
    var s := "4mw21cs001";
    assert s[3..] == "21cs001";
    TwoDigitRun(s[3..]);
    assert MatchAt(s, 0) == Some(CS);
  }

  lemma LowerCasePlaceholder()
    ensures Classify("4mw21ad043") == AiDs
  {
    var s := "4mw21ad043";
    assert s[3..] == "21ad043";
    TwoDigitRun(s[3..]);
    assert MatchAt(s, 0) == Some(AD);
  }

  /** Matching is unanchored: the match may start after index 0 and need
      not reach the end. */
  lemma UnanchoredMatch()
    ensures Classify("x4MW21EC9") == ElecComm
  {
    var s := "x4MW21EC9";
    assert !PrefixAt(s, 0);
    assert s[4..] == "21EC9";
    TwoDigitRun(s[4..]);
    assert MatchAt(s, 1) == Some(EC);
    FirstMatchReaches(s, 0, 1);
  }

  /** At least one digit must follow "4MW". */
  lemma DigitsRequired()
    ensures Classify("4MWCS1") == AiMl
  {
    var s := "4MWCS1";
    assert s[3..] == "CS1";
    assert LeadingDigits(s[3..]) == 0;
    assert forall i: nat :: 0 < i < |s| ==> !PrefixAt(s, i);
    assert forall i: nat :: i < |s| ==> MatchAt(s, i).None?;
    FirstMatchIsLeftmost(s, 0);
    assert forall p: nat :: !MatchStartsAt(s, p) by {
      forall p: nat ensures !MatchStartsAt(s, p) {
        NoMatchStartsAt(s, p);
      }
    }
  }

  lemma NoMatchIsDefault()
    ensures Classify("garbage") == AiMl
  {
    var s := "garbage";
    assert forall i: nat :: i < |s| ==> !PrefixAt(s, i);
    forall p: nat
      ensures !MatchStartsAt(s, p)
    {
      NoMatchStartsAt(s, p);
    }
    FirstMatchIsLeftmost(s, 0);
  }
}
