/** The value-level rules of the grade book in Agents/asdsa/lb.py: rounding
    of grades to hundredths, the letter bands, subject-name normalisation,
    student validation, and the state of subjects, students and the manager
    as values, together with what saving turns them into and what loading
    rebuilds. The classes in the GradeBook module are specified by these
    functions.

    Grades are held as integer hundredths (8550 for 85.5). A score handed
    in is the decimal value written by Python's `str` of that int or float
    (`Finite`), a NaN, or an infinity. The model takes the reading in which
    the dataclass and constructor hooks run (they are spelt `_post_init_`
    and `_init_` in the source, so Python never calls them; see
    `UnhookedStateInvalid`). */
module Grades {
  import opened Wrappers
  import opened Text

  // ---------------------------------------------------------------------------
  // Errors
  // ---------------------------------------------------------------------------

  /** The exceptions the grade book raises, by cause. The first five are
      GradeError, the next four StudentError; a failed load raises
      DataPersistenceError around its cause. `AttributeError` is what the
      source as written raises instead of GradeError (see
      `AddGradeAsWritten`). */
  datatype GradeBookError =
    | InvalidScore
    | OutOfValidRange
    | GradeOutOfRange
    | MaxGradesReached(maxGrades: int, subject: string)
    | InvalidGradeFormat
    | InvalidStudentId(id: int)
    | InvalidStudentName(name: string)
    | DuplicateStudentId(id: int)
    | StudentNotFound(id: int)
    | InvalidStudentKey(key: string)
    | LoadFailed(cause: GradeBookError)
    | AttributeError

  predicate IsGradeError(e: GradeBookError)
  {
    e.InvalidScore? || e.OutOfValidRange? || e.GradeOutOfRange? || e.MaxGradesReached? || e.InvalidGradeFormat?
  }

  predicate IsStudentError(e: GradeBookError)
  {
    e.InvalidStudentId? || e.InvalidStudentName? || e.DuplicateStudentId? || e.StudentNotFound?
  }

  // ---------------------------------------------------------------------------
  // Scores and rounding to hundredths
  // ---------------------------------------------------------------------------

  /** An int or float argument: the decimal value of `str(x)`, NaN, or an infinity. */
  datatype Score = Finite(value: real) | NaN | Infinite

  /** Decimal's ROUND_HALF_UP to an integer: to the nearest, ties away from zero. */
  function RoundHalfUp(y: real): (n: int)
    ensures y >= 0.0 ==> n >= 0 && n as real - 0.5 <= y < n as real + 0.5
    ensures y < 0.0 ==> n <= 0 && n as real - 0.5 < y <= n as real + 0.5
  {
    if y >= 0.0 then (y + 0.5).Floor else -((-y + 0.5).Floor)
  }

  /** `Decimal(str(x)).quantize(Decimal('0.01'), ROUND_HALF_UP)`, in hundredths. */
  function Quantize(x: real): int
  {
    RoundHalfUp(x * 100.0)
  }

  /** The real number a count of hundredths stands for. */
  function Hundredths(h: int): real
  {
    h as real / 100.0
  }

  /** A value that already has two decimals is kept as it is. */
  lemma QuantizeHundredths(h: int)
    ensures Quantize(Hundredths(h)) == h
  {
    assert Hundredths(h) * 100.0 == h as real;
    var n := RoundHalfUp(h as real);
    assert n - 1 < h < n + 1;
  }

  /** Rounding moves a value by at most half a hundredth. */
  lemma QuantizeClose(x: real)
    ensures -0.005 <= Hundredths(Quantize(x)) - x <= 0.005
  {
  }

  /** The default decimal context keeps 28 significant digits: a quantized
      coefficient (here the count of hundredths) of 29 digits or more signals
      InvalidOperation, which is the case for magnitudes of 10^26 and up. */
  const CoefficientLimit: int := 10000000000000000000000000000

  predicate QuantizeOverflows(h: int)
  {
    h >= CoefficientLimit || h <= -CoefficientLimit
  }

  /** The stored range of a grade: 0 to 100, that is 0 to 10000 hundredths. */
  predicate InRange(h: int)
  {
    0 <= h <= 10000
  }

  // ---------------------------------------------------------------------------
  // The Grade enumeration and Grade.from_score
  // ---------------------------------------------------------------------------

  datatype Letter = A | B | C | D | F

  /** One member of the enumeration: its letter and its lowest and highest score. */
  datatype Band = Band(letter: Letter, low: real, high: real)

  /** The members in declaration order. */
  function Bands(): seq<Band>
  {
    [Band(A, 90.0, 100.0), Band(B, 80.0, 89.99), Band(C, 70.0, 79.99), Band(D, 60.0, 69.99), Band(F, 0.0, 59.99)]
  }

  predicate InBand(x: real, b: Band)
  {
    b.low <= x <= b.high
  }

  /** The member a letter names. */
  function BandOf(l: Letter): (b: Band)
    ensures b in Bands() && b.letter == l
  {
    match l
    case A => Bands()[0]
    case B => Bands()[1]
    case C => Bands()[2]
    case D => Bands()[3]
    case F => Bands()[4]
  }

  /** What Grade.from_score returns or raises: InvalidScore for an infinity
      or a number outside 0..100; for a number inside it the first band by
      declaration order, or OutOfValidRange when it falls between two bands.
      A NaN passes the range test (every comparison with it is false) and
      then matches no band. */
  function Classify(score: Score): (r: Result<Letter, GradeBookError>)
    ensures score.Infinite? ==> r == Err(InvalidScore)
    ensures score.Finite? && (score.value < 0.0 || score.value > 100.0) ==> r == Err(InvalidScore)
    ensures score.NaN? ==> r == Err(OutOfValidRange)
    ensures r.Ok? ==> score.Finite? && InBand(score.value, BandOf(r.value))
  {
    match score
    case Infinite => Err(InvalidScore)
    case NaN => Err(OutOfValidRange)
    case Finite(x) =>
      if x < 0.0 || x > 100.0 then Err(InvalidScore)
      else if InBand(x, Bands()[0]) then Ok(A)
      else if InBand(x, Bands()[1]) then Ok(B)
      else if InBand(x, Bands()[2]) then Ok(C)
      else if InBand(x, Bands()[3]) then Ok(D)
      else if InBand(x, Bands()[4]) then Ok(F)
      else Err(OutOfValidRange)
  }

  /** Grade.from_score: the range test, then the scan over the members. */
  method FromScore(score: Score) returns (r: Result<Letter, GradeBookError>)
    ensures r == Classify(score)
  {
    if score.Infinite? || (score.Finite? && (score.value < 0.0 || score.value > 100.0)) {
      return Err(InvalidScore);
    }
    var bands := Bands();
    for i := 0 to |bands|
      invariant forall j :: 0 <= j < i ==> !(score.Finite? && InBand(score.value, bands[j]))
    {
      if score.Finite? && InBand(score.value, bands[i]) {
        return Ok(bands[i].letter);
      }
    }
    return Err(OutOfValidRange);
  }

  /** The bands never overlap, so a score is in at most one of them. */
  lemma BandsDisjoint(x: real, i: nat, j: nat)
    requires i < |Bands()| && j < |Bands()|
    requires InBand(x, Bands()[i]) && InBand(x, Bands()[j])
    ensures i == j
  {
  }

  /** The letter scale on two-decimal scores: A from 90, B from 80, C from
      70, D from 60, F below. */
  function LetterOfHundredths(h: int): Letter
  {
    if h >= 9000 then A else if h >= 8000 then B else if h >= 7000 then C else if h >= 6000 then D else F
  }

  /** On every two-decimal score from 0 to 100 the scan finds a band, the
      one of the letter scale. */
  lemma ClassifyHundredths(h: int)
    requires InRange(h)
    ensures Classify(Finite(Hundredths(h))) == Ok(LetterOfHundredths(h))
  {
  }

  /** A score with more decimals can fall between two bands and is then
      rejected although it lies inside 0..100. */
  lemma ClassifyGap()
    ensures Classify(Finite(89.995)) == Err(OutOfValidRange)
  {
  }

  // ---------------------------------------------------------------------------
  // Subject names
  // ---------------------------------------------------------------------------

  /** The characters Python's str.isspace accepts, which str.strip removes. */
  predicate IsPySpace(c: char)
  {
    ('\t' <= c <= '\r') || ('\U{001C}' <= c <= ' ') || c == '\U{0085}' || c == '\U{00A0}'
    || c == '\U{1680}' || ('\U{2000}' <= c <= '\U{200A}') || c == '\U{2028}' || c == '\U{2029}'
    || c == '\U{202F}' || c == '\U{205F}' || c == '\U{3000}'
  }

  function Strip(s: string): string
  {
    TrimBy(s, IsPySpace)
  }

  predicate IsUpperAscii(c: char)
  {
    'A' <= c <= 'Z'
  }

  predicate IsLowerAscii(c: char)
  {
    'a' <= c <= 'z'
  }

  function LowerAll(s: string): (r: string)
    ensures |r| == |s| && forall k :: 0 <= k < |s| ==> r[k] == LowerAscii(s[k])
  {
    seq(|s|, k requires 0 <= k < |s| => LowerAscii(s[k]))
  }

  /** str.capitalize over ASCII letters: the first character upper-cased, the
      rest lower-cased; every other character keeps its case. */
  function Capitalize(s: string): (r: string)
    ensures |r| == |s|
  {
    if s == [] then [] else [UpperAscii(s[0])] + LowerAll(s[1..])
  }

  /** ASCII case mapping keeps white space white space and everything else not. */
  lemma CaseMapFacts(c: char)
    ensures IsPySpace(LowerAscii(c)) == IsPySpace(c) && IsPySpace(UpperAscii(c)) == IsPySpace(c)
    ensures !IsUpperAscii(LowerAscii(c)) && !IsLowerAscii(UpperAscii(c))
    ensures LowerAscii(LowerAscii(c)) == LowerAscii(c)
    ensures UpperAscii(LowerAscii(UpperAscii(c))) == UpperAscii(c)
  {
  }

  lemma CapitalizeFacts(t: string)
    requires t != [] ==> !IsPySpace(t[0]) && !IsPySpace(t[|t| - 1])
    ensures var r := Capitalize(LowerAll(t));
            |r| == |t|
            && (r != [] ==> !IsPySpace(r[0]) && !IsPySpace(r[|r| - 1]) && !IsLowerAscii(r[0]))
            && forall k :: 1 <= k < |r| ==> !IsUpperAscii(r[k])
  {
    var r := Capitalize(LowerAll(t));
    if t != [] {
      CaseMapFacts(t[0]);
      CaseMapFacts(t[|t| - 1]);
      CaseMapFacts(LowerAscii(t[0]));
      CaseMapFacts(LowerAscii(t[|t| - 1]));
      assert r[0] == UpperAscii(LowerAscii(t[0]));
      assert |r| > 1 ==> r[|r| - 1] == LowerAscii(LowerAscii(t[|t| - 1]));
      forall k | 1 <= k < |r| ensures !IsUpperAscii(r[k]) {
        assert r[k] == LowerAscii(LowerAscii(t[k]));
        CaseMapFacts(LowerAscii(t[k]));
      }
    }
  }

  /** Subject._normalize_subject_name: strip, lower, capitalize. The result
      has no surrounding white space, no capital after its first character
      and no lower-case letter first; it is empty exactly for a blank name. */
  function NormalizeSubjectName(name: string): (r: string)
    ensures |r| == |Strip(name)|
    ensures r == [] <==> All(name, IsPySpace)
    ensures r != [] ==> !IsPySpace(r[0]) && !IsPySpace(r[|r| - 1]) && !IsLowerAscii(r[0])
    ensures forall k :: 1 <= k < |r| ==> !IsUpperAscii(r[k])
  {
    var t := Strip(name);
    CapitalizeFacts(t);
    Capitalize(LowerAll(t))
  }

  lemma StripKeepsTrimmed(s: string)
    requires s != [] ==> !IsPySpace(s[0]) && !IsPySpace(s[|s| - 1])
    ensures Strip(s) == s
  {
    if s != [] {
      assert RunFrom(s, 0, IsPySpace) == 0;
      assert TrailingRun(s, IsPySpace) == 0;
      assert s[0..|s| - 0] == s;
    }
  }

  /** Normalising twice is normalising once, so `add_subject` applied to an
      already normalised key finds that key again. */
  lemma NormalizeIdempotent(name: string)
    ensures NormalizeSubjectName(NormalizeSubjectName(name)) == NormalizeSubjectName(name)
  {
    NormalizeKeeps(NormalizeSubjectName(name));
  }

  /** A name already in normal shape is left alone by normalisation. */
  lemma NormalizeKeeps(s: string)
    requires s != [] ==> !IsPySpace(s[0]) && !IsPySpace(s[|s| - 1]) && !IsLowerAscii(s[0])
    requires forall k :: 1 <= k < |s| ==> !IsUpperAscii(s[k])
    ensures NormalizeSubjectName(s) == s
  {
    StripKeepsTrimmed(s);
    CapitalizeKeeps(s);
  }

  lemma CapitalizeKeeps(s: string)
    requires s != [] ==> !IsLowerAscii(s[0])
    requires forall k :: 1 <= k < |s| ==> !IsUpperAscii(s[k])
    ensures Capitalize(LowerAll(s)) == s
  {
    if s != [] {
      var r := Capitalize(LowerAll(s));
      forall k | 0 <= k < |s| ensures r[k] == s[k] {
        if k == 0 {
          assert r[0] == UpperAscii(LowerAscii(s[0]));
        } else {
          assert r[k] == LowerAscii(LowerAscii(s[k]));
        }
      }
    }
  }

  /** No capital anywhere in `s`. */
  predicate NoCapitals(s: string)
    decreases |s|
  {
    s == [] || (!IsUpperAscii(s[0]) && NoCapitals(s[1..]))
  }

  lemma {:induction false} NoCapitalsIff(s: string)
    ensures NoCapitals(s) <==> forall k :: 0 <= k < |s| ==> !IsUpperAscii(s[k])
    decreases |s|
  {
    if s != [] {
      NoCapitalsIff(s[1..]);
      assert forall k :: 1 <= k < |s| ==> s[k] == s[1..][k - 1];
    }
  }

  /** A name in normal form, character by character: empty, or with no
      white space at either end, no lower-case letter first and no capital
      after it. */
  predicate NormalForm(s: string)
  {
    s == [] || (!IsPySpace(s[0]) && !IsPySpace(s[|s| - 1]) && !IsLowerAscii(s[0]) && NoCapitals(s[1..]))
  }

  /** The names normalisation leaves alone are exactly those in normal form,
      and every normalised name is in normal form. */
  lemma NormalFormIff(s: string)
    ensures NormalForm(s) <==> NormalizeSubjectName(s) == s
    ensures NormalForm(NormalizeSubjectName(s))
  {
    NormalFormTail(NormalizeSubjectName(s));
    if NormalForm(s) && s != [] {
      NoCapitalsIff(s[1..]);
      assert forall k :: 1 <= k < |s| ==> s[k] == s[1..][k - 1];
      NormalizeKeeps(s);
    }
  }

  lemma NormalFormTail(n: string)
    requires n != [] ==> forall k :: 1 <= k < |n| ==> !IsUpperAscii(n[k])
    ensures n != [] ==> NoCapitals(n[1..])
  {
    if n != [] {
      NoCapitalsIff(n[1..]);
      assert forall k :: 0 <= k < |n[1..]| ==> n[1..][k] == n[k + 1];
    }
  }

  lemma UpperInjective(x: char, y: char)
    requires !IsUpperAscii(x) && !IsUpperAscii(y) && UpperAscii(x) == UpperAscii(y)
    ensures x == y
  {
  }

  /** Capitalising is one-to-one on strings without capitals. */
  lemma CapitalizeInjective(u: string, v: string)
    requires forall k :: 0 <= k < |u| ==> !IsUpperAscii(u[k])
    requires forall k :: 0 <= k < |v| ==> !IsUpperAscii(v[k])
    requires Capitalize(u) == Capitalize(v)
    ensures u == v
  {
    var cu := Capitalize(u);
    var cv := Capitalize(v);
    assert |u| == |v|;
    if u != [] {
      forall k | 0 <= k < |u| ensures u[k] == v[k] {
        if k == 0 {
          assert cu[0] == UpperAscii(u[0]) && cv[0] == UpperAscii(v[0]);
          UpperInjective(u[0], v[0]);
        } else {
          assert cu[k] == LowerAscii(u[k]) && cv[k] == LowerAscii(v[k]);
        }
      }
    }
  }

  /** Two names denote the same subject exactly when they agree after
      stripping and lower-casing: 'MATH', 'math' and 'Math ' all become 'Math'. */
  lemma NormalizeSameIff(a: string, b: string)
    ensures NormalizeSubjectName(a) == NormalizeSubjectName(b) <==> LowerAll(Strip(a)) == LowerAll(Strip(b))
  {
    var u := LowerAll(Strip(a));
    var v := LowerAll(Strip(b));
    if NormalizeSubjectName(a) == NormalizeSubjectName(b) {
      forall k | 0 <= k < |u| ensures !IsUpperAscii(u[k]) {
        CaseMapFacts(Strip(a)[k]);
      }
      forall k | 0 <= k < |v| ensures !IsUpperAscii(v[k]) {
        CaseMapFacts(Strip(b)[k]);
      }
      CapitalizeInjective(u, v);
    }
  }

  lemma LowerMath()
    ensures LowerAll("MATH") == "math" && LowerAll("math") == "math" && LowerAll("Math") == "math"
    ensures Capitalize("math") == "Math"
  {
    assert LowerAll("ath") == "ath";
  }

  lemma StripMath()
    ensures Strip("MATH") == "MATH" && Strip("math") == "math" && Strip("Math ") == "Math"
  {
    StripKeepsTrimmed("MATH");
    StripKeepsTrimmed("math");
    var s := "Math ";
    assert RunFrom(s, 0, IsPySpace) == 0;
    assert TrailingRun(s[..4], IsPySpace) == 0;
    assert TrailingRun(s, IsPySpace) == 1;
    assert s[0..4] == "Math";
  }

  /** The three spellings of the test suite name one subject, 'Math'. */
  lemma NormalizeExamples()
    ensures NormalizeSubjectName("MATH") == "Math"
    ensures NormalizeSubjectName("math") == "Math"
    ensures NormalizeSubjectName("Math ") == "Math"
  {
    StripMath();
    LowerMath();
  }

  // ---------------------------------------------------------------------------
  // Subjects
  // ---------------------------------------------------------------------------

  /** The default of Subject.max_grades. */
  const DefaultMaxGrades: int := 50

  /** A subject's name, grade limit and grades (in hundredths), in order of
      addition. The average cache is a field of the class only. */
  datatype SubjectState = SubjectState(name: string, maxGrades: int, grades: seq<int>)

  /** `Subject(name, max_grades)`: no grades yet, the name normalised by the hook. */
  function NewSubject(name: string, maxGrades: int): SubjectState
  {
    SubjectState(NormalizeSubjectName(name), maxGrades, [])
  }

  predicate AllInRange(gs: seq<int>)
  {
    forall k :: 0 <= k < |gs| ==> InRange(gs[k])
  }

  /** What every subject satisfies: a normalised name, stored grades within
      0..100, and no more grades than its limit. */
  predicate ValidSubject(s: SubjectState)
  {
    NormalForm(s.name) && AllInRange(s.grades) && (s.grades == [] || |s.grades| <= s.maxGrades)
  }

  lemma NewSubjectValid(name: string, maxGrades: int)
    ensures ValidSubject(NewSubject(name, maxGrades))
  {
    NormalFormIff(name);
  }

  /** Subject.add_grade: round half-up to hundredths, then reject a value
      outside 0..100 (a NaN included), then reject when the limit is
      reached; otherwise append the rounded value. An infinity, or a value
      too large for the decimal context, cannot be rounded and is rejected
      as a format error. */
  function AddGradeTo(s: SubjectState, score: Score): (r: Result<SubjectState, GradeBookError>)
    ensures r.Ok? <==> score.Finite? && InRange(Quantize(score.value)) && |s.grades| < s.maxGrades
    ensures r.Ok? ==> r.value == s.(grades := s.grades + [Quantize(score.value)])
    ensures r.Err? ==> IsGradeError(r.error)
    ensures r.Err? ==> (r.error.MaxGradesReached? <==> score.Finite? && InRange(Quantize(score.value)))
    ensures r == Err(InvalidGradeFormat) <==>
              score.Infinite? || (score.Finite? && QuantizeOverflows(Quantize(score.value)))
  {
    match score
    case NaN => Err(GradeOutOfRange)
    case Infinite => Err(InvalidGradeFormat)
    case Finite(x) =>
      var h := Quantize(x);
      if QuantizeOverflows(h) then Err(InvalidGradeFormat)
      else if !InRange(h) then Err(GradeOutOfRange)
      else if |s.grades| >= s.maxGrades then Err(MaxGradesReached(s.maxGrades, s.name))
      else Ok(s.(grades := s.grades + [h]))
  }

  /** Adding a grade keeps a subject valid. */
  lemma AddGradePreservesValid(s: SubjectState, score: Score)
    requires ValidSubject(s)
    ensures AddGradeTo(s, score).Ok? ==> ValidSubject(AddGradeTo(s, score).value)
  {
  }

  /** Subject.add_grade as written: its handler names `Decimal.InvalidOperation`,
      an attribute the Decimal class does not have, so whenever the body
      raises, evaluating the handler raises AttributeError instead. */
  function AddGradeAsWritten(s: SubjectState, score: Score): (r: Result<SubjectState, GradeBookError>)
    ensures r.Ok? <==> AddGradeTo(s, score).Ok?
    ensures r.Err? ==> r.error == AttributeError
  {
    match AddGradeTo(s, score)
    case Ok(t) => Ok(t)
    case Err(_) => Err(AttributeError)
  }

  /** The test suite's negative grade: as written it raises AttributeError,
      not the GradeError the suite expects. */
  lemma NegativeGradeRaisesAttributeError(s: SubjectState)
    ensures AddGradeAsWritten(s, Finite(-10.0)) == Err(AttributeError)
    ensures AddGradeTo(s, Finite(-10.0)) == Err(GradeOutOfRange)
  {
    assert Quantize(-10.0) == -1000;
  }

  /** Python's sum over the stored grades. */
  function Sum(gs: seq<int>): int
  {
    if gs == [] then 0 else gs[0] + Sum(gs[1..])
  }

  lemma {:induction false} SumBounds(gs: seq<int>)
    requires AllInRange(gs)
    ensures 0 <= Sum(gs) <= 10000 * |gs|
  {
    if gs != [] {
      SumBounds(gs[1..]);
    }
  }

  /** Subject.average: none without grades, otherwise the mean rounded
      half-up to hundredths. */
  function AverageOf(grades: seq<int>): (r: Option<int>)
    ensures r.None? <==> grades == []
  {
    if grades == [] then None else Some(RoundHalfUp(Sum(grades) as real / |grades| as real))
  }

  /** The average of stored grades is itself a grade within 0..100, and it
      is the mean to within half a hundredth. */
  lemma AverageInRange(grades: seq<int>)
    requires AllInRange(grades) && grades != []
    ensures InRange(AverageOf(grades).value)
    ensures var n := |grades| as real; var m := Sum(grades) as real / n;
            AverageOf(grades).value as real - 0.5 <= m < AverageOf(grades).value as real + 0.5
  {
    SumBounds(grades);
    var n := |grades| as real;
    var total := Sum(grades) as real;
    var m := total / n;
    DivAtMost(total, n, 10000.0);
  }

  /** Dividing a total of at most `b` per item by the number of items gives at most `b`. */
  lemma DivAtMost(total: real, n: real, b: real)
    requires n > 0.0 && total <= b * n
    ensures total / n <= b
  {
    assert total / n <= (b * n) / n;
  }

  /** Grades all equal to `h` average to `h`. */
  lemma {:induction false} AverageOfEqual(h: int, n: nat)
    requires n > 0
    ensures AverageOf(seq(n, _ => h)) == Some(h)
  {
    SumOfEqual(h, n);
    var m := (h * n) as real / n as real;
    assert m == h as real;
  }

  lemma {:induction false} SumOfEqual(h: int, n: nat)
    ensures Sum(seq(n, _ => h)) == h * n
  {
    if n > 0 {
      assert seq(n, _ => h)[1..] == seq(n - 1, _ => h);
      SumOfEqual(h, n - 1);
    }
  }

  /** The test suite's three grades, 85.5, 90.5 and 88.0, average to 88.0. */
  lemma AverageExample()
    ensures AverageOf([8550, 9050, 8800]) == Some(8800)
  {
    assert [8550, 9050, 8800][1..] == [9050, 8800];
    assert [9050, 8800][1..] == [8800];
    assert Sum([8550, 9050, 8800]) == 26400;
  }

  /** Subject.letter_grade: none without grades, otherwise Grade.from_score
      of the average (which raises when the average is not a score). */
  function LetterGradeOf(grades: seq<int>): Result<Option<Letter>, GradeBookError>
  {
    match AverageOf(grades)
    case None => Ok(None)
    case Some(a) =>
      match Classify(Finite(Hundredths(a)))
      case Ok(l) => Ok(Some(l))
      case Err(e) => Err(e)
  }

  /** For stored grades the letter grade never raises: it is none exactly
      when there are no grades, and otherwise the letter of the average. */
  lemma LetterGradeAgrees(grades: seq<int>)
    requires AllInRange(grades)
    ensures LetterGradeOf(grades).Ok?
    ensures LetterGradeOf(grades).value.None? <==> grades == []
    ensures grades != [] ==> LetterGradeOf(grades).value == Some(LetterOfHundredths(AverageOf(grades).value))
  {
    if grades != [] {
      AverageInRange(grades);
      ClassifyHundredths(AverageOf(grades).value);
    }
  }

  /** A subject with one grade has that grade's letter: 95, 85, 75, 65 and
      55 give A, B, C, D and F. */
  lemma LetterGradeSingle(h: int)
    requires InRange(h)
    ensures LetterGradeOf([h]) == Ok(Some(LetterOfHundredths(h)))
  {
    AverageOfEqual(h, 1);
    assert seq(1, _ => h) == [h];
    ClassifyHundredths(h);
  }

  // ---------------------------------------------------------------------------
  // Students
  // ---------------------------------------------------------------------------

  /** Student.validate_student_data: the id must be at least 1 and the name
      must not be blank; the name is then kept stripped. The source tests
      the name before stripping it (see `ValidateStudentDataAsWritten`);
      this is the check it evidently means, which makes every stored name a
      name validation accepts again. */
  function ValidateStudentData(id: int, name: string): (r: Result<string, GradeBookError>)
    ensures r.Ok? <==> id >= 1 && !All(name, IsPySpace)
    ensures r.Ok? ==> r.value == Strip(name) && r.value != []
    ensures r.Err? ==> IsStudentError(r.error)
    ensures id < 1 ==> r == Err(InvalidStudentId(id))
  {
    if id < 1 then Err(InvalidStudentId(id))
    else if Strip(name) == [] then Err(InvalidStudentName(name))
    else Ok(Strip(name))
  }

  /** A validated name passes validation again unchanged. */
  lemma ValidatedNameRevalidates(id: int, name: string)
    requires ValidateStudentData(id, name).Ok?
    ensures ValidateStudentData(id, ValidateStudentData(id, name).value) == ValidateStudentData(id, name)
  {
    TrimByIdempotent(name, IsPySpace);
  }

  /** validate_student_data as written: only the empty name is refused
      before stripping, so a blank name is stored as the empty string. */
  function ValidateStudentDataAsWritten(id: int, name: string): (r: Result<string, GradeBookError>)
    ensures r.Ok? <==> id >= 1 && name != []
    ensures r.Ok? ==> r.value == Strip(name)
  {
    if id < 1 then Err(InvalidStudentId(id))
    else if name == [] then Err(InvalidStudentName(name))
    else Ok(Strip(name))
  }

  /** A student named "   " is accepted and stored as "", a name that the
      same validation refuses when the saved data is loaded again. */
  lemma BlankNameBreaksReload()
    ensures ValidateStudentDataAsWritten(1, "   ") == Ok("")
    ensures ValidateStudentDataAsWritten(1, "") == Err(InvalidStudentName(""))
    ensures ValidateStudentData(1, "   ").Err?
  {
    assert All("   ", IsPySpace);
  }

  /** A student: id, name, and subjects keyed by their normalised names. */
  datatype StudentState = StudentState(id: int, name: string, subjects: map<string, SubjectState>)

  /** Every subject sits under its own name and is valid. */
  predicate SubjectsKeyed(subjects: map<string, SubjectState>)
  {
    forall k :: k in subjects ==> subjects[k].name == k && ValidSubject(subjects[k])
  }

  predicate ValidStudent(st: StudentState)
  {
    ValidateStudentData(st.id, st.name) == Ok(st.name) && SubjectsKeyed(st.subjects)
  }

  /** Student.add_subject: create the normalised subject when it is absent;
      an existing subject is never replaced. */
  function AddSubject(st: StudentState, subjectName: string): (r: StudentState)
    ensures r.id == st.id && r.name == st.name
    ensures r.subjects.Keys == st.subjects.Keys + {NormalizeSubjectName(subjectName)}
    ensures forall k :: k in st.subjects ==> r.subjects[k] == st.subjects[k]
    ensures NormalizeSubjectName(subjectName) !in st.subjects ==>
              r.subjects[NormalizeSubjectName(subjectName)] == NewSubject(subjectName, DefaultMaxGrades)
  {
    var n := NormalizeSubjectName(subjectName);
    if n in st.subjects then st
    else
      NormalizeIdempotent(subjectName);
      st.(subjects := st.subjects[n := NewSubject(n, DefaultMaxGrades)])
  }

  /** The two cases of add_subject, with the new subject built from the
      normalised name. */
  lemma AddSubjectCases(st: StudentState, subjectName: string)
    ensures var n := NormalizeSubjectName(subjectName);
            && (n in st.subjects ==> AddSubject(st, subjectName) == st)
            && (n !in st.subjects ==> AddSubject(st, subjectName) == st.(subjects := st.subjects[n := NewSubject(n, DefaultMaxGrades)]))
  {
    NormalizeIdempotent(subjectName);
  }

  lemma AddSubjectPreservesValid(st: StudentState, subjectName: string)
    requires ValidStudent(st)
    ensures ValidStudent(AddSubject(st, subjectName))
  {
    NewSubjectValid(subjectName, DefaultMaxGrades);
  }

  /** Student.add_grade: the grade goes to the subject of the normalised
      name, created first when absent. The new subject stays even when the
      grade is then rejected; every other subject is untouched. */
  function StudentAddGrade(st: StudentState, subjectName: string, score: Score): (StudentState, Option<GradeBookError>)
  {
    var n := NormalizeSubjectName(subjectName);
    NormalizeIdempotent(subjectName);
    var st1 := if n in st.subjects then st else AddSubject(st, n);
    match AddGradeTo(st1.subjects[n], score)
    case Ok(s) => (st1.(subjects := st1.subjects[n := s]), None)
    case Err(e) => (st1, Some(e))
  }

  /** What Student.add_grade changes: the subject of the normalised name
      is created when absent and then takes the grade or reports the
      rejection; the id, the name and every other subject stay. */
  lemma StudentAddGradeEffect(st: StudentState, subjectName: string, score: Score)
    ensures var n := NormalizeSubjectName(subjectName);
            var base := AddSubject(st, subjectName).subjects[n];
            var (st', e) := StudentAddGrade(st, subjectName, score);
            && st'.id == st.id && st'.name == st.name
            && st'.subjects.Keys == st.subjects.Keys + {n}
            && (forall k :: k in st.subjects && k != n ==> st'.subjects[k] == st.subjects[k])
            && (AddGradeTo(base, score).Ok? ==> st'.subjects[n] == AddGradeTo(base, score).value && e == None)
            && (AddGradeTo(base, score).Err? ==> st'.subjects[n] == base && e == Some(AddGradeTo(base, score).error))
  {
    NormalizeIdempotent(subjectName);
  }

  /** Student.add_grade as its two steps: add_subject, then the subject's
      add_grade. */
  lemma StudentAddGradeSteps(st: StudentState, subjectName: string, score: Score)
    ensures var n := NormalizeSubjectName(subjectName);
            var st1 := AddSubject(st, subjectName);
            && n in st1.subjects
            && (AddGradeTo(st1.subjects[n], score).Ok? ==>
                  StudentAddGrade(st, subjectName, score) == (st1.(subjects := st1.subjects[n := AddGradeTo(st1.subjects[n], score).value]), None))
            && (AddGradeTo(st1.subjects[n], score).Err? ==>
                  StudentAddGrade(st, subjectName, score) == (st1, Some(AddGradeTo(st1.subjects[n], score).error)))
  {
    NormalizeIdempotent(subjectName);
    AddSubjectCases(st, subjectName);
  }

  lemma StudentAddGradePreservesValid(st: StudentState, subjectName: string, score: Score)
    requires ValidStudent(st)
    ensures ValidStudent(StudentAddGrade(st, subjectName, score).0)
  {
    AddSubjectPreservesValid(st, subjectName);
    var n := NormalizeSubjectName(subjectName);
    var base := AddSubject(st, subjectName).subjects[n];
    AddGradePreservesValid(base, score);
    var r := StudentAddGrade(st, subjectName, score).0;
    forall k | k in r.subjects ensures r.subjects[k].name == k && ValidSubject(r.subjects[k]) {
      if k != n {
        assert r.subjects[k] == st.subjects[k];
      }
    }
  }

  /** A grade for a subject the student already has goes to that subject. */
  lemma AddToExisting(st: StudentState, subjectName: string, h: int)
    requires InRange(h) && NormalizeSubjectName(subjectName) in st.subjects
    requires |st.subjects[NormalizeSubjectName(subjectName)].grades| < st.subjects[NormalizeSubjectName(subjectName)].maxGrades
    ensures var r := StudentAddGrade(st, subjectName, Finite(Hundredths(h))).0; var n := NormalizeSubjectName(subjectName);
            r.subjects.Keys == st.subjects.Keys && r.subjects[n] == st.subjects[n].(grades := st.subjects[n].grades + [h])
  {
    QuantizeHundredths(h);
    StudentAddGradeEffect(st, subjectName, Finite(Hundredths(h)));
  }

  /** The test suite's three spellings land in one subject, 'Math', which
      holds the three grades in order. */
  lemma StudentMergesSpellings(st0: StudentState)
    requires st0.subjects == map[]
    ensures var st1 := StudentAddGrade(st0, "MATH", Finite(Hundredths(8500))).0;
            var st2 := StudentAddGrade(st1, "math", Finite(Hundredths(9000))).0;
            var st3 := StudentAddGrade(st2, "Math ", Finite(Hundredths(9500))).0;
            st3.subjects.Keys == {"Math"} && st3.subjects["Math"].grades == [8500, 9000, 9500]
  {
    NormalizeExamples();
    ThreeGradesOneSubject(st0, "MATH", "math", "Math ", "Math", 8500, 9000, 9500);
  }

  /** Three grades under three spellings of one normalised name land in one
      subject of a student with no subjects, in order. */
  lemma ThreeGradesOneSubject(st0: StudentState, a: string, b: string, c: string, n: string, h1: int, h2: int, h3: int)
    requires st0.subjects == map[]
    requires NormalizeSubjectName(a) == n && NormalizeSubjectName(b) == n && NormalizeSubjectName(c) == n
    requires InRange(h1) && InRange(h2) && InRange(h3)
    ensures var st1 := StudentAddGrade(st0, a, Finite(Hundredths(h1))).0;
            var st2 := StudentAddGrade(st1, b, Finite(Hundredths(h2))).0;
            var st3 := StudentAddGrade(st2, c, Finite(Hundredths(h3))).0;
            st3.subjects.Keys == {n} && st3.subjects[n].grades == [h1, h2, h3]
  {
    FirstGrade(st0, a, n, h1);
    var st1 := StudentAddGrade(st0, a, Finite(Hundredths(h1))).0;
    AddToExisting(st1, b, h2);
    var st2 := StudentAddGrade(st1, b, Finite(Hundredths(h2))).0;
    assert st2.subjects.Keys == {n} && st2.subjects[n].grades == [h1, h2];
    assert st2.subjects[n].maxGrades == DefaultMaxGrades;
    AddToExisting(st2, c, h3);
  }

  /** The first grade of a student with no subjects creates its subject. */
  lemma FirstGrade(st0: StudentState, a: string, n: string, h: int)
    requires st0.subjects == map[] && NormalizeSubjectName(a) == n && InRange(h)
    ensures var st1 := StudentAddGrade(st0, a, Finite(Hundredths(h))).0;
            st1.subjects.Keys == {n} && st1.subjects[n].grades == [h] && st1.subjects[n].maxGrades == DefaultMaxGrades
  {
    QuantizeHundredths(h);
    StudentAddGradeEffect(st0, a, Finite(Hundredths(h)));
  }

  /** The dataclass initialisers alone, which is all Python runs: the hooks
      are spelt `_post_init_` (and the manager's `_init_`), so neither the
      name normalisation nor the student validation takes place. */
  function SubjectAsWritten(name: string, maxGrades: int): (s: SubjectState)
    ensures s.name == name && s.grades == []
  {
    SubjectState(name, maxGrades, [])
  }

  function StudentAsWritten(id: int, name: string): (st: StudentState)
    ensures st.id == id && st.name == name && st.subjects == map[]
  {
    StudentState(id, name, map[])
  }

  /** Without the hooks, `Student(-1, "Invalid ID")` is created although
      the test suite expects StudentError, and `Subject("MATH")` keeps a
      name that is not normalised. */
  lemma UnhookedStateInvalid()
    ensures !ValidStudent(StudentAsWritten(-1, "Invalid ID"))
    ensures !ValidSubject(SubjectAsWritten("MATH", DefaultMaxGrades))
  {
    NormalizeExamples();
  }

  // ---------------------------------------------------------------------------
  // The grade manager
  // ---------------------------------------------------------------------------

  /** GradeManager.students: the students by id. */
  type Book = map<int, StudentState>

  predicate ValidBook(b: Book)
  {
    forall id :: id in b ==> b[id].id == id && ValidStudent(b[id])
  }

  /** GradeManager.add_student: an existing id is refused and the students
      are left as they were; otherwise the student is validated and added. */
  function BookAddStudent(b: Book, id: int, name: string): (r: Result<Book, GradeBookError>)
    ensures id in b ==> r == Err(DuplicateStudentId(id))
    ensures id !in b ==> (r.Ok? <==> ValidateStudentData(id, name).Ok?)
    ensures r.Ok? ==> r.value == b[id := StudentState(id, Strip(name), map[])]
    ensures r.Err? ==> IsStudentError(r.error)
  {
    if id in b then Err(DuplicateStudentId(id))
    else
      match ValidateStudentData(id, name)
      case Err(e) => Err(e)
      case Ok(n) => Ok(b[id := StudentState(id, n, map[])])
  }

  lemma BookAddStudentPreservesValid(b: Book, id: int, name: string)
    requires ValidBook(b)
    ensures BookAddStudent(b, id, name).Ok? ==> ValidBook(BookAddStudent(b, id, name).value)
  {
    if BookAddStudent(b, id, name).Ok? {
      ValidatedNameRevalidates(id, name);
    }
  }

  /** The test suite's refused students: a duplicate id, id -1 and an
      empty name. */
  lemma BookAddStudentRejects(b: Book)
    requires 101 in b && 102 !in b && -1 !in b
    ensures BookAddStudent(b, 101, "Jane Doe") == Err(DuplicateStudentId(101))
    ensures BookAddStudent(b, -1, "Invalid ID") == Err(InvalidStudentId(-1))
    ensures BookAddStudent(b, 102, "") == Err(InvalidStudentName(""))
  {
  }

  /** GradeManager.add_grade: an unknown id is refused; otherwise the
      student's add_grade runs and its outcome is passed on. Only that
      student can change. */
  function BookAddGrade(b: Book, id: int, subjectName: string, score: Score): (r: (Book, Option<GradeBookError>))
    ensures id !in b ==> r == (b, Some(StudentNotFound(id)))
    ensures r.0.Keys == b.Keys
    ensures forall j :: j in b && j != id ==> r.0[j] == b[j]
    ensures id in b ==> (r.0[id], r.1) == StudentAddGrade(b[id], subjectName, score)
  {
    if id !in b then (b, Some(StudentNotFound(id)))
    else
      var (st, e) := StudentAddGrade(b[id], subjectName, score);
      (b[id := st], e)
  }

  lemma BookAddGradePreservesValid(b: Book, id: int, subjectName: string, score: Score)
    requires ValidBook(b)
    ensures ValidBook(BookAddGrade(b, id, subjectName, score).0)
  {
    if id in b {
      StudentAddGradePreservesValid(b[id], subjectName, score);
    }
  }

  // ---------------------------------------------------------------------------
  // Saved data and the load loop
  // ---------------------------------------------------------------------------

  /** Subject.to_dict: name, grades as numbers, and the limit. */
  datatype SubjectDict = SubjectDict(name: string, grades: seq<real>, maxGrades: int)

  /** Student.to_dict: id, name, and each subject's dictionary under its name. */
  datatype StudentDict = StudentDict(id: int, name: string, subjects: map<string, SubjectDict>)

  function GradeValues(gs: seq<int>): (r: seq<real>)
    ensures |r| == |gs| && forall k :: 0 <= k < |gs| ==> r[k] == Hundredths(gs[k])
  {
    seq(|gs|, k requires 0 <= k < |gs| => Hundredths(gs[k]))
  }

  function SubjectToDict(s: SubjectState): SubjectDict
  {
    SubjectDict(s.name, GradeValues(s.grades), s.maxGrades)
  }

  function StudentToDict(st: StudentState): StudentDict
  {
    StudentDict(st.id, st.name, SubjectDicts(st.subjects))
  }

  /** The saved dictionaries of a student's subjects, by name. */
  function SubjectDicts(subjects: map<string, SubjectState>): (r: map<string, SubjectDict>)
    ensures r.Keys == subjects.Keys
    ensures forall k :: k in r ==> r[k] == SubjectToDict(subjects[k])
  {
    map k | k in subjects :: SubjectToDict(subjects[k])
  }

  /** Python's int() on a string: surrounding white space, an optional sign,
      then one or more ASCII digits. */
  function PyInt(s: string): Option<int>
  {
    var t := Strip(s);
    if |t| > 0 && (t[0] == '-' || t[0] == '+') then
      match Digits(t[1..])
      case None => None
      case Some(m) => Some(if t[0] == '-' then -(m as int) else m as int)
    else Digits(t)
  }

  function Digits(s: string): Option<nat>
  {
    if s != [] && forall k :: 0 <= k < |s| ==> IsAsciiDigit(s[k]) then Some(DigitsValue(s)) else None
  }

  /** int(str(n)) == n. */
  lemma PyIntSignedDecimal(n: int)
    ensures PyInt(SignedDecimal(n)) == Some(n)
  {
    var s := SignedDecimal(n);
    if n < 0 {
      DecimalStringRoundTrip(-n);
      var d := DecimalString(-n);
      assert s[1..] == d;
      assert s[|s| - 1] == d[|d| - 1];
      StripKeepsTrimmed(s);
    } else {
      DecimalStringRoundTrip(n);
      StripKeepsTrimmed(s);
    }
  }

  /** Every id spelled out reads back as itself. */
  lemma SignedDecimalParses()
    ensures forall n: int :: PyInt(SignedDecimal(n)) == Some(n)
  {
    forall n: int ensures PyInt(SignedDecimal(n)) == Some(n) {
      PyIntSignedDecimal(n);
    }
  }

  /** The keys _save_data writes: `str(id)` for each id. */
  function SavedKeys(b: Book): set<string>
  {
    set id | id in b :: SignedDecimal(id)
  }

  /** GradeManager._save_data's dictionary: each student under `str(id)`,
      and nothing else. */
  function SavedData(b: Book): (r: map<string, StudentDict>)
    ensures r.Keys == SavedKeys(b)
  {
    SignedDecimalParses();
    map key | key in SavedKeys(b) :: StudentToDict(b[PyInt(key).value])
  }

  /** Each student is saved under its spelled-out id. */
  lemma SavedUnderId(b: Book, id: int)
    requires id in b
    ensures SignedDecimal(id) in SavedData(b) && SavedData(b)[SignedDecimal(id)] == StudentToDict(b[id])
  {
    PyIntSignedDecimal(id);
    assert SignedDecimal(id) in SavedKeys(b);
  }

  /** The stored grades of one subject added back one at a time, front to
      back, through Subject.add_grade; the first rejection stops the load. */
  function AddAll(s: SubjectState, grades: seq<real>): Result<SubjectState, GradeBookError>
    decreases |grades|
  {
    if grades == [] then Ok(s)
    else
      match AddGradeTo(s, Finite(grades[0]))
      case Err(e) => Err(e)
      case Ok(t) => AddAll(t, grades[1..])
  }

  /** One subject of the load loop: `Subject(name=..., max_grades=...)`
      followed by add_grade for each stored grade. */
  function LoadedSubject(d: SubjectDict): Result<SubjectState, GradeBookError>
  {
    AddAll(NewSubject(d.name, d.maxGrades), d.grades)
  }

  /** A stored student the load loop accepts: an integer key, a name that
      validates, and subjects that all load. */
  predicate EntryLoads(key: string, d: StudentDict)
  {
    PyInt(key).Some? && ValidateStudentData(PyInt(key).value, d.name).Ok?
    && forall k {:trigger d.subjects[k]} :: k in d.subjects ==> LoadedSubject(d.subjects[k]).Ok?
  }

  /** The stored subject `d` loads, and a subject of its name is present. */
  predicate LoadsInto(d: SubjectDict, subjects: map<string, SubjectState>)
  {
    LoadedSubject(d).Ok? && LoadedSubject(d).value.name in subjects
  }

  /** The subjects the loop builds from stored subject dictionaries, in
      whatever order it visits them: every stored subject loads and is
      present under its name, and each entry is some stored subject loaded. */
  ghost predicate SubjectsFrom(subjects: map<string, SubjectState>, dicts: map<string, SubjectDict>)
  {
    && (forall k {:trigger LoadsInto(dicts[k], subjects)} :: k in dicts ==> LoadsInto(dicts[k], subjects))
    && (forall n {:trigger subjects[n]} :: n in subjects ==> subjects[n].name == n)
    && (forall n {:trigger subjects[n]} :: n in subjects ==> exists k :: k in dicts && LoadedSubject(dicts[k]) == Ok(subjects[n]))
  }

  /** The saved entry under `key` loads into a student under its id. */
  predicate EntryLoadsInto(key: string, d: StudentDict, b: Book)
  {
    EntryLoads(key, d) && PyInt(key).value in b
  }

  /** A student the loop builds from the stored entry under `key`. */
  ghost predicate StudentFrom(st: StudentState, key: string, d: StudentDict)
  {
    PyInt(key) == Some(st.id) && ValidateStudentData(st.id, d.name) == Ok(st.name) && SubjectsFrom(st.subjects, d.subjects)
  }

  /** The students the loop builds from the saved dictionary, in whatever
      order it visits the entries. */
  ghost predicate BookFrom(b: Book, data: map<string, StudentDict>)
  {
    && (forall key {:trigger EntryLoadsInto(key, data[key], b)} :: key in data ==> EntryLoadsInto(key, data[key], b))
    && (forall id {:trigger b[id]} :: id in b ==> b[id].id == id)
    && (forall id {:trigger b[id]} :: id in b ==> exists key :: key in data && StudentFrom(b[id], key, data[key]))
  }

  /** What a failed load leaves behind: the students built from a part of
      the saved dictionary, which misses at least one entry that does not
      load. The students held before the load play no part. */
  ghost predicate PartialLoad(b: Book, data: map<string, StudentDict>, sub: map<string, StudentDict>)
  {
    && sub.Keys <= data.Keys
    && (forall k :: k in sub ==> sub[k] == data[k])
    && (exists k :: k in data && k !in sub && !EntryLoads(k, data[k]))
    && BookFrom(b, sub)
  }

  /** Every grade added from saved data keeps a subject valid. */
  lemma {:induction false} AddAllValid(s: SubjectState, grades: seq<real>)
    requires ValidSubject(s)
    ensures AddAll(s, grades).Ok? ==> ValidSubject(AddAll(s, grades).value)
    decreases |grades|
  {
    if grades != [] {
      AddGradePreservesValid(s, Finite(grades[0]));
      if AddGradeTo(s, Finite(grades[0])).Ok? {
        AddAllValid(AddGradeTo(s, Finite(grades[0])).value, grades[1..]);
      }
    }
  }

  /** A subject that loads is a valid subject. */
  lemma LoadedSubjectValid(d: SubjectDict)
    ensures LoadedSubject(d).Ok? ==> ValidSubject(LoadedSubject(d).value)
  {
    NewSubjectValid(d.name, d.maxGrades);
    AddAllValid(NewSubject(d.name, d.maxGrades), d.grades);
  }

  /** A student the load loop builds is a valid student. */
  lemma LoadedStudentValid(st: StudentState, key: string, d: StudentDict)
    requires StudentFrom(st, key, d)
    ensures ValidStudent(st)
  {
    ValidatedNameRevalidates(st.id, d.name);
    forall n | n in st.subjects ensures st.subjects[n].name == n && ValidSubject(st.subjects[n]) {
      var k := LoadedFrom(st.subjects, d.subjects, n);
      LoadedSubjectValid(d.subjects[k]);
    }
  }

  /** Whatever order the load loop visits the entries in, the students it
      builds form a valid book. */
  lemma LoadedBookValid(b: Book, data: map<string, StudentDict>)
    requires BookFrom(b, data)
    ensures ValidBook(b)
  {
    LoadedStudentsValid(b, data);
  }

  lemma LoadedStudentsValid(b: Book, data: map<string, StudentDict>)
    requires forall id {:trigger b[id]} :: id in b ==> b[id].id == id
    requires forall id {:trigger b[id]} :: id in b ==> exists key :: key in data && StudentFrom(b[id], key, data[key])
    ensures ValidBook(b)
  {
    forall id | id in b ensures b[id].id == id && ValidStudent(b[id]) {
      var key := SavedFrom(b, data, id);
      LoadedStudentValid(b[id], key, data[key]);
    }
  }

  /** One step of the subject loop: the subject loaded from a further
      stored entry goes under its own name, replacing any subject of that
      name loaded before. */
  lemma SubjectsFromStep(subjects: map<string, SubjectState>, dicts: map<string, SubjectDict>, k: string, d: SubjectDict)
    requires SubjectsFrom(subjects, dicts) && k !in dicts && LoadedSubject(d).Ok?
    ensures SubjectsFrom(subjects[LoadedSubject(d).value.name := LoadedSubject(d).value], dicts[k := d])
  {
    var s := LoadedSubject(d).value;
    SubjectEntriesStep(subjects, dicts, k, d, subjects[s.name := s], dicts[k := d]);
    SubjectNamesStep(subjects, s, subjects[s.name := s]);
    SubjectOriginsStep(subjects, dicts, k, d, subjects[s.name := s], dicts[k := d]);
  }

  lemma SubjectNamesStep(subjects: map<string, SubjectState>, s: SubjectState, subjects': map<string, SubjectState>)
    requires forall n {:trigger subjects[n]} :: n in subjects ==> subjects[n].name == n
    requires subjects' == subjects[s.name := s]
    ensures forall n {:trigger subjects'[n]} :: n in subjects' ==> subjects'[n].name == n
  {
  }

  lemma SubjectEntriesStep(subjects: map<string, SubjectState>, dicts: map<string, SubjectDict>, k: string, d: SubjectDict,
                           subjects': map<string, SubjectState>, dicts': map<string, SubjectDict>)
    requires forall j {:trigger LoadsInto(dicts[j], subjects)} :: j in dicts ==> LoadsInto(dicts[j], subjects)
    requires LoadedSubject(d).Ok?
    requires subjects' == subjects[LoadedSubject(d).value.name := LoadedSubject(d).value] && dicts' == dicts[k := d]
    ensures forall j {:trigger LoadsInto(dicts'[j], subjects')} :: j in dicts' ==> LoadsInto(dicts'[j], subjects')
  {
    forall j | j in dicts' ensures LoadsInto(dicts'[j], subjects') {
      if j != k {
        assert LoadsInto(dicts[j], subjects);
      }
    }
  }

  /** Every stored subject behind loaded subjects loads. */
  lemma SubjectsFromLoad(subjects: map<string, SubjectState>, dicts: map<string, SubjectDict>)
    requires SubjectsFrom(subjects, dicts)
    ensures forall k :: k in dicts ==> LoadedSubject(dicts[k]).Ok?
  {
    forall k | k in dicts ensures LoadedSubject(dicts[k]).Ok? {
      assert LoadsInto(dicts[k], subjects);
    }
  }

  /** Every saved entry behind a loaded book loads. */
  lemma BookFromEntriesLoad(b: Book, data: map<string, StudentDict>)
    requires BookFrom(b, data)
    ensures forall key :: key in data ==> EntryLoads(key, data[key])
  {
    forall key | key in data ensures EntryLoads(key, data[key]) {
      assert EntryLoadsInto(key, data[key], b);
    }
  }

  lemma SubjectOriginsStep(subjects: map<string, SubjectState>, dicts: map<string, SubjectDict>, k: string, d: SubjectDict,
                           subjects': map<string, SubjectState>, dicts': map<string, SubjectDict>)
    requires forall n {:trigger subjects[n]} :: n in subjects ==> exists j :: j in dicts && LoadedSubject(dicts[j]) == Ok(subjects[n])
    requires k !in dicts && LoadedSubject(d).Ok?
    requires subjects' == subjects[LoadedSubject(d).value.name := LoadedSubject(d).value] && dicts' == dicts[k := d]
    ensures forall n {:trigger subjects'[n]} :: n in subjects' ==> exists j :: j in dicts' && LoadedSubject(dicts'[j]) == Ok(subjects'[n])
  {
    forall n | n in subjects' ensures exists j :: j in dicts' && LoadedSubject(dicts'[j]) == Ok(subjects'[n]) {
      if n == LoadedSubject(d).value.name {
        assert k in dicts' && LoadedSubject(dicts'[k]) == Ok(subjects'[n]);
      } else {
        var j := LoadedFrom(subjects, dicts, n);
        assert j in dicts' && dicts'[j] == dicts[j];
      }
    }
  }

  lemma LoadedFrom(subjects: map<string, SubjectState>, dicts: map<string, SubjectDict>, n: string) returns (j: string)
    requires n in subjects
    requires exists k :: k in dicts && LoadedSubject(dicts[k]) == Ok(subjects[n])
    ensures j in dicts && LoadedSubject(dicts[j]) == Ok(subjects[n])
  {
    j :| j in dicts && LoadedSubject(dicts[j]) == Ok(subjects[n]);
  }

  /** One step of the student loop: the student loaded from a further
      saved entry goes under its id, replacing any student of that id
      loaded before. */
  lemma BookFromStep(b: Book, data: map<string, StudentDict>, key: string, d: StudentDict, st: StudentState)
    requires BookFrom(b, data) && key !in data && EntryLoads(key, d) && StudentFrom(st, key, d)
    ensures BookFrom(b[st.id := st], data[key := d])
  {
    var b', data' := b[st.id := st], data[key := d];
    EntriesStep(b, data, key, d, st, b', data');
    IdsStep(b, st, b');
    OriginsStep(b, data, key, d, st, b', data');
  }

  lemma IdsStep(b: Book, st: StudentState, b': Book)
    requires forall id {:trigger b[id]} :: id in b ==> b[id].id == id
    requires b' == b[st.id := st]
    ensures forall id {:trigger b'[id]} :: id in b' ==> b'[id].id == id
  {
  }

  lemma EntriesStep(b: Book, data: map<string, StudentDict>, key: string, d: StudentDict, st: StudentState,
                    b': Book, data': map<string, StudentDict>)
    requires forall k {:trigger EntryLoadsInto(k, data[k], b)} :: k in data ==> EntryLoadsInto(k, data[k], b)
    requires EntryLoads(key, d) && PyInt(key) == Some(st.id)
    requires b' == b[st.id := st] && data' == data[key := d]
    ensures forall k {:trigger EntryLoadsInto(k, data'[k], b')} :: k in data' ==> EntryLoadsInto(k, data'[k], b')
  {
    forall k | k in data' ensures EntryLoadsInto(k, data'[k], b') {
      if k != key {
        assert EntryLoadsInto(k, data[k], b);
      }
    }
  }

  lemma OriginsStep(b: Book, data: map<string, StudentDict>, key: string, d: StudentDict, st: StudentState,
                    b': Book, data': map<string, StudentDict>)
    requires forall id {:trigger b[id]} :: id in b ==> exists k :: k in data && StudentFrom(b[id], k, data[k])
    requires key !in data && StudentFrom(st, key, d)
    requires b' == b[st.id := st] && data' == data[key := d]
    ensures forall id {:trigger b'[id]} :: id in b' ==> exists k :: k in data' && StudentFrom(b'[id], k, data'[k])
  {
    forall id | id in b' ensures exists j :: j in data' && StudentFrom(b'[id], j, data'[j]) {
      if id == st.id {
        assert key in data' && StudentFrom(b'[id], key, data'[key]);
      } else {
        OriginKept(b, data, key, d, b', data', id);
      }
    }
  }

  lemma OriginKept(b: Book, data: map<string, StudentDict>, key: string, d: StudentDict,
                   b': Book, data': map<string, StudentDict>, id: int)
    requires id in b && id in b' && b'[id] == b[id]
    requires exists k :: k in data && StudentFrom(b[id], k, data[k])
    requires key !in data && data' == data[key := d]
    ensures exists j :: j in data' && StudentFrom(b'[id], j, data'[j])
  {
    var j := SavedFrom(b, data, id);
    assert data'[j] == data[j];
    StudentFromSame(b[id], b'[id], j, data[j], data'[j]);
  }

  lemma StudentFromSame(st: StudentState, st': StudentState, key: string, d: StudentDict, d': StudentDict)
    requires StudentFrom(st, key, d) && st' == st && d' == d
    ensures StudentFrom(st', key, d')
  {
  }

  lemma SavedFrom(b: Book, data: map<string, StudentDict>, id: int) returns (j: string)
    requires id in b
    requires exists key :: key in data && StudentFrom(b[id], key, data[key])
    ensures j in data && StudentFrom(b[id], j, data[j])
  {
    j :| j in data && StudentFrom(b[id], j, data[j]);
  }

  lemma {:induction false} AddAllRoundTrip(s: SubjectState, rest: seq<int>)
    requires AllInRange(rest)
    requires rest == [] || |s.grades| + |rest| <= s.maxGrades
    ensures AddAll(s, GradeValues(rest)) == Ok(s.(grades := s.grades + rest))
    decreases |rest|
  {
    if rest == [] {
      assert s.grades + rest == s.grades;
    } else {
      QuantizeHundredths(rest[0]);
      var t := s.(grades := s.grades + [rest[0]]);
      assert GradeValues(rest)[1..] == GradeValues(rest[1..]);
      AddAllRoundTrip(t, rest[1..]);
      assert t.grades + rest[1..] == s.grades + rest;
    }
  }

  /** A saved subject loads back as itself. */
  lemma SubjectRoundTrip(s: SubjectState)
    requires ValidSubject(s)
    ensures LoadedSubject(SubjectToDict(s)) == Ok(s)
  {
    var s0 := NewSubject(s.name, s.maxGrades);
    NormalFormIff(s.name);
    assert s0 == s.(grades := []);
    AddAllRoundTrip(s0, s.grades);
    assert [] + s.grades == s.grades;
  }

  /** Each saved subject of a student loads back as itself. */
  lemma SubjectsLoad(subjects: map<string, SubjectState>)
    requires SubjectsKeyed(subjects)
    ensures forall k :: k in subjects ==> LoadedSubject(SubjectDicts(subjects)[k]) == Ok(subjects[k])
  {
    forall k | k in subjects ensures LoadedSubject(SubjectDicts(subjects)[k]) == Ok(subjects[k]) {
      SubjectRoundTrip(subjects[k]);
    }
  }

  /** The subjects loaded from a student's saved subjects are those subjects. */
  lemma SubjectsRoundTrip(subjects: map<string, SubjectState>, loaded: map<string, SubjectState>)
    requires SubjectsKeyed(subjects)
    ensures forall k :: k in subjects ==> LoadedSubject(SubjectDicts(subjects)[k]) == Ok(subjects[k])
    ensures SubjectsFrom(loaded, SubjectDicts(subjects)) ==> loaded == subjects
  {
    SubjectsLoad(subjects);
    if SubjectsFrom(loaded, SubjectDicts(subjects)) {
      LoadedWithin(subjects, loaded);
      LoadedCovers(subjects, loaded);
    }
  }

  lemma LoadedWithin(subjects: map<string, SubjectState>, loaded: map<string, SubjectState>)
    requires forall k :: k in subjects ==> subjects[k].name == k
    requires forall k :: k in subjects ==> LoadedSubject(SubjectDicts(subjects)[k]) == Ok(subjects[k])
    requires SubjectsFrom(loaded, SubjectDicts(subjects))
    ensures forall n :: n in loaded ==> n in subjects && loaded[n] == subjects[n]
  {
    var dicts := SubjectDicts(subjects);
    forall n | n in loaded ensures n in subjects && loaded[n] == subjects[n] {
      var k :| k in dicts && LoadedSubject(dicts[k]) == Ok(loaded[n]);
      assert loaded[n] == subjects[k];
    }
  }

  lemma LoadedCovers(subjects: map<string, SubjectState>, loaded: map<string, SubjectState>)
    requires forall k :: k in subjects ==> subjects[k].name == k
    requires forall k :: k in subjects ==> LoadedSubject(SubjectDicts(subjects)[k]) == Ok(subjects[k])
    requires SubjectsFrom(loaded, SubjectDicts(subjects))
    ensures forall k :: k in subjects ==> k in loaded
  {
    forall k | k in subjects ensures k in loaded {
      assert LoadsInto(SubjectDicts(subjects)[k], loaded);
      assert LoadedSubject(SubjectDicts(subjects)[k]).value.name == k;
    }
  }

  /** The dictionary of a valid student loads. */
  lemma StudentDictLoads(st: StudentState)
    requires ValidStudent(st)
    ensures EntryLoads(SignedDecimal(st.id), StudentToDict(st))
  {
    PyIntSignedDecimal(st.id);
    SubjectsRoundTrip(st.subjects, st.subjects);
  }

  /** The key of every saved entry spells the id of a saved student. */
  lemma SavedKey(b: Book, key: string)
    requires key in SavedData(b)
    ensures PyInt(key).Some? && PyInt(key).value in b && key == SignedDecimal(PyInt(key).value)
    ensures SavedData(b)[key] == StudentToDict(b[PyInt(key).value])
  {
    var id :| id in b && key == SignedDecimal(id);
    PyIntSignedDecimal(id);
  }

  /** Every saved entry loads, and holds the dictionary of the student
      whose id its key spells. */
  lemma SavedEntriesLoad(b: Book, key: string)
    requires ValidBook(b) && key in SavedData(b)
    ensures EntryLoads(key, SavedData(b)[key])
    ensures PyInt(key).Some? && PyInt(key).value in b && key == SignedDecimal(PyInt(key).value)
    ensures SavedData(b)[key] == StudentToDict(b[PyInt(key).value])
  {
    SavedKey(b, key);
    StudentDictLoads(b[PyInt(key).value]);
  }

  /** A student loaded from a saved entry is the student that was saved. */
  lemma StudentRoundTrip(b: Book, key: string, st: StudentState)
    requires ValidBook(b) && key in SavedData(b) && StudentFrom(st, key, SavedData(b)[key])
    ensures st.id in b && st == b[st.id]
  {
    SavedEntriesLoad(b, key);
    var id := PyInt(key).value;
    assert st.id == id;
    SubjectsRoundTrip(b[id].subjects, st.subjects);
  }

  /** Saving and loading give back the students: every saved entry loads,
      and whatever order the loop visits the entries in, it rebuilds the
      same ids, names, subject names, grade lists and limits. */
  lemma SaveLoadRoundTrip(b: Book, loaded: Book)
    requires ValidBook(b)
    ensures forall key :: key in SavedData(b) ==> EntryLoads(key, SavedData(b)[key])
    ensures BookFrom(loaded, SavedData(b)) ==> loaded == b
  {
    SavedDataLoads(b);
    if BookFrom(loaded, SavedData(b)) {
      LoadedIsSaved(b, loaded);
    }
  }

  lemma SavedDataLoads(b: Book)
    requires ValidBook(b)
    ensures forall key :: key in SavedData(b) ==> EntryLoads(key, SavedData(b)[key])
  {
    forall key | key in SavedData(b) ensures EntryLoads(key, SavedData(b)[key]) {
      SavedEntriesLoad(b, key);
    }
  }

  lemma LoadedIsSaved(b: Book, loaded: Book)
    requires ValidBook(b) && BookFrom(loaded, SavedData(b))
    ensures loaded == b
  {
    LoadedStudentsWithin(b, loaded);
    LoadedStudentsCover(b, loaded);
    SameMaps(loaded, b);
  }

  lemma SameMaps(x: Book, y: Book)
    requires forall id :: id in x ==> id in y && x[id] == y[id]
    requires forall id :: id in y ==> id in x
    ensures x == y
  {
    assert x.Keys == y.Keys by {
      assert forall id :: id in x.Keys <==> id in y.Keys;
    }
    assert forall id :: id in x.Keys ==> x[id] == y[id];
  }

  lemma LoadedStudentsWithin(b: Book, loaded: Book)
    requires ValidBook(b)
    requires forall id {:trigger loaded[id]} :: id in loaded ==> loaded[id].id == id
    requires forall id {:trigger loaded[id]} :: id in loaded ==>
               exists key :: key in SavedData(b) && StudentFrom(loaded[id], key, SavedData(b)[key])
    ensures forall id :: id in loaded ==> id in b && loaded[id] == b[id]
  {
    forall id | id in loaded ensures id in b && loaded[id] == b[id] {
      LoadedStudentWithin(b, loaded, id);
    }
  }

  lemma LoadedStudentWithin(b: Book, loaded: Book, id: int)
    requires ValidBook(b) && id in loaded && loaded[id].id == id
    requires exists key :: key in SavedData(b) && StudentFrom(loaded[id], key, SavedData(b)[key])
    ensures id in b && loaded[id] == b[id]
  {
    FromSavedEntry(b, loaded[id]);
  }

  /** A student built from some saved entry is the student saved there. */
  lemma FromSavedEntry(b: Book, st: StudentState)
    requires ValidBook(b)
    requires exists key :: key in SavedData(b) && StudentFrom(st, key, SavedData(b)[key])
    ensures st.id in b && st == b[st.id]
  {
    var key :| key in SavedData(b) && StudentFrom(st, key, SavedData(b)[key]);
    StudentRoundTrip(b, key, st);
  }

  lemma LoadedStudentsCover(b: Book, loaded: Book)
    requires BookFrom(loaded, SavedData(b))
    ensures forall id :: id in b ==> id in loaded
  {
    forall id | id in b ensures id in loaded {
      PyIntSignedDecimal(id);
      SavedUnderId(b, id);
      assert EntryLoadsInto(SignedDecimal(id), SavedData(b)[SignedDecimal(id)], loaded);
    }
  }
}
