/** The objects of the grade book in Agents/asdsa/lb.py: a Subject keeps
    its grades and an average cache, a Student keeps its Subject objects by
    name, and the GradeManager keeps its Student objects by id and rebuilds
    them from saved data. Each method is specified by the functions of the
    Grades module. The log output, the JSON files and the backups are
    outside the model; `LoadData` starts from the dictionary `json.load`
    returned. */
module GradeBook {
  import opened Wrappers
  import opened Grades

  class Subject {
    var name: string
    var maxGrades: int
    var grades: seq<int>
    var averageCache: Option<int>

    function State(): SubjectState
      reads this
    {
      SubjectState(name, maxGrades, grades)
    }

    /** The cache, when filled, holds the current average. */
    ghost predicate Valid()
      reads this
    {
      averageCache.Some? ==> averageCache == AverageOf(grades)
    }

    /** `Subject(name, max_grades)`, with the normalising hook run. */
    constructor (name: string, maxGrades: int)
      ensures State() == NewSubject(name, maxGrades) && averageCache == None && Valid()
      ensures ValidSubject(State())
    {
      this.name := NormalizeSubjectName(name);
      this.maxGrades := maxGrades;
      grades := [];
      averageCache := None;
      new;
      NewSubjectValid(name, maxGrades);
    }

    /** add_grade: on success the rounded grade is appended and the cache
        cleared; on a rejection nothing changes. */
    method AddGrade(score: Score) returns (error: Option<GradeBookError>)
      modifies this
      ensures AddGradeTo(old(State()), score).Ok? ==>
                State() == AddGradeTo(old(State()), score).value && averageCache == None && error == None
      ensures AddGradeTo(old(State()), score).Err? ==>
                State() == old(State()) && averageCache == old(averageCache)
                && error == Some(AddGradeTo(old(State()), score).error)
      ensures old(Valid()) ==> Valid()
    {
      match score
      case NaN =>
        error := Some(GradeOutOfRange);
      case Infinite =>
        error := Some(InvalidGradeFormat);
      case Finite(x) =>
        var h := Quantize(x);
        if QuantizeOverflows(h) {
          error := Some(InvalidGradeFormat);
        } else if !(0 <= h <= 10000) {
          error := Some(GradeOutOfRange);
        } else if |grades| >= maxGrades {
          error := Some(MaxGradesReached(maxGrades, name));
        } else {
          grades := grades + [h];
          averageCache := None;
          error := None;
        }
    }

    /** The average property: computed into the cache on first use after a
        change, read from the cache otherwise. */
    method Average() returns (avg: Option<int>)
      requires Valid()
      modifies this
      ensures avg == AverageOf(grades)
      ensures State() == old(State()) && Valid()
      ensures grades != [] ==> averageCache == avg
      ensures grades == [] ==> averageCache == old(averageCache)
    {
      if grades == [] {
        return None;
      }
      if averageCache.None? {
        averageCache := Some(RoundHalfUp(Sum(grades) as real / |grades| as real));
      }
      avg := averageCache;
    }

    /** The letter_grade property: none without grades, otherwise the
        letter of the average, which for stored grades always exists. */
    method LetterGrade() returns (letter: Option<Letter>)
      requires Valid() && ValidSubject(State())
      modifies this
      ensures Ok(letter) == LetterGradeOf(grades)
      ensures State() == old(State()) && Valid()
    {
      var first := Average();
      if first.None? {
        return None;
      }
      var avg := Average();
      AverageInRange(grades);
      ClassifyHundredths(avg.value);
      var r := FromScore(Finite(Hundredths(avg.value)));
      letter := Some(r.value);
    }

    /** to_dict. */
    function ToDict(): SubjectDict
      reads this
    {
      SubjectToDict(State())
    }
  }

  class Student {
    var id: int
    var name: string
    var subjects: map<string, Subject>
    /** The subjects' values, by name. */
    ghost var subjectStates: map<string, SubjectState>
    ghost var Repr: set<object>

    /** Each subject object sits under its own name, which also keeps
        different names on different objects, and has the value
        `subjectStates` records for it. */
    ghost predicate Valid()
      reads this, Repr
    {
      && this in Repr
      && subjects.Keys == subjectStates.Keys
      && (forall k :: k in subjects ==> subjects[k] in Repr)
      && (forall k :: k in subjects ==>
            subjects[k].name == k && subjects[k].Valid() && subjects[k].State() == subjectStates[k])
    }

    ghost function State(): StudentState
      reads this
    {
      StudentState(id, name, subjectStates)
    }

    /** The dataclass initialiser, before the validating hook. */
    constructor (id: int, name: string)
      ensures this.id == id && this.name == name && subjects == map[] && subjectStates == map[]
      ensures Repr == {this} && Valid()
    {
      this.id := id;
      this.name := name;
      subjects := map[];
      subjectStates := map[];
      Repr := {this};
    }

    /** validate_student_data: the id and the name are checked, and the
        name is kept stripped. */
    method ValidateStudentData() returns (error: Option<GradeBookError>)
      requires Valid()
      modifies this
      ensures Grades.ValidateStudentData(old(id), old(name)).Ok? ==>
                error == None && name == Grades.ValidateStudentData(old(id), old(name)).value
      ensures Grades.ValidateStudentData(old(id), old(name)).Err? ==>
                error == Some(Grades.ValidateStudentData(old(id), old(name)).error) && name == old(name)
      ensures id == old(id) && subjects == old(subjects) && subjectStates == old(subjectStates)
      ensures Repr == old(Repr) && Valid()
    {
      if id < 1 {
        return Some(InvalidStudentId(id));
      }
      var stripped := Strip(name);
      if stripped == [] {
        return Some(InvalidStudentName(name));
      }
      name := stripped;
      error := None;
    }

    /** add_subject: a new subject under the normalised name, only when the
        name is not there yet. */
    method AddSubject(subjectName: string)
      requires Valid()
      modifies this
      ensures Valid() && State() == Grades.AddSubject(old(State()), subjectName)
      ensures fresh(Repr - old(Repr)) && old(Repr) <= Repr
      ensures forall k :: k in old(subjects) ==> k in subjects && subjects[k] == old(subjects)[k]
    {
      ghost var st0 := State();
      AddSubjectCases(st0, subjectName);
      var n := NormalizeSubjectName(subjectName);
      if n !in subjects {
        var s := new Subject(n, DefaultMaxGrades);
        NormalizeIdempotent(subjectName);
        PutSubject(s);
      }
    }

    /** add_grade: the subject of the normalised name, created when absent,
        takes the grade. */
    method AddGrade(subjectName: string, score: Score) returns (error: Option<GradeBookError>)
      requires Valid()
      modifies Repr
      ensures Valid() && (State(), error) == StudentAddGrade(old(State()), subjectName, score)
      ensures fresh(Repr - old(Repr)) && old(Repr) <= Repr
    {
      ghost var st0 := State();
      StudentAddGradeSteps(st0, subjectName, score);
      var n := NormalizeSubjectName(subjectName);
      NormalizeIdempotent(subjectName);
      if n !in subjects {
        AddSubject(n);
      } else {
        AddSubjectCases(st0, subjectName);
      }
      ghost var st1 := State();
      assert st1 == Grades.AddSubject(st0, subjectName);
      error := GradeSubject(n, score);
    }

    /** The grade goes to the subject stored under `n`; nothing else changes. */
    method GradeSubject(n: string, score: Score) returns (error: Option<GradeBookError>)
      requires Valid() && n in subjects
      modifies this, subjects[n]
      ensures Valid() && subjects == old(subjects) && Repr == old(Repr) && id == old(id) && name == old(name)
      ensures AddGradeTo(old(subjectStates)[n], score).Ok? ==>
                subjectStates == old(subjectStates)[n := AddGradeTo(old(subjectStates)[n], score).value]
                && error == None
      ensures AddGradeTo(old(subjectStates)[n], score).Err? ==>
                subjectStates == old(subjectStates) && error == Some(AddGradeTo(old(subjectStates)[n], score).error)
    {
      var subject := subjects[n];
      error := subject.AddGrade(score);
      subjectStates := subjectStates[n := subject.State()];
      forall k | k in subjects && k != n
        ensures subjects[k] != subject
      {
        assert subjects[k].name == k;
      }
      if error.Some? {
        assert subjectStates == old(subjectStates);
      }
    }

    /** `student.subjects[subject.name] = subject` for a new subject. */
    method PutSubject(subject: Subject)
      requires Valid() && subject.Valid() && subject !in Repr
      modifies this
      ensures Valid() && id == old(id) && name == old(name)
      ensures subjects == old(subjects)[subject.name := subject]
      ensures subjectStates == old(subjectStates)[subject.name := subject.State()]
      ensures Repr == old(Repr) + {subject}
    {
      subjects := subjects[subject.name := subject];
      subjectStates := subjectStates[subject.name := subject.State()];
      Repr := Repr + {subject};
    }

    /** The student as a value, read off its fields and subject objects. */
    function Snapshot(): StudentState
      reads this, subjects.Values
    {
      StudentState(id, name, map k | k in subjects :: subjects[k].State())
    }

    /** to_dict. */
    ghost function ToDict(): StudentDict
      requires Valid()
      reads this, Repr
    {
      StudentToDict(State())
    }
  }

  /** A valid student's snapshot is its state. */
  lemma SnapshotIsState(s: Student)
    requires s.Valid()
    ensures s.Snapshot() == s.State()
  {
    var m := map k | k in s.subjects :: s.subjects[k].State();
    assert m.Keys == s.subjectStates.Keys;
    assert forall k :: k in m ==> m[k] == s.subjectStates[k];
  }

  /** The manager keeps each student as its value: every Student object it
      builds is stored by its state, and nothing outside the manager holds
      a student it stores. */
  class GradeManager {
    var students: Book

    /** Every stored student is valid and sits under its own id. */
    ghost predicate Valid()
      reads this
    {
      ValidBook(students)
    }

    /** The manager's initialiser, without the directories it creates. */
    constructor ()
      ensures Valid() && students == map[]
    {
      students := map[];
    }

    /** add_student: a duplicate id is refused; otherwise the student is
        created, validated and added. */
    method AddStudent(id: int, name: string) returns (error: Option<GradeBookError>)
      modifies this
      ensures BookAddStudent(old(students), id, name).Ok? ==>
                error == None && students == BookAddStudent(old(students), id, name).value
      ensures BookAddStudent(old(students), id, name).Err? ==>
                error == Some(BookAddStudent(old(students), id, name).error) && students == old(students)
      ensures old(Valid()) ==> Valid()
    {
      if id in students {
        return Some(DuplicateStudentId(id));
      }
      var student := new Student(id, name);
      error := student.ValidateStudentData();
      if error.Some? {
        return;
      }
      if Valid() {
        BookAddStudentPreservesValid(students, id, name);
      }
      students := students[id := StudentState(student.id, student.name, map[])];
    }

    /** add_grade: an unknown id is refused; otherwise the student's
        add_grade runs on that student alone. */
    method AddGrade(id: int, subjectName: string, score: Score) returns (error: Option<GradeBookError>)
      modifies this
      ensures (students, error) == BookAddGrade(old(students), id, subjectName, score)
      ensures old(Valid()) ==> Valid()
    {
      if id !in students {
        return Some(StudentNotFound(id));
      }
      if Valid() {
        BookAddGradePreservesValid(students, id, subjectName, score);
      }
      var (student, e) := StudentAddGrade(students[id], subjectName, score);
      students := students[id := student];
      error := e;
    }

    /** The loop of load_data over the saved dictionary: the students are
        cleared and rebuilt entry by entry, in whatever order the entries
        come; the first entry that does not load stops the loop, leaving
        only the students loaded before it. */
    method LoadData(data: map<string, StudentDict>) returns (error: Option<GradeBookError>)
      modifies this
      ensures Valid()
      ensures error.None? <==> forall key :: key in data ==> EntryLoads(key, data[key])
      ensures error.None? ==> BookFrom(students, data)
      ensures error.Some? ==> error.value.LoadFailed? && exists sub :: PartialLoad(students, data, sub)
    {
      students := map[];
      ghost var loadedFrom: map<string, StudentDict> := map[];
      var keys := data.Keys;
      while keys != {}
        invariant keys <= data.Keys && loadedFrom.Keys == data.Keys - keys
        invariant forall k :: k in loadedFrom ==> loadedFrom[k] == data[k]
        invariant BookFrom(students, loadedFrom)
        decreases keys
      {
        var key :| key in keys;
        error := LoadEntry(loadedFrom, key, data[key]);
        if error.Some? {
          LoadedBookValid(students, loadedFrom);
          assert PartialLoad(students, data, loadedFrom);
          return;
        }
        keys := keys - {key};
        loadedFrom := loadedFrom[key := data[key]];
      }
      AllLoaded(students, loadedFrom, data, keys);
      error := None;
    }

    /** One entry of the load loop: the student loaded from the entry goes
        under its id. */
    method LoadEntry(ghost loadedFrom: map<string, StudentDict>, key: string, d: StudentDict)
      returns (error: Option<GradeBookError>)
      requires BookFrom(students, loadedFrom) && key !in loadedFrom
      modifies this
      ensures error.None? <==> EntryLoads(key, d)
      ensures error.None? ==> BookFrom(students, loadedFrom[key := d])
      ensures error.Some? ==> error.value.LoadFailed? && students == old(students)
    {
      var r := LoadStudent(key, d);
      if r.Err? {
        return Some(LoadFailed(r.error));
      }
      var st := r.value.Snapshot();
      SnapshotIsState(r.value);
      BookFromStep(students, loadedFrom, key, d, st);
      students := students[st.id := st];
      error := None;
    }
  }

  /** One subject of the load loop: `Subject(name=..., max_grades=...)`,
      then add_grade for each stored grade in order. */
  method LoadSubject(d: SubjectDict) returns (r: Result<Subject, GradeBookError>)
    ensures r.Ok? <==> LoadedSubject(d).Ok?
    ensures r.Ok? ==> fresh(r.value) && r.value.Valid() && r.value.State() == LoadedSubject(d).value
    ensures r.Err? ==> LoadedSubject(d) == Err(r.error)
  {
    var subject := new Subject(d.name, d.maxGrades);
    for i := 0 to |d.grades|
      invariant fresh(subject) && subject.Valid()
      invariant AddAll(subject.State(), d.grades[i..]) == LoadedSubject(d)
    {
      assert d.grades[i..][0] == d.grades[i] && d.grades[i..][1..] == d.grades[i + 1..];
      var e := subject.AddGrade(Finite(d.grades[i]));
      if e.Some? {
        return Err(e.value);
      }
    }
    return Ok(subject);
  }

  /** One student of the load loop: the key read as an int, the student
      created and validated, then each stored subject loaded and put under
      its name, in whatever order the subjects come. */
  method LoadStudent(key: string, d: StudentDict) returns (r: Result<Student, GradeBookError>)
    ensures r.Ok? <==> EntryLoads(key, d)
    ensures r.Ok? ==> fresh(r.value.Repr) && r.value.Valid() && StudentFrom(r.value.State(), key, d)
  {
    var id := PyInt(key);
    if id.None? {
      return Err(InvalidStudentKey(key));
    }
    var student := new Student(id.value, d.name);
    var e := student.ValidateStudentData();
    if e.Some? {
      return Err(e.value);
    }
    e := LoadSubjects(student, d.subjects);
    if e.Some? {
      return Err(e.value);
    }
    return Ok(student);
  }

  /** The subject loop of one student: each stored subject loaded and put
      under its name; the first subject that does not load stops the loop. */
  method LoadSubjects(student: Student, dicts: map<string, SubjectDict>) returns (error: Option<GradeBookError>)
    requires student.Valid() && student.subjects == map[]
    modifies student
    ensures student.Valid() && student.id == old(student.id) && student.name == old(student.name)
    ensures fresh(student.Repr - old(student.Repr)) && old(student.Repr) <= student.Repr
    ensures error.None? <==> forall k :: k in dicts ==> LoadedSubject(dicts[k]).Ok?
    ensures error.None? ==> SubjectsFrom(student.subjectStates, dicts)
    ensures error.Some? ==> exists k :: k in dicts && LoadedSubject(dicts[k]) == Err(error.value)
  {
    ghost var loadedFrom: map<string, SubjectDict> := map[];
    var keys := dicts.Keys;
    while keys != {}
      invariant keys <= dicts.Keys && loadedFrom.Keys == dicts.Keys - keys
      invariant forall j :: j in loadedFrom ==> loadedFrom[j] == dicts[j]
      invariant student.Valid() && student.id == old(student.id) && student.name == old(student.name)
      invariant fresh(student.Repr - old(student.Repr)) && old(student.Repr) <= student.Repr
      invariant SubjectsFrom(student.subjectStates, loadedFrom)
      decreases keys
    {
      var k :| k in keys;
      error := LoadSubjectInto(student, loadedFrom, k, dicts[k]);
      if error.Some? {
        return;
      }
      keys := keys - {k};
      loadedFrom := loadedFrom[k := dicts[k]];
    }
    SameDicts(loadedFrom, dicts);
    SubjectsFromLoad(student.subjectStates, dicts);
    error := None;
  }

  /** One step of the subject loop: the subject stored under `k` loaded and
      put under its name. */
  method LoadSubjectInto(student: Student, ghost loadedFrom: map<string, SubjectDict>, k: string, d: SubjectDict)
    returns (error: Option<GradeBookError>)
    requires student.Valid() && SubjectsFrom(student.subjectStates, loadedFrom) && k !in loadedFrom
    modifies student
    ensures student.Valid() && student.id == old(student.id) && student.name == old(student.name)
    ensures fresh(student.Repr - old(student.Repr)) && old(student.Repr) <= student.Repr
    ensures error.None? <==> LoadedSubject(d).Ok?
    ensures error.Some? ==> LoadedSubject(d) == Err(error.value)
    ensures error.None? ==> SubjectsFrom(student.subjectStates, loadedFrom[k := d])
  {
    var loaded := LoadSubject(d);
    if loaded.Err? {
      return Some(loaded.error);
    }
    SubjectsFromStep(student.subjectStates, loadedFrom, k, d);
    student.PutSubject(loaded.value);
    error := None;
  }

  lemma SameDicts(x: map<string, SubjectDict>, y: map<string, SubjectDict>)
    requires x.Keys == y.Keys && forall k :: k in x ==> x[k] == y[k]
    ensures x == y
  {
  }

  /** The end of the load loop: every entry was visited. */
  lemma AllLoaded(b: Book, loadedFrom: map<string, StudentDict>, data: map<string, StudentDict>, keys: set<string>)
    requires keys == {} && loadedFrom.Keys == data.Keys - keys
    requires forall k :: k in loadedFrom ==> loadedFrom[k] == data[k]
    requires BookFrom(b, loadedFrom)
    ensures BookFrom(b, data) && ValidBook(b)
    ensures forall key :: key in data ==> EntryLoads(key, data[key])
  {
    SameData(loadedFrom, data, keys);
    LoadedBookValid(b, data);
    BookFromEntriesLoad(b, data);
  }

  lemma SameData(x: map<string, StudentDict>, y: map<string, StudentDict>, keys: set<string>)
    requires keys == {} && x.Keys == y.Keys - keys && forall k :: k in x ==> x[k] == y[k]
    ensures x == y
  {
    assert x.Keys == y.Keys;
  }
}
