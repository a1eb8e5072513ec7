/** The record store of Task5.java: `Student` objects whose fields the
    setters change in place, and `StudentManagementSystem`, which keeps them
    in an ordered list and rewrites `students.txt` after every successful
    change. Each method is proved against the value-level functions of
    `Roster`. */
module Task5 {
  import opened JavaLang
  import opened Roster

  /** The name of the file the store writes and reads, in the working directory. */
  const FileName: string := "students.txt"

  /** One student; the setters change its fields in place. */
  class Student {
    var name: string
    var rollNumber: Int32
    var grade: Int32

    constructor (name: string, rollNumber: Int32, grade: Int32)
      ensures Value() == Record(name, rollNumber, grade)
    {
      this.name := name;
      this.rollNumber := rollNumber;
      this.grade := grade;
    }

    /** The record this object holds now. */
    function Value(): Record
      reads this
    {
      Record(name, rollNumber, grade)
    }

    method SetName(name: string)
      modifies this
      ensures Value() == old(Value()).(name := name)
    {
      this.name := name;
    }

    method SetRollNumber(rollNumber: Int32)
      modifies this
      ensures Value() == old(Value()).(rollNumber := rollNumber)
    {
      this.rollNumber := rollNumber;
    }

    method SetGrade(grade: Int32)
      modifies this
      ensures Value() == old(Value()).(grade := grade)
    {
      this.grade := grade;
    }
  }

  /** The records a list of students holds, in list order. */
  function RecordsOf(students: seq<Student>): seq<Record>
    reads students
  {
    seq(|students|, i reads students requires 0 <= i < |students| => students[i].Value())
  }

  lemma RecordsOfSnoc(students: seq<Student>, student: Student)
    ensures RecordsOf(students + [student]) == RecordsOf(students) + [student.Value()]
  {
  }

  /** No element occurs twice. */
  predicate Distinct<T(==)>(xs: seq<T>) {
    forall i, j :: 0 <= i < j < |xs| ==> xs[i] != xs[j]
  }

  lemma DistinctRemove<T>(xs: seq<T>, k: nat)
    requires Distinct(xs) && k < |xs|
    ensures Distinct(xs[..k] + xs[k + 1..])
  {
    var ys := xs[..k] + xs[k + 1..];
    forall i, j | 0 <= i < j < |ys| ensures ys[i] != ys[j] {
      var i', j' := if i < k then i else i + 1, if j < k then j else j + 1;
      assert ys[i] == xs[i'] && ys[j] == xs[j'];
    }
  }

  lemma DistinctSnoc<T>(xs: seq<T>, x: T)
    requires Distinct(xs) && x !in xs
    ensures Distinct(xs + [x])
  {
  }

  class StudentManagementSystem {
    /** The ordered list of students (an `ArrayList<Student>`). */
    var students: seq<Student>
    /** The lines of `students.txt`; `None` while no such file exists. */
    var file: Option<seq<string>>
    /** Whether `students.txt` can be opened for writing. When it cannot,
        `saveToFile` reports the `IOException` on `System.err` and writes
        nothing; the list keeps its change. */
    const writable: bool

    /** The list never holds the same object twice: every entry was made by
        `new Student` in `addStudent` or `loadFromFile`. */
    ghost predicate Valid()
      reads this
    {
      Distinct(students)
    }

    /** The records of the list, in order. */
    function Records(): seq<Record>
      reads this, students
    {
      RecordsOf(students)
    }

    /** An empty store over the given file. */
    constructor (file: Option<seq<string>>, writable: bool)
      ensures Valid() && students == [] && Records() == []
      ensures this.file == file && this.writable == writable
    {
      students := [];
      this.file := file;
      this.writable := writable;
    }

    /** `addStudent`: append a new record at the end, then save. */
    method AddStudent(name: string, rollNumber: Int32, grade: Int32)
      requires Valid()
      modifies this
      ensures Valid()
      ensures Records() == old(Records()) + [Record(name, rollNumber, grade)]
      ensures file == if writable then Some(SaveLines(Records())) else old(file)
    {
      var student := new Student(name, rollNumber, grade);
      DistinctSnoc(students, student);
      students := students + [student];
      SaveToFile();
    }

    /** `getAllStudents`: one line per record, built with a `StringBuilder`. */
    method GetAllStudents() returns (text: string)
      ensures text == Listing(Records())
    {
      ghost var rs := Records();
      text := "";
      for i := 0 to |students|
        invariant text == Listing(rs[..i])
      {
        AppendAllStep(rs, i, Describe);
        text := text + Describe(students[i].Value());
      }
      assert rs[..|students|] == rs;
    }

    /** The search loop of `removeStudent` and `editStudent`: the index of
        the first student whose name equals `name` ignoring case. */
    method FindStudent(name: string) returns (k: Option<nat>)
      ensures k == FindFirst(Records(), name)
    {
      var i := 0;
      while i < |students|
        invariant 0 <= i <= |students|
        invariant forall j :: 0 <= j < i ==> !EqualsIgnoreCase(students[j].name, name)
      {
        if EqualsIgnoreCase(students[i].name, name) {
          FindFirstAt(Records(), name, i);
          return Some(i);
        }
        i := i + 1;
      }
      return None;
    }

    /** `removeStudent`: remove the first record whose name matches ignoring
        case and save; with no match, throw "Student not found." and leave the
        list and the file alone. */
    method RemoveStudent(nameToRemove: string) returns (outcome: Outcome)
      requires Valid()
      modifies this
      ensures Valid()
      ensures outcome == if Removed(old(Records()), nameToRemove).Ok? then Done else Threw(NotFound)
      ensures Removed(old(Records()), nameToRemove).Ok? ==>
        && Records() == Removed(old(Records()), nameToRemove).value
        && file == (if writable then Some(SaveLines(Records())) else old(file))
      ensures Removed(old(Records()), nameToRemove).Err? ==>
        students == old(students) && file == old(file)
    {
      var found := FindStudent(nameToRemove);
      if found.None? {
        return Threw(NotFound);
      }
      var i := found.value;
      ghost var before := Records();
      DistinctRemove(students, i);
      students := students[..i] + students[i + 1..];
      assert Records() == before[..i] + before[i + 1..];
      SaveToFile();
      return Done;
    }

    /** `editStudent`: on the first record whose name matches ignoring case,
        set the field chosen by `option` (0 name, 1 roll number, 2 grade) and
        save. Every failure leaves the list and the file alone. */
    method EditStudent(nameToEdit: string, option: int, newValue: string) returns (outcome: Outcome)
      requires Valid()
      modifies this, students
      ensures Valid() && students == old(students)
      ensures
        var edited := Edited(old(Records()), nameToEdit, option, newValue);
        && outcome == (if edited.Ok? then Done else Threw(edited.failure))
        && (edited.Ok? ==> Records() == edited.value)
        && (edited.Ok? ==> file == if writable then Some(SaveLines(Records())) else old(file))
        && (edited.Err? ==> Records() == old(Records()) && file == old(file))
    {
      var found := FindStudent(nameToEdit);
      if found.None? {
        return Threw(NotFound);
      }
      var i := found.value;
      var student := students[i];
      ghost var before := Records();
      match option {
        case 0 =>
          student.SetName(newValue);
        case 1 =>
          var rollNumber := ParseInt(newValue);
          if rollNumber.None? {
            return Threw(NumberFormat);
          }
          student.SetRollNumber(rollNumber.value);
        case 2 =>
          var grade := ParseInt(newValue);
          if grade.None? {
            return Threw(NumberFormat);
          }
          student.SetGrade(grade.value);
        case _ =>
          return Threw(InvalidOption);
      }
      assert EditRecord(before[i], option, newValue) == Ok(student.Value());
      assert forall j :: 0 <= j < |students| && j != i ==> students[j].Value() == old(students[j].Value());
      assert Records() == before[i := student.Value()];
      SaveToFile();
      return Done;
    }

    /** `saveToFile`: overwrite the file with one `name,roll,grade` line per
        record; when the file cannot be opened nothing is written. */
    method SaveToFile()
      modifies this`file
      ensures file == if writable then Some(SaveLines(Records())) else old(file)
    {
      if !writable {
        return;
      }
      var lines: seq<string> := [];
      for i := 0 to |students|
        invariant lines == SaveLines(Records()[..i])
      {
        var line := FormatLine(students[i].Value());
        MapSeqConcat(Records()[..i], [Records()[i]], FormatLine);
        MapSeqSingle(Records()[i], FormatLine);
        assert Records()[..i] + [Records()[i]] == Records()[..i + 1];
        lines := lines + [line];
      }
      assert Records()[..|students|] == Records();
      file := Some(lines);
    }

    /** `loadFromFile`: append the record of every three-part line after the
        records already held, in file order. A missing file adds nothing; a
        number that does not parse throws and ends the load, keeping what the
        earlier lines appended. */
    method LoadFromFile() returns (outcome: Outcome)
      requires Valid()
      modifies this
      ensures Valid() && file == old(file)
      ensures old(file).None? ==> students == old(students) && outcome == Done
      ensures old(file).Some? ==>
        var loaded := ParseLines(old(file).value);
        && Records() == old(Records()) + loaded.records
        && outcome == if loaded.aborted then Threw(NumberFormat) else Done
    {
      if file.None? {
        return Done;
      }
      var lines := file.value;
      var i := 0;
      while i < |lines|
        invariant 0 <= i <= |lines|
        invariant Valid() && file == old(file)
        invariant !ParseLines(lines[..i]).aborted
        invariant Records() == old(Records()) + ParseLines(lines[..i]).records
      {
        ParseLinesStep(lines, i);
        match ParseLine(lines[i]) {
          case Skipped =>
          case BadNumber =>
            return Threw(NumberFormat);
          case Accepted(r) =>
            ghost var loaded := ParseLines(lines[..i]).records;
            var student := new Student(r.name, r.rollNumber, r.grade);
            RecordsOfSnoc(students, student);
            DistinctSnoc(students, student);
            students := students + [student];
            assert Records() == old(Records()) + (loaded + [r]) by {
              assert Records() == (old(Records()) + loaded) + [r];
            }
        }
        i := i + 1;
      }
      assert lines[..|lines|] == lines;
      return Done;
    }
  }
}
